/** Periods, local repetitions and the two lexicographic orders on byte strings:
  * the vocabulary of the Two-Way matcher and of the Boyer-Moore tables.
  *
  * Quantified facts hang on the small predicates Repeats and Tie, so that the verifier
  * instantiates them only where a proof names them.
  */
module Words {

  /** An unsigned char. */
  type byte = b: int | 0 <= b < 256

  type Word = seq<byte>

  /** A byte as a plain char: signed, in two's complement. */
  function SignedChar(b: byte): (v: int)
    ensures -128 <= v < 128 && (v - b) % 256 == 0
  {
    if b < 128 then b else b - 256
  }

  // ----- periods ---------------------------------------------------------------------------

  /** The letters at q and q + d agree, unless q + d is past the end. */
  predicate Repeats(x: Word, q: int, d: int) {
    0 <= q && 0 <= d && (q + d < |x| ==> x[q] == x[q + d])
  }

  /** d is a period of the part of x that starts at lo. */
  ghost predicate IsPeriodFrom(x: Word, lo: nat, d: int) {
    1 <= d && forall q | lo <= q < |x| - d :: Repeats(x, q, d)
  }

  /** d is the smallest period of the part of x that starts at lo. */
  ghost predicate IsLeastPeriodFrom(x: Word, lo: nat, d: int) {
    && IsPeriodFrom(x, lo, d)
    && forall e | 1 <= e < d :: !IsPeriodFrom(x, lo, e)
  }

  /** The global period of a non-empty word. */
  ghost function GlobalPeriod(x: Word): (d: nat)
    requires |x| > 0
    ensures 1 <= d <= |x| && IsLeastPeriodFrom(x, 0, d)
  {
    PeriodSearch(x, 1)
  }

  ghost function PeriodSearch(x: Word, d: nat): (r: nat)
    requires 1 <= d <= |x|
    requires forall e | 1 <= e < d :: !IsPeriodFrom(x, 0, e)
    ensures d <= r <= |x| && IsLeastPeriodFrom(x, 0, r)
    decreases |x| - d
  {
    if d == |x| || IsPeriodFrom(x, 0, d) then d else PeriodSearch(x, d + 1)
  }

  // ----- local repetitions -----------------------------------------------------------------

  /** A word of length d that ends the left half and begins the right half of the
    * factorization x[..l], x[l..], as far as each half reaches.
    */
  ghost predicate StraddlesAt(x: Word, l: nat, w: Word)
    requires l <= |x|
  {
    && (forall q | 0 <= q < l && l - |w| <= q :: x[q] == w[q - (l - |w|)])
    && (forall q | l <= q < |x| && q < l + |w| :: x[q] == w[q - l])
  }

  /** d is a local repetition at l: across the cut, letters at distance d agree. */
  ghost predicate IsLocalRepetition(x: Word, l: nat, d: int) {
    1 <= d && forall q | 0 <= q < l && l - d <= q :: Repeats(x, q, d)
  }

  /** Cutting x at l is a critical factorization: no repetition across the cut is shorter
    * than the global period.
    */
  ghost predicate IsCritical(x: Word, l: nat)
    requires |x| > 0
  {
    forall d | 1 <= d < GlobalPeriod(x) :: !IsLocalRepetition(x, l, d)
  }

  /** Local repetitions are exactly the lengths of words straddling the cut. */
  lemma LocalRepetitionIsStraddlingWord(x: Word, l: nat, d: nat)
    requires l <= |x| && 1 <= d <= |x|
    ensures IsLocalRepetition(x, l, d) <==> exists w: Word :: |w| == d && StraddlesAt(x, l, w)
  {
    if IsLocalRepetition(x, l, d) {
      var w := seq(d, t requires 0 <= t < d =>
        if l + t < |x| then x[l + t] else x[l + t - d]);
      forall q | 0 <= q < l && l - |w| <= q
        ensures x[q] == w[q - (l - |w|)]
      {
        assert Repeats(x, q, d);
      }
      assert StraddlesAt(x, l, w);
    }
    if w: Word :| |w| == d && StraddlesAt(x, l, w) {
      forall q | 0 <= q < l && l - d <= q
        ensures Repeats(x, q, d)
      {
        if q + d < |x| {
          assert x[q] == w[q - (l - |w|)];
          assert x[q + d] == w[q + d - l];
        }
      }
    }
  }

  // ----- lexicographic order ---------------------------------------------------------------

  /** The alphabet order, or its reverse. */
  predicate Below(rev: bool, a: byte, b: byte) {
    if rev then b < a else a < b
  }

  /** s precedes t in the dictionary order of the chosen alphabet order; a proper prefix
    * precedes its extensions in both.
    */
  ghost predicate Precedes(rev: bool, s: Word, t: Word) {
    exists o | 0 <= o <= |s| && o <= |t| :: PrecedesAt(rev, s, t, o)
  }

  ghost predicate PrecedesAt(rev: bool, s: Word, t: Word, o: nat)
    requires o <= |s| && o <= |t|
  {
    && (forall k | 0 <= k < o :: s[k] == t[k])
    && o < |t|
    && (o == |s| || Below(rev, s[o], t[o]))
  }

  /** The suffix that starts at i is the greatest one. */
  ghost predicate IsMaximalSuffix(rev: bool, x: Word, i: nat) {
    && i < |x|
    && forall h | 0 <= h < |x| && h != i :: Precedes(rev, x[h..], x[i..])
  }

  // ----- comparing two suffixes of one word, by offset --------------------------------------

  /** The suffixes that start at h and i have equal letters at offset t. */
  predicate Tie(x: Word, h: int, i: int, t: int) {
    0 <= h + t < |x| && 0 <= i + t < |x| && x[h + t] == x[i + t]
  }

  /** The suffix at h loses to the suffix at i at offset o, all earlier offsets being ties. */
  ghost predicate LosesAt(rev: bool, x: Word, h: nat, i: nat, o: nat) {
    && h + o < |x| && i + o < |x|
    && Below(rev, x[h + o], x[i + o])
    && forall t | 0 <= t < o :: Tie(x, h, i, t)
  }

  ghost predicate Loses(rev: bool, x: Word, h: nat, i: nat) {
    exists o: nat :: LosesAt(rev, x, h, i, o)
  }

  /** The first n letters from h and from i agree. */
  ghost predicate TieFor(x: Word, h: nat, i: nat, n: int) {
    forall t | 0 <= t < n :: Tie(x, h, i, t)
  }

  lemma LosesPrecedes(rev: bool, x: Word, h: nat, i: nat)
    requires Loses(rev, x, h, i)
    ensures h < |x| && i < |x| && Precedes(rev, x[h..], x[i..])
  {
    var o: nat :| LosesAt(rev, x, h, i, o);
    forall t | 0 <= t < o
      ensures x[h..][t] == x[i..][t]
    {
      assert Tie(x, h, i, t);
    }
    assert PrecedesAt(rev, x[h..], x[i..], o);
  }

  lemma TiePrecedes(rev: bool, x: Word, h: nat, i: nat)
    requires i < h <= |x| && TieFor(x, h, i, |x| - h)
    ensures Precedes(rev, x[h..], x[i..])
  {
    var o := |x| - h;
    forall t | 0 <= t < o
      ensures x[h..][t] == x[i..][t]
    {
      assert Tie(x, h, i, t);
    }
    assert PrecedesAt(rev, x[h..], x[i..], o);
  }

  lemma LosesTransitive(rev: bool, x: Word, a: nat, b: nat, c: nat)
    requires Loses(rev, x, a, b) && Loses(rev, x, b, c)
    ensures Loses(rev, x, a, c)
  {
    var o: nat :| LosesAt(rev, x, a, b, o);
    var q: nat :| LosesAt(rev, x, b, c, q);
    var r := if o < q then o else q;
    assert Tie(x, b, c, o) || q <= o;
    assert Tie(x, a, b, q) || o <= q;
    forall t | 0 <= t < r ensures Tie(x, a, c, t) {
      assert Tie(x, a, b, t) && Tie(x, b, c, t);
    }
    assert LosesAt(rev, x, a, c, r);
  }

  // ----- the dictionary order is a strict partial order ------------------------------------

  lemma PrecedesAsymmetric(rev: bool, s: Word, t: Word)
    requires Precedes(rev, s, t)
    ensures !Precedes(rev, t, s)
  {
    var o :| 0 <= o <= |s| && o <= |t| && PrecedesAt(rev, s, t, o);
    forall q | 0 <= q <= |t| && q <= |s|
      ensures !PrecedesAt(rev, t, s, q)
    {
    }
  }

  /** Prepending the same word to both sides keeps the order. */
  lemma PrecedesPrepend(rev: bool, w: Word, s: Word, t: Word)
    requires Precedes(rev, s, t)
    ensures Precedes(rev, w + s, w + t)
  {
    var o :| 0 <= o <= |s| && o <= |t| && PrecedesAt(rev, s, t, o);
    assert PrecedesAt(rev, w + s, w + t, |w| + o);
  }

  /** Removing a common first part from both sides keeps the order. */
  lemma PrecedesStrip(rev: bool, w: Word, s: Word, t: Word)
    requires Precedes(rev, w + s, w + t)
    ensures Precedes(rev, s, t)
  {
    var ws, wt := w + s, w + t;
    var o :| 0 <= o <= |ws| && o <= |wt| && PrecedesAt(rev, ws, wt, o);
    assert forall k | 0 <= k < |w| :: ws[k] == w[k] == wt[k];
    assert |w| <= o;
    forall k | 0 <= k < o - |w|
      ensures s[k] == t[k]
    {
      assert ws[|w| + k] == wt[|w| + k];
    }
    assert PrecedesAt(rev, s, t, o - |w|);
  }

  /** A word that precedes another in both alphabet orders is a proper prefix of it. */
  lemma PrecedesBothIsPrefix(s: Word, t: Word)
    requires Precedes(false, s, t) && Precedes(true, s, t)
    ensures |s| < |t| && s == t[..|s|]
  {
    var o :| 0 <= o <= |s| && o <= |t| && PrecedesAt(false, s, t, o);
    var q :| 0 <= q <= |s| && q <= |t| && PrecedesAt(true, s, t, q);
    assert o == q == |s|;
  }
}
