/** critical_factorization of str-two-way.h: the linear-time maximal-suffix scan, and the
  * critical factorization theorem that makes the shorter of two maximal suffixes usable by
  * the Two-Way matcher.
  */
module CriticalFactorization {
  import opened Words

  // ----- the theorem -----------------------------------------------------------------------

  /** A repetition no longer than the left half makes the suffix that starts d letters earlier
    * greater than the one at the cut.
    */
  lemma EarlierStartIsGreater(rev: bool, x: Word, l: nat, d: nat)
    requires 1 <= d <= l < |x|
    requires l + d < |x| ==> Precedes(rev, x[l + d..], x[l..])
    requires IsLocalRepetition(x, l, d)
    ensures Precedes(rev, x[l..], x[l - d..])
  {
    var n := |x| - l;
    var h := l - d;
    if d < n {
      var w := x[h..l];
      forall t | 0 <= t < d
        ensures w[t] == x[l + t]
      {
        assert Repeats(x, h + t, d);
      }
      assert x[h..] == w + x[l..];
      assert x[l..] == w + x[l + d..];
      PrecedesPrepend(rev, w, x[l + d..], x[l..]);
    } else {
      forall t | 0 <= t < n
        ensures x[l..][t] == x[h..][t]
      {
        assert Repeats(x, h + t, d);
      }
      assert PrecedesAt(rev, x[l..], x[h..], n);
    }
  }

  /** A local repetition at a maximal suffix is longer than the left half. */
  lemma RepetitionLongerThanLeftHalf(rev: bool, x: Word, l: nat, d: nat)
    requires IsMaximalSuffix(rev, x, l)
    requires IsLocalRepetition(x, l, d)
    ensures l < d
  {
    if d <= l {
      EarlierStartIsGreater(rev, x, l, d);
      PrecedesAsymmetric(rev, x[l..], x[l - d..]);
    }
  }

  /** A repetition at least as long as the right half is a period of the whole word. */
  lemma LongRepetitionIsPeriod(x: Word, l: nat, d: nat)
    requires l < d && |x| - l <= d
    requires IsLocalRepetition(x, l, d)
    ensures IsPeriodFrom(x, 0, d)
  {
    forall q | 0 <= q < |x| - d ensures Repeats(x, q, d) {
      assert 0 <= q < l && l - d <= q;
    }
  }

  /** The longer maximal suffix, of the other order, bounds what follows the repetition too. */
  lemma OtherOrder(rev: bool, x: Word, l: nat, other: nat, d: nat)
    requires IsMaximalSuffix(rev, x, other) && other <= l
    requires l < d < |x| - l
    requires IsLocalRepetition(x, l, d)
    ensures Precedes(rev, x[l + d..], x[l..])
  {
    hide PrecedesAt;
    var y := x[other..l];
    var from := l + d - |y|;
    forall t | 0 <= t < |y|
      ensures y[t] == x[from + t]
    {
      assert Repeats(x, other + t, d);
    }
    assert x[from..] == y + x[l + d..];
    assert x[other..] == y + x[l..];
    assert Precedes(rev, x[from..], x[other..]);
    PrecedesStrip(rev, y, x[l + d..], x[l..]);
  }

  /** When the cut is at the shorter of the two maximal suffixes, a repetition that reaches past
    * the left half but fits in the right half is a period of the whole word.
    */
  lemma MiddleRepetitionIsPeriod(rev: bool, x: Word, l: nat, other: nat, d: nat)
    requires IsMaximalSuffix(rev, x, l) && IsMaximalSuffix(!rev, x, other) && other <= l
    requires l < d < |x| - l
    requires IsLocalRepetition(x, l, d)
    ensures IsPeriodFrom(x, 0, d)
  {
    hide PrecedesAt;
    var rest := x[l + d..];
    var v := x[l..];
    OtherOrder(!rev, x, l, other, d);
    assert Precedes(false, rest, v) && Precedes(true, rest, v);
    PrecedesBothIsPrefix(rest, v);
    forall q | 0 <= q < |x| - d ensures Repeats(x, q, d) {
      if l <= q {
        assert rest[q - l] == v[q - l];
      } else {
        assert l - d <= q;
      }
    }
  }

  /** Critical factorization theorem: cutting a word before the shorter of its two maximal
    * suffixes gives a critical factorization whose left half is shorter than the global period.
    */
  lemma CriticalFactorizationTheorem(rev: bool, x: Word, l: nat, other: nat)
    requires IsMaximalSuffix(rev, x, l) && IsMaximalSuffix(!rev, x, other) && other <= l
    ensures IsCritical(x, l) && l < GlobalPeriod(x)
  {
    var P := GlobalPeriod(x);
    assert IsLocalRepetition(x, l, P) by {
      forall q | 0 <= q < l && l - P <= q ensures Repeats(x, q, P) {
        assert q < |x| - P ==> Repeats(x, q, P);
      }
    }
    RepetitionLongerThanLeftHalf(rev, x, l, P);
    forall d | 1 <= d < P ensures !IsLocalRepetition(x, l, d) {
      if IsLocalRepetition(x, l, d) {
        RepetitionLongerThanLeftHalf(rev, x, l, d);
        if |x| - l <= d {
          LongRepetitionIsPeriod(x, l, d);
        } else {
          MiddleRepetitionIsPeriod(rev, x, l, other, d);
        }
      }
    }
  }

  // ----- the scan --------------------------------------------------------------------------

  /** State of one pass. i is max_suffix + 1, the candidate start; the next comparison is
    * between needle[j + k] and needle[max_suffix + k]; c counts the repetitions of the
    * candidate's period between i and j + 1.
    */
  ghost predicate ScanInv(rev: bool, x: Word, i: nat, j: nat, k: nat, p: nat, c: nat) {
    && 1 <= k <= p && 1 <= c
    && j + 1 == i + c * p
    && j + k <= |x| && j < |x|
    && (forall h | 0 <= h < i :: Loses(rev, x, h, i))
    && (forall h: nat | i < h < i + p :: Loses(rev, x, h, i))
    && (forall q | i <= q < j + k - p :: Repeats(x, q, p))
  }

  lemma ScanFacts(rev: bool, x: Word, i: nat, j: nat, k: nat, p: nat, c: nat)
    requires ScanInv(rev, x, i, j, k, p, c)
    ensures 1 <= k <= p && i + p <= j + 1 && j + k <= |x| && j < |x|
  {
    assert c * p == (c - 1) * p + p;
    assert 0 <= (c - 1) * p;
  }

  lemma ScanStart(rev: bool, x: Word)
    requires |x| >= 2
    ensures ScanInv(rev, x, 0, 0, 1, 1, 1)
  {
  }

  /** Letters a whole number of periods apart agree. */
  lemma {:induction false} PeriodSteps(x: Word, lo: nat, hi: nat, p: nat, q: nat, n: nat)
    requires hi <= |x| && 1 <= p
    requires forall r | lo <= r < hi - p :: Repeats(x, r, p)
    requires lo <= q && q + n * p < hi
    ensures q < hi && x[q] == x[q + n * p]
  {
    if n == 0 {
    } else {
      assert n * p == (n - 1) * p + p;
      assert 0 <= (n - 1) * p;
      PeriodSteps(x, lo, hi, p, q, n - 1);
      assert Repeats(x, q + (n - 1) * p, p);
    }
  }

  /** The compared letter of the candidate is the one a period before the scanned letter. */
  lemma ComparedLetter(rev: bool, x: Word, i: nat, j: nat, k: nat, p: nat, c: nat)
    requires ScanInv(rev, x, i, j, k, p, c) && j + k < |x|
    ensures 0 <= j + k - p && 0 <= i + k - 1 < |x| && x[j + k - p] == x[i + k - 1]
  {
    ScanFacts(rev, x, i, j, k, p, c);
    assert (c - 1) * p == c * p - p;
    assert 0 <= (c - 1) * p;
    assert i + k - 1 + (c - 1) * p == j + k - p;
    PeriodSteps(x, i, j + k, p, i + k - 1, c - 1);
  }

  lemma TieOnePeriodOn(x: Word, lo: nat, hi: nat, p: nat, g: nat)
    requires hi <= |x| && lo <= g
    requires forall r | lo <= r < hi - p :: Repeats(x, r, p)
    ensures TieFor(x, g + p, g, hi - (g + p))
  {
    var h := g + p;
    forall t | 0 <= t < hi - h ensures Tie(x, h, g, t) { assert Repeats(x, g + t, p); }
  }

  /** Every later start either loses to the candidate or ties with it up to the scanned point. */
  lemma {:induction false} LaterStart(rev: bool, x: Word, i: nat, j: nat, k: nat, p: nat, c: nat, h: nat)
    requires ScanInv(rev, x, i, j, k, p, c)
    requires i < h <= j + k
    ensures Loses(rev, x, h, i) || TieFor(x, h, i, j + k - h)
    decreases h
  {
    var b := j + k;
    if h < i + p {
      assert Loses(rev, x, h, i);
    } else if h == i + p {
      forall t | 0 <= t < b - h ensures Tie(x, h, i, t) { assert Repeats(x, i + t, p); }
    } else {
      var g := h - p;
      LaterStart(rev, x, i, j, k, p, c, g);
      TieOnePeriodOn(x, i, b, p, g);
      if TieFor(x, g, i, b - g) {
        forall t | 0 <= t < b - h ensures Tie(x, h, i, t) { assert Tie(x, g, i, t) && Tie(x, h, g, t); }
      } else {
        var o: nat :| LosesAt(rev, x, g, i, o);
        forall t | 0 <= t < b - h && t < o ensures Tie(x, h, i, t) {
          assert Tie(x, g, i, t) && Tie(x, h, g, t);
        }
        if h + o < b {
          assert Tie(x, h, g, o);
          assert LosesAt(rev, x, h, i, o);
        }
      }
    }
  }

  /** Equal letters: the period of the candidate reaches one letter further. */
  lemma ScanEqual(rev: bool, x: Word, i: nat, j: nat, k: nat, p: nat, c: nat)
    requires ScanInv(rev, x, i, j, k, p, c) && j + k < |x|
    requires x[j + k] == x[i + k - 1]
    ensures k < p ==> ScanInv(rev, x, i, j, k + 1, p, c)
    ensures k == p ==> ScanInv(rev, x, i, j + p, 1, p, c + 1)
  {
    ComparedLetter(rev, x, i, j, k, p, c);
    assert Repeats(x, j + k - p, p);
    assert (c + 1) * p == c * p + p;
  }

  /** The scanned letter is smaller: every start up to it loses, and the whole scanned part
    * becomes the period.
    */
  lemma ScanSmaller(rev: bool, x: Word, i: nat, j: nat, k: nat, p: nat, c: nat)
    requires ScanInv(rev, x, i, j, k, p, c) && j + k < |x|
    requires Below(rev, x[j + k], x[i + k - 1])
    ensures ScanInv(rev, x, i, j + k, 1, j + k + 1 - i, 1)
  {
    ScanFacts(rev, x, i, j, k, p, c);
    forall h: nat | i < h < j + k + 1 ensures Loses(rev, x, h, i) {
      SmallerStart(rev, x, i, j, k, p, c, h);
    }
  }

  lemma {:induction false} SmallerStart(rev: bool, x: Word, i: nat, j: nat, k: nat, p: nat, c: nat, h: nat)
    requires ScanInv(rev, x, i, j, k, p, c) && j + k < |x|
    requires Below(rev, x[j + k], x[i + k - 1])
    requires i < h <= j + k
    ensures Loses(rev, x, h, i)
    decreases h
  {
    var b := j + k;
    ScanFacts(rev, x, i, j, k, p, c);
    ComparedLetter(rev, x, i, j, k, p, c);
    if h < i + p {
    } else if h == i + p {
      forall t | 0 <= t < b - h ensures Tie(x, h, i, t) { assert Repeats(x, i + t, p); }
      assert LosesAt(rev, x, h, i, b - h);
    } else {
      var g := h - p;
      SmallerStart(rev, x, i, j, k, p, c, g);
      var o: nat :| LosesAt(rev, x, g, i, o);
      var e := if h + o < b then o else b - h;
      TieOnePeriodOn(x, i, b, p, g);
      forall t | 0 <= t < e ensures Tie(x, h, i, t) {
        assert Tie(x, g, i, t) && Tie(x, h, g, t);
      }
      assert h + o < b ==> Tie(x, h, g, o);
      assert e < o ==> Tie(x, g, i, e);
      assert LosesAt(rev, x, h, i, e);
    }
  }

  /** The scanned letter is larger: the candidate moves to j + 1, and every earlier start loses
    * to it.
    */
  lemma ScanLarger(rev: bool, x: Word, i: nat, j: nat, k: nat, p: nat, c: nat)
    requires ScanInv(rev, x, i, j, k, p, c) && j + k < |x|
    requires Below(rev, x[i + k - 1], x[j + k])
    ensures j + 1 < |x| && ScanInv(rev, x, j + 1, j + 1, 1, 1, 1)
  {
    ScanFacts(rev, x, i, j, k, p, c);
    var n := j + 1;
    TieOfRepetition(rev, x, i, j, k, p, c);
    assert LosesAt(rev, x, i, n, k - 1) by {
      forall t | 0 <= t < k - 1 ensures Tie(x, i, n, t) { assert Tie(x, n, i, t); }
    }
    forall h | 0 <= h < n ensures Loses(rev, x, h, n) {
      if h == i {
      } else if h < i {
        LosesTransitive(rev, x, h, i, n);
      } else {
        LaterStart(rev, x, i, j, k, p, c, h);
        if Loses(rev, x, h, i) {
          LosesTransitive(rev, x, h, i, n);
        } else {
          assert Tie(x, h, i, k - 1);
          forall t | 0 <= t < k - 1 ensures Tie(x, h, n, t) {
            assert Tie(x, h, i, t) && Tie(x, n, i, t);
          }
          assert LosesAt(rev, x, h, n, k - 1);
        }
      }
    }
  }

  /** The letters already compared in the current repetition tie with the candidate. */
  lemma TieOfRepetition(rev: bool, x: Word, i: nat, j: nat, k: nat, p: nat, c: nat)
    requires ScanInv(rev, x, i, j, k, p, c)
    ensures TieFor(x, j + 1, i, k - 1)
  {
    var n := j + 1;
    forall t | 0 <= t < k - 1 ensures Tie(x, n, i, t) {
      assert i + t + c * p == j + 1 + t;
      PeriodSteps(x, i, j + k, p, i + t, c);
    }
  }

  /** At the end of the scan the candidate is the maximal suffix and p its smallest period. */
  lemma ScanDone(rev: bool, x: Word, i: nat, j: nat, k: nat, p: nat, c: nat)
    requires ScanInv(rev, x, i, j, k, p, c) && j + k == |x|
    ensures IsMaximalSuffix(rev, x, i)
    ensures IsLeastPeriodFrom(x, i, p)
    ensures i + p <= |x|
  {
    ScanFacts(rev, x, i, j, k, p, c);
    forall h | 0 <= h < |x| && h != i ensures Precedes(rev, x[h..], x[i..]) {
      if i < h {
        LaterStart(rev, x, i, j, k, p, c, h);
      }
      if Loses(rev, x, h, i) {
        LosesPrecedes(rev, x, h, i);
      } else {
        TiePrecedes(rev, x, h, i);
      }
    }
    forall e | 1 <= e < p ensures !IsPeriodFrom(x, i, e) {
      assert Loses(rev, x, i + e, i);
      var o: nat :| LosesAt(rev, x, i + e, i, o);
      assert !Repeats(x, i + o, e);
    }
  }

  // ----- counting comparisons --------------------------------------------------------------

  /** A state of one pass, as far as the scan depends on it. */
  predicate IsScanState(x: Word, i: nat, j: nat, k: nat, p: nat) {
    1 <= k <= p && i + p <= j + 1 && j + k <= |x| && j < |x|
  }

  /** The number of comparisons the rest of a pass makes. */
  function PassComparisons(x: Word, rev: bool, i: nat, j: nat, k: nat, p: nat): nat
    requires IsScanState(x, i, j, k, p)
    decreases 2 * |x| - (i + j + k)
  {
    if j + k == |x| then 0
    else if Below(rev, x[j + k], x[i + k - 1]) then 1 + PassComparisons(x, rev, i, j + k, 1, j + k + 1 - i)
    else if x[j + k] == x[i + k - 1] then
      if k != p then 1 + PassComparisons(x, rev, i, j, k + 1, p) else 1 + PassComparisons(x, rev, i, j + p, 1, p)
    else 1 + PassComparisons(x, rev, j + 1, j + 1, 1, 1)
  }

  /** The letters the rest of a pass scans again: whenever the candidate moves to j + 1, the k - 1
    * letters from there on that had agreed with the old candidate.
    */
  function Rescans(x: Word, rev: bool, i: nat, j: nat, k: nat, p: nat): nat
    requires IsScanState(x, i, j, k, p)
    decreases 2 * |x| - (i + j + k)
  {
    if j + k == |x| then 0
    else if Below(rev, x[j + k], x[i + k - 1]) then Rescans(x, rev, i, j + k, 1, j + k + 1 - i)
    else if x[j + k] == x[i + k - 1] then
      if k != p then Rescans(x, rev, i, j, k + 1, p) else Rescans(x, rev, i, j + p, 1, p)
    else k - 1 + Rescans(x, rev, j + 1, j + 1, 1, 1)
  }

  /** Every letter but the first is compared once, and once more whenever it is scanned again. */
  lemma {:induction false} ComparisonsCountRescans(x: Word, rev: bool, i: nat, j: nat, k: nat, p: nat)
    requires IsScanState(x, i, j, k, p)
    ensures PassComparisons(x, rev, i, j, k, p) == |x| - j - k + Rescans(x, rev, i, j, k, p)
    decreases 2 * |x| - (i + j + k)
  {
    hide Below;
    if j + k == |x| {
    } else if Below(rev, x[j + k], x[i + k - 1]) {
      ComparisonsCountRescans(x, rev, i, j + k, 1, j + k + 1 - i);
    } else if x[j + k] != x[i + k - 1] {
      ComparisonsCountRescans(x, rev, j + 1, j + 1, 1, 1);
    } else if k != p {
      ComparisonsCountRescans(x, rev, i, j, k + 1, p);
    } else {
      ComparisonsCountRescans(x, rev, i, j + p, 1, p);
    }
  }

  lemma PassStep(x: Word, rev: bool, i: nat, j: nat, k: nat, p: nat)
    requires IsScanState(x, i, j, k, p) && j + k < |x|
    ensures PassComparisons(x, rev, i, j, k, p) == 1 +
      if Below(rev, x[j + k], x[i + k - 1]) then PassComparisons(x, rev, i, j + k, 1, j + k + 1 - i)
      else if x[j + k] != x[i + k - 1] then PassComparisons(x, rev, j + 1, j + 1, 1, 1)
      else if k != p then PassComparisons(x, rev, i, j, k + 1, p)
      else PassComparisons(x, rev, i, j + p, 1, p)
  {
  }

  lemma RescanStep(x: Word, rev: bool, i: nat, j: nat, k: nat, p: nat)
    requires IsScanState(x, i, j, k, p) && j + k < |x|
    ensures Rescans(x, rev, i, j, k, p) ==
      if Below(rev, x[j + k], x[i + k - 1]) then Rescans(x, rev, i, j + k, 1, j + k + 1 - i)
      else if x[j + k] != x[i + k - 1] then k - 1 + Rescans(x, rev, j + 1, j + 1, 1, 1)
      else if k != p then Rescans(x, rev, i, j, k + 1, p)
      else Rescans(x, rev, i, j + p, 1, p)
  {
  }

  lemma PassEnd(x: Word, rev: bool, i: nat, j: nat, k: nat, p: nat)
    requires IsScanState(x, i, j, k, p) && j + k == |x|
    ensures PassComparisons(x, rev, i, j, k, p) == 0 && Rescans(x, rev, i, j, k, p) == 0
  {
  }

  /** The letters both passes of critical_factorization scan again; needles of one or two bytes are
    * not scanned at all.
    */
  function Rescanned(x: Word): nat {
    if |x| < 3 then 0 else Rescans(x, false, 0, 0, 1, 1) + Rescans(x, true, 0, 0, 1, 1)
  }

  /** The comparisons of both passes. */
  function FactorizationComparisons(x: Word): nat {
    if |x| < 3 then 0 else PassComparisons(x, false, 0, 0, 1, 1) + PassComparisons(x, true, 0, 0, 1, 1)
  }

  /** Both passes together meet the bound of the source's comment exactly for needles of which they
    * scan at most two letters again.
    */
  lemma BoundHoldsExactly(x: Word)
    ensures |x| >= 3 ==> FactorizationComparisons(x) == 2 * |x| - 2 + Rescanned(x)
    ensures FactorizationComparisons(x) <= 2 * |x| <==> Rescanned(x) <= 2
  {
    hide PassComparisons, Rescans;
    if |x| >= 3 {
      ComparisonsCountRescans(x, false, 0, 0, 1, 1);
      ComparisonsCountRescans(x, true, 0, 0, 1, 1);
    }
  }

  /** A longer needle scans the letters again that its beginning does. */
  lemma {:induction false} RescansOfPrefix(x: Word, y: Word, rev: bool, i: nat, j: nat, k: nat, p: nat)
    requires x <= y && IsScanState(x, i, j, k, p)
    ensures Rescans(x, rev, i, j, k, p) <= Rescans(y, rev, i, j, k, p)
    decreases 2 * |x| - (i + j + k)
  {
    hide Below, Rescans;
    if j + k == |x| {
      PassEnd(x, rev, i, j, k, p);
    } else {
      RescanStep(x, rev, i, j, k, p);
      RescanStep(y, rev, i, j, k, p);
      if Below(rev, x[j + k], x[i + k - 1]) {
        RescansOfPrefix(x, y, rev, i, j + k, 1, j + k + 1 - i);
      } else if x[j + k] != x[i + k - 1] {
        RescansOfPrefix(x, y, rev, j + 1, j + 1, 1, 1);
      } else if k != p {
        RescansOfPrefix(x, y, rev, i, j, k + 1, p);
      } else {
        RescansOfPrefix(x, y, rev, i, j + p, 1, p);
      }
    }
  }

  /** Whatever begins with a needle that exceeds the bound exceeds it too. */
  lemma ExceedingIsInherited(x: Word, y: Word)
    requires x <= y && FactorizationComparisons(x) > 2 * |x|
    ensures FactorizationComparisons(y) > 2 * |y|
  {
    BoundHoldsExactly(x);
    BoundHoldsExactly(y);
    RescansOfPrefix(x, y, false, 0, 0, 1, 1);
    RescansOfPrefix(x, y, true, 0, 0, 1, 1);
  }

  /** A candidate replaced after k - 1 letters of its c-th repetition starts at least k + c * p
    * letters before the end, so few letters allow few rescans.
    */
  lemma {:induction false} RescansNeedRoom(rev: bool, x: Word, i: nat, j: nat, k: nat, p: nat, c: nat)
    requires ScanInv(rev, x, i, j, k, p, c) && IsScanState(x, i, j, k, p)
    ensures |x| - i <= 3 ==> Rescans(x, rev, i, j, k, p) == 0
    ensures |x| - i <= 5 ==> Rescans(x, rev, i, j, k, p) <= 1
    ensures |x| - i <= 6 ==> Rescans(x, rev, i, j, k, p) <= 2
    decreases 2 * |x| - (i + j + k)
  {
    hide ScanInv, Rescans;
    if j + k == |x| {
      PassEnd(x, rev, i, j, k, p);
    } else {
      RescanStep(x, rev, i, j, k, p);
      if Below(rev, x[j + k], x[i + k - 1]) {
        ScanSmaller(rev, x, i, j, k, p, c);
        RescansNeedRoom(rev, x, i, j + k, 1, j + k + 1 - i, 1);
      } else if x[j + k] != x[i + k - 1] {
        ScanLarger(rev, x, i, j, k, p, c);
        RescansNeedRoom(rev, x, j + 1, j + 1, 1, 1, 1);
      } else {
        ScanEqual(rev, x, i, j, k, p, c);
        if k != p {
          RescansNeedRoom(rev, x, i, j, k + 1, p, c);
        } else {
          RescansNeedRoom(rev, x, i, j + p, 1, p, c + 1);
        }
      }
    }
  }

  /** The candidate at i, with period p, is about to be replaced after k - 1 letters of its c-th
    * repetition.
    */
  ghost predicate IsReplaced(rev: bool, x: Word, i: nat, j: nat, k: nat, p: nat, c: nat) {
    && ScanInv(rev, x, i, j, k, p, c) && IsScanState(x, i, j, k, p)
    && j + k < |x| && Below(rev, x[i + k - 1], x[j + k])
  }

  /** If letters are scanned again, there is a first replacement that makes them so. */
  lemma {:induction false} FirstRescan(rev: bool, x: Word, i: nat, j: nat, k: nat, p: nat, c: nat)
    returns (i': nat, j': nat, k': nat, p': nat, c': nat)
    requires ScanInv(rev, x, i, j, k, p, c) && IsScanState(x, i, j, k, p)
    requires Rescans(x, rev, i, j, k, p) > 0
    ensures IsReplaced(rev, x, i', j', k', p', c') && k' >= 2 && i <= i'
    ensures j' + 1 < |x|
    ensures Rescans(x, rev, i, j, k, p) == k' - 1 + Rescans(x, rev, j' + 1, j' + 1, 1, 1)
    decreases 2 * |x| - (i + j + k)
  {
    hide ScanInv, Rescans, Below;
    if j + k == |x| {
      PassEnd(x, rev, i, j, k, p);
    } else {
      RescanStep(x, rev, i, j, k, p);
      if Below(rev, x[j + k], x[i + k - 1]) {
        ScanSmaller(rev, x, i, j, k, p, c);
        i', j', k', p', c' := FirstRescan(rev, x, i, j + k, 1, j + k + 1 - i, 1);
      } else if x[j + k] != x[i + k - 1] {
        NotBelow(rev, x[j + k], x[i + k - 1]);
        ScanLarger(rev, x, i, j, k, p, c);
        i', j', k', p', c' := i, j, k, p, c;
        if k == 1 {
          i', j', k', p', c' := FirstRescan(rev, x, j + 1, j + 1, 1, 1, 1);
        }
      } else {
        ScanEqual(rev, x, i, j, k, p, c);
        if k != p {
          i', j', k', p', c' := FirstRescan(rev, x, i, j, k + 1, p, c);
        } else {
          i', j', k', p', c' := FirstRescan(rev, x, i, j + p, 1, p, c + 1);
        }
      }
    }
  }

  /** What a replacement says about the letters, for one repetition. */
  lemma ReplacedFacts(rev: bool, x: Word, i: nat, j: nat, k: nat, p: nat, c: nat)
    requires IsReplaced(rev, x, i, j, k, p, c)
    ensures k <= p && c >= 1 && i + p + k <= |x|
    ensures if c == 1 then j + 1 == i + p else i + 2 * p + k <= |x| && i + 2 * p <= j + 1
    ensures c == 1 ==> Below(rev, x[i + k - 1], x[i + p + k - 1])
    ensures c == 1 ==> forall q | i <= q < i + k - 1 :: x[q] == x[q + p]
    ensures forall h: nat | h < i || i < h < i + p :: Loses(rev, x, h, i)
  {
    if c >= 2 {
      TwoRepetitions(c, p);
    } else {
      assert c * p == p;
    }
    forall q | c == 1 && i <= q < i + k - 1 ensures x[q] == x[q + p] {
      assert Repeats(x, q, p);
    }
  }

  lemma TwoRepetitions(c: nat, p: nat)
    requires c >= 2
    ensures 2 * p <= c * p
  {
    assert c * p == (c - 2) * p + 2 * p;
    assert 0 <= (c - 2) * p;
  }

  lemma LosesAtFirst(rev: bool, x: Word, h: nat, i: nat)
    requires Loses(rev, x, h, i)
    ensures h < |x| && i < |x|
    ensures Below(rev, x[h], x[i]) || (x[h] == x[i] && Loses(rev, x, h + 1, i + 1))
  {
    var o: nat :| LosesAt(rev, x, h, i, o);
    if o > 0 {
      assert Tie(x, h, i, 0);
      var h', i' := h + 1, i + 1;
      forall t | 0 <= t < o - 1 ensures Tie(x, h', i', t) {
        assert Tie(x, h, i, t + 1);
      }
      assert LosesAt(rev, x, h', i', o - 1);
    }
  }

  lemma LosesOneWay(rev: bool, x: Word, h: nat, i: nat)
    requires Loses(rev, x, h, i)
    ensures !Loses(!rev, x, h, i)
  {
    var o: nat :| LosesAt(rev, x, h, i, o);
    var other := !rev;
    forall e: nat ensures !LosesAt(other, x, h, i, e) {
      if e < o {
        assert Tie(x, h, i, e);
      } else if o < e {
        assert LosesAt(other, x, h, i, e) ==> Tie(x, h, i, o);
      }
    }
  }

  /** The two kinds of six-letter needles of which one pass scans two letters again: abcabd, and
    * abadae.
    */
  ghost predicate IsOneRescan(rev: bool, x: Word) {
    && |x| == 6 && x[0] == x[3] && x[1] == x[4] && Below(rev, x[2], x[5])
    && Loses(rev, x, 1, 0) && Loses(rev, x, 2, 0)
  }

  ghost predicate IsTwoRescans(rev: bool, x: Word) {
    && |x| == 6 && x[0] == x[2] == x[4] && Below(rev, x[1], x[3]) && Below(rev, x[3], x[5])
    && Loses(rev, x, 1, 0) && Loses(rev, x, 3, 2)
  }

  lemma SixLettersRescanned(rev: bool, x: Word)
    requires |x| == 6 && Rescans(x, rev, 0, 0, 1, 1) >= 2
    ensures IsOneRescan(rev, x) || IsTwoRescans(rev, x)
  {
    hide ScanInv, Rescans, Loses;
    ScanStart(rev, x);
    var i, j, k, p, c := FirstRescan(rev, x, 0, 0, 1, 1, 1);
    ReplacedFacts(rev, x, i, j, k, p, c);
    assert ScanInv(rev, x, j + 1, j + 1, 1, 1, 1) by { ScanLarger(rev, x, i, j, k, p, c); }
    RescansNeedRoom(rev, x, j + 1, j + 1, 1, 1, 1);
    assert i == 0 && c == 1 && (k == 3 || (k == 2 && p == 2));
    if k == 2 {
      var i', j', k', p', c' := FirstRescan(rev, x, 2, 2, 1, 1, 1);
      ReplacedFacts(rev, x, i', j', k', p', c');
    }
  }

  lemma OneRescanLetters(rev: bool, x: Word)
    requires IsOneRescan(rev, x)
    ensures !Below(rev, x[0], x[2])
    ensures x[1] == x[2] && Below(rev, x[5], x[3]) ==> !Loses(!rev, x, 1, 2)
  {
    hide Loses;
    LosesAtFirst(rev, x, 2, 0);
    if x[1] == x[2] && Below(rev, x[5], x[3]) && Loses(!rev, x, 1, 2) {
      LosesAtFirst(!rev, x, 1, 2);
      LosesAtFirst(!rev, x, 2, 3);
    }
  }

  lemma TwoRescansLetters(rev: bool, x: Word)
    requires IsTwoRescans(rev, x)
    ensures Below(rev, x[1], x[0]) && Below(rev, x[3], x[0])
    ensures !Loses(!rev, x, 1, 2)
  {
    hide Loses;
    LosesAtFirst(rev, x, 3, 2);
    if x[3] == x[2] {
      LosesAtFirst(rev, x, 4, 3);
      if x[4] == x[3] {
        LosesAtFirst(rev, x, 5, 4);
      }
    }
    if Loses(!rev, x, 1, 2) {
      LosesAtFirst(!rev, x, 1, 2);
    }
  }

  /** The other pass of such a needle scans nothing again. */
  lemma OtherPassRescansNothing(rev: bool, x: Word)
    requires IsOneRescan(rev, x) || IsTwoRescans(rev, x)
    ensures Rescans(x, !rev, 0, 0, 1, 1) == 0
  {
    hide ScanInv, Rescans, Loses;
    LosesOneWay(rev, x, 1, 0);
    if IsOneRescan(rev, x) {
      OneRescanLetters(rev, x);
    } else {
      TwoRescansLetters(rev, x);
    }
    if Rescans(x, !rev, 0, 0, 1, 1) > 0 {
      ScanStart(!rev, x);
      var i, j, k, p, c := FirstRescan(!rev, x, 0, 0, 1, 1, 1);
      ReplacedFacts(!rev, x, i, j, k, p, c);
    }
  }

  lemma ShortNeedlesMeetBound(x: Word)
    requires |x| <= 6
    ensures Rescanned(x) <= 2
  {
    hide Rescans;
    if |x| >= 3 {
      ScanStart(false, x);
      ScanStart(true, x);
      RescansNeedRoom(false, x, 0, 0, 1, 1, 1);
      RescansNeedRoom(true, x, 0, 0, 1, 1, 1);
      if |x| == 6 && Rescans(x, false, 0, 0, 1, 1) >= 2 {
        SixLettersRescanned(false, x);
        OtherPassRescansNothing(false, x);
      } else if |x| == 6 && Rescans(x, true, 0, 0, 1, 1) >= 2 {
        SixLettersRescanned(true, x);
        OtherPassRescansNothing(true, x);
      }
    }
  }

  const EXAMPLE: Word := [1, 0, 1, 1, 0, 1, 0]

  /** Seven letters on which both passes together make 15 comparisons. */
  lemma ExampleExceeds()
    ensures FactorizationComparisons(EXAMPLE) == 15 > 2 * |EXAMPLE|
  {
    hide PassComparisons;
    FirstPassExample();
    SecondPassExample();
  }

  lemma FirstPassExample()
    ensures PassComparisons(EXAMPLE, false, 0, 0, 1, 1) == 7
  {
    hide PassComparisons;
    var x := EXAMPLE;
    PassEnd(x, false, 2, 6, 1, 5);
    PassStep(x, false, 2, 4, 2, 3);
    PassStep(x, false, 2, 4, 1, 3);
    PassStep(x, false, 2, 3, 1, 1);
    PassStep(x, false, 2, 2, 1, 1);
    PassStep(x, false, 0, 1, 2, 2);
    PassStep(x, false, 0, 1, 1, 2);
    PassStep(x, false, 0, 0, 1, 1);
  }

  lemma SecondPassExample()
    ensures PassComparisons(EXAMPLE, true, 0, 0, 1, 1) == 8
  {
    hide PassComparisons;
    var x := EXAMPLE;
    PassEnd(x, true, 4, 5, 2, 2);
    PassStep(x, true, 4, 5, 1, 2);
    PassStep(x, true, 4, 4, 1, 1);
    PassStep(x, true, 1, 3, 3, 3);
    PassStep(x, true, 1, 3, 2, 3);
    PassStep(x, true, 1, 3, 1, 3);
    PassStep(x, true, 1, 2, 1, 2);
    PassStep(x, true, 1, 1, 1, 1);
    PassStep(x, true, 0, 0, 1, 1);
  }

  /** The bound of the source's comment, twice the length, holds of all needles of a length exactly
    * for lengths up to six.
    */
  lemma BoundHoldsExactlyUpToSix(n: nat)
    ensures n <= 6 <==> forall x: Word | |x| == n :: FactorizationComparisons(x) <= 2 * |x|
  {
    hide FactorizationComparisons, Rescanned;
    forall x: Word | |x| == n <= 6 ensures FactorizationComparisons(x) <= 2 * |x| {
      ShortNeedlesMeetBound(x);
      BoundHoldsExactly(x);
    }
    if n > 6 {
      var y: Word := EXAMPLE + seq(n - 7, _ => 0);
      ExampleExceeds();
      ExceedingIsInherited(EXAMPLE, y);
    }
  }

  /** One pass of critical_factorization, under the chosen alphabet order. maxSuffix is the
    * index of the last byte of the left half, -1 when the left half is empty.
    */
  method MaximalSuffix(needle: seq<byte>, canon: byte -> byte, rev: bool)
    returns (maxSuffix: int, p: nat, ghost comparisons: nat)
    requires |needle| >= 2
    ensures -1 <= maxSuffix < |needle| - 1
    ensures IsMaximalSuffix(rev, Canonical(needle, canon), maxSuffix + 1)
    ensures IsLeastPeriodFrom(Canonical(needle, canon), maxSuffix + 1, p)
    ensures maxSuffix + 1 + p <= |needle|
    ensures comparisons == PassComparisons(Canonical(needle, canon), rev, 0, 0, 1, 1)
    ensures comparisons <= |needle| + maxSuffix < 2 * |needle|
  {
    hide ScanInv, IsMaximalSuffix, PassComparisons, Below;
    ghost var x := Canonical(needle, canon);
    maxSuffix := -1;
    var j, k := 0, 1;
    p := 1;
    ghost var c := 1;
    comparisons := 0;
    ScanStart(rev, x);
    while j + k < |needle|
      invariant -1 <= maxSuffix < j <= |needle| - 1 && j + k <= |needle|
      invariant ScanInv(rev, x, maxSuffix + 1, j, k, p, c)
      invariant comparisons <= maxSuffix + j + k && maxSuffix + 1 + p <= j + 1 && 1 <= k <= p
      invariant comparisons + PassComparisons(x, rev, maxSuffix + 1, j, k, p) == PassComparisons(x, rev, 0, 0, 1, 1)
      decreases 2 * |needle| - (maxSuffix + j + k)
    {
      ScanFacts(rev, x, maxSuffix + 1, j, k, p, c);
      var a, b := canon(needle[j + k]), canon(needle[maxSuffix + k]);
      comparisons := comparisons + 1;
      PassStep(x, rev, maxSuffix + 1, j, k, p);
      if Below(rev, a, b) {
        ScanSmaller(rev, x, maxSuffix + 1, j, k, p, c);
        j := j + k;
        k := 1;
        p := j - maxSuffix;
        c := 1;
      } else if a == b {
        ScanEqual(rev, x, maxSuffix + 1, j, k, p, c);
        if k != p {
          k := k + 1;
        } else {
          j := j + p;
          k := 1;
          c := c + 1;
        }
      } else {
        NotBelow(rev, a, b);
        ScanLarger(rev, x, maxSuffix + 1, j, k, p, c);
        maxSuffix, j := j, j + 1;
        k, p := 1, 1;
        c := 1;
      }
    }
    ScanFacts(rev, x, maxSuffix + 1, j, k, p, c);
    ScanDone(rev, x, maxSuffix + 1, j, k, p, c);
    PassEnd(x, rev, maxSuffix + 1, j, k, p);
  }

  lemma NotBelow(rev: bool, a: byte, b: byte)
    requires a != b && !Below(rev, a, b)
    ensures Below(rev, b, a)
  {
  }

  /** The needle as the matcher sees it: every byte canonicalized. */
  function Canonical(s: seq<byte>, canon: byte -> byte): (x: Word)
    ensures |x| == |s| && forall q | 0 <= q < |s| :: x[q] == canon(s[q])
  {
    seq(|s|, q requires 0 <= q < |s| => canon(s[q]))
  }

  /** What the matcher needs of a factorization: the cut is critical, its left half is shorter
    * than the global period (no longer, for words of one or two letters), and period is the
    * smallest period of the right half.
    */
  ghost predicate IsUsableFactorization(x: Word, suffix: nat, period: nat) {
    && suffix < |x|
    && IsCritical(x, suffix)
    && suffix <= GlobalPeriod(x)
    && (|x| >= 3 ==> suffix < GlobalPeriod(x))
    && 1 <= period && suffix + period <= |x|
    && IsLeastPeriodFrom(x, suffix, period)
  }

  lemma FactorizationAtMaximalSuffix(rev: bool, x: Word, l: nat, other: nat, period: nat)
    requires IsMaximalSuffix(rev, x, l) && IsMaximalSuffix(!rev, x, other) && other <= l
    requires IsLeastPeriodFrom(x, l, period) && l + period <= |x|
    ensures IsUsableFactorization(x, l, period)
  {
    CriticalFactorizationTheorem(rev, x, l, other);
  }

  /** critical_factorization. */
  method CriticalFactorization(needle: seq<byte>, canon: byte -> byte)
    returns (suffix: nat, period: nat, ghost comparisons: nat)
    requires |needle| > 0
    ensures IsUsableFactorization(Canonical(needle, canon), suffix, period)
    ensures |needle| < 3 ==> suffix == |needle| - 1
    ensures |needle| >= 3 ==>
      exists rev :: IsMaximalSuffix(rev, Canonical(needle, canon), suffix)
    ensures comparisons == FactorizationComparisons(Canonical(needle, canon))
    ensures |needle| >= 3 ==> exists i: nat, i': nat ::
      && IsMaximalSuffix(false, Canonical(needle, canon), i) && IsMaximalSuffix(true, Canonical(needle, canon), i')
      && suffix == (if i' < i then i else i') && comparisons <= 2 * |needle| - 2 + i + i'
  {
    hide IsMaximalSuffix, IsUsableFactorization, PassComparisons;
    ghost var x := Canonical(needle, canon);
    comparisons := 0;
    if |needle| < 3 {
      ShortNeedle(x);
      return |needle| - 1, 1, 0;
    }
    var maxSuffix, p, n := MaximalSuffix(needle, canon, false);
    comparisons := n;
    period := p;
    var maxSuffixRev, pRev, nRev := MaximalSuffix(needle, canon, true);
    comparisons := comparisons + nRev;
    ghost var i: nat, i': nat := maxSuffix + 1, maxSuffixRev + 1;
    assert IsMaximalSuffix(false, x, i) && IsMaximalSuffix(true, x, i');
    if maxSuffixRev + 1 < maxSuffix + 1 {
      FactorizationAtMaximalSuffix(false, x, maxSuffix + 1, maxSuffixRev + 1, period);
      return maxSuffix + 1, period, comparisons;
    }
    period := pRev;
    FactorizationAtMaximalSuffix(true, x, maxSuffixRev + 1, maxSuffix + 1, period);
    return maxSuffixRev + 1, period, comparisons;
  }

  /** Needles of one or two bytes: cutting before the last byte is critical. */
  lemma ShortNeedle(x: Word)
    requires 1 <= |x| < 3
    ensures IsUsableFactorization(x, |x| - 1, 1)
  {
    var P := GlobalPeriod(x);
    if P == 2 {
      assert !IsPeriodFrom(x, 0, 1);
      assert !Repeats(x, 0, 1);
      assert !IsLocalRepetition(x, 1, 1);
    }
  }
}
