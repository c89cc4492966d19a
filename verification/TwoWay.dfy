/** two_way_short_needle and two_way_long_needle of str-two-way.h.
  *
  * The header is parametrized by macros; here CANON_ELEMENT is the function parameter canon,
  * CMP_FUNC is equality of canonicalized words, and AVAILABLE comes in the two flavours the
  * header describes: a haystack of known length, and a NUL-terminated one whose length is
  * learnt as the search advances.
  */
module TwoWay {
  import opened Options
  import opened Words
  import opened CriticalFactorization

  // ----- occurrences -----------------------------------------------------------------------

  /** x occurs in t at j. */
  ghost predicate Occurs(x: Word, t: Word, j: int) {
    0 <= j && j + |x| <= |t| && t[j..j + |x|] == x
  }

  ghost predicate NoneBefore(x: Word, t: Word, j: int) {
    forall i | 0 <= i < j :: !Occurs(x, t, i)
  }

  /** r is the smallest position of x in t, None when there is none. */
  ghost predicate IsFirstOccurrence(x: Word, t: Word, r: Option<nat>) {
    match r
    case Some(j) => Occurs(x, t, j) && NoneBefore(x, t, j)
    case None => forall i :: !Occurs(x, t, i)
  }

  /** Letter q of x, placed at j, agrees with the text. */
  predicate Hit(x: Word, t: Word, j: int, q: int) {
    0 <= q < |x| && 0 <= j + q < |t| && x[q] == t[j + q]
  }

  ghost predicate Hits(x: Word, t: Word, j: int, from: int, to: int) {
    forall q | from <= q < to :: Hit(x, t, j, q)
  }

  lemma OccursHits(x: Word, t: Word, j: int)
    requires |x| > 0
    ensures Occurs(x, t, j) <==> Hits(x, t, j, 0, |x|)
  {
    if Occurs(x, t, j) {
      forall q | 0 <= q < |x| ensures Hit(x, t, j, q) {
        assert t[j..j + |x|][q] == t[j + q];
      }
    }
    if Hits(x, t, j, 0, |x|) {
      assert Hit(x, t, j, 0) && Hit(x, t, j, |x| - 1);
      forall q | 0 <= q < |x| ensures t[j..j + |x|][q] == x[q] {
        assert Hit(x, t, j, q);
      }
      assert t[j..j + |x|] == x;
    }
  }

  lemma MissIsNoOccurrence(x: Word, t: Word, j: int, q: int)
    requires 0 <= q < |x| && !Hit(x, t, j, q)
    ensures !Occurs(x, t, j)
  {
    OccursHits(x, t, j);
  }

  // ----- the period test on the needle ------------------------------------------------------

  /** A global period no longer than the right half is also its smallest period: otherwise the
    * difference of the two would be a repetition across the critical cut.
    */
  lemma ShortPeriodIsRightPeriod(x: Word, l: nat, p: nat)
    requires IsUsableFactorization(x, l, p)
    requires GlobalPeriod(x) <= |x| - l
    ensures p == GlobalPeriod(x)
  {
    var P := GlobalPeriod(x);
    assert IsPeriodFrom(x, l, P);
    if p < P {
      var d := P - p;
      assert IsLocalRepetition(x, l, d) by {
        forall q | 0 <= q < l && l - d <= q ensures Repeats(x, q, d) {
          assert Repeats(x, q, P) && Repeats(x, q + d, p);
        }
      }
    }
  }

  /** The CMP_FUNC test decides whether the reported period is the global one; when it is not,
    * the global period exceeds both halves.
    */
  lemma PeriodTest(x: Word, l: nat, p: nat)
    requires IsUsableFactorization(x, l, p)
    ensures p + l <= |x|
    ensures x[..l] == x[p..p + l] <==> p == GlobalPeriod(x)
    ensures x[..l] != x[p..p + l] ==> l < GlobalPeriod(x) && |x| - l < GlobalPeriod(x)
  {
    var P := GlobalPeriod(x);
    if x[..l] == x[p..p + l] {
      forall q | 0 <= q < |x| - p ensures Repeats(x, q, p) {
        if q < l {
          assert x[..l][q] == x[p..p + l][q];
        }
      }
      assert IsPeriodFrom(x, 0, p);
      assert IsPeriodFrom(x, l, P);
    } else {
      if P <= |x| - l {
        ShortPeriodIsRightPeriod(x, l, p);
      }
      if p == P {
        forall q | 0 <= q < l ensures x[..l][q] == x[p..p + l][q] { assert Repeats(x, q, p); }
      }
      assert |x| - l < P;
    }
  }

  // ----- safe shifts ------------------------------------------------------------------------

  /** A local repetition at a critical cut that fits in the right half is a whole number of
    * global periods long.
    */
  lemma {:induction false} RepetitionIsMultiple(x: Word, l: nat, d: nat) returns (n: nat)
    requires |x| > 0 && IsCritical(x, l)
    requires IsLocalRepetition(x, l, d) && l + d <= |x|
    ensures d == n * GlobalPeriod(x)
  {
    var P := GlobalPeriod(x);
    if d < P {
      assert false;
    } else if d == P {
      n := 1;
    } else {
      var e := d - P;
      forall q | 0 <= q < l && l - e <= q ensures Repeats(x, q, e) {
        assert Repeats(x, q, d) && Repeats(x, q + e, P);
      }
      n := RepetitionIsMultiple(x, l, e);
      n := n + 1;
    }
  }

  /** If the text agrees with letters l.. up to to, an occurrence d later is a repetition. */
  lemma OccurrenceIsRepetition(x: Word, t: Word, l: nat, j: nat, to: nat, d: nat)
    requires |x| > 0 && l <= to <= |x| && Hits(x, t, j, l, to)
    requires 1 <= d && (d <= to - l || to == |x|)
    requires Occurs(x, t, j + d)
    ensures IsLocalRepetition(x, l, d)
  {
    OccursHits(x, t, j + d);
    forall q | 0 <= q < l && l - d <= q ensures Repeats(x, q, d) {
      if q + d < |x| {
        assert Hit(x, t, j, q + d) && Hit(x, t, j + d, q);
      }
    }
  }

  /** A shift by a repetition meets the same mismatch again. */
  lemma RepetitionMisses(x: Word, t: Word, l: nat, j: nat, i: nat, d: nat)
    requires |x| > 0 && IsCritical(x, l)
    requires l <= i < |x| && j + i < |t| && !Hit(x, t, j, i)
    requires d <= i - l && IsLocalRepetition(x, l, d)
    ensures !Occurs(x, t, j + d)
  {
    var n := RepetitionIsMultiple(x, l, d);
    PeriodSteps(x, 0, |x|, GlobalPeriod(x), i - d, n);
    MissIsNoOccurrence(x, t, j + d, i - d);
  }

  /** Right half: after a mismatch at i, shifting by i - l + 1 skips no occurrence. */
  lemma RightMismatch(x: Word, t: Word, l: nat, j: nat, i: nat)
    requires |x| > 0 && IsCritical(x, l)
    requires NoneBefore(x, t, j)
    requires l <= i < |x| && Hits(x, t, j, l, i) && j + i < |t| && !Hit(x, t, j, i)
    ensures NoneBefore(x, t, j + i - l + 1)
  {
    forall k | j < k <= j + i - l ensures !Occurs(x, t, k) {
      if Occurs(x, t, k) {
        OccurrenceIsRepetition(x, t, l, j, i, k - j);
        RepetitionMisses(x, t, l, j, i, k - j);
      }
    }
    MissIsNoOccurrence(x, t, j, i);
  }

  /** Left half: after the whole right half matched and the left half did not, any shift up to
    * the global period skips no occurrence.
    */
  lemma LeftMismatch(x: Word, t: Word, l: nat, j: nat, i: nat, shift: nat)
    requires |x| > 0 && IsCritical(x, l) && l <= |x|
    requires NoneBefore(x, t, j)
    requires Hits(x, t, j, l, |x|) && i < |x| && !Hit(x, t, j, i)
    requires shift <= GlobalPeriod(x)
    ensures NoneBefore(x, t, j + shift)
  {
    forall k | j < k < j + shift ensures !Occurs(x, t, k) {
      if Occurs(x, t, k) {
        OccurrenceIsRepetition(x, t, l, j, |x|, k - j);
      }
    }
    MissIsNoOccurrence(x, t, j, i);
  }

  /** What memory remembers: after a shift by the period, the first |x| - P letters match. */
  lemma MemoryAfterShift(x: Word, t: Word, l: nat, j: nat)
    requires |x| > 0 && l <= GlobalPeriod(x)
    requires Hits(x, t, j, l, |x|)
    ensures Hits(x, t, j + GlobalPeriod(x), 0, |x| - GlobalPeriod(x))
  {
    var P := GlobalPeriod(x);
    var k := j + P;
    forall q | 0 <= q < |x| - P ensures Hit(x, t, k, q) {
      assert Repeats(x, q, P) && Hit(x, t, j, P + q);
    }
  }

  // ----- AVAILABLE --------------------------------------------------------------------------

  /** How the end of the haystack is known. */
  datatype Extent = Counted | Terminated

  /** The buffer h is a valid haystack: a NUL-terminated one holds its terminator. */
  predicate IsHaystack(h: seq<byte>, extent: Extent) {
    extent.Terminated? ==> 0 in h
  }

  /** The true length of the haystack. */
  function TextLength(h: seq<byte>, extent: Extent): (n: nat)
    requires IsHaystack(h, extent)
    ensures n <= |h|
    ensures extent.Terminated? ==> n < |h| && h[n] == 0 && 0 !in h[..n]
  {
    if extent.Counted? then |h| else FirstNul(h)
  }

  function FirstNul(h: seq<byte>): (n: nat)
    requires 0 in h
    ensures n < |h| && h[n] == 0 && 0 !in h[..n]
  {
    if h[0] == 0 then 0 else
      var n := FirstNul(h[1..]);
      assert h[..n + 1] == [h[0]] + h[1..][..n];
      n + 1
  }

  lemma TerminatorIsEnd(h: seq<byte>, q: nat)
    requires 0 in h && q <= FirstNul(h)
    ensures h[q] == 0 <==> q == FirstNul(h)
  {
    if q < FirstNul(h) {
      assert h[q] in h[..FirstNul(h)];
    }
  }

  /** The bytes a search compares: those before the end, canonicalized. */
  function Text(h: seq<byte>, extent: Extent, canon: byte -> byte): Word
    requires IsHaystack(h, extent)
  {
    Canonical(h[..TextLength(h, extent)], canon)
  }

  /** haystack_len is a known lower bound of the length; for a counted haystack, the length. */
  predicate IsKnownLength(h: seq<byte>, extent: Extent, hl: nat)
    requires IsHaystack(h, extent)
  {
    if extent.Counted? then hl == |h| else hl <= TextLength(h, extent)
  }

  /** AVAILABLE: true iff the window of n bytes at j fits; a terminated haystack's known length
    * then grows to the end of the window. The terminator bounds every byte it looks at: looked
    * counts them, none twice over all calls but the terminator.
    */
  method Available(h: seq<byte>, hl: nat, j: nat, n: nat, extent: Extent)
    returns (fits: bool, known: nat, ghost looked: nat)
    requires IsHaystack(h, extent) && IsKnownLength(h, extent, hl)
    requires n > 0 && (extent.Terminated? ==> hl <= j + n)
    ensures fits <==> j + n <= TextLength(h, extent)
    ensures IsKnownLength(h, extent, known)
    ensures known == if fits && extent.Terminated? then j + n else hl
    ensures hl + looked == if fits || extent.Counted? then known else TextLength(h, extent) + 1
  {
    looked := 0;
    if extent.Counted? {
      return j + n <= hl, hl, 0;
    }
    // memchr (h + h_l, '\0', j + n - h_l)
    var q := hl;
    ghost var len := TextLength(h, extent);
    while q < j + n
      invariant hl <= q <= j + n && q <= len && looked == q - hl
    {
      looked := looked + 1;
      TerminatorIsEnd(h, q);
      if h[q] == 0 {
        return false, hl, looked;
      }
      q := q + 1;
    }
    return true, j + n, looked;
  }

  /** The bytes AVAILABLE has looked at since it was told that the length is at least hl0. */
  predicate IsLookedAt(h: seq<byte>, extent: Extent, fits: bool, hl0: nat, hl: nat, looked: nat)
    requires IsHaystack(h, extent)
  {
    if extent.Counted? then looked == 0
    else if fits then hl0 + looked == hl else hl0 + looked == TextLength(h, extent) + 1
  }

  // ----- two_way_short_needle ---------------------------------------------------------------

  /** The bound kept on the comparisons made before the window at j, of a needle of m letters cut
    * at l, is examined from its letter start on: two for every letter the window has moved, one
    * for every letter that need not be compared again.
    */
  ghost predicate WithinBudget(n: nat, m: nat, l: nat, j: nat, start: nat, spent: nat) {
    && spent <= 2 * j + start - l
    && spent <= if m <= n then 2 * n - m else 0
  }

  /** A window shifted after its last byte did not match. */
  lemma BudgetSkip(n: nat, m: nat, l: nat, j: nat, start: nat, spent: nat, shift: nat)
    requires WithinBudget(n, m, l, j, start, spent) && start < m && l < m && j + m <= n
    requires start - l < 2 * shift
    ensures WithinBudget(n, m, l, j + shift, l, spent + 1)
  {
  }

  /** A window whose right half mismatched at i, in addition to a look at the last byte or not. */
  lemma BudgetRight(n: nat, m: nat, l: nat, j: nat, start: nat, spent: nat, end: nat, i: nat)
    requires WithinBudget(n, m, l, j, start, spent) && l <= start <= i < end && j + m <= n
    requires end <= m <= end + 1
    ensures WithinBudget(n, m, l, j + (i - l + 1), l, spent + (m - end) + (i - start + 1))
  {
  }

  /** A window whose right half matched, with at most l comparisons in the left half: if it is the
    * last, the total is within the bound; after a shift by more than what is left of it the
    * budget holds again.
    */
  lemma BudgetLeft(n: nat, m: nat, l: nat, j: nat, start: nat, spent: nat, count: nat, shift: nat, start': nat)
    requires WithinBudget(n, m, l, j, start, spent) && l <= start <= m && count <= l && j + m <= n
    requires m + l <= 2 * shift + start'
    ensures spent + (m - start) + count <= 2 * n - m
    ensures WithinBudget(n, m, l, j + shift, start', spent + (m - start) + count)
  {
  }

  /** Comparing the last byte only in its turn, a search that goes on leaves the budget unspent. The
    * only window that can cost all of it is the one window of a text as long as the needle.
    */
  ghost predicate IsSlack(n: nat, m: nat, l: nat, j: nat, memory: nat, spent: nat) {
    && (j == 0 ==> spent == 0 && memory == 0)
    && (j > 0 ==> spent < 2 * j + RightStart(l, memory) - l || 0 < l <= memory)
    && (m < n ==> spent < 2 * n - m)
  }

  lemma SlackRight(n: nat, m: nat, l: nat, j: nat, memory: nat, spent: nat, i: nat)
    requires WithinBudget(n, m, l, j, RightStart(l, memory), spent) && IsSlack(n, m, l, j, memory, spent)
    requires RightStart(l, memory) <= i < m && j + m <= n
    ensures IsSlack(n, m, l, j + (i - l + 1), 0, spent + (i - RightStart(l, memory) + 1))
  {
  }

  lemma SlackLeft(n: nat, m: nat, l: nat, j: nat, memory: nat, spent: nat, count: nat, shift: nat, memory': nat)
    requires WithinBudget(n, m, l, j, RightStart(l, memory), spent) && IsSlack(n, m, l, j, memory, spent)
    requires memory < l && count <= l <= m && j + m <= n && shift > 0
    requires if memory' == 0 then m < 2 * shift else l <= memory'
    ensures IsSlack(n, m, l, j + shift, memory', spent + (m - RightStart(l, memory)) + count)
  {
  }

  /** A text as long as x that differs from it in letter q only. */
  ghost predicate DiffersOnlyAt(x: Word, t: Word, q: int) {
    && |t| == |x| && 0 <= q < |x| && x[q] != t[q]
    && forall r | 0 <= r < |x| && r != q :: x[r] == t[r]
  }

  /** The letter a window compares last: the first one of the left half, or without a left half the
    * last one of the right half.
    */
  function LastOf(suffix: nat, end: nat): int {
    if suffix == 0 then end - 1 else 0
  }

  /** The one window of a text as long as the needle costs a comparison of every letter, without
    * success, exactly if the text differs in the letter compared last only.
    */
  lemma OneWindowRight(x: Word, t: Word, suffix: nat, end: nat, i: nat)
    requires |t| == |x| && suffix <= i < end <= |x| <= end + 1 && (end < |x| ==> Hit(x, t, 0, end))
    requires Hits(x, t, 0, suffix, i) && !Hit(x, t, 0, i)
    ensures (|x| - end) + (i - suffix + 1) == |x| <==> DiffersOnlyAt(x, t, LastOf(suffix, end))
  {
    if i - suffix + 1 == end {
      forall r | 0 <= r < |x| && r != end - 1 ensures x[r] == t[r] {
        assert Hit(x, t, 0, r);
      }
    }
  }

  lemma OneWindowLeft(x: Word, t: Word, suffix: nat, end: nat, k: nat)
    requires |t| == |x| && k < suffix <= |x|
    requires Hits(x, t, 0, suffix, |x|) && Hits(x, t, 0, k + 1, suffix) && !Hit(x, t, 0, k)
    ensures (|x| - suffix) + (suffix - k) == |x| <==> DiffersOnlyAt(x, t, LastOf(suffix, end))
  {
    if k == 0 {
      forall r | 1 <= r < |x| ensures x[r] == t[r] {
        assert Hit(x, t, 0, r);
      }
    }
  }

  lemma MatchDiffersNowhere(x: Word, t: Word, q: int)
    requires Hits(x, t, 0, 0, |x|)
    ensures !DiffersOnlyAt(x, t, q)
  {
    assert 0 <= q < |x| ==> Hit(x, t, 0, q);
  }

  /** Scan the right half of the window at j from start on: i is the first mismatch. */
  method ScanRight(h: seq<byte>, needle: seq<byte>, canon: byte -> byte, j: nat, start: nat, end: nat,
                   ghost t: Word)
    returns (i: nat, ghost comparisons: nat)
    requires start <= end <= |needle| && j + |needle| <= |t| <= |h| && t == Canonical(h[..|t|], canon)
    ensures start <= i <= end
    ensures Hits(Canonical(needle, canon), t, j, start, i)
    ensures i < end ==> !Hit(Canonical(needle, canon), t, j, i)
    ensures comparisons == i - start + if i < end then 1 else 0
  {
    i, comparisons := start, 0;
    while i < end
      invariant start <= i <= end && comparisons == i - start
      invariant Hits(Canonical(needle, canon), t, j, start, i)
    {
      comparisons := comparisons + 1;
      if canon(needle[i]) != canon(h[i + j]) {
        break;
      }
      i := i + 1;
    }
  }

  /** Scan the left half downwards to memory: i + 1 is where the matching part starts. */
  method ScanLeft(h: seq<byte>, needle: seq<byte>, canon: byte -> byte, j: nat, memory: nat, suffix: nat,
                  ghost t: Word)
    returns (i: int, ghost comparisons: nat)
    requires suffix <= |needle| && j + |needle| <= |t| <= |h| && t == Canonical(h[..|t|], canon)
    ensures i < suffix && (i == suffix - 1 || memory <= i + 1) && -1 <= i
    ensures Hits(Canonical(needle, canon), t, j, i + 1, suffix)
    ensures memory < i + 1 ==> !Hit(Canonical(needle, canon), t, j, i)
    ensures comparisons == suffix - 1 - i + if memory < i + 1 then 1 else 0
  {
    i, comparisons := suffix - 1, 0;
    while memory < i + 1
      invariant -1 <= i < suffix && (i == suffix - 1 || memory <= i + 1) && comparisons == suffix - 1 - i
      invariant Hits(Canonical(needle, canon), t, j, i + 1, suffix)
    {
      comparisons := comparisons + 1;
      if canon(needle[i]) != canon(h[i + j]) {
        break;
      }
      i := i - 1;
    }
  }

  lemma FoundHere(x: Word, t: Word, j: nat)
    requires |x| > 0 && NoneBefore(x, t, j) && Hits(x, t, j, 0, |x|)
    ensures IsFirstOccurrence(x, t, Some(j))
  {
    OccursHits(x, t, j);
  }

  /** Remembered letters, those of the left half above them, and the right half. */
  lemma AllHits(x: Word, t: Word, j: nat, l: nat, memory: nat, k: int)
    requires k + 1 <= memory && l <= |x|
    requires Hits(x, t, j, 0, memory) && Hits(x, t, j, k + 1, l) && Hits(x, t, j, l, |x|)
    ensures Hits(x, t, j, 0, |x|)
  {
  }

  lemma NoHitsNeeded(x: Word, t: Word, j: nat)
    ensures Hits(x, t, j, 0, 0)
  {
  }

  /** Remembered letters and scanned letters together cover the right half up to i. */
  lemma RightHalfHits(x: Word, t: Word, j: nat, l: nat, memory: nat, start: nat, i: nat)
    requires start == if l < memory then memory else l
    requires Hits(x, t, j, 0, memory) && Hits(x, t, j, start, i)
    ensures Hits(x, t, j, l, i)
  {
  }

  /** Where the right-half scan of a window starts. */
  function RightStart(suffix: nat, memory: nat): nat {
    if suffix < memory then memory else suffix
  }

  /** The search state before the window at j: no occurrence starts earlier, the first memory
    * letters of the window match, and the comparisons spent so far are within the budget.
    */
  ghost predicate SearchInv(x: Word, t: Word, suffix: nat, period: nat, j: nat, memory: nat, spent: nat) {
    && NoneBefore(x, t, j)
    && memory <= |x| && (memory == 0 || memory == |x| - period)
    && Hits(x, t, j, 0, memory)
    && WithinBudget(|t|, |x|, suffix, j, RightStart(suffix, memory), spent)
  }

  /** How the comparison of a window ends: with the first mismatch of the right half, the last one
    * of the left half, or none.
    */
  datatype Outcome = Right(i: nat) | Left(k: nat) | Match

  /** Compare a window, the right half up to end first: a long needle's last byte is known to match,
    * and looking it up counts as a comparison.
    */
  method CompareWindow(h: seq<byte>, needle: seq<byte>, canon: byte -> byte, suffix: nat, end: nat, j: nat,
                       memory: nat, ghost t: Word)
    returns (r: Outcome, ghost cost: nat)
    requires suffix <= |needle| && RightStart(suffix, memory) <= end
    requires j + |needle| <= |t| <= |h| && t == Canonical(h[..|t|], canon)
    requires end == |needle| || (end == |needle| - 1 && Hit(Canonical(needle, canon), t, j, end))
    requires Hits(Canonical(needle, canon), t, j, 0, memory)
    ensures r.Right? ==>
      && RightStart(suffix, memory) <= r.i < end && cost == |needle| - end + (r.i - RightStart(suffix, memory) + 1)
      && Hits(Canonical(needle, canon), t, j, suffix, r.i) && !Hit(Canonical(needle, canon), t, j, r.i)
    ensures r.Left? ==>
      && memory <= r.k < suffix && cost == |needle| - RightStart(suffix, memory) + (suffix - r.k)
      && Hits(Canonical(needle, canon), t, j, suffix, |needle|) && !Hit(Canonical(needle, canon), t, j, r.k)
    ensures r.Match? ==>
      && 0 <= cost - (|needle| - RightStart(suffix, memory)) <= suffix
      && Hits(Canonical(needle, canon), t, j, 0, |needle|)
    ensures j == 0 && memory == 0 && |t| == |needle| ==>
      (!r.Match? && cost == |needle| <==> DiffersOnlyAt(Canonical(needle, canon), t, LastOf(suffix, end)))
  {
    ghost var x := Canonical(needle, canon);
    hide Hits, Hit, Canonical, DiffersOnlyAt;
    var start := RightStart(suffix, memory);
    var i;
    ghost var count;
    i, cost := ScanRight(h, needle, canon, j, start, end, t);
    cost := cost + (|needle| - end);
    RightHalfHits(x, t, j, suffix, memory, start, i);
    if i < end {
      if j == 0 && memory == 0 && |t| == |needle| {
        OneWindowRight(x, t, suffix, end, i);
      }
      return Right(i), cost;
    }
    WholeRightHalf(x, t, j, suffix, end);
    var k;
    k, count := ScanLeft(h, needle, canon, j, memory, suffix, t);
    cost := cost + count;
    if k + 1 < memory + 1 {
      AllHits(x, t, j, suffix, memory, k);
      if j == 0 && |t| == |needle| {
        MatchDiffersNowhere(x, t, LastOf(suffix, end));
      }
      return Match, cost;
    }
    if j == 0 && memory == 0 && |t| == |needle| {
      OneWindowLeft(x, t, suffix, end, k);
    }
    return Left(k), cost;
  }

  lemma PeriodicFacts(x: Word, t: Word, suffix: nat, period: nat, j: nat, memory: nat, spent: nat)
    requires IsUsableFactorization(x, suffix, period) && period == GlobalPeriod(x)
    requires SearchInv(x, t, suffix, period, j, memory, spent)
    ensures IsCritical(x, suffix) && 0 < period && suffix <= period && suffix + period <= |x| && suffix < |x|
    ensures RightStart(suffix, memory) < |x| && Hits(x, t, j, 0, memory)
  {
    hide IsCritical, IsLeastPeriodFrom, NoneBefore, Hits, WithinBudget;
  }

  lemma AfterMatch(x: Word, t: Word, suffix: nat, period: nat, j: nat, memory: nat, spent: nat, cost: nat)
    requires suffix <= |x| && |x| > 0 && j + |x| <= |t| && SearchInv(x, t, suffix, period, j, memory, spent)
    requires RightStart(suffix, memory) <= |x| && 0 <= cost - (|x| - RightStart(suffix, memory)) <= suffix
    requires Hits(x, t, j, 0, |x|)
    ensures IsFirstOccurrence(x, t, Some(j)) && spent + cost <= 2 * |t| - |x|
  {
    hide IsFirstOccurrence, Hits;
    FoundHere(x, t, j);
  }

  /** The shift after a mismatch in the left half. */
  lemma AfterLeft(x: Word, t: Word, suffix: nat, period: nat, j: nat, memory: nat, spent: nat, k: nat, cost: nat,
                  memory': nat)
    requires |x| > 0 && j + |x| <= |t| && SearchInv(x, t, suffix, period, j, memory, spent)
    requires IsCritical(x, suffix) && 0 < period <= GlobalPeriod(x) && suffix <= GlobalPeriod(x)
    requires if memory' == 0 then |x| < 2 * period
             else memory' == |x| - period && period == GlobalPeriod(x) && suffix <= memory'
    requires memory <= k < suffix <= |x| && cost == |x| - RightStart(suffix, memory) + (suffix - k)
    requires Hits(x, t, j, suffix, |x|) && !Hit(x, t, j, k)
    ensures SearchInv(x, t, suffix, period, j + period, memory', spent + cost)
    ensures IsSlack(|t|, |x|, suffix, j, memory, spent) ==>
      IsSlack(|t|, |x|, suffix, j + period, memory', spent + cost)
  {
    hide NoneBefore, Hits, IsCritical, Hit, IsSlack, WithinBudget;
    BudgetLeft(|t|, |x|, suffix, j, RightStart(suffix, memory), spent, suffix - k, period, RightStart(suffix, memory'));
    if IsSlack(|t|, |x|, suffix, j, memory, spent) {
      SlackLeft(|t|, |x|, suffix, j, memory, spent, suffix - k, period, memory');
    }
    LeftMismatch(x, t, suffix, j, k, period);
    if memory' == 0 {
      NoHitsNeeded(x, t, j + period);
    } else {
      MemoryAfterShift(x, t, suffix, j);
    }
  }

  /** The shift after a mismatch in the right half. */
  lemma AfterRight(x: Word, t: Word, suffix: nat, period: nat, end: nat, j: nat, memory: nat, spent: nat, i: nat,
                   cost: nat)
    requires |x| > 0 && j + |x| <= |t| && SearchInv(x, t, suffix, period, j, memory, spent)
    requires IsCritical(x, suffix) && RightStart(suffix, memory) <= i < end <= |x| <= end + 1
    requires cost == |x| - end + (i - RightStart(suffix, memory) + 1)
    requires Hits(x, t, j, suffix, i) && !Hit(x, t, j, i)
    ensures SearchInv(x, t, suffix, period, j + (i - suffix + 1), 0, spent + cost)
    ensures end == |x| && IsSlack(|t|, |x|, suffix, j, memory, spent) ==>
      IsSlack(|t|, |x|, suffix, j + (i - suffix + 1), 0, spent + cost)
  {
    hide NoneBefore, Hits, IsCritical, Hit, IsSlack, WithinBudget;
    RightMismatch(x, t, suffix, j, i);
    BudgetRight(|t|, |x|, suffix, j, RightStart(suffix, memory), spent, end, i);
    if end == |x| && IsSlack(|t|, |x|, suffix, j, memory, spent) {
      SlackRight(|t|, |x|, suffix, j, memory, spent, i);
    }
    NoHitsNeeded(x, t, j + (i - suffix + 1));
  }

  /** One window in the branch for periodic needles: a mismatch in the left half only advances by
    * the period, and memory then saves rescanning. The right half is scanned up to end; a long
    * needle's last byte is known to match, and looking it up counts as a comparison.
    */
  method PeriodicWindow(h: seq<byte>, needle: seq<byte>, canon: byte -> byte, suffix: nat, period: nat, end: nat,
                        j: nat, memory: nat, ghost t: Word, ghost spent: nat)
    returns (found: bool, j': nat, memory': nat, ghost spent': nat)
    requires IsUsableFactorization(Canonical(needle, canon), suffix, period)
    requires period == GlobalPeriod(Canonical(needle, canon))
    requires j + |needle| <= |t| <= |h| && t == Canonical(h[..|t|], canon)
    requires end == |needle| || (end == |needle| - 1 && Hit(Canonical(needle, canon), t, j, end))
    requires SearchInv(Canonical(needle, canon), t, suffix, period, j, memory, spent)
    ensures found ==> j' == j && IsFirstOccurrence(Canonical(needle, canon), t, Some(j))
    ensures found ==> spent' <= 2 * |t| - |needle|
    ensures !found ==> j < j' && SearchInv(Canonical(needle, canon), t, suffix, period, j', memory', spent')
    ensures !found && end == |needle| && IsSlack(|t|, |needle|, suffix, j, memory, spent) ==>
      IsSlack(|t|, |needle|, suffix, j', memory', spent')
    ensures j == 0 && memory == 0 && |t| == |needle| ==>
      (!found && spent' == spent + |needle| <==> DiffersOnlyAt(Canonical(needle, canon), t, LastOf(suffix, end)))
  {
    ghost var x := Canonical(needle, canon);
    hide SearchInv, Canonical, IsUsableFactorization, IsCritical, IsFirstOccurrence, IsSlack, DiffersOnlyAt, Hits, Hit;
    PeriodicFacts(x, t, suffix, period, j, memory, spent);
    var r;
    ghost var cost;
    r, cost := CompareWindow(h, needle, canon, suffix, end, j, memory, t);
    spent' := spent + cost;
    match r {
      case Match =>
        AfterMatch(x, t, suffix, period, j, memory, spent, cost);
        return true, j, memory, spent';
      case Left(k) =>
        AfterLeft(x, t, suffix, period, j, memory, spent, k, cost, |needle| - period);
        return false, j + period, |needle| - period, spent';
      case Right(i) =>
        AfterRight(x, t, suffix, period, end, j, memory, spent, i, cost);
        return false, j + (i - suffix + 1), 0, spent';
    }
  }

  /** One window in the branch for needles whose two halves are distinct: no memory, and every
    * mismatch gives a maximal shift.
    */
  method AperiodicWindow(h: seq<byte>, needle: seq<byte>, canon: byte -> byte, suffix: nat, period: nat, end: nat,
                         j: nat, ghost t: Word, ghost spent: nat)
    returns (found: bool, j': nat, ghost spent': nat)
    requires suffix < |needle| && IsCritical(Canonical(needle, canon), suffix)
    requires suffix < period <= GlobalPeriod(Canonical(needle, canon)) && |needle| - suffix < period
    requires j + |needle| <= |t| <= |h| && t == Canonical(h[..|t|], canon)
    requires end == |needle| || (end == |needle| - 1 && Hit(Canonical(needle, canon), t, j, end))
    requires SearchInv(Canonical(needle, canon), t, suffix, period, j, 0, spent)
    ensures found ==> j' == j && IsFirstOccurrence(Canonical(needle, canon), t, Some(j))
    ensures found ==> spent' <= 2 * |t| - |needle|
    ensures !found ==> j < j' && SearchInv(Canonical(needle, canon), t, suffix, period, j', 0, spent')
    ensures !found && end == |needle| && IsSlack(|t|, |needle|, suffix, j, 0, spent) ==>
      IsSlack(|t|, |needle|, suffix, j', 0, spent')
    ensures j == 0 && |t| == |needle| ==>
      (!found && spent' == spent + |needle| <==> DiffersOnlyAt(Canonical(needle, canon), t, LastOf(suffix, end)))
  {
    ghost var x := Canonical(needle, canon);
    NoHitsNeeded(x, t, j);
    hide SearchInv, Canonical, IsFirstOccurrence, IsCritical, IsSlack, DiffersOnlyAt, Hits, Hit;
    var r;
    ghost var cost;
    r, cost := CompareWindow(h, needle, canon, suffix, end, j, 0, t);
    spent' := spent + cost;
    match r {
      case Match =>
        AfterMatch(x, t, suffix, period, j, 0, spent, cost);
        return true, j, spent';
      case Left(k) =>
        AfterLeft(x, t, suffix, period, j, 0, spent, k, cost, 0);
        return false, j + period, spent';
      case Right(i) =>
        AfterRight(x, t, suffix, period, end, j, 0, spent, i, cost);
        return false, j + (i - suffix + 1), spent';
    }
  }

  /** With the last byte known to match, scanning up to it covers the right half. */
  lemma WholeRightHalf(x: Word, t: Word, j: nat, suffix: nat, end: nat)
    requires end == |x| || (end == |x| - 1 && Hit(x, t, j, end))
    requires Hits(x, t, j, suffix, end)
    ensures Hits(x, t, j, suffix, |x|)
  {
  }

  lemma SearchStart(x: Word, t: Word, suffix: nat, period: nat)
    requires suffix <= |x|
    ensures SearchInv(x, t, suffix, period, 0, 0, 0)
  {
  }

  lemma SearchEnd(x: Word, t: Word, suffix: nat, period: nat, j: nat, memory: nat, spent: nat)
    requires SearchInv(x, t, suffix, period, j, memory, spent) && |t| < j + |x|
    ensures IsFirstOccurrence(x, t, None)
    ensures spent <= if |x| <= |t| then 2 * |t| - |x| else 0
  {
  }

  lemma FirstWindow(n: nat, m: nat, l: nat, j: nat, memory: nat, spent: nat)
    requires IsSlack(n, m, l, j, memory, spent)
    ensures j == 0 ==> memory == 0 && spent == 0
  {
  }

  /** The work of a search for m bytes in n: at most 2 * n - m comparisons, and every byte examined
    * for a terminator once, from the length known at the start up to the end of the window found,
    * or up to the terminator.
    */
  predicate IsWork(n: nat, m: nat, extent: Extent, hl0: nat, r: Option<nat>, comparisons: nat, looked: nat) {
    && comparisons <= (if m <= n then 2 * n - m else 0)
    && looked == if extent.Counted? then 0 else (if r.Some? then r.value + m else n + 1) - hl0
  }

  /** The main loop of two_way_short_needle. */
  method ShortSearch(h: seq<byte>, haystackLen: nat, needle: seq<byte>, canon: byte -> byte, extent: Extent,
                     suffix: nat, period: nat, periodic: bool)
    returns (r: Option<nat>, ghost comparisons: nat, ghost looked: nat)
    requires IsHaystack(h, extent) && IsKnownLength(h, extent, haystackLen)
    requires |needle| > 0 && (extent.Terminated? ==> haystackLen <= |needle|)
    requires IsSearchShift(Canonical(needle, canon), suffix, period, periodic)
    ensures IsFirstOccurrence(Canonical(needle, canon), Text(h, extent, canon), r)
    ensures IsWork(TextLength(h, extent), |needle|, extent, haystackLen, r, comparisons, looked)
    ensures r.None? && |needle| < TextLength(h, extent) ==> comparisons < 2 * TextLength(h, extent) - |needle|
    ensures |needle| == TextLength(h, extent) ==>
      (r.None? && comparisons == |needle| <==>
         DiffersOnlyAt(Canonical(needle, canon), Text(h, extent, canon), LastOf(suffix, |needle|)))
  {
    ghost var x, t := Canonical(needle, canon), Text(h, extent, canon);
    SearchStart(x, t, suffix, period);
    hide SearchInv, IsKnownLength, IsFirstOccurrence, IsUsableFactorization, IsCritical, DiffersOnlyAt;
    var hl: nat, memory: nat, j: nat := haystackLen, 0, 0;
    ghost var spent: nat := 0;
    ghost var more: nat;
    var fits, found;
    fits, hl, looked := Available(h, hl, j, |needle|, extent);
    while fits
      invariant IsLookedAt(h, extent, fits, haystackLen, hl, looked)
      invariant IsKnownLength(h, extent, hl)
      invariant fits <==> j + |needle| <= |t|
      invariant extent.Terminated? ==> if fits then hl == j + |needle| else hl <= j + |needle|
      invariant SearchInv(x, t, suffix, period, j, memory, spent)
      invariant periodic || memory == 0
      invariant IsSlack(|t|, |needle|, suffix, j, memory, spent)
      invariant |t| == |needle| && j > 0 ==> (spent == |needle| <==> DiffersOnlyAt(x, t, LastOf(suffix, |needle|)))
      decreases |t| - j
    {
      FirstWindow(|t|, |needle|, suffix, j, memory, spent);
      if periodic {
        found, j, memory, spent := PeriodicWindow(h, needle, canon, suffix, period, |needle|, j, memory, t, spent);
      } else {
        found, j, spent := AperiodicWindow(h, needle, canon, suffix, period, |needle|, j, t, spent);
      }
      if found {
        return Some(j), spent, looked;
      }
      fits, hl, more := Available(h, hl, j, |needle|, extent);
      looked := looked + more;
    }
    SearchEnd(x, t, suffix, period, j, memory, spent);
    return None, spent, looked;
  }

  /** The shift after a left-half mismatch is safe: the global period in the periodic branch, one
    * more than both halves in the other.
    */
  ghost predicate IsSearchShift(x: Word, suffix: nat, period: nat, periodic: bool) {
    && suffix < |x| && IsCritical(x, suffix)
    && if periodic then IsUsableFactorization(x, suffix, period) && period == GlobalPeriod(x)
       else suffix < period <= GlobalPeriod(x) && |x| - suffix < period
  }

  /** The letter of x compared last by a search that looks up the last byte first (1) or not (0). */
  ghost function LastCompared(x: Word, look: nat): int
    requires |x| > 0
  {
    if |x| >= 3 && GlobalPeriod(x) == 1 then |x| - 1 - look else 0
  }

  /** Only the repetition of one letter has no left half. */
  lemma LastComparedIsLastOf(x: Word, suffix: nat, period: nat)
    requires IsUsableFactorization(x, suffix, period)
    requires |x| < 3 ==> suffix == |x| - 1
    ensures LastOf(suffix, |x|) == LastCompared(x, 0)
    ensures LastOfLong(suffix, |x|) == LastCompared(x, 1)
  {
    if suffix == 0 {
      assert IsLocalRepetition(x, 0, 1);
    }
  }

  /** two_way_short_needle. */
  method TwoWayShortNeedle(h: seq<byte>, haystackLen: nat, needle: seq<byte>, canon: byte -> byte, extent: Extent)
    returns (r: Option<nat>, ghost comparisons: nat, ghost looked: nat)
    requires IsHaystack(h, extent) && IsKnownLength(h, extent, haystackLen)
    requires |needle| > 0 && (extent.Terminated? ==> haystackLen <= |needle|)
    ensures IsFirstOccurrence(Canonical(needle, canon), Text(h, extent, canon), r)
    ensures IsWork(TextLength(h, extent), |needle|, extent, haystackLen, r, comparisons, looked)
    ensures |needle| <= TextLength(h, extent) && extent.Terminated? ==>
      (comparisons + looked <= 3 * TextLength(h, extent) - |needle| <==>
         haystackLen > 0 || !DiffersOnlyAt(Canonical(needle, canon), Text(h, extent, canon),
                                           LastCompared(Canonical(needle, canon), 0)))
  {
    var suffix, period, _ := CriticalFactorization.CriticalFactorization(needle, canon);
    ghost var x := Canonical(needle, canon);
    PeriodTest(x, suffix, period);
    LastComparedIsLastOf(x, suffix, period);
    var periodic := Canonical(needle, canon)[..suffix] == Canonical(needle, canon)[period..period + suffix];
    if !periodic {
      period := (if suffix < |needle| - suffix then |needle| - suffix else suffix) + 1;
    }
    r, comparisons, looked := ShortSearch(h, haystackLen, needle, canon, extent, suffix, period, periodic);
  }

  // ----- two_way_long_needle ----------------------------------------------------------------

  /** The bad-byte table: the distance from the last occurrence of a byte to the end of x, or
    * |x| when the byte is absent.
    */
  ghost predicate IsLastDistance(x: Word, n: nat, c: int, d: nat) {
    && d <= |x| && n <= |x|
    && (d == |x| || (|x| - 1 - d < n && x[|x| - 1 - d] == c))
    && forall q | |x| - d <= q < n :: x[q] != c
  }

  ghost predicate IsShiftTable(x: Word, table: array<nat>)
    reads table
  {
    table.Length == 256 && forall c | 0 <= c < 256 :: IsLastDistance(x, |x|, c, table[c])
  }

  method BuildShiftTable(needle: seq<byte>, canon: byte -> byte) returns (table: array<nat>)
    requires |needle| > 0
    ensures fresh(table) && IsShiftTable(Canonical(needle, canon), table)
  {
    ghost var x := Canonical(needle, canon);
    table := new nat[256];
    var i := 0;
    while i < 256
      invariant 0 <= i <= 256
      invariant forall c | 0 <= c < i :: IsLastDistance(x, 0, c, table[c])
    {
      table[i] := |needle|;
      i := i + 1;
    }
    i := 0;
    while i < |needle|
      invariant 0 <= i <= |needle|
      invariant forall c | 0 <= c < 256 :: IsLastDistance(x, i, c, table[c])
    {
      table[canon(needle[i])] := |needle| - i - 1;
      i := i + 1;
    }
  }

  /** The last byte of the window does not match: shifting by its table entry is safe. */
  lemma BadByteShift(x: Word, t: Word, j: nat, shift: nat)
    requires |x| > 0 && j + |x| <= |t| && NoneBefore(x, t, j)
    requires IsLastDistance(x, |x|, t[j + |x| - 1], shift)
    ensures NoneBefore(x, t, j + shift)
  {
    forall k | j <= k < j + shift ensures !Occurs(x, t, k) {
      MissIsNoOccurrence(x, t, k, |x| - 1 - (k - j));
    }
  }

  /** The last byte does not match although the first |x| - P letters are remembered: no
    * occurrence starts before those letters end. Such an occurrence would repeat the last
    * remembered letter at the mismatch, one period later.
    */
  lemma BadByteShiftWithMemory(x: Word, t: Word, j: nat)
    requires |x| > 0 && j + |x| <= |t| && NoneBefore(x, t, j)
    requires Hits(x, t, j, 0, |x| - GlobalPeriod(x))
    requires !Hit(x, t, j, |x| - 1)
    ensures NoneBefore(x, t, j + |x| - GlobalPeriod(x))
  {
    var P := GlobalPeriod(x);
    var M := |x| - P;
    forall k | j < k < j + M ensures !Occurs(x, t, k) {
      var d := k - j;
      assert Hit(x, t, j, M - 1);
      assert Repeats(x, M - 1 - d, P) && Repeats(x, M - 1, P);
      MissIsNoOccurrence(x, t, k, if Hit(x, t, k, M - 1 - d) then |x| - 1 - d else M - 1 - d);
    }
    MissIsNoOccurrence(x, t, j, |x| - 1);
  }

  /** A byte of the needle occurs among its last period, so a table entry of at least the period
    * is the whole length.
    */
  lemma LongDistanceIsAbsent(x: Word, c: int, d: nat)
    requires |x| > 0 && IsLastDistance(x, |x|, c, d)
    ensures d == |x| || d < GlobalPeriod(x)
  {
    if d < |x| {
      assert Repeats(x, |x| - 1 - d, GlobalPeriod(x));
    }
  }

  lemma ZeroDistanceHits(x: Word, t: Word, j: nat)
    requires |x| > 0 && j + |x| <= |t|
    requires IsLastDistance(x, |x|, t[j + |x| - 1], 0)
    ensures Hit(x, t, j, |x| - 1)
  {
  }

  lemma NonzeroDistanceMisses(x: Word, t: Word, j: nat, d: nat)
    requires |x| > 0 && j + |x| <= |t| && d > 0
    requires IsLastDistance(x, |x|, t[j + |x| - 1], d)
    ensures !Hit(x, t, j, |x| - 1)
  {
  }

  /** The last byte of the window does not match: the shift, which memory can lengthen. */
  lemma LastByteShift(x: Word, t: Word, suffix: nat, period: nat, periodic: bool, j: nat, memory: nat,
                      spent: nat, distance: nat, shift: nat)
    requires IsSearchShift(x, suffix, period, periodic) && SearchInv(x, t, suffix, period, j, memory, spent)
    requires (periodic || memory == 0) && j + |x| <= |t|
    requires distance > 0 && IsLastDistance(x, |x|, t[j + |x| - 1], distance)
    requires shift == if memory != 0 && distance < period then |x| - period else distance
    ensures shift > 0 && SearchInv(x, t, suffix, period, j + shift, 0, spent + 1)
  {
    hide IsCritical, IsLeastPeriodFrom;
    NonzeroDistanceMisses(x, t, j, distance);
    LongDistanceIsAbsent(x, t[j + |x| - 1], distance);
    if memory != 0 && distance < period {
      BadByteShiftWithMemory(x, t, j);
    } else {
      BadByteShift(x, t, j, distance);
    }
    BudgetSkip(|t|, |x|, suffix, j, RightStart(suffix, memory), spent, shift);
  }

  /** The letter compared last by a window whose last byte is looked up first. */
  function LastOfLong(suffix: nat, m: nat): int
    requires m > 0
  {
    if m == 1 then 0 else LastOf(suffix, m - 1)
  }

  /** One window of two_way_long_needle: its last byte is looked up first, and the rest is compared
    * if it matches.
    */
  method LongWindow(h: seq<byte>, needle: seq<byte>, canon: byte -> byte, suffix: nat, period: nat, periodic: bool,
                    table: array<nat>, j: nat, memory: nat, ghost t: Word, ghost spent: nat)
    returns (found: bool, j': nat, memory': nat, ghost spent': nat)
    requires |needle| > 0 && IsSearchShift(Canonical(needle, canon), suffix, period, periodic)
    requires IsShiftTable(Canonical(needle, canon), table)
    requires j + |needle| <= |t| <= |h| && t == Canonical(h[..|t|], canon)
    requires SearchInv(Canonical(needle, canon), t, suffix, period, j, memory, spent) && (periodic || memory == 0)
    ensures found ==> j' == j && IsFirstOccurrence(Canonical(needle, canon), t, Some(j))
    ensures found ==> spent' <= 2 * |t| - |needle|
    ensures !found ==> j < j' && (periodic || memory' == 0)
    ensures !found ==> SearchInv(Canonical(needle, canon), t, suffix, period, j', memory', spent')
    ensures j == 0 && memory == 0 && |t| == |needle| ==>
      (!found && spent' == spent + |needle| <==>
         DiffersOnlyAt(Canonical(needle, canon), t, LastOfLong(suffix, |needle|)))
  {
    ghost var x := Canonical(needle, canon);
    hide SearchInv, IsFirstOccurrence, IsUsableFactorization, IsCritical, IsLastDistance;
    assert t[j + |needle| - 1] == canon(h[j + |needle| - 1]);
    var distance := table[canon(h[j + |needle| - 1])];
    if 0 < distance {
      var shift := if memory != 0 && distance < period then |needle| - period else distance;
      LastByteShift(x, t, suffix, period, periodic, j, memory, spent, distance, shift);
      NonzeroDistanceMisses(x, t, j, distance);
      return false, j + shift, 0, spent + 1;
    }
    ZeroDistanceHits(x, t, j);
    memory' := 0;
    if periodic {
      found, j', memory', spent' := PeriodicWindow(h, needle, canon, suffix, period, |needle| - 1, j, memory, t, spent);
    } else {
      found, j', spent' := AperiodicWindow(h, needle, canon, suffix, period, |needle| - 1, j, t, spent);
    }
  }

  /** The main loop of two_way_long_needle: the last byte of a window is looked up first. */
  method LongSearch(h: seq<byte>, haystackLen: nat, needle: seq<byte>, canon: byte -> byte, extent: Extent,
                    suffix: nat, period: nat, periodic: bool, table: array<nat>)
    returns (r: Option<nat>, ghost comparisons: nat, ghost looked: nat)
    requires IsHaystack(h, extent) && IsKnownLength(h, extent, haystackLen)
    requires |needle| > 0 && (extent.Terminated? ==> haystackLen <= |needle|)
    requires IsSearchShift(Canonical(needle, canon), suffix, period, periodic)
    requires IsShiftTable(Canonical(needle, canon), table)
    ensures IsFirstOccurrence(Canonical(needle, canon), Text(h, extent, canon), r)
    ensures IsWork(TextLength(h, extent), |needle|, extent, haystackLen, r, comparisons, looked)
    ensures |needle| == TextLength(h, extent) ==>
      (r.None? && comparisons == |needle| <==>
         DiffersOnlyAt(Canonical(needle, canon), Text(h, extent, canon), LastOfLong(suffix, |needle|)))
  {
    ghost var x, t := Canonical(needle, canon), Text(h, extent, canon);
    SearchStart(x, t, suffix, period);
    hide SearchInv, IsKnownLength, IsFirstOccurrence, IsUsableFactorization, IsCritical, IsShiftTable, IsSearchShift,
         DiffersOnlyAt;
    var hl: nat, memory: nat, j: nat := haystackLen, 0, 0;
    ghost var spent: nat := 0;
    ghost var more: nat;
    var fits, found;
    fits, hl, looked := Available(h, hl, j, |needle|, extent);
    while fits
      invariant IsLookedAt(h, extent, fits, haystackLen, hl, looked)
      invariant IsKnownLength(h, extent, hl)
      invariant fits <==> j + |needle| <= |t|
      invariant extent.Terminated? ==> if fits then hl == j + |needle| else hl <= j + |needle|
      invariant SearchInv(x, t, suffix, period, j, memory, spent)
      invariant periodic || memory == 0
      invariant j == 0 ==> memory == 0 && spent == 0
      invariant |t| == |needle| && j > 0 ==> (spent == |needle| <==> DiffersOnlyAt(x, t, LastOfLong(suffix, |needle|)))
      decreases |t| - j
    {
      found, j, memory, spent := LongWindow(h, needle, canon, suffix, period, periodic, table, j, memory, t, spent);
      if found {
        return Some(j), spent, looked;
      }
      fits, hl, more := Available(h, hl, j, |needle|, extent);
      looked := looked + more;
    }
    SearchEnd(x, t, suffix, period, j, memory, spent);
    return None, spent, looked;
  }

  /** two_way_long_needle. */
  method TwoWayLongNeedle(h: seq<byte>, haystackLen: nat, needle: seq<byte>, canon: byte -> byte, extent: Extent)
    returns (r: Option<nat>, ghost comparisons: nat, ghost looked: nat)
    requires IsHaystack(h, extent) && IsKnownLength(h, extent, haystackLen)
    requires |needle| > 0 && (extent.Terminated? ==> haystackLen <= |needle|)
    ensures IsFirstOccurrence(Canonical(needle, canon), Text(h, extent, canon), r)
    ensures IsWork(TextLength(h, extent), |needle|, extent, haystackLen, r, comparisons, looked)
    ensures |needle| <= TextLength(h, extent) && extent.Terminated? ==>
      (comparisons + looked <= 3 * TextLength(h, extent) - |needle| <==>
         haystackLen > 0 || r.Some? || comparisons < 2 * TextLength(h, extent) - |needle|)
    ensures extent.Terminated? && haystackLen == 0 ==>
      DiffersOnlyAt(Canonical(needle, canon), Text(h, extent, canon), LastCompared(Canonical(needle, canon), 1)) ==>
      comparisons + looked > 3 * TextLength(h, extent) - |needle|
  {
    var suffix, period, _ := CriticalFactorization.CriticalFactorization(needle, canon);
    var table := BuildShiftTable(needle, canon);
    ghost var x := Canonical(needle, canon);
    PeriodTest(x, suffix, period);
    LastComparedIsLastOf(x, suffix, period);
    var periodic := Canonical(needle, canon)[..suffix] == Canonical(needle, canon)[period..period + suffix];
    if !periodic {
      period := (if suffix < |needle| - suffix then |needle| - suffix else suffix) + 1;
    }
    r, comparisons, looked := LongSearch(h, haystackLen, needle, canon, extent, suffix, period, periodic, table);
  }

  // ----- the documented bound for haystacks of unknown length ----------------------------------

  /** When no byte is known, every needle exceeds the documented bound, in either search: in the
    * haystack that is the needle with another byte d where the letter compared last stands.
    */
  method UnknownLengthExceeds(needle: seq<byte>, canon: byte -> byte, long: bool, q: nat, d: byte)
    returns (r: Option<nat>, ghost work: nat)
    requires |needle| > 0 && 0 !in needle && d != 0
    requires q == LastCompared(Canonical(needle, canon), if long then 1 else 0) && canon(d) != canon(needle[q])
    ensures r == None && work > 3 * |needle| - |needle|
  {
    var other := needle[q := d];
    var h := other + [0];
    ghost var x, t := Canonical(needle, canon), Text(h, Terminated, canon);
    assert FirstNul(h) == |needle| by {
      assert h[FirstNul(h)] == 0;
      assert forall k | 0 <= k < |needle| :: h[k] == other[k] != 0;
    }
    assert h[..|needle|] == other;
    assert DiffersOnlyAt(x, t, q);
    ghost var comparisons, looked;
    if long {
      r, comparisons, looked := TwoWayLongNeedle(h, 0, needle, canon, Terminated);
    } else {
      r, comparisons, looked := TwoWayShortNeedle(h, 0, needle, canon, Terminated);
    }
    OtherWordOccursNowhere(x, t, q, r);
    work := comparisons + looked;
  }

  lemma OtherWordOccursNowhere(x: Word, t: Word, q: int, r: Option<nat>)
    requires DiffersOnlyAt(x, t, q) && IsFirstOccurrence(x, t, r)
    ensures r == None
  {
    MissIsNoOccurrence(x, t, 0, q);
  }

  /** "b" in "a" costs one comparison and two bytes examined, where the documented bound is two. */
  method UnknownLengthExample() returns (r: Option<nat>, ghost work: nat)
    ensures r == None && work == 3 > 3 * 1 - 1
  {
    var h: seq<byte>, needle: seq<byte> := [97, 0], [98];
    ghost var comparisons, looked;
    assert TextLength(h, Terminated) == 1;
    assert DiffersOnlyAt(Canonical(needle, c => c), Text(h, Terminated, c => c), 0);
    r, comparisons, looked := TwoWayShortNeedle(h, 0, needle, c => c, Terminated);
    OtherWordOccursNowhere(Canonical(needle, c => c), Text(h, Terminated, c => c), 0, r);
    work := comparisons + looked;
  }
}
