/** The Boyer-Moore tables and the verifier of kwset_engine.c. */
module Kwset {
  import opened Words
  import opened TwoWay

  // ----- borders ---------------------------------------------------------------------------

  /** The first b letters of x[..n] are also its last b letters, and b < n. */
  ghost predicate IsBorder(x: Word, n: int, b: int) {
    0 <= b < n <= |x| && RepeatsBelow(x, b, n - b)
  }

  /** The first b letters agree with the letters d later. */
  ghost predicate RepeatsBelow(x: Word, b: int, d: int) {
    forall q | 0 <= q < b :: Repeats(x, q, d)
  }

  /** The KMP failure value: -1 for the empty prefix, else the longest border. */
  ghost predicate IsFailure(x: Word, n: int, f: int) {
    if n == 0 then f == -1
    else IsBorder(x, n, f) && forall b | IsBorder(x, n, b) :: b <= f
  }

  lemma BordersCompose(x: Word, n: int, b: int, c: int)
    requires IsBorder(x, n, b) && IsBorder(x, b, c)
    ensures IsBorder(x, n, c)
  {
    var d := n - c;
    forall q | 0 <= q < c ensures Repeats(x, q, d) {
      assert Repeats(x, q, b - c) && Repeats(x, q + (b - c), n - b);
    }
  }

  lemma ShorterBorder(x: Word, n: int, b: int, c: int)
    requires IsBorder(x, n, b) && IsBorder(x, n, c) && c < b
    ensures IsBorder(x, b, c)
  {
    var d := b - c;
    forall q | 0 <= q < c ensures Repeats(x, q, d) {
      assert Repeats(x, q, n - c) && Repeats(x, q + d, n - b);
    }
  }

  /** The failure value of a border is the next shorter border: the chain misses none. */
  lemma ChainStep(x: Word, n: int, b: int, f: int)
    requires IsBorder(x, n, b) && IsFailure(x, b, f)
    ensures f >= 0 ==> IsBorder(x, n, f)
    ensures forall c | IsBorder(x, n, c) && c < b :: c <= f
  {
    if f >= 0 {
      BordersCompose(x, n, b, f);
    }
    forall c | IsBorder(x, n, c) && c < b ensures c <= f {
      ShorterBorder(x, n, b, c);
    }
  }

  lemma BorderGrows(x: Word, n: int, b: int)
    requires 0 <= b < n < |x|
    ensures IsBorder(x, n + 1, b + 1) <==> IsBorder(x, n, b) && x[b] == x[n]
  {
    if IsBorder(x, n + 1, b + 1) {
      assert Repeats(x, b, n - b);
    }
    if IsBorder(x, n, b) && x[b] == x[n] {
      var d := n - b;
      forall q | 0 <= q < b + 1 ensures Repeats(x, q, d) {
        assert q < b ==> Repeats(x, q, n - b);
      }
      assert RepeatsBelow(x, b + 1, d);
    }
  }

  /** Where the inner loop of the failure computation stops, k + 1 is the next failure value. */
  lemma FailureExtends(x: Word, n: int, k: int)
    requires 0 <= n < |x| && -1 <= k
    requires k >= 0 ==> IsBorder(x, n, k) && x[k] == x[n]
    requires forall b | IsBorder(x, n, b) && b > k :: x[b] != x[n]
    ensures IsFailure(x, n + 1, k + 1)
  {
    if k >= 0 {
      BorderGrows(x, n, k);
    }
    var n' := n + 1;
    forall b | IsBorder(x, n', b) ensures b <= k + 1 {
      if b > 0 && n > 0 {
        BorderGrows(x, n, b - 1);
      }
    }
  }

  /** The KMP failure function, as build_delta2 computes it. */
  method FailureFunction(pat: seq<byte>) returns (fail: array<int>)
    requires |pat| > 0
    ensures fresh(fail) && fail.Length == |pat| + 1
    ensures forall n | 0 <= n <= |pat| :: IsFailure(pat, n, fail[n])
  {
    fail := new int[|pat| + 1];
    fail[0] := -1;
    var k := -1;
    for i := 1 to |pat| + 1
      invariant -1 <= k < i && k == fail[i - 1]
      invariant forall n | 0 <= n < i :: IsFailure(pat, n, fail[n])
    {
      assert i == 1 || IsFailure(pat, i - 1, k);
      while k >= 0 && pat[k] != pat[i - 1]
        invariant -1 <= k < i
        invariant forall n | 0 <= n < i :: IsFailure(pat, n, fail[n])
        invariant k >= 0 ==> IsBorder(pat, i - 1, k)
        invariant forall b | IsBorder(pat, i - 1, b) && b > k :: pat[b] != pat[i - 1]
        decreases k
      {
        ChainStep(pat, i - 1, k, fail[k]);
        k := fail[k];
      }
      FailureExtends(pat, i - 1, k);
      k := k + 1;
      fail[i] := k;
    }
  }

  // ----- good suffix shifts ----------------------------------------------------------------

  /** Shifted by d, the pattern agrees with its last s letters wherever it still covers them. */
  ghost predicate AgreesWithSuffix(x: Word, s: int, d: int) {
    1 <= d && forall r | 0 <= r < |x| - d && |x| - s - d <= r :: Repeats(x, r, d)
  }

  /** d is the least shift that agrees with the matched suffix of length s. */
  ghost predicate IsSuffixShift(x: Word, s: int, d: int) {
    && AgreesWithSuffix(x, s, d)
    && d <= |x|
    && forall e | 1 <= e < d :: !AgreesWithSuffix(x, s, e)
  }

  /** A shift that leaves only part of the suffix covered agrees iff that part is a border. */
  lemma PartialAgreementIsBorder(x: Word, s: int, d: int)
    requires 0 < s < |x| && |x| - s <= d < |x|
    ensures AgreesWithSuffix(x, s, d) <==> IsBorder(x, |x|, |x| - d)
  {
  }

  /** The inner search: the last earlier full occurrence of the suffix, else None as |pat|. */
  method FullSuffixShift(pat: seq<byte>, s: nat) returns (shift: nat)
    requires 0 < s < |pat|
    ensures 1 <= shift <= |pat| - s || shift == |pat|
    ensures shift < |pat| ==> IsSuffixShift(pat, s, shift)
    ensures shift == |pat| ==> forall d | 1 <= d <= |pat| - s :: !AgreesWithSuffix(pat, s, d)
  {
    var m := |pat|;
    shift := m;
    var j := m - s - 1;
    while j >= 0
      invariant -1 <= j <= m - s - 1 && shift == m
      invariant forall d | 1 <= d < m - s - j :: !AgreesWithSuffix(pat, s, d)
    {
      var ok := true;
      var q := 0;
      ghost var d := m - s - j;
      while q < s
        invariant 0 <= q <= s && ok
        invariant forall r | j <= r < j + q :: Repeats(pat, r, d)
      {
        if pat[j + q] != pat[m - s + q] {
          ok := false;
          assert !Repeats(pat, j + q, d);
          break;
        }
        q := q + 1;
      }
      if ok {
        shift := m - s - j;
        return;
      }
      j := j - 1;
    }
  }

  /** The fallback: the longest border not longer than the suffix, found along the fail chain. */
  method BorderShift(pat: seq<byte>, s: nat, fail: array<int>) returns (shift: nat)
    requires 0 < s < |pat| && fail.Length == |pat| + 1
    requires forall n | 0 <= n <= |pat| :: IsFailure(pat, n, fail[n])
    requires forall d | 1 <= d <= |pat| - s :: !AgreesWithSuffix(pat, s, d)
    ensures IsSuffixShift(pat, s, shift)
  {
    var m := |pat|;
    var p := fail[m];
    assert IsFailure(pat, m, p);
    while p > 0
      invariant 0 <= p < m && IsBorder(pat, m, p)
      invariant forall b | IsBorder(pat, m, b) && b > p :: b > s
    {
      if p <= s {
        PartialAgreementIsBorder(pat, s, m - p);
        ShiftsPastSuffix(pat, s, p);
        return m - p;
      }
      ChainStep(pat, m, p, fail[p]);
      assert IsFailure(pat, p, fail[p]);
      p := fail[p];
    }
    ShiftsPastSuffix(pat, s, 0);
    return m;
  }

  lemma ShiftsPastSuffix(x: Word, s: nat, p: nat)
    requires 0 < s < |x| && p < |x|
    requires forall d | 1 <= d <= |x| - s :: !AgreesWithSuffix(x, s, d)
    requires forall b | IsBorder(x, |x|, b) && b > p :: b > s
    ensures forall e | 1 <= e < |x| - p :: !AgreesWithSuffix(x, s, e)
  {
    forall e | 1 <= e < |x| - p ensures !AgreesWithSuffix(x, s, e) {
      if e > |x| - s {
        PartialAgreementIsBorder(x, s, e);
      }
    }
  }

  // ----- occurrences by their ends ----------------------------------------------------------

  /** x occurs in t and ends just before e. */
  ghost predicate EndsAt(x: Word, t: Word, e: int) {
    Occurs(x, t, e - |x|)
  }

  ghost predicate NoneEndsIn(x: Word, t: Word, from: int, to: int) {
    forall e | from <= e < to :: !EndsAt(x, t, e)
  }

  /** Counted from the end, letter p of x agrees with the text before tp. */
  predicate BackHit(x: Word, t: Word, tp: int, p: int) {
    1 <= p <= |x| && 0 <= tp - p < |t| && x[|x| - p] == t[tp - p]
  }

  ghost predicate BackHits(x: Word, t: Word, tp: int, from: int, to: int) {
    forall p | from <= p < to && p <= |x| :: BackHit(x, t, tp, p)
  }

  lemma EndsBackHits(x: Word, t: Word, tp: int)
    requires |x| > 0
    ensures EndsAt(x, t, tp) <==> BackHits(x, t, tp, 1, |x| + 1)
  {
    var j := tp - |x|;
    OccursHits(x, t, j);
    if Occurs(x, t, j) {
      forall p | 1 <= p <= |x| ensures BackHit(x, t, tp, p) {
        assert Hit(x, t, j, |x| - p);
      }
    }
    if BackHits(x, t, tp, 1, |x| + 1) {
      forall q | 0 <= q < |x| ensures Hit(x, t, j, q) {
        assert BackHit(x, t, tp, |x| - q);
      }
    }
  }

  lemma MissEndsNothing(x: Word, t: Word, tp: int, p: int)
    requires 1 <= p <= |x| && !BackHit(x, t, tp, p)
    ensures !EndsAt(x, t, tp)
  {
    EndsBackHits(x, t, tp);
  }

  // ----- safe shifts ------------------------------------------------------------------------

  /** The entry for i: the least shift agreeing with the last i + 1 letters. */
  ghost predicate IsShiftEntry(x: Word, i: int, d: int) {
    IsSuffixShift(x, i + 1, d)
  }

  /** An entry of delta: the distance to the last earlier occurrence, truncated to a byte. */
  ghost predicate IsDelta1(x: Word, c: int, d: int)
    requires |x| >= 1
  {
    exists full: nat :: IsLastDistance(x, |x| - 1, c, full) && d == full % 256
  }

  /** The i - 1 last letters match and letter i from the end does not: no occurrence ends before
    * the window shifted by the table entry.
    */
  lemma SuffixShiftIsSafe(x: Word, t: Word, from: nat, tp: nat, i: nat, d: nat)
    requires 2 <= i <= |x| <= tp <= |t|
    requires NoneEndsIn(x, t, from, tp)
    requires BackHits(x, t, tp, 1, i) && !BackHit(x, t, tp, i)
    requires IsShiftEntry(x, i - 2, d)
    ensures NoneEndsIn(x, t, from, tp + d)
  {
    MissEndsNothing(x, t, tp, i);
    forall e | tp < e < tp + d ensures !EndsAt(x, t, e) {
      if EndsAt(x, t, e) {
        OccurrenceAgrees(x, t, tp, i - 1, e - tp);
      }
    }
  }

  lemma OccurrenceAgrees(x: Word, t: Word, tp: nat, s: nat, d: nat)
    requires 1 <= s < |x| <= tp <= |t| && 1 <= d
    requires BackHits(x, t, tp, 1, s + 1) && EndsAt(x, t, tp + d)
    ensures AgreesWithSuffix(x, s, d)
  {
    var e := tp + d;
    EndsBackHits(x, t, e);
    forall r | 0 <= r < |x| - d && |x| - s - d <= r ensures Repeats(x, r, d) {
      assert BackHit(x, t, tp, |x| - d - r);
      assert BackHit(x, t, e, |x| - r);
    }
  }

  /** After the shift the matched letters still match: the verifier may skip them. */
  lemma SuffixStillMatches(x: Word, t: Word, tp: nat, i: nat, d: nat)
    requires 2 <= i <= |x| <= tp <= |t|
    requires BackHits(x, t, tp, 1, i)
    requires IsShiftEntry(x, i - 2, d)
    ensures 1 <= d <= |x| && (tp + d <= |t| ==> BackHits(x, t, tp + d, d + 1, d + i))
  {
    var e := tp + d;
    if e <= |t| {
      forall p | d < p < d + i && p <= |x| ensures BackHit(x, t, e, p) {
        assert BackHit(x, t, tp, p - d);
        assert Repeats(x, |x| - p, d);
      }
    }
  }

  /** A byte other than the last pattern byte: shifting by its delta1 entry is safe. */
  lemma Delta1IsSafe(x: Word, t: Word, from: nat, tp: nat, d: nat)
    requires 1 <= |x| <= tp <= |t| && t[tp - 1] != x[|x| - 1]
    requires NoneEndsIn(x, t, from, tp)
    requires IsDelta1(x, t[tp - 1], d)
    ensures NoneEndsIn(x, t, from, tp + d)
  {
    var full: nat :| IsLastDistance(x, |x| - 1, t[tp - 1], full) && d == full % 256;
    forall e | tp <= e < tp + d ensures !EndsAt(x, t, e) {
      MissEndsNothing(x, t, e, 1 + e - tp);
    }
  }

  /** Entries of delta are positive for patterns of at most 255 bytes. */
  lemma Delta1IsPositive(x: Word, c: int, d: int)
    requires 1 <= |x| <= 255 && IsDelta1(x, c, d)
    ensures 1 <= d <= |x|
  {
  }

  // ----- the engine ------------------------------------------------------------------------

  /** What the engine promises: the first position of the pattern, -1 if there is none. */
  ghost predicate IsAnswer(x: Word, t: Word, r: int) {
    if r == -1 then forall i :: !Occurs(x, t, i) else r >= 0 && Occurs(x, t, r) && NoneBefore(x, t, r)
  }

  class KwsetEngine {
    var target: seq<byte>
    var mind: nat
    var delta: array<byte>
    var shift: array<nat>
    var gc1: byte
    var gc2: byte

    /** The engine holds the tables of its pattern. Table entries of delta are truncated to a
      * byte, which loses nothing for patterns of at most 255 bytes.
      */
    ghost predicate Valid()
      reads this, delta, shift
    {
      && mind == |target| >= 1
      && delta.Length == 256
      && (forall c | 0 <= c < 256 :: IsDelta1(target, c, delta[c]))
      && shift.Length == mind - 1
      && (forall i | 0 <= i < mind - 1 :: IsShiftEntry(target, i, shift[i]))
      && gc1 == target[mind - 1]
      && (mind >= 2 ==> gc2 == target[mind - 2])
    }

    /** kwset_engine_init. */
    constructor (pat: seq<byte>)
      requires |pat| >= 1
      ensures Valid() && target == pat && fresh(delta) && fresh(shift)
    {
      mind := |pat|;
      target := pat;
      delta := new byte[256];
      shift := new nat[|pat| - 1];
      gc1 := pat[|pat| - 1];
      gc2 := if |pat| >= 2 then pat[|pat| - 2] else 0;
      new;
      BuildDelta1(pat);
      BuildDelta2(pat);
    }

    /** build_delta1. */
    method BuildDelta1(pat: seq<byte>)
      requires |pat| >= 1 && delta.Length == 256
      modifies delta
      ensures forall c | 0 <= c < 256 :: IsDelta1(pat, c, delta[c])
    {
      var m := |pat|;
      for i := 0 to 256
        invariant forall c | 0 <= c < i :: delta[c] == m % 256
      {
        delta[i] := m % 256;
      }
      ghost var full: seq<nat> := seq(256, _ => m);
      for i := 0 to m - 1
        invariant |full| == 256
        invariant forall c | 0 <= c < 256 :: IsLastDistance(pat, i, c, full[c]) && delta[c] == full[c] % 256
      {
        delta[pat[i]] := (m - 1 - i) % 256;
        full := full[pat[i] := m - 1 - i];
      }
      forall c | 0 <= c < 256 ensures IsDelta1(pat, c, delta[c]) {
        assert IsLastDistance(pat, m - 1, c, full[c]);
      }
    }

    /** build_delta2. */
    method BuildDelta2(pat: seq<byte>)
      requires |pat| >= 1
      modifies this`shift
      ensures fresh(shift) && shift.Length == |pat| - 1
      ensures forall i | 0 <= i < |pat| - 1 :: IsShiftEntry(pat, i, shift[i])
    {
      shift := new nat[|pat| - 1];
      var fail := FailureFunction(pat);
      for i := 0 to |pat| - 1
        invariant fresh(shift) && shift.Length == |pat| - 1
        invariant forall n | 0 <= n <= |pat| :: IsFailure(pat, n, fail[n])
        invariant forall k | 0 <= k < i :: IsShiftEntry(pat, k, shift[k])
      {
        var d := FullSuffixShift(pat, i + 1);
        if d == |pat| {
          d := BorderShift(pat, i + 1, fail);
        }
        shift[i] := d;
      }
    }

    /** Compare backwards from letter p on: i is the first mismatch, or limit + 1. */
    method ScanBack(text: seq<byte>, tp: nat, p: nat, limit: nat) returns (i: nat)
      requires Valid() && 1 <= p && limit <= mind <= tp <= |text|
      ensures p <= i && (i <= limit + 1 || i == p)
      ensures BackHits(target, text, tp, p, i)
      ensures i <= limit ==> !BackHit(target, text, tp, i)
    {
      i := p;
      while i <= limit && text[tp - i] == target[mind - i]
        invariant p <= i && (i <= limit + 1 || i == p)
        invariant BackHits(target, text, tp, p, i)
      {
        i := i + 1;
      }
    }

    /** The window that ends at e ends with another byte than the pattern: tp is where its table
      * entry leads.
      */
    ghost predicate GivesUpAt(text: seq<byte>, e: nat, tp: nat)
      reads this, delta
      requires 0 < e <= |text| && delta.Length == 256
    {
      text[e - 1] != gc1 && tp == e + delta[text[e - 1]]
    }

    /** bm_delta2_search: tp and ep are ends of windows of the text. On success the window of
      * the leftmost occurrence that ends at or after the entry position is returned, by its
      * start; on failure no occurrence ends between the entry and the returned position, which
      * is past ep unless a window was reached whose last byte is not the pattern's.
      */
    method BmDelta2Search(text: seq<byte>, tp0: nat, ep: nat) returns (found: bool, tp: nat)
      requires Valid() && 2 <= mind
      requires mind <= tp0 <= ep <= |text| && text[tp0 - 1] == gc1
      ensures found ==> tp0 <= tp + mind <= ep && EndsAt(target, text, tp + mind)
      ensures found ==> NoneEndsIn(target, text, tp0, tp + mind)
      ensures !found ==> tp0 < tp && NoneEndsIn(target, text, tp0, tp)
      ensures !found ==> tp > ep || exists e | tp0 < e <= ep :: GivesUpAt(text, e, tp)
    {
      hide IsShiftEntry, EndsAt, NoneEndsIn, IsDelta1, BackHits, BackHit;
      tp := tp0;
      var len := mind;
      var d: nat, skip: nat := len, 0;
      NoneEndsYet(target, text, tp);
      while true
        invariant tp0 <= tp <= ep && len == mind
        invariant text[tp - 1] == gc1
        invariant 1 <= d <= len
        invariant NoneEndsIn(target, text, tp0, tp)
        invariant BackHits(target, text, tp, d + 1, d + skip + 1)
        decreases ep - tp
      {
        var i := 2;
        OneBackHit(target, text, tp, 1);
        OneBackHit(target, text, tp, 2);
        if text[tp - 2] == gc2 {
          i := ScanBack(text, tp, 3, d);
          JoinBackHits(target, text, tp, 2, i);
          if i > d {
            i := ScanBack(text, tp, d + skip + 1, len);
            JoinKnownHits(target, text, tp, d, skip, i);
            if i > len {
              AllBackHits(target, text, tp, i);
              return true, tp - len;
            }
          }
        }
        d := shift[i - 2];
        SuffixShiftIsSafe(target, text, tp0, tp, i, d);
        SuffixStillMatches(target, text, tp, i, d);
        tp := tp + d;
        if tp > ep {
          break;
        }
        if text[tp - 1] != gc1 {
          Delta1IsSafe(target, text, tp0, tp, delta[text[tp - 1]]);
          assert GivesUpAt(text, tp, tp + delta[text[tp - 1]]);
          tp := tp + delta[text[tp - 1]];
          break;
        }
        skip := i - 1;
      }
      return false, tp;
    }

    /** The last loop of kwset_engine_search, entered with the window that ends at tp0. A table entry
      * is never zero for patterns of two to 255 bytes, so the loop walks off the text without ever
      * calling the verifier and reports no match, whatever the text holds.
      */
    method SearchTail(text: seq<byte>, tp0: nat) returns (r: int)
      requires Valid() && 2 <= mind <= 255 && mind <= tp0 <= |text|
      ensures r == -1
    {
      var tp, ep := tp0, |text|;
      var d: int := delta[text[tp - 1]];
      Delta1IsPositive(target, text[tp - 1], d);
      while d <= ep - tp
        invariant mind <= tp <= ep && d > 0
        decreases ep - tp
      {
        tp := tp + d;
        d := delta[text[tp - 1]];
        Delta1IsPositive(target, text[tp - 1], d);
        if d != 0 {
          continue;
        }
      }
      return -1;
    }

    /** kwset_engine_search on a text of at most twelve pattern lengths, which goes straight to the
      * last loop.
      */
    method SearchShortText(text: seq<byte>) returns (r: int)
      requires Valid() && 2 <= mind <= 255 && |text| <= 12 * mind
      ensures r == -1
      ensures IsAnswer(target, text, r) <==> forall i :: !Occurs(target, text, i)
    {
      if mind > |text| {
        return -1;
      }
      r := SearchTail(text, mind);
    }
  }

  /** The answer for the pattern "ab" in the text "ab" is wrong. */
  method ShortestMissedMatch() returns (r: int)
    ensures r == -1 && Occurs([97, 98], [97, 98], 0) && !IsAnswer([97, 98], [97, 98], r)
  {
    var pat: seq<byte> := [97, 98];
    assert Occurs(pat, pat, 0);
    var ks := new KwsetEngine(pat);
    r := ks.SearchShortText(pat);
  }

  // ----- bookkeeping of the verifier's matched positions -------------------------------------

  lemma NoneEndsYet(x: Word, t: Word, tp: nat)
    ensures NoneEndsIn(x, t, tp, tp) && BackHits(x, t, tp, |x| + 1, |x| + 1)
  {
  }

  lemma OneBackHit(x: Word, t: Word, tp: nat, p: nat)
    requires 1 <= p <= |x| <= tp <= |t|
    requires p == 1 || BackHits(x, t, tp, 1, p)
    ensures BackHit(x, t, tp, p) <==> x[|x| - p] == t[tp - p]
    ensures BackHit(x, t, tp, p) ==> BackHits(x, t, tp, 1, p + 1)
  {
  }

  lemma JoinBackHits(x: Word, t: Word, tp: nat, a: nat, b: nat)
    requires BackHits(x, t, tp, 1, a + 1) && BackHits(x, t, tp, a + 1, b)
    ensures BackHits(x, t, tp, 1, b)
  {
  }

  /** The letters compared up to d, the letters known to match, and those compared after them. */
  lemma JoinKnownHits(x: Word, t: Word, tp: nat, d: nat, skip: nat, i: nat)
    requires BackHits(x, t, tp, 1, d + 1) || (d < 3 && BackHits(x, t, tp, 1, 3))
    requires BackHits(x, t, tp, d + 1, d + skip + 1) && BackHits(x, t, tp, d + skip + 1, i)
    ensures BackHits(x, t, tp, 1, i)
  {
  }

  lemma AllBackHits(x: Word, t: Word, tp: nat, i: nat)
    requires |x| > 0 && i > |x| && BackHits(x, t, tp, 1, i)
    ensures EndsAt(x, t, tp)
  {
    EndsBackHits(x, t, tp);
  }
}
