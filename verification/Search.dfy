/** The counting path of search_data, and bmh_search. */
module Search {
  import opened Options
  import opened Words
  import opened LaneMasks
  import opened Simd
  import opened TwoWay

  // ----- counting occurrences --------------------------------------------------------------

  /** Which of the positions from .. to are occurrences of x in t. */
  ghost function Starts(x: Word, t: Word, from: nat, to: nat): (flags: seq<bool>)
    requires from <= to
    ensures |flags| == to - from
  {
    seq(to - from, i requires 0 <= i < to - from => Occurs(x, t, from + i))
  }

  /** The number of (overlapping) occurrences that start in from .. to. */
  ghost function Occurrences(x: Word, t: Word, from: nat, to: nat): nat
    requires from <= to
  {
    Count(Starts(x, t, from, to))
  }

  /** The number of all occurrences. */
  ghost function AllOccurrences(x: Word, t: Word): nat {
    Occurrences(x, t, 0, |t| + 1)
  }

  lemma OccurrencesSplit(x: Word, t: Word, a: nat, b: nat, c: nat)
    requires a <= b <= c
    ensures Occurrences(x, t, a, c) == Occurrences(x, t, a, b) + Occurrences(x, t, b, c)
  {
    assert Starts(x, t, a, c) == Starts(x, t, a, b) + Starts(x, t, b, c);
    CountConcat(Starts(x, t, a, b), Starts(x, t, b, c));
  }

  lemma OccurrencesOne(x: Word, t: Word, a: nat)
    ensures Occurrences(x, t, a, a + 1) == if Occurs(x, t, a) then 1 else 0
  {
    assert Starts(x, t, a, a + 1) == [Occurs(x, t, a)];
    assert Count([Occurs(x, t, a)]) == (if Occurs(x, t, a) then 1 else 0) + Count([]);
  }

  /** No occurrence starts where the needle no longer fits. */
  lemma OccurrencesEnd(x: Word, t: Word, a: nat)
    requires |t| < a + |x| && a <= |t| + 1
    ensures Occurrences(x, t, a, |t| + 1) == 0
  {
    var flags := Starts(x, t, a, |t| + 1);
    forall i | 0 <= i < |flags| ensures !flags[i] {
      assert !Occurs(x, t, a + i);
    }
    CountNone(flags);
  }

  lemma NothingCounted(x: Word, t: Word)
    ensures Occurrences(x, t, 0, 0) == 0
  {
  }

  /** The vector test of a start: first byte, last byte, then the bytes between. */
  predicate MiddleMatches(x: Word, t: Word, p: nat)
    requires |x| >= 2 && p + |x| <= |t|
  {
    t[p + 1..p + |x| - 1] == x[1..|x| - 1]
  }

  lemma OccursByParts(x: Word, t: Word, p: nat)
    requires |x| >= 2 && p + |x| <= |t|
    ensures Occurs(x, t, p) <==> t[p] == x[0] && t[p + |x| - 1] == x[|x| - 1] && MiddleMatches(x, t, p)
  {
    var w := t[p..p + |x|];
    assert w == [t[p]] + t[p + 1..p + |x| - 1] + [t[p + |x| - 1]];
    assert x == [x[0]] + x[1..|x| - 1] + [x[|x| - 1]];
    assert t[p + 1..p + |x| - 1] == w[1..|x| - 1];
  }

  lemma OccursSingle(x: Word, t: Word, p: nat)
    requires |x| == 1 && p < |t|
    ensures Occurs(x, t, p) <==> t[p] == x[0]
  {
    assert t[p..p + 1] == [t[p]] && x == [x[0]];
  }

  predicate IsAscii(b: byte) { b < 128 }

  /** The ASCII bytes are those that are the same as plain chars. */
  lemma AsciiIsNonNegative(b: byte)
    ensures IsAscii(b) <==> SignedChar(b) >= 0
    ensures IsAscii(b) <==> SignedChar(b) == b
  {
  }

  /** The scalar tails of search_data compare a plain char with an unsigned one. */
  lemma SignedCompare(b: byte, c: byte)
    ensures SignedChar(b) == c <==> b == c && IsAscii(c)
  {
  }

  /** The verification loop over one block's candidate mask: every set bit is visited once. */
  method CountCandidates(x: Word, t: Word, pos: nat, mask: nat, ghost lanes: seq<bool>) returns (n: nat)
    requires |x| >= 2 && |lanes| == 32 && pos + 31 + |x| <= |t|
    requires mask == MaskOf(lanes)
    requires forall i | 0 <= i < 32 :: Occurs(x, t, pos + i) <==> lanes[i] && MiddleMatches(x, t, pos + i)
    ensures n == Occurrences(x, t, pos, pos + 32)
  {
    hide Occurs, And, MaskOf, Ctz;
    n := 0;
    var combined := mask;
    ghost var left := lanes;
    ghost var flags := Starts(x, t, pos, pos + 32);
    CountNone(flags);
    while combined != 0
      invariant |left| == |flags| == 32 && combined == MaskOf(left)
      invariant forall i | 0 <= i < 32 :: flags[i] <==> left[i] && MiddleMatches(x, t, pos + i)
      invariant n + Count(flags) == Occurrences(x, t, pos, pos + 32)
      decreases Count(left)
    {
      CtzMask(left);
      var bit := Ctz(combined);
      var p := pos + bit;
      if t[p + 1..p + |x| - 1] == x[1..|x| - 1] {
        n := n + 1;
      }
      CountCleared(flags, bit);
      CountCleared(left, bit);
      ClearLowest(left);
      combined := And(combined, combined - 1);
      left := left[bit := false];
      flags := flags[bit := false];
    }
    CtzMask(left);
    CountNone(flags);
    assert forall i | 0 <= i < 32 :: left[i] in left;
  }

  /** The number of starts the 32-lane loop covers. */
  function BlockPart(starts: nat): nat {
    starts / 32 * 32
  }

  /** The counting path for needles of one byte. */
  method CountSingle(data: seq<byte>, needle: seq<byte>) returns (count: nat)
    requires |needle| == 1 <= |data|
    ensures count == if IsAscii(needle[0]) then AllOccurrences(needle, data)
                     else Occurrences(needle, data, 0, BlockPart(|data|))
  {
    hide Occurrences, Occurs, CompareMask, PopCount, IsAscii, SignedChar;
    var c := needle[0];
    var pos, end := 0, |data|;
    count := 0;
    NothingCounted(needle, data);
    while pos + 32 <= end
      invariant 0 <= pos <= end && pos % 32 == 0
      invariant count == Occurrences(needle, data, 0, pos)
    {
      count := count + PopCount(CompareMask(data, pos, 32, c));
      CountBlock(needle, data, pos);
      OccurrencesSplit(needle, data, 0, pos, pos + 32);
      pos := pos + 32;
    }
    ghost var blocks := pos;
    while pos < end
      invariant blocks <= pos <= end
      invariant count == Occurrences(needle, data, 0, if IsAscii(c) then pos else blocks)
    {
      OccursSingle(needle, data, pos);
      SignedCompare(data[pos], c);
      OccurrencesOne(needle, data, pos);
      OccurrencesSplit(needle, data, 0, pos, pos + 1);
      if SignedChar(data[pos]) == c {
        count := count + 1;
      }
      pos := pos + 1;
    }
    OccurrencesEnd(needle, data, pos);
    OccurrencesSplit(needle, data, 0, pos, |data| + 1);
  }

  /** The counting path for longer needles. */
  method CountMulti(data: seq<byte>, needle: seq<byte>) returns (count: nat)
    requires 2 <= |needle| <= |data|
    ensures count == if IsAscii(needle[0]) && IsAscii(needle[|needle| - 1]) then AllOccurrences(needle, data)
                     else Occurrences(needle, data, 0, BlockPart(|data| - |needle| + 1))
  {
    hide Occurrences, Occurs, CompareMask, And, IsAscii, SignedChar, MiddleMatches, MaskOf;
    var nlen := |needle|;
    var first, last := needle[0], needle[nlen - 1];
    ghost var ascii := IsAscii(first) && IsAscii(last);
    var pos, end := 0, |data| - nlen + 1;
    count := 0;
    NothingCounted(needle, data);
    while pos + 32 <= end
      invariant 0 <= pos <= end && pos % 32 == 0
      invariant count == Occurrences(needle, data, 0, pos)
    {
      var mf := CompareMask(data, pos, 32, first);
      var ml := CompareMask(data, pos + nlen - 1, 32, last);
      ghost var lanes := CandidateLanes(needle, data, pos);
      var n := CountCandidates(needle, data, pos, And(mf, ml), lanes);
      count := count + n;
      OccurrencesSplit(needle, data, 0, pos, pos + 32);
      pos := pos + 32;
    }
    ghost var blocks := pos;
    while pos + nlen <= |data|
      invariant blocks <= pos <= end
      invariant count == Occurrences(needle, data, 0, if ascii then pos else blocks)
    {
      TailStart(needle, data, pos);
      if SignedChar(data[pos]) == first && SignedChar(data[pos + nlen - 1]) == last
        && data[pos + 1..pos + nlen - 1] == needle[1..nlen - 1] {
        count := count + 1;
      }
      pos := pos + 1;
    }
    OccurrencesEnd(needle, data, pos);
    OccurrencesSplit(needle, data, 0, pos, |data| + 1);
  }

  /** One start of the scalar tail. */
  lemma TailStart(x: Word, t: Word, pos: nat)
    requires |x| >= 2 && pos + |x| <= |t|
    ensures var found := SignedChar(t[pos]) == x[0] && SignedChar(t[pos + |x| - 1]) == x[|x| - 1]
        && t[pos + 1..pos + |x| - 1] == x[1..|x| - 1];
      && (!(IsAscii(x[0]) && IsAscii(x[|x| - 1])) ==> !found)
      && (IsAscii(x[0]) && IsAscii(x[|x| - 1]) ==>
            Occurrences(x, t, 0, pos + 1) == Occurrences(x, t, 0, pos) + if found then 1 else 0)
  {
    hide Occurs, Occurrences;
    OccursByParts(x, t, pos);
    OccurrencesOne(x, t, pos);
    OccurrencesSplit(x, t, 0, pos, pos + 1);
  }

  predicate HasAsciiEnds(x: Word)
    requires |x| > 0
  {
    IsAscii(x[0]) && IsAscii(x[|x| - 1])
  }

  /** What search_data counts: starts covered by whole blocks whatever the needle, and the
    * remaining starts exactly when the needle's end bytes are ASCII.
    */
  ghost function Counted(x: Word, t: Word): nat {
    if |x| == 0 || |x| > |t| then 0
    else if HasAsciiEnds(x) then AllOccurrences(x, t)
    else Occurrences(x, t, 0, BlockPart(|t| - |x| + 1))
  }

  /** The counting path of search_data. */
  method CountMatches(data: seq<byte>, needle: seq<byte>) returns (count: nat)
    ensures count == Counted(needle, data)
  {
    if |needle| == 0 || |needle| > |data| {
      count := 0;
    } else if |needle| == 1 {
      count := CountSingle(data, needle);
    } else {
      count := CountMulti(data, needle);
    }
  }

  lemma CountBlock(x: Word, t: Word, pos: nat)
    requires |x| == 1 && pos + 32 <= |t|
    ensures PopCount(CompareMask(t, pos, 32, x[0])) == Occurrences(x, t, pos, pos + 32)
  {
    PopCountMask(EqualLanes(t, pos, 32, x[0]));
    forall i | 0 <= i < 32 ensures EqualLanes(t, pos, 32, x[0])[i] == Starts(x, t, pos, pos + 32)[i] {
      OccursSingle(x, t, pos + i);
    }
    assert EqualLanes(t, pos, 32, x[0]) == Starts(x, t, pos, pos + 32);
  }

  /** The lanes of a block where both end bytes match. */
  lemma CandidateLanes(x: Word, t: Word, pos: nat) returns (lanes: seq<bool>)
    requires |x| >= 2 && pos + 31 + |x| <= |t|
    ensures |lanes| == 32
    ensures And(CompareMask(t, pos, 32, x[0]), CompareMask(t, pos + |x| - 1, 32, x[|x| - 1])) == MaskOf(lanes)
    ensures forall i | 0 <= i < 32 :: Occurs(x, t, pos + i) <==> lanes[i] && MiddleMatches(x, t, pos + i)
  {
    var a, b := EqualLanes(t, pos, 32, x[0]), EqualLanes(t, pos + |x| - 1, 32, x[|x| - 1]);
    AndMask(a, b);
    lanes := seq(32, i requires 0 <= i < 32 => a[i] && b[i]);
    assert lanes == seq(|a|, i requires 0 <= i < |a| => a[i] && b[i]);
    forall i | 0 <= i < 32
      ensures Occurs(x, t, pos + i) <==> lanes[i] && MiddleMatches(x, t, pos + i)
    {
      OccursByParts(x, t, pos + i);
    }
  }

  /** bmh_search: memchr for the last byte, then verify; any bytes. */
  method BmhSearch(text: seq<byte>, pat: seq<byte>) returns (count: nat)
    ensures count == if |pat| == 0 then 0 else AllOccurrences(pat, text)
  {
    hide Occurrences, Occurs, IsFirstByte;
    var m, n := |pat|, |text|;
    if m == 0 || n < m {
      if m > 0 {
        OccurrencesEnd(pat, text, 0);
      }
      return 0;
    }
    count := 0;
    NothingCounted(pat, text);
    var p := m - 1;
    while p < n
      invariant m - 1 <= p <= n
      invariant count == Occurrences(pat, text, 0, p + 1 - m)
      decreases n - p
    {
      var found := ScalarMemchr(text[p..], pat[m - 1]);
      var q := if found.None? then n else p + found.value;
      FoundRange(text, p, pat[m - 1], found);
      NoStartBefore(pat, text, p, q);
      OccurrencesSplit(pat, text, 0, p + 1 - m, q + 1 - m);
      if found.None? {
        p := n;
        break;
      }
      var start := q + 1 - m;
      OccurrencesOne(pat, text, start);
      OccurrencesSplit(pat, text, 0, start, start + 1);
      if m == 1 {
        OccursSingle(pat, text, start);
        count := count + 1;
      } else {
        OccursByParts(pat, text, start);
        if text[start] == pat[0] && text[start + 1..start + m - 1] == pat[1..m - 1] {
          count := count + 1;
        }
      }
      p := q + 1;
    }
    OccurrencesEnd(pat, text, n + 1 - m);
    OccurrencesSplit(pat, text, 0, n + 1 - m, n + 1);
  }

  lemma FoundRange(t: Word, p: nat, c: byte, r: Option<nat>)
    requires p <= |t| && IsFirstByte(t[p..], c, r)
    ensures r.Some? ==> p + r.value < |t| && t[p + r.value] == c && c !in t[p..][..r.value]
    ensures r.None? ==> c !in t[p..][..|t| - p]
  {
    assert t[p..][..|t| - p] == t[p..];
  }

  /** Where the last byte does not occur, no occurrence ends. */
  lemma NoStartBefore(x: Word, t: Word, p: nat, q: nat)
    requires |x| >= 1 && |x| - 1 <= p <= q <= |t|
    requires x[|x| - 1] !in t[p..][..q - p]
    ensures Occurrences(x, t, p + 1 - |x|, q + 1 - |x|) == 0
  {
    var a := p + 1 - |x|;
    var flags := Starts(x, t, a, q + 1 - |x|);
    forall i | 0 <= i < |flags| ensures !flags[i] {
      assert t[p..][..q - p][i] == t[p + i];
      MissIsNoOccurrence(x, t, a + i, |x| - 1);
    }
    CountNone(flags);
  }

  /** The count is right on every text exactly for needles with ASCII end bytes: any other needle is
    * not even counted in itself.
    */
  lemma CountIsRightExactlyForAsciiEnds(x: Word)
    requires |x| > 0
    ensures HasAsciiEnds(x) <==> forall t: Word :: Counted(x, t) == AllOccurrences(x, t)
  {
    forall t: Word | HasAsciiEnds(x) ensures Counted(x, t) == AllOccurrences(x, t) {
      if |x| > |t| {
        OccurrencesEnd(x, t, 0);
      }
    }
    if !HasAsciiEnds(x) {
      NothingCounted(x, x);
      assert Counted(x, x) == 0;
      OccurrencesOne(x, x, 0);
      OccurrencesSplit(x, x, 0, 1, |x| + 1);
      assert x[0..0 + |x|] == x;
    }
  }

  /** Both engines count the same, on every text, for needles with ASCII end bytes. */
  method CountBothWays(data: seq<byte>, needle: seq<byte>) returns (a: nat, b: nat)
    requires |needle| > 0 ==> HasAsciiEnds(needle)
    ensures a == b
  {
    a := CountMatches(data, needle);
    b := BmhSearch(data, needle);
    if |needle| > |data| {
      OccurrencesEnd(needle, data, 0);
    }
  }
}
