/** The fixed-string matcher of regex_engine.c and the line loop of search_regex_impl for fixed
  * patterns. Printing a match is modelled as appending a record to the output.
  */
module LineSearch {
  import opened Options
  import opened Words
  import opened Simd
  import opened TwoWay
  import opened CriticalFactorization
  import CStrcasestr

  // ----- fixed_string_insensitive_match ----------------------------------------------------

  /** The leftmost occurrence of a non-empty pattern; nothing for the empty pattern. */
  method FixedStringMatch(target: Target, data: seq<byte>, pat: seq<byte>) returns (r: Option<nat>)
    ensures |pat| == 0 ==> r.None?
    ensures |pat| > 0 ==> IsFirstOccurrence(pat, data, r)
  {
    hide Occurs, IsFirstByte;
    if |pat| == 0 {
      return None;
    }
    if |pat| > |data| {
      NoRoom(pat, data, 0);
      return None;
    }
    var i := 0;
    while i + |pat| <= |data|
      invariant 0 <= i <= |data| && NoneBefore(pat, data, i)
    {
      var found := Memchr(target, data[i..], pat[0]);
      var next := if found.None? then |data| else i + found.value;
      FirstByteSkips(pat, data, i, found);
      if found.None? {
        NoRoom(pat, data, next);
        return None;
      }
      i := next;
      if i + |pat| > |data| {
        NoRoom(pat, data, i);
        return None;
      }
      var j := 1;
      while j < |pat| && data[i + j] == pat[j]
        invariant 1 <= j <= |pat|
        invariant Hits(pat, data, i, 0, j)
      {
        j := j + 1;
      }
      OccursHits(pat, data, i);
      if j == |pat| {
        return Some(i);
      }
      assert !Hit(pat, data, i, j);
      i := i + 1;
    }
    NoRoom(pat, data, i);
    return None;
  }

  predicate IsLetter(c: byte) { 'A' as int <= c <= 'Z' as int || 'a' as int <= c <= 'z' as int }

  function Lower(s: seq<byte>): Word { Canonical(s, CStrcasestr.ToLower) }

  /** With the option to ignore case, fixed patterns still go to this matcher, which compares bytes.
    * The first occurrence is the first one up to case, in every text, exactly for patterns without
    * letters.
    */
  lemma CaseIsIgnoredExactlyWithoutLetters(pat: seq<byte>)
    ensures (forall c | c in pat :: !IsLetter(c)) <==>
      forall data: Word, r :: IsFirstOccurrence(pat, data, r) ==> IsFirstOccurrence(Lower(pat), Lower(data), r)
  {
    if forall c | c in pat :: !IsLetter(c) {
      forall data: Word, r | IsFirstOccurrence(pat, data, r) ensures IsFirstOccurrence(Lower(pat), Lower(data), r) {
        forall i ensures Occurs(Lower(pat), Lower(data), i) <==> Occurs(pat, data, i) {
          LettersDecide(pat, data, i);
        }
      }
    } else {
      var k :| 0 <= k < |pat| && IsLetter(pat[k]);
      var data := pat[k := OtherCase(pat[k])];
      OtherCaseIsMissed(pat, k);
      assert IsFirstOccurrence(pat, data, None) && Occurs(Lower(pat), Lower(data), 0);
    }
  }

  function OtherCase(c: byte): (d: byte)
    requires IsLetter(c)
    ensures d != c && CStrcasestr.ToLower(d) == CStrcasestr.ToLower(c)
  {
    if c <= 'Z' as int then c + 32 else c - 32
  }

  lemma OtherCaseIsMissed(pat: seq<byte>, k: nat)
    requires k < |pat| && IsLetter(pat[k])
    ensures var data := pat[k := OtherCase(pat[k])];
      IsFirstOccurrence(pat, data, None) && Occurs(Lower(pat), Lower(data), 0)
  {
    var data := pat[k := OtherCase(pat[k])];
    assert Lower(data) == Lower(pat);
    assert Lower(data)[0..0 + |pat|] == Lower(pat);
    MissIsNoOccurrence(pat, data, 0, k);
  }

  lemma LettersDecide(pat: seq<byte>, data: seq<byte>, i: int)
    requires forall c | c in pat :: !IsLetter(c)
    ensures Occurs(Lower(pat), Lower(data), i) <==> Occurs(pat, data, i)
  {
    if 0 <= i && i + |pat| <= |data| {
      forall q | 0 <= q < |pat| ensures Lower(pat)[q] == Lower(data)[i + q] <==> pat[q] == data[i + q] {
        assert pat[q] in pat;
      }
      SlicesAgree(pat, data, i);
      SlicesAgree(Lower(pat), Lower(data), i);
    }
  }

  lemma SlicesAgree(x: Word, t: Word, i: nat)
    requires i + |x| <= |t|
    ensures Occurs(x, t, i) <==> forall q | 0 <= q < |x| :: x[q] == t[i + q]
  {
    var w := t[i..i + |x|];
    assert forall q | 0 <= q < |x| :: w[q] == t[i + q];
    if forall q | 0 <= q < |x| :: x[q] == t[i + q] {
      assert w == x;
    }
  }

  /** Ignoring case, "A" occurs in "a"; it is not found. */
  method CaseIsNotIgnored(target: Target) returns (r: Option<nat>)
    ensures r == None && Occurs(Lower([65]), Lower([97]), 0)
  {
    r := FixedStringMatch(target, [97], [65]);
    OtherCaseIsMissed([65], 0);
    assert [65][0 := OtherCase(65)] == [97];
    assert IsFirstOccurrence([65], [97], None);
    assert !Occurs([65], [97], 0);
  }

  lemma NoRoom(x: Word, t: Word, i: nat)
    requires NoneBefore(x, t, i) && |t| < i + |x|
    ensures IsFirstOccurrence(x, t, None)
  {
  }

  /** Starts before the first occurrence of the first byte are no occurrences. */
  lemma FirstByteSkips(x: Word, t: Word, i: nat, r: Option<nat>)
    requires |x| > 0 && i <= |t| && NoneBefore(x, t, i)
    requires IsFirstByte(t[i..], x[0], r)
    ensures NoneBefore(x, t, if r.None? then |t| else i + r.value)
    ensures r.Some? ==> i + r.value < |t| && t[i + r.value] == x[0]
  {
    var n := if r.None? then |t| - i else r.value;
    assert t[i..][..|t| - i] == t[i..];
    forall k | i <= k < i + n ensures !Occurs(x, t, k) {
      assert t[i..][..n][k - i] == t[k];
      MissIsNoOccurrence(x, t, k, 0);
    }
  }

  // ----- lines -----------------------------------------------------------------------------

  /** A line of the data, without its newline, and its number counted from 1. */
  datatype Line = Line(start: nat, end: nat, number: nat)

  /** The end of the line that starts at pos. */
  function LineEnd(data: seq<byte>, pos: nat): (e: nat)
    requires pos <= |data|
    ensures pos <= e <= |data| && NEWLINE !in data[pos..e]
    ensures e < |data| ==> data[e] == NEWLINE
    decreases |data| - pos
  {
    if pos == |data| || data[pos] == NEWLINE then pos
    else
      var e := LineEnd(data, pos + 1);
      assert data[pos..e] == [data[pos]] + data[pos + 1..e];
      e
  }

  lemma LineEndIsUnique(data: seq<byte>, pos: nat, e: nat)
    requires pos <= e <= |data| && NEWLINE !in data[pos..e] && (e < |data| ==> data[e] == NEWLINE)
    ensures e == LineEnd(data, pos)
  {
    var f := LineEnd(data, pos);
    forall k | pos <= k < e ensures data[k] != NEWLINE { assert data[k] == data[pos..e][k - pos]; }
    forall k | pos <= k < f ensures data[k] != NEWLINE { assert data[k] == data[pos..f][k - pos]; }
  }

  /** The lines from pos on; a final newline ends the last line and starts none. */
  function LinesFrom(data: seq<byte>, pos: nat, number: nat): seq<Line>
    requires pos <= |data|
    decreases |data| - pos
  {
    if pos == |data| then []
    else
      var e := LineEnd(data, pos);
      [Line(pos, e, number)] + if e < |data| then LinesFrom(data, e + 1, number + 1) else []
  }

  function Newlines(data: seq<byte>): nat {
    if data == [] then 0 else Newlines(data[..|data| - 1]) + if data[|data| - 1] == NEWLINE then 1 else 0
  }

  lemma {:induction false} NewlinesOfLine(data: seq<byte>, pos: nat, e: nat)
    requires pos <= e <= |data| && NEWLINE !in data[pos..e]
    ensures Newlines(data[..e]) == Newlines(data[..pos])
    decreases e
  {
    if pos < e {
      assert data[..e][..e - 1] == data[..e - 1];
      assert data[pos..e][e - 1 - pos] == data[e - 1];
      assert data[pos..e - 1] == data[pos..e][..e - 1 - pos];
      NewlinesOfLine(data, pos, e - 1);
    }
  }

  /** What makes a sequence of lines the lines of the data from pos on. */
  ghost predicate IsLine(data: seq<byte>, l: Line) {
    && l.start <= l.end <= |data| && l.start < |data|
    && NEWLINE !in data[l.start..l.end]
    && (l.end < |data| ==> data[l.end] == NEWLINE)
    && (l.start > 0 ==> data[l.start - 1] == NEWLINE)
    && l.number == 1 + Newlines(data[..l.start])
  }

  /** Every line is a newline-delimited piece of the data and carries the right number. */
  lemma {:induction false} LinesAreLines(data: seq<byte>, pos: nat, number: nat)
    requires pos <= |data| && (pos > 0 ==> data[pos - 1] == NEWLINE)
    requires number == 1 + Newlines(data[..pos])
    ensures forall i | 0 <= i < |LinesFrom(data, pos, number)| :: IsLine(data, LinesFrom(data, pos, number)[i])
    decreases |data| - pos
  {
    hide Newlines, IsLine, LineEnd;
    if pos < |data| {
      var e := LineEnd(data, pos);
      OneLine(data, pos, number);
      if e < |data| {
        NewlinesPastLine(data, pos, e);
        LinesAreLines(data, e + 1, number + 1);
      }
    }
  }

  lemma OneLine(data: seq<byte>, pos: nat, number: nat)
    requires pos < |data| && (pos > 0 ==> data[pos - 1] == NEWLINE)
    requires number == 1 + Newlines(data[..pos])
    ensures IsLine(data, Line(pos, LineEnd(data, pos), number))
  {
    hide Newlines;
  }

  lemma NewlinesPastLine(data: seq<byte>, pos: nat, e: nat)
    requires pos <= e < |data| && NEWLINE !in data[pos..e] && data[e] == NEWLINE
    ensures Newlines(data[..e + 1]) == Newlines(data[..pos]) + 1
  {
    NewlinesOfLine(data, pos, e);
    assert data[..e + 1][..e] == data[..e];
  }

  /** One newline between two neighbours. */
  ghost predicate AreNeighbours(ls: seq<Line>) {
    forall i | 0 <= i < |ls| - 1 :: ls[i + 1].start == ls[i].end + 1
  }

  /** The lines tile the data: one newline between two neighbours, at most one after the last. */
  lemma {:induction false} LinesTile(data: seq<byte>, pos: nat, number: nat)
    requires pos <= |data|
    ensures var ls := LinesFrom(data, pos, number);
      && AreNeighbours(ls)
      && (ls == [] <==> pos == |data|)
      && (ls != [] ==> ls[0].start == pos && ls[|ls| - 1].end >= |data| - 1)
    decreases |data| - pos
  {
    hide LineEnd, AreNeighbours;
    NoNeighbours();
    if pos < |data| {
      var e := LineEnd(data, pos);
      if e < |data| {
        LinesTile(data, e + 1, number + 1);
        LineBefore(Line(pos, e, number), LinesFrom(data, e + 1, number + 1));
      } else {
        LineBefore(Line(pos, e, number), []);
      }
    }
  }

  lemma NoNeighbours()
    ensures AreNeighbours([])
  {
  }

  lemma LineBefore(l: Line, rest: seq<Line>)
    requires AreNeighbours(rest) && (rest != [] ==> rest[0].start == l.end + 1)
    ensures AreNeighbours([l] + rest)
  {
    var ls := [l] + rest;
    forall i | 0 <= i < |ls| - 1 ensures ls[i + 1].start == ls[i].end + 1 {
      assert i > 0 ==> rest[i - 1 + 1].start == rest[i - 1].end + 1;
    }
  }

  /** As many lines as newlines, and one more when the data does not end with a newline. */
  lemma {:induction false} LinesCount(data: seq<byte>, pos: nat, number: nat)
    requires pos <= |data| && (pos > 0 ==> data[pos - 1] == NEWLINE)
    ensures |LinesFrom(data, pos, number)| + Newlines(data[..pos]) ==
      Newlines(data) + if data != [] && data[|data| - 1] != NEWLINE then 1 else 0
    decreases |data| - pos
  {
    hide LineEnd, Newlines;
    assert data[..|data|] == data;
    if pos < |data| {
      var e := LineEnd(data, pos);
      if e < |data| {
        NewlinesPastLine(data, pos, e);
        LinesCount(data, e + 1, number + 1);
      } else {
        UnterminatedLine(data, pos);
      }
    }
  }

  lemma UnterminatedLine(data: seq<byte>, pos: nat)
    requires pos < |data| && NEWLINE !in data[pos..|data|]
    ensures Newlines(data) == Newlines(data[..pos]) && data[|data| - 1] != NEWLINE
  {
    hide Newlines;
    assert data[..|data|] == data;
    NewlinesOfLine(data, pos, |data|);
    assert data[pos..|data|][|data| - 1 - pos] == data[|data| - 1];
  }

  // ----- search_regex_impl -----------------------------------------------------------------

  datatype Flags = Flags(invert: bool, maxCount: int, countOnly: bool, filesWithoutMatch: bool, lineNumber: bool)

  /** One line handed to the output, with the match in it; 0, 0 when it was selected for having
    * none.
    */
  datatype Record = Record(start: nat, end: nat, number: nat, matchStart: nat, matchLength: nat)

  /** The line holds the pattern, which is not empty. */
  ghost predicate Holds(data: seq<byte>, pat: seq<byte>, l: Line)
    requires l.start <= l.end <= |data|
  {
    |pat| > 0 && exists j :: Occurs(pat, data[l.start..l.end], j)
  }

  /** The lines selected, in order: those that hold the pattern, or with invert the others. */
  ghost function Selected(data: seq<byte>, pat: seq<byte>, invert: bool, ls: seq<Line>): (r: seq<Line>)
    requires forall i | 0 <= i < |ls| :: ls[i].start <= ls[i].end <= |data|
    ensures |r| <= |ls|
  {
    if ls == [] then []
    else (if Holds(data, pat, ls[0]) != invert then [ls[0]] else []) + Selected(data, pat, invert, ls[1..])
  }

  /** Every line is selected either plainly or inverted: the two counts add up to all lines. */
  lemma {:induction false} SelectedPartition(data: seq<byte>, pat: seq<byte>, ls: seq<Line>)
    requires forall i | 0 <= i < |ls| :: ls[i].start <= ls[i].end <= |data|
    ensures |Selected(data, pat, false, ls)| + |Selected(data, pat, true, ls)| == |ls|
  {
    if ls != [] {
      SelectedPartition(data, pat, ls[1..]);
    }
  }

  lemma {:induction false} LinesInRange(data: seq<byte>, pos: nat, number: nat)
    requires pos <= |data|
    ensures forall i | 0 <= i < |LinesFrom(data, pos, number)| ::
      LinesFrom(data, pos, number)[i].start <= LinesFrom(data, pos, number)[i].end <= |data|
    decreases |data| - pos
  {
    if pos < |data| && LineEnd(data, pos) < |data| {
      LinesInRange(data, LineEnd(data, pos) + 1, number + 1);
    }
  }

  /** The lines selected plainly and those selected inverted add up to all lines: as many as there
    * are newlines, and one more when the data does not end with a newline.
    */
  lemma MatchedAndInvertedAreAll(data: seq<byte>, pat: seq<byte>)
    ensures |SelectedFrom(data, pat, false, 0, 1)| + |SelectedFrom(data, pat, true, 0, 1)|
      == Newlines(data) + if data != [] && data[|data| - 1] != NEWLINE then 1 else 0
  {
    LinesInRange(data, 0, 1);
    SelectedPartition(data, pat, LinesFrom(data, 0, 1));
    LinesCount(data, 0, 1);
  }

  ghost function SelectedFrom(data: seq<byte>, pat: seq<byte>, invert: bool, pos: nat, number: nat): seq<Line>
    requires pos <= |data|
  {
    LinesInRange(data, pos, number);
    Selected(data, pat, invert, LinesFrom(data, pos, number))
  }

  /** Two lines that hold the pattern, and a limit of one: two are counted. */
  lemma LimitOfOneCountsTwo()
    ensures ReportedCount(|SelectedFrom([97, 10, 97, 10], [97], false, 0, 1)|, 1) == 2
  {
    var data: seq<byte>, pat: seq<byte> := [97, 10, 97, 10], [97];
    assert data[0..1] == pat && data[2..3] == pat;
    LineEndIsUnique(data, 0, 1);
    LineEndIsUnique(data, 2, 3);
    assert Occurs(pat, data[0..1], 0) && Occurs(pat, data[2..3], 0);
    hide SelectedFrom;
    SelectedStep(data, pat, false, 0, 1);
    SelectedStep(data, pat, false, 2, 2);
    AtEnd(data, pat, false, 3);
  }

  /** One line of the loop. */
  lemma SelectedStep(data: seq<byte>, pat: seq<byte>, invert: bool, pos: nat, number: nat)
    requires pos < |data|
    ensures var e := LineEnd(data, pos);
      SelectedFrom(data, pat, invert, pos, number) ==
        (if Holds(data, pat, Line(pos, e, number)) != invert then [Line(pos, e, number)] else [])
        + (if e < |data| then SelectedFrom(data, pat, invert, e + 1, number + 1) else [])
  {
    var ls := LinesFrom(data, pos, number);
    LinesInRange(data, pos, number);
    var e := LineEnd(data, pos);
    assert ls[1..] == if e < |data| then LinesFrom(data, e + 1, number + 1) else [];
  }

  /** What the loop reports of the selected lines: all of them, but once the limit is exceeded the
    * count stops one above it; records are kept for at most maxCount lines.
    */
  function ReportedCount(total: nat, maxCount: int): nat {
    if maxCount > 0 && total > maxCount then maxCount + 1 else total
  }

  function ReportedRecords(total: nat, maxCount: int): nat {
    if maxCount > 0 && total > maxCount then maxCount else total
  }

  /** The record of a selected line shows the leftmost occurrence of the pattern in it, if any. */
  ghost predicate IsRecordOf(data: seq<byte>, pat: seq<byte>, flags: Flags, l: Line, r: Record) {
    && l.start <= l.end <= |data|
    && r.start == l.start && r.end == l.end && r.number == (if flags.lineNumber then l.number else 0)
    && if Holds(data, pat, l)
       then IsFirstOccurrence(pat, data[l.start..l.end], Some(r.matchStart)) && r.matchLength == |pat|
       else r.matchStart == r.matchLength == 0
  }

  predicate IsQuiet(flags: Flags) {
    flags.countOnly || flags.filesWithoutMatch
  }

  /** One record for each line, in order; none when only the count or the file is reported. */
  ghost predicate IsOutput(data: seq<byte>, pat: seq<byte>, flags: Flags, ls: seq<Line>, rs: seq<Record>) {
    if IsQuiet(flags) then rs == []
    else |rs| == |ls| && forall i | 0 <= i < |ls| :: IsRecordOf(data, pat, flags, ls[i], rs[i])
  }

  /** The length of the line that starts at pos. */
  method LineLength(target: Target, data: seq<byte>, pos: nat) returns (nl: nat)
    requires pos < |data|
    ensures pos + nl == LineEnd(data, pos)
  {
    nl := FindNewline(target, data[pos..]);
    assert data[pos..][..nl] == data[pos..pos + nl];
    LineEndIsUnique(data, pos, pos + nl);
  }

  /** The line loop. Without a limit every selected line is counted, and printed once, in order,
    * with its number; with a positive limit the count ends one above the limit when it is
    * exceeded.
    */
  method SearchLines(target: Target, data: seq<byte>, pat: seq<byte>, flags: Flags)
    returns (count: nat, output: seq<Record>)
    ensures var all := SelectedFrom(data, pat, flags.invert, 0, 1);
      && count == ReportedCount(|all|, flags.maxCount)
      && (flags.countOnly || flags.filesWithoutMatch ==> output == [])
      && (!flags.countOnly && !flags.filesWithoutMatch ==>
            |output| == (if 0 < flags.maxCount < |all| then flags.maxCount else |all|)
            && forall i | 0 <= i < |output| :: IsRecordOf(data, pat, flags, all[i], output[i]))
      && (flags.maxCount <= 0 ==> count == |all|)
      && (flags.maxCount > 0 ==> (count <= flags.maxCount <==> |all| <= flags.maxCount))
  {
    hide SelectedFrom, Holds, IsOutput, IsRecordOf, IsFirstOccurrence, LineEnd, Newlines, LinesFrom, Occurs,
         NoneBefore;
    var pos, lineNo := 0, 1;
    count, output := 0, [];
    ghost var all := SelectedFrom(data, pat, flags.invert, 0, 1);
    ghost var done: seq<Line> := [];
    NoOutput(data, pat, flags);
    while pos < |data|
      invariant pos <= |data| && lineNo >= 1
      invariant all == done + SelectedFrom(data, pat, flags.invert, pos, lineNo)
      invariant count == |done| && (flags.maxCount > 0 ==> count <= flags.maxCount)
      invariant IsOutput(data, pat, flags, done, output)
      decreases |data| - pos
    {
      var nl := LineLength(target, data, pos);
      var lineEnd := pos + nl;
      SelectedStep(data, pat, flags.invert, pos, lineNo);
      var m := FixedStringMatch(target, data[pos..lineEnd], pat);
      var line := Line(pos, lineEnd, lineNo);
      MatchIsHolds(data, pat, line, m);
      ghost var rest := if lineEnd < |data| then SelectedFrom(data, pat, flags.invert, lineEnd + 1, lineNo + 1) else [];
      var matched := m.Some? != flags.invert;
      assert all == done + (if matched then [line] else []) + rest;
      if matched {
        count := count + 1;
        if flags.maxCount > 0 && count > flags.maxCount {
          assert all[..|done|] == done;
          OutputFacts(data, pat, flags, all, |done|, output);
          return;
        }
        var (ms, ml) := if m.Some? then (m.value, |pat|) else (0, 0);
        var record := Record(pos, lineEnd, if flags.lineNumber then lineNo else 0, ms, ml);
        OutputGrows(data, pat, flags, done, output, line, record, m);
        if !flags.countOnly && !flags.filesWithoutMatch {
          output := output + [record];
        }
        done := done + [line];
      }
      if nl < |data| - pos {
        pos, lineNo := lineEnd + 1, lineNo + 1;
      } else {
        assert all == done && all[..|all|] == all;
        OutputFacts(data, pat, flags, all, |all|, output);
        return;
      }
    }
    AtEnd(data, pat, flags.invert, lineNo);
    assert all == done + [] == done;
    assert all[..|all|] == all;
    OutputFacts(data, pat, flags, all, |all|, output);
  }

  lemma OutputFacts(data: seq<byte>, pat: seq<byte>, flags: Flags, ls: seq<Line>, k: nat, rs: seq<Record>)
    requires k <= |ls| && IsOutput(data, pat, flags, ls[..k], rs)
    ensures flags.countOnly || flags.filesWithoutMatch ==> rs == []
    ensures !flags.countOnly && !flags.filesWithoutMatch ==>
      |rs| == k && forall i | 0 <= i < |rs| :: IsRecordOf(data, pat, flags, ls[i], rs[i])
  {
    assert forall i | 0 <= i < k :: ls[..k][i] == ls[i];
  }

  lemma NoOutput(data: seq<byte>, pat: seq<byte>, flags: Flags)
    ensures IsOutput(data, pat, flags, [], [])
  {
  }

  lemma OutputGrows(data: seq<byte>, pat: seq<byte>, flags: Flags, ls: seq<Line>, rs: seq<Record>, l: Line,
                    r: Record, m: Option<nat>)
    requires IsOutput(data, pat, flags, ls, rs)
    requires l.start <= l.end <= |data| && (m.Some? <==> Holds(data, pat, l))
    requires m.Some? ==> IsFirstOccurrence(pat, data[l.start..l.end], m)
    requires r == Record(l.start, l.end, if flags.lineNumber then l.number else 0,
                         if m.Some? then m.value else 0, if m.Some? then |pat| else 0)
    ensures IsOutput(data, pat, flags, ls + [l], if IsQuiet(flags) then rs else rs + [r])
  {
    assert IsRecordOf(data, pat, flags, l, r);
  }

  lemma AtEnd(data: seq<byte>, pat: seq<byte>, invert: bool, number: nat)
    ensures SelectedFrom(data, pat, invert, |data|, number) == []
  {
  }

  lemma MatchIsHolds(data: seq<byte>, pat: seq<byte>, l: Line, m: Option<nat>)
    requires l.start <= l.end <= |data|
    requires |pat| == 0 ==> m.None?
    requires |pat| > 0 ==> IsFirstOccurrence(pat, data[l.start..l.end], m)
    ensures m.Some? <==> Holds(data, pat, l)
  {
  }
}
