/** c_strcasestr: case-insensitive search in the C locale, the instantiation of the Two-Way
  * matcher whose haystack length is only learnt as the search advances.
  */
module CStrcasestr {
  import opened Options
  import opened Words
  import opened CriticalFactorization
  import opened TwoWay

  const LONG_NEEDLE_THRESHOLD := 32

  /** c_tolower on an unsigned char. */
  function ToLower(c: byte): byte {
    if 65 <= c <= 90 then c + 32 else c
  }

  /** Two bytes are equal up to case exactly if they are equal or the two cases of one ASCII letter;
    * lower case is its own lower case, and no upper-case letter.
    */
  lemma EqualUpToCase(a: byte, b: byte)
    ensures ToLower(a) == ToLower(b) <==> a == b || IsCasePair(a, b) || IsCasePair(b, a)
    ensures ToLower(ToLower(a)) == ToLower(a) && !('A' as int <= ToLower(a) <= 'Z' as int)
  {
  }

  predicate IsCasePair(upper: int, lower: int) {
    'A' as int <= upper <= 'Z' as int && lower - upper == 'a' as int - 'A' as int
  }

  /** A NUL-terminated string as the comparison sees it: lower-cased, without its terminator. */
  function Folded(s: seq<byte>): Word
    requires 0 in s
  {
    Canonical(s[..FirstNul(s)], ToLower)
  }

  /** A buffer from which n bytes, or the bytes up to a NUL, can be read. */
  predicate IsReadable(s: seq<byte>, n: nat) {
    n <= |s| || 0 in s
  }

  /** The part of s that a comparison of at most n bytes looks at: it ends before a NUL. */
  function Cut(s: seq<byte>, n: nat): (c: seq<byte>)
    requires IsReadable(s, n)
    ensures |c| <= n && c <= s && 0 !in c
    ensures |c| < n ==> |c| < |s| && s[|c|] == 0
    decreases n
  {
    if n == 0 || s[0] == 0 then [] else
      assert s == [s[0]] + s[1..];
      [s[0]] + Cut(s[1..], n - 1)
  }

  /** Both strings reach k, and agree up to case before it. */
  ghost predicate EqualBefore(s1: seq<byte>, s2: seq<byte>, n: nat, k: nat)
    requires IsReadable(s1, n) && IsReadable(s2, n)
  {
    && k <= |Cut(s1, n)| && k <= |Cut(s2, n)|
    && forall q | 0 <= q < k :: ToLower(s1[q]) == ToLower(s2[q])
  }

  /** The strings first differ at k, a terminator included, and d is the difference there. */
  ghost predicate DifferBy(s1: seq<byte>, s2: seq<byte>, n: nat, k: nat, d: int)
    requires IsReadable(s1, n) && IsReadable(s2, n)
  {
    k < n && k < |s1| && k < |s2| && EqualBefore(s1, s2, n, k) && d == ToLower(s1[k]) - ToLower(s2[k]) != 0
  }

  /** c_strncasecmp: zero exactly when the strings, cut after n bytes, agree up to case; otherwise
    * the difference of the first two bytes that do not.
    */
  method CStrncasecmp(s1: seq<byte>, s2: seq<byte>, n: nat) returns (r: int)
    requires IsReadable(s1, n) && IsReadable(s2, n)
    ensures r == 0 <==> Canonical(Cut(s1, n), ToLower) == Canonical(Cut(s2, n), ToLower)
    ensures r != 0 ==> exists k: nat :: DifferBy(s1, s2, n, k, r)
  {
    hide Cut, ToLower, Canonical, EqualBefore, IsReadable;
    if n == 0 {
      CutsAgree(s1, s2, n, 0);
      return 0;
    }
    var i: nat := 0;
    CutsAgree(s1, s2, n, 0);
    while ToLower(s1[i]) == ToLower(s2[i]) && i + 1 < n && ToLower(s1[i]) != 0
      invariant i < n && i < |s1| && i < |s2| && EqualBefore(s1, s2, n, i)
    {
      CutsGoOn(s1, s2, n, i);
      i := i + 1;
    }
    CutsAgree(s1, s2, n, i);
    r := (ToLower(s1[i]) as int) - (ToLower(s2[i]) as int);
    assert r != 0 ==> DifferBy(s1, s2, n, i, r);
  }

  /** Where the comparison may stop: at a difference, at a terminator, or after n bytes. */
  lemma CutsAgree(s1: seq<byte>, s2: seq<byte>, n: nat, i: nat)
    requires IsReadable(s1, n) && IsReadable(s2, n) && i <= n
    requires i == 0 || EqualBefore(s1, s2, n, i)
    ensures EqualBefore(s1, s2, n, i)
    ensures i < n ==> i < |s1| && i < |s2|
    ensures i < n && (ToLower(s1[i]) != ToLower(s2[i]) || ToLower(s1[i]) == 0 || i + 1 == n) ==>
      (ToLower(s1[i]) == ToLower(s2[i]) <==> Canonical(Cut(s1, n), ToLower) == Canonical(Cut(s2, n), ToLower))
    ensures i == n ==> Canonical(Cut(s1, n), ToLower) == Canonical(Cut(s2, n), ToLower)
  {
    hide Cut, ToLower, IsReadable;
    var a, b := Cut(s1, n), Cut(s2, n);
    if i < n {
      NulEnds(s1, n, i);
      NulEnds(s2, n, i);
      if ToLower(s1[i]) != ToLower(s2[i]) && i < |a| && i < |b| {
        assert Canonical(a, ToLower)[i] != Canonical(b, ToLower)[i];
      }
    }
  }

  lemma CutsGoOn(s1: seq<byte>, s2: seq<byte>, n: nat, i: nat)
    requires IsReadable(s1, n) && IsReadable(s2, n)
    requires i + 1 < n && EqualBefore(s1, s2, n, i) && i < |s1| && i < |s2|
    requires ToLower(s1[i]) == ToLower(s2[i]) != 0
    ensures EqualBefore(s1, s2, n, i + 1) && i + 1 < |s1| && i + 1 < |s2|
  {
    hide Cut, ToLower, IsReadable;
    NulEnds(s1, n, i);
    NulEnds(s2, n, i);
  }

  /** The cut ends at i exactly if there is a NUL. */
  lemma NulEnds(s: seq<byte>, n: nat, i: nat)
    requires IsReadable(s, n) && i <= |Cut(s, n)| && i < n
    ensures i < |s| && (ToLower(s[i]) == 0 <==> i == |Cut(s, n)|)
    ensures i < |Cut(s, n)| ==> s[i] == Cut(s, n)[i]
    ensures i + 1 < n && i < |Cut(s, n)| ==> i + 1 < |s|
  {
    hide Cut;
    if i < |Cut(s, n)| {
      assert Cut(s, n)[i] in Cut(s, n);
    }
  }

  /** An occurrence at j in t[1..] is one at j + 1 in t. */
  lemma OccursInRest(x: Word, t: Word, j: int)
    requires |t| > 0 && 0 <= j
    ensures Occurs(x, t, j + 1) <==> Occurs(x, t[1..], j)
  {
    if j + 1 + |x| <= |t| {
      assert t[j + 1..j + 1 + |x|] == t[1..][j..j + |x|];
    }
  }

  lemma FirstOccurrenceInRest(x: Word, t: Word, r: Option<nat>)
    requires |t| > 0 && !Occurs(x, t, 0)
    requires IsFirstOccurrence(x, t[1..], r)
    ensures IsFirstOccurrence(x, t, if r.None? then None else Some(r.value + 1))
  {
    forall j | 1 <= j ensures Occurs(x, t, j) <==> Occurs(x, t[1..], j - 1) {
      OccursInRest(x, t, j - 1);
    }
  }

  lemma FirstNulOfRest(s: seq<byte>)
    requires 0 in s && s[0] != 0
    ensures 0 in s[1..] && FirstNul(s) == FirstNul(s[1..]) + 1
    ensures Folded(s)[1..] == Folded(s[1..])
  {
    assert s == [s[0]] + s[1..];
    assert s[..FirstNul(s)][1..] == s[1..][..FirstNul(s[1..])];
  }

  /** c_strcasestr. The result is an offset from the start of the haystack. The work of finding it,
    * apart from factoring the needle, is the bytes compared and the bytes examined for a
    * terminator.
    */
  method CStrcasestr(haystackStart: seq<byte>, needleStart: seq<byte>) returns (r: Option<nat>, ghost work: nat)
    requires 0 in haystackStart && 0 in needleStart
    ensures IsFirstOccurrence(Folded(needleStart), Folded(haystackStart), r)
    ensures |Folded(needleStart)| <= |Folded(haystackStart)| ==>
      work <= 3 * |Folded(haystackStart)| - |Folded(needleStart)|
    ensures |Folded(haystackStart)| < |Folded(needleStart)| ==> work == |Folded(haystackStart)|
  {
    ghost var x, t := Folded(needleStart), Folded(haystackStart);
    var i, ok := 0, true;
    work := 0;
    TerminatorIsEnd(haystackStart, 0);
    TerminatorIsEnd(needleStart, 0);
    while haystackStart[i] != 0 && needleStart[i] != 0
      invariant 0 <= i <= |t| && i <= |x| && work == i
      invariant haystackStart[i] == 0 <==> i == |t|
      invariant needleStart[i] == 0 <==> i == |x|
      invariant ok <==> t[..i] == x[..i]
      decreases |t| - i
    {
      assert t[..i + 1] == t[..i] + [t[i]] && x[..i + 1] == x[..i] + [x[i]];
      ok := ok && ToLower(haystackStart[i]) == ToLower(needleStart[i]);
      i, work := i + 1, work + 1;
      TerminatorIsEnd(haystackStart, i);
      TerminatorIsEnd(needleStart, i);
    }
    if needleStart[i] != 0 {
      assert |t| < |x|;
      return None, work;
    }
    assert x[..i] == x && i == |x|;
    if ok {
      assert t[0..0 + |x|] == x;
      assert Occurs(x, t, 0);
      return Some(0), work;
    }
    assert !Occurs(x, t, 0);
    var needleLen := i;
    var haystack, needle := haystackStart[1..], needleStart[..needleLen];
    FirstNulOfRest(haystackStart);
    assert Text(haystack, Terminated, ToLower) == t[1..];
    ghost var comparisons, looked;
    hide DiffersOnlyAt, LastCompared;
    if needleLen < LONG_NEEDLE_THRESHOLD {
      r, comparisons, looked := TwoWayShortNeedle(haystack, needleLen - 1, needle, ToLower, Terminated);
    } else {
      r, comparisons, looked := TwoWayLongNeedle(haystack, needleLen - 1, needle, ToLower, Terminated);
    }
    work := work + comparisons + looked;
    FirstOccurrenceInRest(x, t, r);
    r := if r.None? then None else Some(r.value + 1);
  }
}
