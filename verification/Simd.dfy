/** The memchr variants of simd.c. */
module Simd {
  import opened Options
  import opened Words
  import opened LaneMasks

  /** r is the first position of c in s. */
  ghost predicate IsFirstByte(s: seq<byte>, c: byte, r: Option<nat>) {
    match r
    case Some(i) => i < |s| && s[i] == c && c !in s[..i]
    case None => c !in s
  }

  /** scalar_memchr. */
  method ScalarMemchr(s: seq<byte>, c: byte) returns (r: Option<nat>)
    ensures IsFirstByte(s, c, r)
  {
    r := ScanBytes(s, c, 0);
  }

  /** The scalar loop that ends every variant. */
  method ScanBytes(s: seq<byte>, c: byte, from: nat) returns (r: Option<nat>)
    requires from <= |s| && c !in s[..from]
    ensures IsFirstByte(s, c, r)
  {
    for i := from to |s|
      invariant c !in s[..i]
    {
      if s[i] == c {
        return Some(i);
      }
      assert s[..i + 1] == s[..i] + [s[i]];
    }
    assert s[..|s|] == s;
    return None;
  }

  /** One block of a vector loop: the first match in the block, if any. */
  lemma BlockFirst(s: seq<byte>, c: byte, i: nat, width: nat)
    requires i + width <= |s| && c !in s[..i]
    ensures CompareMask(s, i, width, c) == 0 ==> c !in s[..i + width]
    ensures CompareMask(s, i, width, c) != 0 ==> IsFirstByte(s, c, Some(i + Ctz(CompareMask(s, i, width, c))))
  {
    var lanes := EqualLanes(s, i, width, c);
    CtzMask(lanes);
    var n := if MaskOf(lanes) == 0 then width else Ctz(MaskOf(lanes));
    forall k | 0 <= k < i + n ensures s[k] != c {
      if i <= k {
        assert lanes[k - i] == lanes[..n][k - i];
      } else {
        assert s[k] == s[..i][k];
      }
    }
  }

  /** The vector loop of one lane width: either the first match, or where it stopped. */
  method ScanBlocks(s: seq<byte>, c: byte, from: nat, width: nat) returns (r: Option<nat>, i: nat)
    requires width > 0 && from <= |s| && c !in s[..from]
    ensures r.Some? ==> IsFirstByte(s, c, r)
    ensures r.None? ==> from <= i <= |s| < i + width && c !in s[..i]
  {
    i := from;
    while i + width <= |s|
      invariant from <= i <= |s| && c !in s[..i]
    {
      var mask := CompareMask(s, i, width, c);
      BlockFirst(s, c, i, width);
      if mask != 0 {
        return Some(i + Ctz(mask)), i;
      }
      i := i + width;
    }
    return None, i;
  }

  /** sse2_memchr: 16 lanes, then bytes. */
  method Sse2Memchr(s: seq<byte>, c: byte) returns (r: Option<nat>)
    ensures IsFirstByte(s, c, r)
  {
    var i;
    r, i := ScanBlocks(s, c, 0, 16);
    if r.None? {
      r := ScanBytes(s, c, i);
    }
  }

  /** avx2_memchr: 32 lanes, then 16, then bytes. */
  method Avx2Memchr(s: seq<byte>, c: byte) returns (r: Option<nat>)
    ensures IsFirstByte(s, c, r)
  {
    var i;
    r, i := ScanBlocks(s, c, 0, 32);
    if r.None? {
      r, i := ScanBlocks(s, c, i, 16);
    }
    if r.None? {
      r := ScanBytes(s, c, i);
    }
  }

  /** avx512_memchr: 64 lanes, then 32, then bytes. */
  method Avx512Memchr(s: seq<byte>, c: byte) returns (r: Option<nat>)
    ensures IsFirstByte(s, c, r)
  {
    var i;
    r, i := ScanBlocks(s, c, 0, 64);
    if r.None? {
      r, i := ScanBlocks(s, c, i, 32);
    }
    if r.None? {
      r := ScanBytes(s, c, i);
    }
  }

  /** The first position is unique, so all variants agree. */
  lemma FirstByteIsUnique(s: seq<byte>, c: byte, r1: Option<nat>, r2: Option<nat>)
    requires IsFirstByte(s, c, r1) && IsFirstByte(s, c, r2)
    ensures r1 == r2
  {
    if r1.Some? && r2.Some? {
      forall k | 0 <= k < r1.value ensures s[k] != c { assert s[k] == s[..r1.value][k]; }
      forall k | 0 <= k < r2.value ensures s[k] != c { assert s[k] == s[..r2.value][k]; }
    }
  }

  datatype Target = Avx512 | Avx2 | Sse2 | Scalar

  /** simd_get_memchr, by the instruction set compiled for. */
  method Memchr(target: Target, s: seq<byte>, c: byte) returns (r: Option<nat>)
    ensures IsFirstByte(s, c, r)
  {
    match target
    case Avx512 => r := Avx512Memchr(s, c);
    case Avx2 => r := Avx2Memchr(s, c);
    case Sse2 => r := Sse2Memchr(s, c);
    case Scalar => r := ScalarMemchr(s, c);
  }

  const NEWLINE: byte := 10

  /** simd_find_newline: the distance to the first newline, or the length. */
  method FindNewline(target: Target, data: seq<byte>) returns (n: nat)
    ensures n <= |data| && NEWLINE !in data[..n]
    ensures n < |data| ==> data[n] == NEWLINE
  {
    var r := Memchr(target, data, NEWLINE);
    if r.None? {
      assert data[..|data|] == data;
      return |data|;
    }
    return r.value;
  }
}
