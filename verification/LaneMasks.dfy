/** Lane masks as the SIMD code uses them: movemask, ctz, popcount, and clearing the lowest set
  * bit with x & (x - 1). A mask is the number whose bit i tells whether lane i matched.
  */
module LaneMasks {
  import opened Words

  /** Bit i of the mask is lane i. */
  function MaskOf(lanes: seq<bool>): nat {
    if lanes == [] then 0 else (if lanes[0] then 1 else 0) + 2 * MaskOf(lanes[1..])
  }

  /** Bitwise and. */
  function And(x: nat, y: nat): nat {
    if x == 0 || y == 0 then 0 else x % 2 * (y % 2) + 2 * And(x / 2, y / 2)
  }

  /** Number of trailing zero bits. */
  function Ctz(x: nat): nat
    requires x != 0
  {
    if x % 2 == 1 then 0 else 1 + Ctz(x / 2)
  }

  function PopCount(x: nat): nat {
    if x == 0 then 0 else x % 2 + PopCount(x / 2)
  }

  /** The number of true entries. */
  function Count(flags: seq<bool>): nat {
    if flags == [] then 0 else (if flags[0] then 1 else 0) + Count(flags[1..])
  }

  lemma {:induction false} CountConcat(a: seq<bool>, b: seq<bool>)
    ensures Count(a + b) == Count(a) + Count(b)
  {
    if a == [] {
      assert a + b == b;
    } else {
      assert (a + b)[1..] == a[1..] + b;
      CountConcat(a[1..], b);
    }
  }

  lemma {:induction false} CountCleared(flags: seq<bool>, i: nat)
    requires i < |flags|
    ensures Count(flags) == Count(flags[i := false]) + if flags[i] then 1 else 0
  {
    if i == 0 {
      assert flags[0 := false][1..] == flags[1..];
    } else {
      assert flags[i := false][1..] == flags[1..][i - 1 := false];
      CountCleared(flags[1..], i - 1);
    }
  }

  lemma {:induction false} CountNone(flags: seq<bool>)
    ensures Count(flags) == 0 <==> true !in flags
  {
    if flags != [] {
      CountNone(flags[1..]);
      assert flags == [flags[0]] + flags[1..];
    }
  }

  /** popcount of a mask is the number of matching lanes. */
  lemma {:induction false} PopCountMask(lanes: seq<bool>)
    ensures PopCount(MaskOf(lanes)) == Count(lanes)
  {
    if lanes != [] {
      PopCountMask(lanes[1..]);
      var m := MaskOf(lanes);
      assert m / 2 == MaskOf(lanes[1..]) && m % 2 == if lanes[0] then 1 else 0;
    }
  }

  /** The mask of two conditions is the bitwise and of their masks. */
  lemma {:induction false} AndMask(a: seq<bool>, b: seq<bool>)
    requires |a| == |b|
    ensures And(MaskOf(a), MaskOf(b)) == MaskOf(seq(|a|, i requires 0 <= i < |a| => a[i] && b[i]))
  {
    var c := seq(|a|, i requires 0 <= i < |a| => a[i] && b[i]);
    if a == [] {
    } else {
      AndMask(a[1..], b[1..]);
      assert c[1..] == seq(|a[1..]|, i requires 0 <= i < |a[1..]| => a[1..][i] && b[1..][i]);
      var x, y := MaskOf(a), MaskOf(b);
      assert x / 2 == MaskOf(a[1..]) && y / 2 == MaskOf(b[1..]);
      AndZero(x / 2, y / 2);
    }
  }

  lemma AndZero(x: nat, y: nat)
    ensures x == 0 || y == 0 ==> And(x, y) == 0
  {
  }

  /** A mask is zero exactly when no lane matched; otherwise ctz is the first lane that did. */
  lemma {:induction false} CtzMask(lanes: seq<bool>)
    ensures MaskOf(lanes) == 0 <==> true !in lanes
    ensures MaskOf(lanes) != 0 ==>
      var i := Ctz(MaskOf(lanes)); i < |lanes| && lanes[i] && true !in lanes[..i]
  {
    if lanes != [] {
      CtzMask(lanes[1..]);
      var m := MaskOf(lanes);
      assert lanes == [lanes[0]] + lanes[1..];
      if m != 0 {
        if lanes[0] {
          assert m % 2 == 1;
        } else {
          assert m / 2 == MaskOf(lanes[1..]) && m % 2 == 0;
          var i := Ctz(m);
          assert lanes[..i] == [lanes[0]] + lanes[1..][..i - 1];
        }
      }
    }
  }

  /** x & (x - 1) clears the lowest matching lane and leaves the others. */
  lemma {:induction false} ClearLowest(lanes: seq<bool>)
    requires MaskOf(lanes) != 0
    ensures Ctz(MaskOf(lanes)) < |lanes|
    ensures And(MaskOf(lanes), MaskOf(lanes) - 1) == MaskOf(lanes[Ctz(MaskOf(lanes)) := false])
  {
    CtzMask(lanes);
    var m := MaskOf(lanes);
    var rest := lanes[1..];
    if lanes[0] {
      assert m == 1 + 2 * MaskOf(rest);
      assert lanes[0 := false][1..] == rest;
      AndSelf(m / 2);
      AndZero(m, m - 1);
      assert (m - 1) / 2 == m / 2 && (m - 1) % 2 == 0;
    } else {
      assert m == 2 * MaskOf(rest);
      ClearLowest(rest);
      var i := Ctz(m);
      assert lanes[i := false][1..] == rest[i - 1 := false];
      assert (m - 1) / 2 == m / 2 - 1 && (m - 1) % 2 == 1;
    }
  }

  lemma {:induction false} AndSelf(x: nat)
    ensures And(x, x) == x
  {
    if x != 0 {
      AndSelf(x / 2);
    }
  }

  // ----- loads and compares ----------------------------------------------------------------

  /** The lanes of data[pos..pos + width] that equal c. */
  function EqualLanes(data: seq<byte>, pos: nat, width: nat, c: byte): (lanes: seq<bool>)
    requires pos + width <= |data|
    ensures |lanes| == width && forall i | 0 <= i < width :: lanes[i] <==> data[pos + i] == c
  {
    seq(width, i requires 0 <= i < width => data[pos + i] == c)
  }

  /** Load, compare with a broadcast byte, and movemask. */
  function CompareMask(data: seq<byte>, pos: nat, width: nat, c: byte): nat
    requires pos + width <= |data|
  {
    MaskOf(EqualLanes(data, pos, width, c))
  }
}
