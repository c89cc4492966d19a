/** inet_pton6: the character loop and the in-place expansion of "::" against a scanning function,
  * and the scanning function against the textual forms of IPv6 addresses (section 2.2 of
  * RFC 4291), in both directions.
  */
module InetPton6 {
  import opened Chars
  import opened Options
  import opened Words
  import InetPton

  // ----- textual forms ---------------------------------------------------------------------

  predicate IsHex(c: char) { '0' <= c <= '9' || 'a' <= c <= 'f' || 'A' <= c <= 'F' }

  function HexValue(c: char): (d: nat)
    requires IsHex(c)
    ensures d <= 15
  {
    if c <= '9' then c as int - '0' as int
    else if c <= 'F' then c as int - 'A' as int + 10
    else c as int - 'a' as int + 10
  }

  /** Exactly the characters whose lower case is in the table of digits are digits, and a digit of
    * either case has its place there as its value.
    */
  lemma HexValueByTable(c: char)
    ensures IsHex(c) <==> LowerChar(c) in XDIGITS
    ensures IsHex(c) ==> XDIGITS[HexValue(c)] == LowerChar(c)
  {
    if LowerChar(c) in XDIGITS {
      var i :| 0 <= i < |XDIGITS| && XDIGITS[i] == LowerChar(c);
    }
    if IsHex(c) {
      assert XDIGITS[HexValue(c)] in XDIGITS;
    }
  }

  /** The number a string of hexadecimal digits denotes. */
  function Number(s: string): nat
    requires forall c | c in s :: IsHex(c)
  {
    if s == "" then 0 else 16 * Number(s[..|s| - 1]) + HexValue(s[|s| - 1])
  }

  /** A group: hexadecimal digits of either case, in any number, denoting at most 0xffff. */
  predicate IsGroup(s: string) {
    s != "" && (forall c | c in s :: IsHex(c)) && Number(s) <= 0xffff
  }

  /** The bytes of a number, the high one first. */
  function TwoBytes(v: nat): (b: seq<byte>)
    requires v <= 0xffff
    ensures |b| == 2 && 256 * (b[0] as int) + b[1] == v
  {
    [v / 256, v % 256]
  }

  /** How an address text ends: after "::", with a group, or with a dotted quad. */
  datatype Tail = NoTail | LastGroup(text: string) | Quad(bytes: seq<byte>)

  /** The form of an address text: the groups before "::", if there is one, the groups that are
    * followed by a colon after it, and the end.
    */
  datatype Address = Address(left: Option<seq<string>>, groups: seq<string>, tail: Tail)

  predicate AreGroups(gs: seq<string>) {
    forall i | 0 <= i < |gs| :: IsGroup(gs[i])
  }

  /** The bytes of groups, most significant first. */
  function GroupBytes(gs: seq<string>): (b: seq<byte>)
    requires AreGroups(gs)
    ensures |b| == 2 * |gs|
  {
    if gs == [] then [] else GroupBytes(gs[..|gs| - 1]) + TwoBytes(Number(gs[|gs| - 1]))
  }

  function Colons(gs: seq<string>): string {
    if gs == [] then "" else Colons(gs[..|gs| - 1]) + gs[|gs| - 1] + ":"
  }

  predicate IsTail(t: Tail) {
    match t
    case NoTail => true
    case LastGroup(text) => IsGroup(text)
    case Quad(bytes) => |bytes| == 4
  }

  function TailBytes(t: Tail): (b: seq<byte>)
    requires IsTail(t)
    ensures |b| <= 4
  {
    match t
    case NoTail => []
    case LastGroup(text) => TwoBytes(Number(text))
    case Quad(bytes) => bytes
  }

  function TailText(t: Tail): string
    requires IsTail(t)
  {
    match t
    case NoTail => ""
    case LastGroup(text) => text
    case Quad(bytes) => InetPton.Dotted(bytes)
  }

  /** A form is well formed when its parts are, when only "::" is followed by nothing, and when
    * it denotes 16 bytes, or fewer if a "::" stands for the missing ones.
    */
  predicate IsAddress(a: Address) {
    && (a.left.Some? ==> AreGroups(a.left.value)) && AreGroups(a.groups) && IsTail(a.tail)
    && (a.tail.NoTail? ==> a.left.Some? && a.groups == [])
    && var n := 2 * |a.groups| + |TailBytes(a.tail)|;
       if a.left.Some? then 2 * |a.left.value| + n < 16 else n == 16
  }

  function Text(a: Address): string
    requires IsAddress(a)
  {
    (match a.left
     case None => ""
     case Some(left) => if left == [] then "::" else Colons(left) + ":")
    + Colons(a.groups) + TailText(a.tail)
  }

  function Zeros(n: nat): (z: seq<byte>)
    ensures |z| == n
  {
    seq(n, _ => 0)
  }

  /** The 16 bytes of an address. */
  function Bytes(a: Address): (b: seq<byte>)
    requires IsAddress(a)
    ensures |b| == 16
  {
    var right := GroupBytes(a.groups) + TailBytes(a.tail);
    match a.left
    case None => right
    case Some(left) => GroupBytes(left) + Zeros(16 - 2 * |left| - |right|) + right
  }

  // ----- the scanning function -------------------------------------------------------------

  /** After the loop: the gap is widened to fill 16 bytes; a gap in a full address, or a short
    * address without gap, is refused.
    */
  function Finish(out: seq<byte>, gap: Option<nat>): (r: Option<seq<byte>>)
    requires |out| <= 16 && (gap.Some? ==> gap.value <= |out|)
    ensures r.Some? ==> |r.value| == 16
  {
    match gap
    case Some(c) => if |out| == 16 then None else Some(out[..c] + Zeros(16 - |out|) + out[c..])
    case None => if |out| == 16 then Some(out) else None
  }

  /** The rest of inet_pton6's loop: token is what was read since curtok, out the bytes written,
    * gap the position of "::", val the value of the hexadecimal digits seen, if any.
    */
  function Scan(token: string, s: string, out: seq<byte>, gap: Option<nat>, saw: bool, val: nat)
    : (r: Option<seq<byte>>)
    requires |out| <= 16 && (gap.Some? ==> gap.value <= |out|) && val <= 0xffff
    ensures r.Some? ==> |r.value| == 16
    decreases |s|
  {
    if s == "" then
      if !saw then Finish(out, gap)
      else if |out| + 2 > 16 then None
      else Finish(out + TwoBytes(val), gap)
    else if IsHex(s[0]) then
      var v := 16 * val + HexValue(s[0]);
      if v > 0xffff then None else Scan(token + [s[0]], s[1..], out, gap, true, v)
    else if s[0] == ':' then
      if !saw then
        if gap.Some? then None else Scan("", s[1..], out, Some(|out|), false, val)
      else if s[1..] == "" then None
      else if |out| + 2 > 16 then None
      else Scan("", s[1..], out + TwoBytes(val), gap, false, 0)
    else if s[0] == '.' && |out| + 4 <= 16 && InetPton.ScanQuad(token + s, [], false, 0).Some? then
      Finish(out + InetPton.ScanQuad(token + s, [], false, 0).value, gap)
    else None
  }

  // One step of the scan, by the character read.

  lemma ScanHex(token: string, s: string, out: seq<byte>, gap: Option<nat>, saw: bool, val: nat)
    requires |out| <= 16 && (gap.Some? ==> gap.value <= |out|) && val <= 0xffff
    requires s != "" && IsHex(s[0])
    ensures Scan(token, s, out, gap, saw, val) ==
      if 16 * val + HexValue(s[0]) > 0xffff then None
      else Scan(token + [s[0]], s[1..], out, gap, true, 16 * val + HexValue(s[0]))
  {
  }

  lemma ScanColon(token: string, s: string, out: seq<byte>, gap: Option<nat>, saw: bool, val: nat)
    requires |out| <= 16 && (gap.Some? ==> gap.value <= |out|) && val <= 0xffff
    requires s != "" && s[0] == ':'
    ensures Scan(token, s, out, gap, saw, val) ==
      if !saw then (if gap.Some? then None else Scan("", s[1..], out, Some(|out|), false, val))
      else if s[1..] == "" || |out| + 2 > 16 then None
      else Scan("", s[1..], out + TwoBytes(val), gap, false, 0)
  {
  }

  lemma ScanOther(token: string, s: string, out: seq<byte>, gap: Option<nat>, saw: bool, val: nat)
    requires |out| <= 16 && (gap.Some? ==> gap.value <= |out|) && val <= 0xffff
    requires s != "" && !IsHex(s[0]) && s[0] != ':'
    ensures Scan(token, s, out, gap, saw, val) ==
      if s[0] == '.' && |out| + 4 <= 16 && InetPton.ScanQuad(token + s, [], false, 0).Some?
      then Finish(out + InetPton.ScanQuad(token + s, [], false, 0).value, gap)
      else None
  {
  }

  lemma ScanEnd(token: string, out: seq<byte>, gap: Option<nat>, saw: bool, val: nat)
    requires |out| <= 16 && (gap.Some? ==> gap.value <= |out|) && val <= 0xffff
    ensures Scan(token, "", out, gap, saw, val) ==
      if !saw then Finish(out, gap)
      else if |out| + 2 > 16 then None
      else Finish(out + TwoBytes(val), gap)
  {
  }

  /** inet_pton6 as a function of the text. */
  function Parse(src: string): (r: Option<seq<byte>>)
    ensures r.Some? ==> |r.value| == 16
  {
    if src != "" && src[0] == ':' then
      if |src| < 2 || src[1] != ':' then None else Scan("", src[1..], [], None, false, 0)
    else Scan("", src, [], None, false, 0)
  }

  // ----- the loop --------------------------------------------------------------------------

  /** colonp, -1 standing for NULL. */
  function Gap(colonp: int): Option<nat>
    requires -1 <= colonp
  {
    if colonp == -1 then None else Some(colonp)
  }

  /** The shift by hand: the bytes from colonp to tp move to the end of tmp, zeros fill the gap. */
  method ExpandGap(tmp: array<byte>, colonp: nat, tp: nat)
    requires tmp.Length == 16 && colonp <= tp < 16
    requires forall k | tp <= k < 16 :: tmp[k] == 0
    modifies tmp
    ensures tmp[..] == old(tmp[..colonp]) + Zeros(16 - tp) + old(tmp[colonp..tp])
  {
    var n := tp - colonp;
    ghost var was := tmp[..];
    for i := 1 to n + 1
      invariant forall k | 0 <= k <= tp - i :: tmp[k] == was[k]
      invariant forall k | tp - i < k <= 16 - i :: tmp[k] == 0
      invariant forall k | 16 - i < k < 16 :: tmp[k] == was[k - (16 - tp)]
    {
      tmp[16 - i] := tmp[colonp + n - i];
      tmp[colonp + n - i] := 0;
    }
  }

  /** inet_pton6. dst holds the result exactly when it returns true, and is untouched otherwise. */
  method InetPton6(src: string, dst: array<byte>) returns (ok: bool)
    requires dst.Length == 16
    modifies dst
    ensures ok <==> Parse(src).Some?
    ensures dst[..] == if ok then Parse(src).value else old(dst[..])
  {
    hide InetPton.ScanQuad, Finish, IsHex, Scan;
    var tmp := new byte[16](_ => 0);
    var tp, colonp := 0, -1;
    var i := 0;
    if |src| > 0 && src[0] == ':' {
      i := 1;
      if |src| == 1 || src[1] != ':' {
        return false;
      }
    }
    var curtok, sawXdigit := i, false;
    var val: nat := 0;
    ghost var whole := Parse(src);
    assert src[0..] == src;
    assert src[curtok..i] == "" && tmp[..tp] == [];
    while i < |src|
      invariant curtok <= i <= |src| && tp <= 16 && -1 <= colonp <= tp && val <= 0xffff
      invariant forall k | tp <= k < 16 :: tmp[k] == 0
      invariant dst[..] == old(dst[..])
      invariant !sawXdigit ==> val == 0
      invariant Scan(src[curtok..i], src[i..], tmp[..tp], Gap(colonp), sawXdigit, val) == whole
    {
      var ch := src[i];
      ghost var token, rest := src[curtok..i], src[i..];
      assert rest[1..] == src[i + 1..];
      i := i + 1;
      if IsHex(ch) {
        ScanHex(token, rest, tmp[..tp], Gap(colonp), sawXdigit, val);
        val := val * 16 + HexValue(ch);
        if val > 0xffff {
          return false;
        }
        sawXdigit := true;
        assert src[curtok..i] == token + [ch];
        continue;
      }
      if ch == ':' {
        ScanColon(token, rest, tmp[..tp], Gap(colonp), sawXdigit, val);
        curtok := i;
        assert src[curtok..i] == "";
        if !sawXdigit {
          if colonp != -1 {
            return false;
          }
          colonp := tp;
          continue;
        } else if i == |src| {
          return false;
        }
        if tp + 2 > 16 {
          return false;
        }
        tmp[tp] := val / 256;
        tmp[tp + 1] := val % 256;
        tp := tp + 2;
        assert tmp[..tp] == tmp[..tp - 2] + TwoBytes(val);
        sawXdigit := false;
        val := 0;
        continue;
      }
      ScanOther(token, rest, tmp[..tp], Gap(colonp), sawXdigit, val);
      assert token + rest == src[curtok..];
      if ch == '.' && tp + 4 <= 16 {
        ghost var before := tmp[..tp];
        var quad := InetPton.InetPton4(src[curtok..], tmp, tp);
        if quad {
          tp := tp + 4;
          sawXdigit := false;
          assert tmp[..tp] == before + InetPton.ScanQuad(src[curtok..], [], false, 0).value;
          ok := Close(tmp, tp, colonp, dst);
          return;
        }
      }
      return false;
    }
    assert src[i..] == "";
    ScanEnd(src[curtok..i], tmp[..tp], Gap(colonp), sawXdigit, val);
    if sawXdigit {
      if tp + 2 > 16 {
        return false;
      }
      tmp[tp] := val / 256;
      tmp[tp + 1] := val % 256;
      tp := tp + 2;
      assert tmp[..tp] == tmp[..tp - 2] + TwoBytes(val);
    }
    ok := Close(tmp, tp, colonp, dst);
  }

  /** The end of inet_pton6, after the loop and the last group. */
  method Close(tmp: array<byte>, tp: nat, colonp: int, dst: array<byte>) returns (ok: bool)
    requires tmp.Length == 16 && dst.Length == 16 && tmp != dst
    requires -1 <= colonp <= tp <= 16
    requires forall k | tp <= k < 16 :: tmp[k] == 0
    modifies tmp, dst
    ensures var r := Finish(old(tmp[..tp]), Gap(colonp));
      (ok <==> r.Some?) && dst[..] == if ok then r.value else old(dst[..])
  {
    ghost var out := tmp[..tp];
    var end := tp;
    if colonp != -1 {
      if tp == 16 {
        return false;
      }
      assert out[..colonp] == tmp[..colonp] && out[colonp..] == tmp[colonp..tp];
      ExpandGap(tmp, colonp, tp);
      end := 16;
    }
    if end != 16 {
      return false;
    }
    forall k | 0 <= k < 16 {
      dst[k] := tmp[k];
    }
    assert dst[..] == tmp[..];
    return true;
  }

  // ----- every well-formed text is accepted, as the bytes it denotes -------------------------

  ghost predicate IsHexText(s: string) {
    forall c | c in s :: IsHex(c)
  }

  lemma {:induction false} NumberOfPrefix(s: string, k: nat)
    requires k <= |s| && forall c | c in s :: IsHex(c)
    ensures Number(s[..k]) <= Number(s)
  {
    if k == |s| {
      assert s[..k] == s;
    } else {
      var n := |s| - 1;
      assert s[..n][..k] == s[..k];
      NumberOfPrefix(s[..n], k);
    }
  }

  lemma MoveDigit(token: string, g: string, rest: string)
    requires |g| > 0
    ensures token + [g[0]] + g[1..] == token + g
    ensures (g + rest)[0] == g[0] && (g + rest)[1..] == g[1..] + rest
    ensures (token + g)[..|token| + 1] == token + [g[0]]
    ensures (token + [g[0]])[..|token|] == token
    ensures g[0] in token + g
  {
    assert g == [g[0]] + g[1..];
    assert (token + g)[|token|] == g[0];
  }

  /** The digits of a group, read one by one. */
  lemma {:induction false} ScanDigits(token: string, g: string, rest: string, out: seq<byte>, gap: Option<nat>)
    requires |out| <= 16 && (gap.Some? ==> gap.value <= |out|)
    requires IsHexText(token) && IsHexText(token + g) && Number(token + g) <= 0xffff
    ensures Number(token) <= 0xffff
    ensures Scan(token, g + rest, out, gap, token != "", Number(token))
      == Scan(token + g, rest, out, gap, token + g != "", Number(token + g))
    decreases |g|
  {
    hide Scan, Finish;
    NumberOfPrefix(token + g, |token|);
    assert (token + g)[..|token|] == token;
    if |g| == 0 {
      assert token + g == token && g + rest == rest;
    } else {
      MoveDigit(token, g, rest);
      NumberOfPrefix(token + g, |token| + 1);
      ScanHex(token, g + rest, out, gap, token != "", Number(token));
      ScanDigits(token + [g[0]], g[1..], rest, out, gap);
    }
  }

  lemma ScanGroup(g: string, rest: string, out: seq<byte>, gap: Option<nat>)
    requires IsGroup(g) && |out| <= 16 && (gap.Some? ==> gap.value <= |out|)
    ensures Scan("", g + rest, out, gap, false, 0) == Scan(g, rest, out, gap, true, Number(g))
  {
    hide Scan;
    assert "" + g == g;
    ScanDigits("", g, rest, out, gap);
  }

  lemma {:induction false} ScanColons(gs: seq<string>, rest: string, out: seq<byte>, gap: Option<nat>)
    requires AreGroups(gs) && |out| + 2 * |gs| <= 16 && (gap.Some? ==> gap.value <= |out|) && rest != ""
    ensures Scan("", Colons(gs) + rest, out, gap, false, 0) == Scan("", rest, out + GroupBytes(gs), gap, false, 0)
    decreases |gs|
  {
    hide Scan;
    if gs == [] {
      assert Colons(gs) + rest == rest && out + GroupBytes(gs) == out;
    } else {
      var init, g := gs[..|gs| - 1], gs[|gs| - 1];
      var next := ":" + rest;
      assert Colons(gs) + rest == Colons(init) + (g + next);
      ScanColons(init, g + next, out, gap);
      ScanGroup(g, next, out + GroupBytes(init), gap);
      ScanColon(g, next, out + GroupBytes(init), gap, true, Number(g));
      assert next[1..] == rest;
      assert out + GroupBytes(gs) == out + GroupBytes(init) + TwoBytes(Number(g));
    }
  }

  lemma {:induction false} DotsStart(octets: seq<byte>) returns (rest: string)
    requires octets != []
    ensures InetPton.Dots(octets) == InetPton.Decimal(octets[0]) + ("." + rest)
  {
    hide InetPton.Decimal;
    var n := |octets| - 1;
    if n == 0 {
      rest := "";
      assert InetPton.Dots(octets[..0]) == "";
    } else {
      var r := DotsStart(octets[..n]);
      rest := r + InetPton.Decimal(octets[n]) + ".";
    }
  }

  lemma ScanQuadTail(quad: seq<byte>, out: seq<byte>, gap: Option<nat>)
    requires |quad| == 4 && |out| + 4 <= 16 && (gap.Some? ==> gap.value <= |out|)
    ensures Scan("", InetPton.Dotted(quad), out, gap, false, 0) == Finish(out + quad, gap)
  {
    var first := InetPton.Decimal(quad[0]);
    var r := DotsStart(quad[..3]);
    var next := "." + (r + InetPton.Decimal(quad[3]));
    assert InetPton.Dotted(quad) == first + next;
    DecimalIsGroup(quad[0]);
    InetPton.QuadExactly(first + next, quad);
    hide Scan, InetPton.ScanQuad;
    ScanGroup(first, next, out, gap);
    ScanOther(first, next, out, gap, true, Number(first));
  }

  function Pow16(n: nat): nat {
    if n == 0 then 1 else 16 * Pow16(n - 1)
  }

  lemma {:induction false} NumberBound(s: string)
    requires forall c | c in s :: IsHex(c)
    ensures Number(s) < Pow16(|s|)
  {
    if s != "" {
      NumberBound(s[..|s| - 1]);
    }
  }

  lemma DecimalIsGroup(n: byte)
    ensures IsGroup(InetPton.Decimal(n))
  {
    var s := InetPton.Decimal(n);
    forall c | c in s ensures IsHex(c) {
      assert IsDigit(c);
    }
    NumberBound(s);
    assert Pow16(1) == 16 && Pow16(2) == 256 && Pow16(3) == 4096;
  }

  lemma ScanTail(t: Tail, out: seq<byte>, gap: Option<nat>)
    requires IsTail(t) && |out| + |TailBytes(t)| <= 16 && (gap.Some? ==> gap.value <= |out|)
    ensures Scan("", TailText(t), out, gap, false, 0) == Finish(out + TailBytes(t), gap)
  {
    hide Scan;
    match t
    case NoTail =>
      ScanEnd("", out, gap, false, 0);
      assert out + [] == out;
    case LastGroup(text) =>
      assert text + "" == text;
      ScanGroup(text, "", out, gap);
      ScanEnd(text, out, gap, true, Number(text));
    case Quad(bytes) =>
      ScanQuadTail(bytes, out, gap);
  }

  /** What follows "::", or the whole text when there is none. */
  function RightText(a: Address): string
    requires IsTail(a.tail)
  {
    Colons(a.groups) + TailText(a.tail)
  }

  lemma ScanRight(a: Address, out: seq<byte>, gap: Option<nat>)
    requires AreGroups(a.groups) && IsTail(a.tail) && (a.tail.NoTail? ==> a.groups == [])
    requires gap.Some? ==> gap.value <= |out|
    requires |out| + 2 * |a.groups| + |TailBytes(a.tail)| <= 16
    ensures Scan("", RightText(a), out, gap, false, 0)
      == Finish(out + (GroupBytes(a.groups) + TailBytes(a.tail)), gap)
  {
    hide Scan, Finish, InetPton.Dotted, Number;
    var all := out + (GroupBytes(a.groups) + TailBytes(a.tail));
    if a.tail.NoTail? {
      assert RightText(a) == "" && all == out;
      ScanEnd("", out, gap, false, 0);
    } else {
      hide GroupBytes, Colons, IsGroup;
      TailTextStart(a.tail);
      ScanColons(a.groups, TailText(a.tail), out, gap);
      ScanTail(a.tail, out + GroupBytes(a.groups), gap);
      assert all == out + GroupBytes(a.groups) + TailBytes(a.tail);
    }
  }

  lemma TailTextStart(t: Tail)
    requires IsTail(t) && !t.NoTail?
    ensures TailText(t) != "" && TailText(t)[0] != ':'
  {
    match t
    case LastGroup(text) =>
      assert text[0] in text;
    case Quad(bytes) =>
      var rest := DotsStart(bytes[..3]);
      DecimalIsGroup(bytes[0]);
      var first := InetPton.Decimal(bytes[0]);
      assert TailText(t)[0] == first[0] && first[0] in first;
  }

  lemma {:induction false} ColonsStart(gs: seq<string>)
    requires AreGroups(gs) && gs != []
    ensures Colons(gs) != "" && Colons(gs)[0] != ':'
  {
    if |gs| == 1 {
      assert Colons(gs[..0]) == "" && gs[0][0] in gs[0];
    } else {
      ColonsStart(gs[..|gs| - 1]);
    }
  }

  /** Text(a) without the first colon of a leading "::", which the scan does not see. */
  function ScannedText(a: Address): string
    requires IsAddress(a)
  {
    (match a.left
     case None => ""
     case Some(left) => Colons(left) + ":") + RightText(a)
  }

  lemma ScannedTextStart(a: Address)
    requires IsAddress(a)
    ensures ScannedText(a) != "" && (ScannedText(a)[0] == ':' <==> a.left == Some([]))
    ensures Text(a) == (if a.left == Some([]) then ":" else "") + ScannedText(a)
  {
    hide IsGroup, IsTail, AreGroups, TailBytes, Colons, TailText;
    assert Colons([]) == "" by { NoColonsYet(); }
    if a.left.Some? {
      if a.left.value != [] {
        ColonsStart(a.left.value);
        assert Text(a) == ScannedText(a);
      } else {
        assert Text(a) == ":" + ScannedText(a);
      }
    } else {
      assert Text(a) == ScannedText(a);
      TailTextStart(a.tail);
      if a.groups != [] {
        ColonsStart(a.groups);
      }
    }
  }

  lemma ParseStarts(a: Address)
    requires IsAddress(a)
    ensures Parse(Text(a)) == Scan("", ScannedText(a), [], None, false, 0)
  {
    hide Scan, Text, ScannedText, IsAddress;
    ScannedTextStart(a);
    if a.left == Some([]) {
      assert Text(a)[1..] == ScannedText(a);
    } else {
      assert Text(a) == ScannedText(a);
    }
  }

  /** Every address text is accepted, and yields the bytes it denotes. */
  lemma ParseText(a: Address)
    requires IsAddress(a)
    ensures Parse(Text(a)) == Some(Bytes(a))
  {
    hide Scan, IsGroup, Number, TailBytes, IsTail, Colons, Text, Parse, RightText;
    ParseStarts(a);
    var s := ScannedText(a);
    match a.left
    case None =>
      assert s == RightText(a);
      ScanRight(a, [], None);
      assert [] + Bytes(a) == Bytes(a);
    case Some(left) =>
      var out := GroupBytes(left);
      var next := ":" + RightText(a);
      assert s == Colons(left) + next;
      ScanColons(left, next, [], None);
      assert [] + out == out;
      ScanColon("", next, out, None, false, 0);
      assert next[1..] == RightText(a);
      ScanRight(a, out, Some(|out|));
      var right := GroupBytes(a.groups) + TailBytes(a.tail);
      assert (out + right)[..|out|] == out && (out + right)[|out|..] == right;
  }

  // ----- whatever is accepted is a well-formed text -----------------------------------------

  /** "::" in an address that is full without it is not ignored: the text is refused. */
  lemma GapInFullAddressIsRefused(a: Address)
    requires a.left.Some? && AreGroups(a.left.value) && AreGroups(a.groups) && IsTail(a.tail)
    requires a.tail.NoTail? ==> a.groups == []
    requires 2 * |a.left.value| + 2 * |a.groups| + |TailBytes(a.tail)| == 16
    ensures Parse((if a.left.value == [] then ":" else "") + Colons(a.left.value) + ":" + RightText(a)) == None
  {
    hide Scan, IsGroup, Number, InetPton.Dotted;
    var left := a.left.value;
    var next := ":" + RightText(a);
    var s := Colons(left) + next;
    var src := (if left == [] then ":" else "") + Colons(left) + ":" + RightText(a);
    assert Parse(src) == Scan("", s, [], None, false, 0) by {
      if left == [] {
        assert src == ":" + s && src[1..] == s && s[0] == ':';
      } else {
        ColonsStart(left);
        assert src == s;
      }
    }
    var out := GroupBytes(left);
    ScanColons(left, next, [], None);
    assert [] + out == out;
    ScanColon("", next, out, None, false, 0);
    assert next[1..] == RightText(a);
    ScanRight(a, out, Some(|out|));
  }

  /** Eight groups with "::" after the seventh are refused. */
  lemma FullAddressWithGap()
    ensures Parse("1:1:1:1:1:1:1::1") == None
  {
    hide Parse, Colons, IsGroup;
    var one, left := "1", seq(7, _ => "1");
    OneIsGroup();
    assert AreGroups(left) && AreGroups([]);
    var a := Address(Some(left), [], LastGroup(one));
    GapInFullAddressIsRefused(a);
    SevenOnes();
    NoColons(a);
    assert "" + Colons(left) + ":" + RightText(a) == "1:1:1:1:1:1:1::1";
  }

  lemma OneIsGroup()
    ensures IsGroup("1")
  {
    assert "1"[..0] == "";
  }

  lemma NoColons(a: Address)
    requires IsTail(a.tail) && a.groups == []
    ensures RightText(a) == TailText(a.tail)
  {
  }

  lemma SevenOnes()
    ensures Colons(seq(7, _ => "1")) == "1:1:1:1:1:1:1:"
  {
    hide Colons;
    var gs: seq<string> := seq(7, _ => "1");
    assert gs[..0] == [] && gs[..7] == gs;
    NextColons(gs, 0);
    NextColons(gs, 1);
    NextColons(gs, 2);
    NextColons(gs, 3);
    NextColons(gs, 4);
    NextColons(gs, 5);
    NextColons(gs, 6);
    assert Colons([]) == "" by { NoColonsYet(); }
  }

  lemma NoColonsYet()
    ensures Colons([]) == ""
  {
  }

  lemma NextColons(gs: seq<string>, k: nat)
    requires k < |gs|
    ensures Colons(gs[..k + 1]) == Colons(gs[..k]) + gs[k] + ":"
  {
    assert gs[..k + 1][..k] == gs[..k];
  }

  /** What has been written and read when the scan stands at the start of a token. */
  function Written(left: Option<seq<string>>, groups: seq<string>): seq<byte>
    requires (left.Some? ==> AreGroups(left.value)) && AreGroups(groups)
  {
    (if left.Some? then GroupBytes(left.value) else []) + GroupBytes(groups)
  }

  function Read(left: Option<seq<string>>, groups: seq<string>): string {
    (if left.Some? then Colons(left.value) + ":" else "") + Colons(groups)
  }

  function GapAfter(left: Option<seq<string>>): Option<nat> {
    if left.Some? then Some(2 * |left.value|) else None
  }

  lemma WrittenGap(left: Option<seq<string>>, groups: seq<string>)
    requires (left.Some? ==> AreGroups(left.value)) && AreGroups(groups)
    ensures GapAfter(left).Some? ==> GapAfter(left).value <= |Written(left, groups)|
  {
  }

  lemma AnotherGroup(left: Option<seq<string>>, groups: seq<string>, g: string)
    requires (left.Some? ==> AreGroups(left.value)) && AreGroups(groups) && IsGroup(g)
    ensures AreGroups(groups + [g])
    ensures Written(left, groups + [g]) == Written(left, groups) + TwoBytes(Number(g))
    ensures Read(left, groups + [g]) == Read(left, groups) + g + ":"
  {
    hide IsGroup, Number;
    assert (groups + [g])[..|groups|] == groups;
  }

  lemma GapHere(groups: seq<string>)
    requires AreGroups(groups)
    ensures Written(Some(groups), []) == Written(None, groups)
    ensures Read(Some(groups), []) == Read(None, groups) + ":"
    ensures GapAfter(Some(groups)) == Some(|Written(None, groups)|)
  {
  }

  lemma {:induction false} ScanSound(token: string, s: string, left: Option<seq<string>>, groups: seq<string>)
    returns (a: Address)
    requires (left.Some? ==> AreGroups(left.value)) && AreGroups(groups)
    requires IsHexText(token) && Number(token) <= 0xffff
    requires |Written(left, groups)| <= 16
    requires token == "" && s == "" ==> groups == []
    requires Scan(token, s, Written(left, groups), GapAfter(left), token != "", Number(token)).Some?
    ensures IsAddress(a) && ScannedText(a) == Read(left, groups) + token + s
    ensures Scan(token, s, Written(left, groups), GapAfter(left), token != "", Number(token)) == Some(Bytes(a))
    decreases |s|
  {
    hide Scan, Finish, InetPton.Dotted, InetPton.ScanQuad, IsAddress, Bytes, ScannedText, Written, Read;
    var out, gap, saw, val := Written(left, groups), GapAfter(left), token != "", Number(token);
    WrittenGap(left, groups);
    if s == "" {
      a := SoundAtEnd(token, left, groups);
      assert Read(left, groups) + token + s == Read(left, groups) + token;
    } else if IsHex(s[0]) {
      ScanHex(token, s, out, gap, saw, val);
      var token' := token + [s[0]];
      assert token'[..|token|] == token;
      a := ScanSound(token', s[1..], left, groups);
      assert token + s == token' + s[1..];
    } else if s[0] == ':' {
      ScanColon(token, s, out, gap, saw, val);
      assert s == ":" + s[1..];
      if saw {
        AnotherGroup(left, groups, token);
        a := ScanSound("", s[1..], left, groups + [token]);
      } else {
        GapHere(groups);
        a := ScanSound("", s[1..], Some(groups), []);
      }
    } else {
      a := SoundAtQuad(token, s, left, groups);
    }
  }

  /** The text ends after a group, or right after "::". */
  lemma SoundAtEnd(token: string, left: Option<seq<string>>, groups: seq<string>) returns (a: Address)
    requires (left.Some? ==> AreGroups(left.value)) && AreGroups(groups)
    requires IsHexText(token) && Number(token) <= 0xffff
    requires |Written(left, groups)| <= 16
    requires token == "" ==> groups == []
    requires Scan(token, "", Written(left, groups), GapAfter(left), token != "", Number(token)).Some?
    ensures IsAddress(a) && ScannedText(a) == Read(left, groups) + token
    ensures Scan(token, "", Written(left, groups), GapAfter(left), token != "", Number(token)) == Some(Bytes(a))
  {
    hide Scan, Finish, InetPton.Dotted, InetPton.ScanQuad, IsAddress, Bytes, ScannedText, Written, Read;
    var out := Written(left, groups);
    WrittenGap(left, groups);
    ScanEnd(token, out, GapAfter(left), token != "", Number(token));
    assert out + [] == out;
    a := Address(left, groups, if token != "" then LastGroup(token) else NoTail);
    FinishIsBytes(a);
  }

  /** What is left, with the token, is a dotted quad. */
  lemma SoundAtQuad(token: string, s: string, left: Option<seq<string>>, groups: seq<string>) returns (a: Address)
    requires (left.Some? ==> AreGroups(left.value)) && AreGroups(groups)
    requires IsHexText(token) && Number(token) <= 0xffff
    requires |Written(left, groups)| <= 16
    requires s != "" && !IsHex(s[0]) && s[0] != ':'
    requires Scan(token, s, Written(left, groups), GapAfter(left), token != "", Number(token)).Some?
    ensures IsAddress(a) && ScannedText(a) == Read(left, groups) + token + s
    ensures Scan(token, s, Written(left, groups), GapAfter(left), token != "", Number(token)) == Some(Bytes(a))
  {
    hide Scan, Finish, InetPton.Dotted, InetPton.ScanQuad, IsAddress, Bytes, ScannedText, Written, Read;
    WrittenGap(left, groups);
    ScanOther(token, s, Written(left, groups), GapAfter(left), token != "", Number(token));
    var quad := InetPton.ScanQuad(token + s, [], false, 0).value;
    InetPton.QuadExactly(token + s, quad);
    assert Read(left, groups) + token + s == Read(left, groups) + (token + s);
    a := Address(left, groups, Quad(quad));
    FinishIsBytes(a);
  }

  /** A scan that finishes has read a whole address. */
  lemma FinishIsBytes(a: Address)
    requires (a.left.Some? ==> AreGroups(a.left.value)) && AreGroups(a.groups) && IsTail(a.tail)
    requires a.tail.NoTail? ==> a.groups == []
    requires |Written(a.left, a.groups)| + |TailBytes(a.tail)| <= 16
    requires Finish(Written(a.left, a.groups) + TailBytes(a.tail), GapAfter(a.left)).Some?
    ensures IsAddress(a)
    ensures Finish(Written(a.left, a.groups) + TailBytes(a.tail), GapAfter(a.left)) == Some(Bytes(a))
    ensures ScannedText(a) == Read(a.left, a.groups) + TailText(a.tail)
  {
    hide GroupBytes, Colons, IsGroup, AreGroups, TwoBytes, Number, IsTail, TailText, TailBytes;
    assert a.tail.NoTail? ==> TailBytes(a.tail) == [] by { NoTailIsEmpty(); }
    var right := GroupBytes(a.groups) + TailBytes(a.tail);
    if a.left.Some? {
      var l := GroupBytes(a.left.value);
      var all := Written(a.left, a.groups) + TailBytes(a.tail);
      assert all == l + right;
      assert all[..|l|] == l && all[|l|..] == right;
      ReadWithTail(a);
    } else {
      assert Written(a.left, a.groups) + TailBytes(a.tail) == right;
      ReadWithTail(a);
    }
  }

  lemma NoTailIsEmpty()
    ensures TailBytes(NoTail) == []
  {
  }

  lemma ReadWithTail(a: Address)
    requires IsAddress(a)
    ensures ScannedText(a) == Read(a.left, a.groups) + TailText(a.tail)
  {
    hide Colons, TailText, IsAddress;
  }

  /** Whatever inet_pton6 accepts is the text of an address whose bytes it yields. */
  lemma ParseSound(src: string) returns (a: Address)
    requires Parse(src).Some?
    ensures IsAddress(a) && Text(a) == src && Parse(src) == Some(Bytes(a))
  {
    hide Scan, Text, Bytes, IsAddress, ScannedText, IsGroup;
    var s := if src != "" && src[0] == ':' then src[1..] else src;
    assert Written(None, []) == [] && Read(None, []) + "" + s == s;
    a := ScanSound("", s, None, []);
    ScannedTextStart(a);
    assert Text(a) == src;
  }

  /** inet_pton6 accepts exactly the address texts, and yields the bytes they denote. */
  lemma ParseExactly(src: string, b: seq<byte>)
    requires |b| == 16
    ensures Parse(src) == Some(b) <==> exists a :: IsAddress(a) && Text(a) == src && Bytes(a) == b
  {
    hide Parse, Text, Bytes, IsAddress;
    if Parse(src) == Some(b) {
      var a := ParseSound(src);
    }
    if a :| IsAddress(a) && Text(a) == src && Bytes(a) == b {
      ParseText(a);
    }
  }

  // ----- printing and parsing back -----------------------------------------------------------

  function HexDigit(d: nat): (c: char)
    requires d <= 15
    ensures IsHex(c) && HexValue(c) == d
  {
    if d <= 9 then (d + '0' as int) as char else (d - 10 + 'a' as int) as char
  }

  /** The hexadecimal text of a number, in lower case and without leading zeros. */
  function HexText(v: nat): (s: string)
    ensures s != "" && IsHexText(s) && Number(s) == v
  {
    if v < 16 then
      assert [HexDigit(v)][..0] == "";
      [HexDigit(v)]
    else
      var init := HexText(v / 16);
      assert (init + [HexDigit(v % 16)])[..|init|] == init;
      init + [HexDigit(v % 16)]
  }

  function Word16(hi: byte, lo: byte): (v: nat)
    ensures v <= 0xffff && TwoBytes(v) == [hi, lo]
  {
    256 * (hi as int) + lo
  }

  /** The groups of an even number of bytes. */
  function Texts(b: seq<byte>): (gs: seq<string>)
    requires |b| % 2 == 0
    ensures |gs| == |b| / 2 && AreGroups(gs)
  {
    if b == [] then [] else Texts(b[..|b| - 2]) + [HexText(Word16(b[|b| - 2], b[|b| - 1]))]
  }

  lemma {:induction false} TextsBytes(b: seq<byte>)
    requires |b| % 2 == 0
    ensures GroupBytes(Texts(b)) == b
    decreases |b|
  {
    if b != [] {
      hide HexText, IsGroup, AreGroups, Number, TwoBytes, Word16, GroupBytes;
      var n := |b| - 2;
      TextsBytes(b[..n]);
      GroupBytesGrow(Texts(b[..n]), b[n], b[n + 1]);
      assert b[..n] + [b[n], b[n + 1]] == b;
    }
  }

  lemma GroupBytesGrow(gs: seq<string>, hi: byte, lo: byte)
    requires AreGroups(gs)
    ensures AreGroups(gs + [HexText(Word16(hi, lo))])
    ensures GroupBytes(gs + [HexText(Word16(hi, lo))]) == GroupBytes(gs) + [hi, lo]
  {
    hide HexText, TwoBytes, Word16;
    var g := HexText(Word16(hi, lo));
    assert (gs + [g])[..|gs|] == gs;
  }

  /** The groups at from.. up to to are zero, and there is one. */
  predicate IsZeroRun(b: seq<byte>, from: nat, to: nat) {
    from < to <= 8 && |b| == 16 && forall k | 2 * from <= k < 2 * to :: b[k] == 0
  }

  /** The printed form of the bytes after "::", or of all bytes. */
  function Ending(right: seq<byte>, dotted: bool): (e: (seq<string>, Tail))
    requires |right| % 2 == 0 && (dotted ==> |right| >= 4)
    ensures AreGroups(e.0) && IsTail(e.1)
  {
    var n := |right|;
    if dotted then (Texts(right[..n - 4]), Quad(right[n - 4..]))
    else if n == 0 then ([], NoTail)
    else (Texts(right[..n - 2]), LastGroup(HexText(Word16(right[n - 2], right[n - 1]))))
  }

  lemma EndingBytes(right: seq<byte>, dotted: bool)
    requires |right| % 2 == 0 && (dotted ==> |right| >= 4)
    ensures var (groups, tail) := Ending(right, dotted);
      GroupBytes(groups) + TailBytes(tail) == right && (tail.NoTail? ==> groups == [] && right == [])
  {
    hide HexText, Texts, IsGroup, TwoBytes, Word16;
    var n := |right|;
    if dotted {
      TextsBytes(right[..n - 4]);
    } else if n > 0 {
      TextsBytes(right[..n - 2]);
      assert right[..n - 2] + [right[n - 2], right[n - 1]] == right;
    }
  }

  /** The bytes before, and from, group k. */
  function UpTo(b: seq<byte>, k: nat): (r: seq<byte>)
    requires |b| == 16 && k <= 8
    ensures |r| == 2 * k && |r| % 2 == 0
  {
    b[..2 * k]
  }

  function From(b: seq<byte>, k: nat): (r: seq<byte>)
    requires |b| == 16 && k <= 8
    ensures |r| == 16 - 2 * k && |r| % 2 == 0
  {
    b[2 * k..]
  }

  /** A printed form of 16 bytes: hexadecimal groups, any one run of zero groups written "::" if
    * wanted, and the last four bytes as a dotted quad if wanted and not inside the run.
    */
  function Print(b: seq<byte>, run: Option<(nat, nat)>, dotted: bool): (a: Address)
    requires |b| == 16
    requires run.Some? ==> IsZeroRun(b, run.value.0, run.value.1) && (dotted ==> run.value.1 <= 6)
  {
    if run.Some? then
      var (groups, tail) := Ending(From(b, run.value.1), dotted);
      Address(Some(Texts(UpTo(b, run.value.0))), groups, tail)
    else
      var (groups, tail) := Ending(b, dotted);
      Address(None, groups, tail)
  }

  lemma PrintBytes(b: seq<byte>, run: Option<(nat, nat)>, dotted: bool)
    requires |b| == 16
    requires run.Some? ==> IsZeroRun(b, run.value.0, run.value.1) && (dotted ==> run.value.1 <= 6)
    ensures IsAddress(Print(b, run, dotted)) && Bytes(Print(b, run, dotted)) == b
  {
    hide Number, HexText, Texts, GroupBytes, TwoBytes, Word16, IsGroup, Ending, TailBytes;
    if run.Some? {
      var (i, j) := run.value;
      EndingBytes(b[2 * j..], dotted);
      TextsBytes(b[..2 * i]);
      assert Zeros(2 * j - 2 * i) == b[2 * i..2 * j];
      assert b[..2 * i] + b[2 * i..2 * j] + b[2 * j..] == b;
    } else {
      EndingBytes(b, dotted);
    }
  }

  // ----- case ------------------------------------------------------------------------------

  lemma LowerCaseAppend(s: string, c: char)
    ensures LowerCase(s + [c]) == LowerCase(s) + [LowerChar(c)]
  {
  }

  lemma {:induction false} ScanIgnoresCase(token: string, s: string, out: seq<byte>, gap: Option<nat>, saw: bool,
                                           val: nat)
    requires |out| <= 16 && (gap.Some? ==> gap.value <= |out|) && val <= 0xffff
    ensures Scan(LowerCase(token), LowerCase(s), out, gap, saw, val) == Scan(token, s, out, gap, saw, val)
    decreases |s|
  {
    hide Scan, Finish, InetPton.ScanQuad, TwoBytes, HexValue;
    var low := LowerCase(s);
    if s == "" {
      ScanEnd(token, out, gap, saw, val);
      ScanEnd(LowerCase(token), out, gap, saw, val);
      assert low == "";
    } else {
      var c := s[0];
      InetPton.LowerCaseRest(s);
      HexValueByTable(c);
      if IsHex(c) {
        SameValue(c);
        ScanHex(token, s, out, gap, saw, val);
        ScanHex(LowerCase(token), low, out, gap, saw, val);
        LowerCaseAppend(token, c);
        if 16 * val + HexValue(c) <= 0xffff {
          ScanIgnoresCase(token + [c], s[1..], out, gap, true, 16 * val + HexValue(c));
        }
      } else if c == ':' {
        ScanColon(token, s, out, gap, saw, val);
        ScanColon(LowerCase(token), low, out, gap, saw, val);
        assert LowerCase("") == "";
        if !saw && gap.None? {
          ScanIgnoresCase("", s[1..], out, Some(|out|), false, val);
        } else if saw && |out| + 2 <= 16 {
          ScanIgnoresCase("", s[1..], out + TwoBytes(val), gap, false, 0);
        }
      } else {
        NoHexInLowerCase(c);
        ScanOther(token, s, out, gap, saw, val);
        ScanOther(LowerCase(token), low, out, gap, saw, val);
        InetPton.ScanQuadIgnoresCase(token + s, [], false, 0);
        assert LowerCase(token + s) == LowerCase(token) + low;
      }
    }
  }

  lemma SameValue(c: char)
    requires IsHex(c)
    ensures IsHex(LowerChar(c)) && HexValue(LowerChar(c)) == HexValue(c)
  {
  }

  lemma NoHexInLowerCase(c: char)
    requires !IsHex(c) && c != ':'
    ensures !IsHex(LowerChar(c)) && LowerChar(c) != ':' && (LowerChar(c) == '.' <==> c == '.')
  {
  }

  /** The case of letters does not matter. */
  lemma ParseIgnoresCase(src: string)
    ensures Parse(LowerCase(src)) == Parse(src)
  {
    hide Scan;
    assert LowerCase("") == "";
    if src != "" {
      InetPton.LowerCaseRest(src);
      if src[0] == ':' {
        if |src| >= 2 {
          InetPton.LowerCaseRest(src[1..]);
        }
        ScanIgnoresCase("", src[1..], [], None, false, 0);
      } else {
        ScanIgnoresCase("", src, [], None, false, 0);
      }
    } else {
      assert LowerCase(src) == src;
    }
  }

  /** Round trip in any case: a text whose lower case is a printed form is read back. */
  lemma PrintParseAnyCase(src: string, b: seq<byte>, run: Option<(nat, nat)>, dotted: bool)
    requires |b| == 16
    requires run.Some? ==> IsZeroRun(b, run.value.0, run.value.1) && (dotted ==> run.value.1 <= 6)
    requires IsAddress(Print(b, run, dotted)) && LowerCase(src) == Text(Print(b, run, dotted))
    ensures Parse(src) == Some(b)
  {
    hide Print, Parse, IsAddress, Text;
    PrintParse(b, run, dotted);
    ParseIgnoresCase(src);
  }

  /** Round trip: however 16 bytes are printed, inet_pton6 reads them back. */
  lemma PrintParse(b: seq<byte>, run: Option<(nat, nat)>, dotted: bool)
    requires |b| == 16
    requires run.Some? ==> IsZeroRun(b, run.value.0, run.value.1) && (dotted ==> run.value.1 <= 6)
    ensures IsAddress(Print(b, run, dotted))
    ensures Parse(Text(Print(b, run, dotted))) == Some(b)
  {
    hide Print, Parse;
    PrintBytes(b, run, dotted);
    ParseText(Print(b, run, dotted));
  }
}
