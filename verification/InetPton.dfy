/** inet_pton4 and inet_pton6: the loops are proved against scanning functions, and the scanning
  * functions against the textual forms of addresses, in both directions.
  *
  * A C string is modelled without its terminator: reading at its end yields NUL.
  */
module InetPton {
  import opened Chars
  import opened Options
  import opened Words

  // ----- dotted quads ----------------------------------------------------------------------

  function DigitValue(c: char): (d: nat)
    requires IsDigit(c)
    ensures d <= 9
  {
    c as int - '0' as int
  }

  function Digit(d: nat): (c: char)
    requires d <= 9
    ensures IsDigit(c) && DigitValue(c) == d
  {
    (d + '0' as int) as char
  }

  lemma DigitByTable(d: nat)
    requires d <= 9
    ensures Digit(d) == DIGITS[d]
  {
  }

  /** The decimal text of a byte, without leading zeros. */
  function Decimal(n: byte): (s: string)
    ensures s != ""
  {
    if n < 10 then [Digit(n)]
    else if n < 100 then [Digit(n / 10), Digit(n % 10)]
    else [Digit(n / 100), Digit(n / 10 % 10), Digit(n % 10)]
  }

  /** Each octet followed by a dot. */
  function Dots(octets: seq<byte>): string {
    if octets == [] then "" else Dots(octets[..|octets| - 1]) + Decimal(octets[|octets| - 1]) + "."
  }

  /** The dotted quad of four bytes. */
  function Dotted(quad: seq<byte>): string
    requires |quad| == 4
  {
    Dots(quad[..3]) + Decimal(quad[3])
  }

  lemma DottedExample()
    ensures Dotted([192, 168, 0, 1]) == "192.168.0.1"
  {
    var quad: seq<byte> := [192, 168, 0, 1];
    assert quad[..3][..2] == quad[..2] && quad[..2][..1] == quad[..1] && quad[..1][..0] == [];
    assert Decimal(192) == "192" && Decimal(168) == "168" && Decimal(0) == "0" && Decimal(1) == "1";
    assert Dots(quad[..1]) == "192." && Dots(quad[..2]) == "192.168." && Dots(quad[..3]) == "192.168.0.";
  }

  /** The rest of inet_pton4's loop: done are the octets ended by a dot, cur the one being read. */
  function ScanQuad(s: string, done: seq<byte>, saw: bool, cur: byte): (r: Option<seq<byte>>)
    requires |done| <= 3
    ensures r.Some? ==> |r.value| == 4
  {
    if s == "" then
      if saw && |done| == 3 then Some(done + [cur]) else None
    else if IsDigit(s[0]) then
      var new_ := cur * 10 + DigitValue(s[0]);
      if (saw && cur == 0) || new_ > 255 then None else ScanQuad(s[1..], done, true, new_)
    else if s[0] == '.' && saw then
      if |done| == 3 then None else ScanQuad(s[1..], done + [cur], false, 0)
    else None
  }

  /** inet_pton4: 4 bytes are written at dst[at..] exactly when the text is a dotted quad. */
  method InetPton4(src: string, dst: array<byte>, at: nat) returns (ok: bool)
    requires at + 4 <= dst.Length
    modifies dst
    ensures ok <==> ScanQuad(src, [], false, 0).Some?
    ensures dst[..] == if ok then old(dst[..at]) + ScanQuad(src, [], false, 0).value + old(dst[at + 4..])
                       else old(dst[..])
  {
    var sawDigit, octets, tp, i := false, 0, 0, 0;
    var tmp := new byte[4];
    tmp[0] := 0;
    ghost var whole := ScanQuad(src, [], false, 0);
    while i < |src|
      invariant 0 <= i <= |src| && 0 <= tp <= 3
      invariant octets == tp + if sawDigit then 1 else 0
      invariant dst[..] == old(dst[..])
      invariant !sawDigit ==> tmp[tp] == 0
      invariant ScanQuad(src[i..], tmp[..tp], sawDigit, tmp[tp]) == whole
    {
      var ch := src[i];
      assert src[i..][1..] == src[i + 1..];
      i := i + 1;
      if '0' <= ch <= '9' {
        var new_ := tmp[tp] * 10 + DigitValue(ch);
        if sawDigit && tmp[tp] == 0 {
          return false;
        }
        if new_ > 255 {
          return false;
        }
        tmp[tp] := new_;
        if !sawDigit {
          octets := octets + 1;
          if octets > 4 {
            return false;
          }
          sawDigit := true;
        }
      } else if ch == '.' && sawDigit {
        if octets == 4 {
          return false;
        }
        tp := tp + 1;
        tmp[tp] := 0;
        sawDigit := false;
        assert tmp[..tp] == tmp[..tp - 1] + [tmp[tp - 1]];
      } else {
        return false;
      }
    }
    if octets < 4 {
      return false;
    }
    assert tmp[..] == tmp[..3] + [tmp[3]];
    forall k | 0 <= k < 4 {
      dst[at + k] := tmp[k];
    }
    return true;
  }

  /** What has been read of a quad. */
  function QuadPrefix(done: seq<byte>, saw: bool, cur: byte): string {
    Dots(done) + if saw then Decimal(cur) else ""
  }

  /** Appending a digit to the text of a positive number. */
  lemma DecimalGrows(n: byte, c: char)
    requires IsDigit(c) && n * 10 + DigitValue(c) <= 255
    ensures Decimal(n * 10 + DigitValue(c)) == (if n == 0 then "" else Decimal(n)) + [c]
  {
    var d := DigitValue(c);
    assert Digit(d) == c;
    var k := n * 10 + d;
    assert k / 10 == n && k % 10 == d;
    if n >= 10 {
      assert k / 100 == n / 10;
    }
  }

  lemma PrefixGrows(done: seq<byte>, saw: bool, cur: byte, c: char, rest: string)
    requires IsDigit(c) && cur * 10 + DigitValue(c) <= 255 && (cur == 0 <==> !saw)
    ensures QuadPrefix(done, true, cur * 10 + DigitValue(c)) + rest == QuadPrefix(done, saw, cur) + ([c] + rest)
  {
    DecimalGrows(cur, c);
  }

  /** Whatever inet_pton4 accepts is the dotted quad of the bytes it yields. */
  lemma {:induction false} ScanQuadSound(s: string, done: seq<byte>, saw: bool, cur: byte)
    requires |done| <= 3 && (!saw ==> cur == 0)
    requires ScanQuad(s, done, saw, cur).Some?
    ensures Dotted(ScanQuad(s, done, saw, cur).value) == QuadPrefix(done, saw, cur) + s
    decreases |s|
  {
    if s == "" {
      assert (done + [cur])[..3] == done;
    } else if IsDigit(s[0]) {
      ScanQuadSound(s[1..], done, true, cur * 10 + DigitValue(s[0]));
      DecimalGrows(cur, s[0]);
      PrefixGrows(done, saw, cur, s[0], s[1..]);
      assert [s[0]] + s[1..] == s;
    } else {
      ScanQuadSound(s[1..], done + [cur], false, 0);
      assert (done + [cur])[..|done|] == done;
      assert "." + s[1..] == s;
    }
  }

  lemma ScanDigit(d: nat, rest: string, done: seq<byte>, saw: bool, cur: byte)
    requires |done| <= 3 && d <= 9 && cur * 10 + d <= 255 && (saw ==> cur != 0)
    ensures ScanQuad([Digit(d)] + rest, done, saw, cur) == ScanQuad(rest, done, true, cur * 10 + d)
  {
    assert ([Digit(d)] + rest)[1..] == rest;
  }

  /** Reading the decimal text of a byte yields the byte. */
  lemma ScanDecimal(n: byte, rest: string, done: seq<byte>)
    requires |done| <= 3
    ensures ScanQuad(Decimal(n) + rest, done, false, 0) == ScanQuad(rest, done, true, n)
  {
    hide ScanQuad;
    if n < 10 {
      ScanDigit(n, rest, done, false, 0);
    } else if n < 100 {
      var tail := [Digit(n % 10)] + rest;
      assert Decimal(n) + rest == [Digit(n / 10)] + tail;
      ScanDigit(n / 10, tail, done, false, 0);
      ScanDigit(n % 10, rest, done, true, n / 10);
    } else {
      var tail := [Digit(n % 10)] + rest;
      var middle := [Digit(n / 10 % 10)] + tail;
      assert Decimal(n) + rest == [Digit(n / 100)] + middle;
      ScanDigit(n / 100, middle, done, false, 0);
      ScanDigit(n / 10 % 10, tail, done, true, n / 100);
      assert n / 100 * 10 + n / 10 % 10 == n / 10;
      ScanDigit(n % 10, rest, done, true, n / 10);
    }
  }

  lemma {:induction false} ScanDots(octets: seq<byte>, rest: string)
    requires |octets| <= 3
    ensures ScanQuad(Dots(octets) + rest, [], false, 0) == ScanQuad(rest, octets, false, 0)
    decreases |octets|
  {
    if octets == [] {
      assert Dots(octets) + rest == rest;
    } else {
      var n := |octets| - 1;
      var next := Decimal(octets[n]) + ("." + rest);
      assert Dots(octets) + rest == Dots(octets[..n]) + next;
      ScanDots(octets[..n], next);
      ScanDecimal(octets[n], "." + rest, octets[..n]);
      assert ("." + rest)[1..] == rest;
      assert octets[..n] + [octets[n]] == octets;
    }
  }

  lemma ScanQuadEnd(done: seq<byte>, cur: byte)
    requires |done| == 3
    ensures ScanQuad("", done, true, cur) == Some(done + [cur])
  {
  }

  /** inet_pton4 accepts exactly the dotted quads, and yields their bytes. */
  lemma QuadExactly(s: string, quad: seq<byte>)
    requires |quad| == 4
    ensures ScanQuad(s, [], false, 0) == Some(quad) <==> s == Dotted(quad)
  {
    ScanQuadEnd(quad[..3], quad[3]);
    hide ScanQuad;
    if ScanQuad(s, [], false, 0) == Some(quad) {
      ScanQuadSound(s, [], false, 0);
      assert QuadPrefix([], false, 0) + s == s;
    }
    if s == Dotted(quad) {
      ScanDots(quad[..3], Decimal(quad[3]));
      ScanDecimal(quad[3], "", quad[..3]);
      assert Decimal(quad[3]) + "" == Decimal(quad[3]);
      assert quad[..3] + [quad[3]] == quad;
    }
  }

  // ----- case ------------------------------------------------------------------------------

  lemma LowerCaseRest(s: string)
    requires s != ""
    ensures LowerCase(s) != "" && LowerCase(s)[0] == LowerChar(s[0]) && LowerCase(s)[1..] == LowerCase(s[1..])
  {
  }

  /** Letters of either case are refused alike. */
  lemma {:induction false} ScanQuadIgnoresCase(s: string, done: seq<byte>, saw: bool, cur: byte)
    requires |done| <= 3
    ensures ScanQuad(LowerCase(s), done, saw, cur) == ScanQuad(s, done, saw, cur)
    decreases |s|
  {
    if s != "" {
      LowerCaseRest(s);
      var next := cur * 10 + if IsDigit(s[0]) then DigitValue(s[0]) else 0;
      if IsDigit(s[0]) && next <= 255 {
        ScanQuadIgnoresCase(s[1..], done, true, next);
      } else if s[0] == '.' && |done| < 3 {
        ScanQuadIgnoresCase(s[1..], done + [cur], false, 0);
      }
    }
  }
}
