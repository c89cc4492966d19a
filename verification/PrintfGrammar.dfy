/** The grammar of char formats, independent of how printf_parse reads them: a format is text
  * without percent signs interspersed with directives, a directive a percent sign followed by an
  * optional argument number, flags, a width, a precision, a size and a conversion. The reading
  * of PrintfFormat is proved to accept exactly this grammar, and to record what it denotes.
  */
module PrintfGrammar {
  import opened Options
  import opened Chars
  import opened PrintfFormat

  /** Which argument is meant: the next unnumbered one, or the one that digits number from 1. */
  datatype Reference = Next | Nth(digits: string)

  /** A width or a precision. */
  datatype Amount = Absent | Digits(text: string) | Star(arg: Reference)

  datatype Spec = Spec(
    arg: Reference, flags: string, width: Amount, precision: Amount, size: string, conversion: char)

  predicate AreDigits(s: string) { forall c | c in s :: IsDigit(c) }

  function Value(s: string): nat
    requires AreDigits(s)
  {
    if s == "" then 0 else
      assert s[|s| - 1] in s;
      10 * Value(s[..|s| - 1]) + (s[|s| - 1] as int - '0' as int)
  }

  // ----- the texts -------------------------------------------------------------------------

  /** Argument numbers are positive and below SIZE_MAX. */
  predicate IsReference(r: Reference) {
    r.Nth? ==> AreDigits(r.digits) && 0 < Value(r.digits) < SIZE_MAX
  }

  /** A width has digits, and does not start with a zero, which is a flag. */
  predicate IsWidth(a: Amount) {
    match a
    case Absent => true
    case Digits(t) => AreDigits(t) && t != "" && t[0] != '0'
    case Star(r) => IsReference(r)
  }

  predicate IsPrecision(a: Amount) {
    match a
    case Absent => true
    case Digits(t) => AreDigits(t)
    case Star(r) => IsReference(r)
  }

  /** The integer width a size specifier stands for, and whether it makes floating-point values
    * long double.
    */
  function SizeNamed(s: string): Option<(Width, bool)> {
    if s == "" then Some((Int, false))
    else if s == "hh" then Some((SChar, false))
    else if s == "h" then Some((Short, false))
    else if s == "l" then Some((Long, false))
    else if s == "ll" || s == "L" then Some((LongLong, true))
    else if s == "j" || s == "z" || s == "Z" || s == "t" then Some((Long, false))
    else if s == "w8" then Some((Exact(8), false))
    else if s == "w16" then Some((Exact(16), false))
    else if s == "w32" then Some((Exact(32), false))
    else if s == "w64" then Some((Exact(64), false))
    else if s == "wf8" then Some((Fast(8), false))
    else if s == "wf16" then Some((Fast(16), false))
    else if s == "wf32" then Some((Fast(32), false))
    else if s == "wf64" then Some((Fast(64), false))
    else None
  }

  /** What a conversion converts. */
  datatype Kind =
    | SignedInteger | UnsignedInteger | FloatingPoint | Character | WideCharacter | CharString | WideCharString
    | Address | Counter | PercentSign

  /** The kinds by their conversion characters. */
  function KindOf(c: char): Option<Kind> {
    if c in "di" then Some(SignedInteger)
    else if c in "bBouxX" then Some(UnsignedInteger)
    else if c in "aAeEfFgG" then Some(FloatingPoint)
    else if c in "c" then Some(Character)
    else if c in "C" then Some(WideCharacter)
    else if c in "s" then Some(CharString)
    else if c in "S" then Some(WideCharString)
    else if c in "p" then Some(Address)
    else if c in "n" then Some(Counter)
    else if c in "%" then Some(PercentSign)
    else None
  }

  /** The type of a value: l and ll make characters and strings wide, ll and L values long double. */
  function TypeNamed(kind: Kind, width: Width, longDouble: bool): ArgType {
    var wide := width in {Long, LongLong};
    match kind
    case SignedInteger => Signed(width)
    case UnsignedInteger => Unsigned(width)
    case FloatingPoint => if longDouble then LongDouble else Double
    case Character => if wide then WideChar else Char
    case WideCharacter => WideChar
    case CharString => if wide then WideString else String
    case WideCharString => WideString
    case Address => Pointer
    case Counter => CountPointer(width)
    case PercentSign => NoType
  }

  /** The type of the value of a directive. */
  function TypeOf(s: Spec): Option<ArgType> {
    match (SizeNamed(s.size), KindOf(s.conversion))
    case (Some((width, longDouble)), Some(kind)) => Some(TypeNamed(kind, width, longDouble))
    case _ => None
  }

  /** The character recorded: that of the kind, whether it is wide or not. */
  function RecordedAs(c: char): char {
    match KindOf(c)
    case Some(WideCharacter) => 'c'
    case Some(WideCharString) => 's'
    case _ => c
  }

  const FLAGS := "'-+ #0I"

  predicate AreFlags(s: string) { forall c | c in s :: c in FLAGS }

  predicate IsSpec(s: Spec) {
    && IsReference(s.arg) && AreFlags(s.flags)
    && IsWidth(s.width) && IsPrecision(s.precision) && TypeOf(s).Some?
  }

  function ReferenceText(r: Reference): string {
    match r
    case Next => ""
    case Nth(digits) => digits + "$"
  }

  function WidthText(a: Amount): string {
    match a
    case Absent => ""
    case Digits(t) => t
    case Star(r) => "*" + ReferenceText(r)
  }

  function PrecisionText(a: Amount): string {
    match a
    case Absent => ""
    case Digits(t) => "." + t
    case Star(r) => ".*" + ReferenceText(r)
  }

  function SpecText(s: Spec): string {
    "%" + (ReferenceText(s.arg)
           + (s.flags + (WidthText(s.width) + (PrecisionText(s.precision) + (s.size + [s.conversion])))))
  }

  // ----- what they denote ------------------------------------------------------------------

  /** The index of the argument meant, when posn unnumbered ones were used before. */
  function IndexOf(r: Reference, posn: nat): nat
    requires IsReference(r)
  {
    match r
    case Next => posn
    case Nth(digits) => Value(digits) - 1
  }

  function NextsOf(r: Reference): nat { if r.Next? then 1 else 0 }

  function StarNexts(a: Amount): nat { if a.Star? then NextsOf(a.arg) else 0 }

  /** The number of unnumbered arguments a directive uses: its width, its precision, its value. */
  function Nexts(s: Spec): nat
    requires IsSpec(s)
  {
    StarNexts(s.width) + StarNexts(s.precision) + if TypeOf(s).value == NoType then 0 else NextsOf(s.arg)
  }

  /** The record of a directive that stands at start, when posn unnumbered arguments were used
    * before it: where its parts are, and the index of each argument it uses.
    */
  function RecordOf(s: Spec, start: nat, posn: nat): (d: Directive)
    requires IsSpec(s) && posn + Nexts(s) <= SIZE_MAX
  {
    var width := start + 1 + |ReferenceText(s.arg)| + |s.flags|;
    var precision := width + |WidthText(s.width)|;
    var afterWidth := posn + StarNexts(s.width);
    var afterPrecision := afterWidth + StarNexts(s.precision);
    Directive(
      start, start + |SpecText(s)|, set c | c in s.flags,
      if s.width.Absent? then None else Some(width),
      (match s.width case Absent => 0 case Digits(t) => width + |t| case Star(_) => width + 1),
      if s.width.Star? then IndexOf(s.width.arg, posn) else ARG_NONE,
      if s.precision.Absent? then None else Some(precision),
      (match s.precision case Absent => 0 case Digits(t) => precision + 1 + |t| case Star(_) => precision + 2),
      if s.precision.Star? then IndexOf(s.precision.arg, afterWidth) else ARG_NONE,
      RecordedAs(s.conversion),
      if TypeOf(s).value == NoType then ARG_NONE else IndexOf(s.arg, afterPrecision))
  }

  /** The text of s stands in f at start. */
  predicate StandsAt(f: string, start: nat, s: string) {
    start <= |f| && s <= f[start..]
  }

  /** d and ty are the record and the value type of the directive at d.dirStart, when posn
    * unnumbered arguments were used before it, and p up to its end.
    */
  ghost predicate IsDirective(f: string, posn: nat, d: Directive, ty: ArgType, p: nat) {
    exists s: Spec :: IsDirectiveOf(s, f, posn, d, ty, p)
  }

  ghost predicate IsDirectiveOf(s: Spec, f: string, posn: nat, d: Directive, ty: ArgType, p: nat) {
    && IsSpec(s) && StandsAt(f, d.dirStart, SpecText(s))
    && p == posn + Nexts(s) <= SIZE_MAX
    && d == RecordOf(s, d.dirStart, posn) && Some(ty) == TypeOf(s)
  }

  // ----- positions and texts ---------------------------------------------------------------

  /** What follows a piece of text. */
  lemma After(f: string, cp: nat, piece: string, rest: string)
    requires cp <= |f| && f[cp..] == piece + rest
    ensures cp + |piece| <= |f| && f[cp + |piece|..] == rest && f[cp..cp + |piece|] == piece
    ensures rest != "" ==> At(f, cp + |piece|) == rest[0]
    ensures forall i | 0 <= i < |piece| :: f[cp + i] == piece[i]
  {
    assert f[cp + |piece|..] == f[cp..][|piece|..];
    forall i | 0 <= i < |piece| ensures f[cp + i] == piece[i] {
      assert f[cp..][i] == (piece + rest)[i];
    }
    assert f[cp..cp + |piece|] == f[cp..][..|piece|];
  }

  lemma {:induction false} DecimalIsValue(f: string, a: nat, b: nat)
    requires AllDigits(f, a, b)
    ensures AreDigits(f[a..b]) && DecimalValue(f, a, b) == Value(f[a..b])
    decreases b
  {
    if a < b {
      DecimalIsValue(f, a, b - 1);
      assert f[a..b][..b - a - 1] == f[a..b - 1];
    }
  }

  lemma {:induction false} DigitsEndIs(f: string, cp: nat, digits: string, rest: string)
    requires IsFormat(f) && cp <= |f| && f[cp..] == digits + rest
    requires AreDigits(digits) && (rest == "" || !IsDigit(rest[0]))
    ensures DigitsEnd(f, cp) == cp + |digits|
    decreases |digits|
  {
    After(f, cp, digits, rest);
    if digits != "" {
      assert digits[0] in digits && f[cp + 0] == digits[0];
      assert f[cp + 1..] == digits[1..] + rest by {
        assert f[cp + 1..] == f[cp..][1..];
      }
      DigitsEndIs(f, cp + 1, digits[1..], rest);
    }
  }

  lemma {:induction false} FlagsEndIs(f: string, cp: nat, flags: string, rest: string)
    requires IsFormat(f) && cp <= |f| && f[cp..] == flags + rest
    requires AreFlags(flags) && rest != "" && !IsFlag(rest[0])
    ensures FlagsEnd(f, cp) == cp + |flags|
    decreases |flags|
  {
    After(f, cp, flags, rest);
    if flags != "" {
      assert flags[0] in flags && f[cp + 0] == flags[0];
      FlagsAgree(flags[0]);
      assert f[cp + 1..] == flags[1..] + rest by {
        assert f[cp + 1..] == f[cp..][1..];
      }
      FlagsEndIs(f, cp + 1, flags[1..], rest);
    }
  }

  // ----- argument references ---------------------------------------------------------------

  /** The first character of t that is no digit is no dollar sign: t starts with no number. */
  ghost predicate LeadsNoDollar(t: string) {
    exists k | 0 <= k < |t| :: FirstNonDigit(t, k) && t[k] != '$'
  }

  predicate FirstNonDigit(t: string, k: nat)
    requires k < |t|
  {
    AreDigits(t[..k]) && !IsDigit(t[k])
  }

  lemma LeadsPlainly(t: string)
    requires t != "" && !IsDigit(t[0]) && t[0] != '$'
    ensures LeadsNoDollar(t)
  {
    assert FirstNonDigit(t, 0);
  }

  lemma LeadsAfterDigits(digits: string, t: string)
    requires AreDigits(digits) && LeadsNoDollar(t)
    ensures LeadsNoDollar(digits + t)
  {
    var k :| 0 <= k < |t| && FirstNonDigit(t, k) && t[k] != '$';
    assert (digits + t)[..|digits| + k] == digits + t[..k];
    assert FirstNonDigit(digits + t, |digits| + k);
  }

  /** Where the text has a reference, the test for a positional argument finds it. */
  lemma ReferenceIsRead(f: string, cp: nat, r: Reference, rest: string)
    requires IsFormat(f) && cp <= |f| && f[cp..] == ReferenceText(r) + rest
    requires IsReference(r) && (r.Next? ==> LeadsNoDollar(rest))
    ensures PositionOf(f, cp) == match r
      case Next => NoPosition
      case Nth(digits) => Numbered(Value(digits) - 1, cp + |ReferenceText(r)|)
  {
    hide DigitsEnd, LeadsNoDollar, DecimalValue, Value;
    match r
    case Next => NoReferenceIsRead(f, cp, rest);
    case Nth(digits) =>
      NumberEnds(f, cp, digits, rest);
      NumbersHaveDigits(digits);
  }

  lemma NoReferenceIsRead(f: string, cp: nat, rest: string)
    requires IsFormat(f) && cp <= |f| && f[cp..] == rest && LeadsNoDollar(rest)
    ensures PositionOf(f, cp) == NoPosition
  {
    hide DigitsEnd, DecimalValue;
    var k :| 0 <= k < |rest| && FirstNonDigit(rest, k) && rest[k] != '$';
    assert f[cp..] == rest[..k] + rest[k..];
    DigitsEndIs(f, cp, rest[..k], rest[k..]);
    After(f, cp, rest[..k], rest[k..]);
  }

  lemma NumberEnds(f: string, cp: nat, digits: string, rest: string)
    requires IsFormat(f) && cp <= |f| && f[cp..] == digits + "$" + rest && AreDigits(digits)
    ensures DigitsEnd(f, cp) == cp + |digits| && At(f, cp + |digits|) == '$'
    ensures AllDigits(f, cp, cp + |digits|) && DecimalValue(f, cp, cp + |digits|) == Value(digits)
  {
    hide DigitsEnd, DecimalValue, Value, IsFormat;
    assert f[cp..] == digits + ("$" + rest);
    DigitsEndIs(f, cp, digits, "$" + rest);
    After(f, cp, digits, "$" + rest);
    DecimalIsValue(f, cp, cp + |digits|);
  }

  lemma NumbersHaveDigits(digits: string)
    requires AreDigits(digits) && Value(digits) > 0
    ensures digits != ""
  {
  }

  /** What the test for a positional argument finds is a reference. */
  lemma ReadIsReference(f: string, cp: nat) returns (r: Reference)
    requires IsFormat(f) && cp <= |f| && !PositionOf(f, cp).BadNumber?
    ensures IsReference(r)
    ensures var p := PositionOf(f, cp);
      if p.NoPosition? then r == Next
      else r.Nth? && p.index == Value(r.digits) - 1 && f[cp..p.next] == ReferenceText(r)
  {
    var e := DigitsEnd(f, cp);
    if PositionOf(f, cp).NoPosition? {
      return Next;
    }
    DecimalIsValue(f, cp, e);
    assert f[cp..e + 1] == f[cp..e] + "$";
    return Nth(f[cp..e]);
  }

  lemma StarIsRead(f: string, cp: nat, posn: nat, r: Reference, rest: string)
    requires IsFormat(f) && cp <= |f| && f[cp..] == ReferenceText(r) + rest
    requires IsReference(r) && LeadsNoDollar(rest) && posn + NextsOf(r) <= SIZE_MAX
    ensures StarOf(f, cp, posn) == Some((IndexOf(r, posn), cp + |ReferenceText(r)|, posn + NextsOf(r)))
  {
    ReferenceIsRead(f, cp, r, rest);
  }

  lemma ReadIsStar(f: string, cp: nat, posn: nat) returns (r: Reference)
    requires IsFormat(f) && cp <= |f| && posn <= SIZE_MAX && StarOf(f, cp, posn).Some?
    ensures IsReference(r) && posn + NextsOf(r) <= SIZE_MAX
    ensures var (index, next, p) := StarOf(f, cp, posn).value;
      index == IndexOf(r, posn) && f[cp..next] == ReferenceText(r) && p == posn + NextsOf(r)
  {
    r := ReadIsReference(f, cp);
    if r.Next? {
      assert f[cp..cp] == "";
    }
  }

  // ----- sizes and conversions -------------------------------------------------------------

  /** The beginning of a size or a conversion: nothing that could belong to what precedes it. */
  predicate IsPlainStart(t: string) {
    t != "" && !IsDigit(t[0]) && t[0] != '$' && t[0] != '*' && !IsFlag(t[0])
  }

  lemma ConversionStart(s: Size, c: char)
    requires TypeFor(s, c).Some?
    ensures IsPlainStart([c]) && c != '.' && c !in "hljzZtwL"
  {
  }

  lemma SizeStart(s: Spec, tail: string)
    requires TypeOf(s).Some?
    ensures var t := s.size + ([s.conversion] + tail); IsPlainStart(t) && t[0] != '.'
  {
    var (width, longDouble) := SizeNamed(s.size).value;
    TypesAgree(Size(width, longDouble, 0), s.conversion);
    ConversionStart(Size(width, longDouble, 0), s.conversion);
  }

  /** The reading's conversions and the table agree, character by character and size by size. */
  lemma TypesAgree(s: Size, c: char)
    ensures TypeFor(s, c) == match KindOf(c)
      case None => None
      case Some(kind) => Some(TypeNamed(kind, s.width, s.longDouble))
    ensures Recorded(c) == RecordedAs(c)
  {
  }

  lemma FlagsAgree(c: char)
    ensures IsFlag(c) <==> c in FLAGS
  {
  }

  lemma SizeIsRead(f: string, cp: nat, size: string, c: char, tail: string)
    requires IsFormat(f) && cp <= |f| && f[cp..] == size + ([c] + tail)
    requires SizeNamed(size).Some? && c !in "hljzZtwL"
    ensures SizeAt(f, cp) == Size(SizeNamed(size).value.0, SizeNamed(size).value.1, cp + |size|)
    ensures cp + |size| < |f| && f[cp + |size|] == c
  {
    After(f, cp, size, [c] + tail);
    assert |size| > 0 ==> f[cp + 0] == size[0];
    assert |size| > 1 ==> f[cp + 1] == size[1];
    assert |size| > 2 ==> f[cp + 2] == size[2];
    assert |size| > 3 ==> f[cp + 3] == size[3];
  }

  lemma ReadIsSize(f: string, cp: nat)
    requires IsFormat(f) && cp <= |f|
    ensures var s := SizeAt(f, cp); SizeNamed(f[cp..s.next]) == Some((s.width, s.longDouble))
  {
    var s := SizeAt(f, cp);
    var t := f[cp..s.next];
    assert |t| == s.next - cp <= 4;
    assert t == SizeLetters(f, cp, |t|);
  }

  function SizeLetters(f: string, cp: nat, n: nat): string
    requires cp + n <= |f| && n <= 4
  {
    if n == 0 then ""
    else if n == 1 then [f[cp]]
    else if n == 2 then [f[cp], f[cp + 1]]
    else if n == 3 then [f[cp], f[cp + 1], f[cp + 2]]
    else [f[cp], f[cp + 1], f[cp + 2], f[cp + 3]]
  }

  // ----- widths and precisions -------------------------------------------------------------

  /** The width as the reading records it. */
  function WithWidth(d: Directive, a: Amount, at: nat, posn: nat): Directive
    requires IsWidth(a)
  {
    match a
    case Absent => d
    case Digits(t) => d.(widthStart := Some(at), widthEnd := at + |t|)
    case Star(r) => d.(widthStart := Some(at), widthEnd := at + 1, widthArgIndex := IndexOf(r, posn))
  }

  function WithPrecision(d: Directive, a: Amount, at: nat, posn: nat): Directive
    requires IsPrecision(a)
  {
    match a
    case Absent => d
    case Digits(t) => d.(precisionStart := Some(at), precisionEnd := at + 1 + |t|)
    case Star(r) => d.(precisionStart := Some(at), precisionEnd := at + 2, precisionArgIndex := IndexOf(r, posn))
  }

  lemma WidthIsRead(f: string, d: Directive, cp: nat, posn: nat, a: Amount, rest: string)
    requires IsFormat(f) && d.dirStart < cp <= |f| && f[cp..] == WidthText(a) + rest
    requires d.widthStart.None? && d.widthArgIndex == ARG_NONE && d.widthEnd == 0
    requires IsWidth(a) && IsPlainStart(rest) && posn + StarNexts(a) <= SIZE_MAX
    ensures WidthOf(f, d, cp, posn) == Some((WithWidth(d, a, cp, posn), cp + |WidthText(a)|, posn + StarNexts(a)))
  {
    hide StarOf, IsFormat, DigitsEnd, IsReference, ReferenceText, AreDigits;
    match a
    case Absent =>
      assert At(f, cp) == rest[0] by { After(f, cp, "", rest); }
    case Digits(t) =>
      DigitsWidth(f, cp, t, rest);
    case Star(r) =>
      StarFollows(f, cp, "*", posn, r, rest);
      assert f[cp + 0] == '*';
  }

  lemma DigitsWidth(f: string, cp: nat, t: string, rest: string)
    requires IsFormat(f) && cp <= |f| && f[cp..] == t + rest && IsWidth(Digits(t)) && IsPlainStart(rest)
    ensures IsDigit(At(f, cp)) && DigitsEnd(f, cp) == cp + |t|
  {
    hide DigitsEnd;
    After(f, cp, t, rest);
    assert f[cp + 0] == t[0] && t[0] in t;
    DigitsEndIs(f, cp, t, rest);
  }

  /** A star and the reference after it. */
  lemma StarFollows(f: string, cp: nat, star: string, posn: nat, r: Reference, rest: string)
    requires IsFormat(f) && cp <= |f| && f[cp..] == star + ReferenceText(r) + rest
    requires IsReference(r) && IsPlainStart(rest) && posn + NextsOf(r) <= SIZE_MAX
    ensures cp + |star| <= |f| && forall i | 0 <= i < |star| :: f[cp + i] == star[i]
    ensures StarOf(f, cp + |star|, posn)
      == Some((IndexOf(r, posn), cp + |star| + |ReferenceText(r)|, posn + NextsOf(r)))
  {
    hide StarOf, ReferenceText, IsReference;
    assert f[cp..] == star + (ReferenceText(r) + rest);
    After(f, cp, star, ReferenceText(r) + rest);
    LeadsPlainly(rest);
    StarIsRead(f, cp + |star|, posn, r, rest);
  }

  lemma ReadIsWidth(f: string, d: Directive, cp: nat, posn: nat) returns (a: Amount)
    requires IsFormat(f) && d.dirStart < cp <= |f| && posn <= SIZE_MAX && !IsFlag(At(f, cp))
    requires d.widthStart.None? && d.widthArgIndex == ARG_NONE && d.widthEnd == 0
    requires WidthOf(f, d, cp, posn).Some?
    ensures IsWidth(a) && posn + StarNexts(a) <= SIZE_MAX
    ensures var (w, next, p) := WidthOf(f, d, cp, posn).value;
      w == WithWidth(d, a, cp, posn) && f[cp..next] == WidthText(a) && p == posn + StarNexts(a)
  {
    hide StarOf;
    var (w, next, p) := WidthOf(f, d, cp, posn).value;
    if At(f, cp) == '*' {
      var r := ReadIsStar(f, cp + 1, posn);
      assert f[cp..next] == "*" + f[cp + 1..next];
      return Star(r);
    } else if IsDigit(At(f, cp)) {
      DecimalIsValue(f, cp, next);
      return Digits(f[cp..next]);
    } else {
      assert f[cp..cp] == "";
      return Absent;
    }
  }

  lemma PrecisionIsRead(f: string, d: Directive, cp: nat, posn: nat, a: Amount, rest: string)
    requires IsFormat(f) && d.dirStart < cp <= |f| && f[cp..] == PrecisionText(a) + rest
    requires d.precisionStart.None? && d.precisionArgIndex == ARG_NONE && d.precisionEnd == 0
    requires IsPrecision(a) && IsPlainStart(rest) && rest[0] != '.' && posn + StarNexts(a) <= SIZE_MAX
    ensures PrecisionOf(f, d, cp, posn)
      == Some((WithPrecision(d, a, cp, posn), cp + |PrecisionText(a)|, posn + StarNexts(a)))
  {
    hide StarOf, IsFormat, DigitsEnd, IsReference, ReferenceText, AreDigits;
    match a
    case Absent =>
      assert At(f, cp) == rest[0] by { After(f, cp, "", rest); }
    case Digits(t) =>
      DigitsPrecision(f, cp, t, rest);
    case Star(r) =>
      StarFollows(f, cp, ".*", posn, r, rest);
      assert f[cp + 0] == '.' && f[cp + 1] == '*';
  }

  lemma DigitsPrecision(f: string, cp: nat, t: string, rest: string)
    requires IsFormat(f) && cp <= |f| && f[cp..] == "." + t + rest && AreDigits(t) && IsPlainStart(rest)
    ensures cp < |f| && f[cp] == '.' && At(f, cp + 1) != '*' && DigitsEnd(f, cp + 1) == cp + 1 + |t|
  {
    hide DigitsEnd;
    assert f[cp..] == "." + (t + rest);
    After(f, cp, ".", t + rest);
    assert f[cp + 0] == '.';
    DigitsEndIs(f, cp + 1, t, rest);
    assert At(f, cp + 1) == (t + rest)[0];
    assert t != "" ==> t[0] in t;
  }

  lemma ReadIsPrecision(f: string, d: Directive, cp: nat, posn: nat) returns (a: Amount)
    requires IsFormat(f) && d.dirStart < cp <= |f| && posn <= SIZE_MAX
    requires d.precisionStart.None? && d.precisionArgIndex == ARG_NONE && d.precisionEnd == 0
    requires PrecisionOf(f, d, cp, posn).Some?
    ensures IsPrecision(a) && posn + StarNexts(a) <= SIZE_MAX
    ensures var (w, next, p) := PrecisionOf(f, d, cp, posn).value;
      w == WithPrecision(d, a, cp, posn) && f[cp..next] == PrecisionText(a) && p == posn + StarNexts(a)
  {
    hide StarOf;
    var (w, next, p) := PrecisionOf(f, d, cp, posn).value;
    if At(f, cp) != '.' {
      assert f[cp..cp] == "";
      return Absent;
    } else if At(f, cp + 1) == '*' {
      var r := ReadIsStar(f, cp + 2, posn);
      assert f[cp..next] == ".*" + f[cp + 2..next];
      return Star(r);
    } else {
      DecimalIsValue(f, cp + 1, next);
      assert f[cp..next] == "." + f[cp + 1..next];
      return Digits(f[cp + 1..next]);
    }
  }

  /** The conversion as the reading records it. */
  function WithConversion(d: Directive, s: Spec, end: nat, posn: nat): Directive
    requires IsSpec(s)
  {
    var d' := d.(conversion := RecordedAs(s.conversion), dirEnd := end);
    if TypeOf(s).value == NoType then d' else d'.(argIndex := IndexOf(s.arg, posn))
  }

  /** The number read at the start of a directive. */
  predicate IsNumberOf(r: Reference, numbered: nat)
    requires IsReference(r)
  {
    if r.Next? then numbered == ARG_NONE else numbered == Value(r.digits) - 1
  }

  function ValueNexts(s: Spec): nat
    requires IsSpec(s)
  {
    if TypeOf(s).value == NoType then 0 else NextsOf(s.arg)
  }

  lemma ConversionIsRead(f: string, d: Directive, cp: nat, numbered: nat, posn: nat, s: Spec, tail: string)
    requires IsFormat(f) && d.dirStart < cp <= |f| && f[cp..] == s.size + ([s.conversion] + tail)
    requires d.argIndex == ARG_NONE && numbered <= ARG_NONE
    requires IsSpec(s) && IsNumberOf(s.arg, numbered) && posn + ValueNexts(s) <= SIZE_MAX
    ensures ConversionOf(f, d, cp, numbered, posn)
      == Some((WithConversion(d, s, cp + |s.size| + 1, posn), TypeOf(s).value, posn + ValueNexts(s)))
  {
    hide SizeAt, TypeFor, SizeNamed, KindOf, TypeNamed, RecordedAs, Recorded;
    var (width, longDouble) := SizeNamed(s.size).value;
    TypesAgree(Size(width, longDouble, 0), s.conversion);
    ConversionStart(Size(width, longDouble, 0), s.conversion);
    SizeIsRead(f, cp, s.size, s.conversion, tail);
    TypesAgree(Size(width, longDouble, cp + |s.size|), s.conversion);
  }

  lemma ReadIsConversion(f: string, d: Directive, cp: nat, numbered: nat, posn: nat, s: Spec)
    requires IsFormat(f) && d.dirStart < cp <= |f| && posn <= SIZE_MAX
    requires d.argIndex == ARG_NONE && numbered <= ARG_NONE
    requires ConversionOf(f, d, cp, numbered, posn).Some?
    requires IsReference(s.arg) && IsNumberOf(s.arg, numbered)
    requires AreFlags(s.flags) && IsWidth(s.width) && IsPrecision(s.precision)
    requires s.size == f[cp..SizeAt(f, cp).next] && s.conversion == At(f, SizeAt(f, cp).next)
    ensures IsSpec(s) && posn + ValueNexts(s) <= SIZE_MAX
    ensures var (w, ty, p) := ConversionOf(f, d, cp, numbered, posn).value;
      && w == WithConversion(d, s, w.dirEnd, posn) && f[cp..w.dirEnd] == s.size + [s.conversion]
      && Some(ty) == TypeOf(s) && p == posn + ValueNexts(s)
  {
    hide SizeAt, TypeFor, SizeNamed, KindOf, TypeNamed, RecordedAs, Recorded;
    var size := SizeAt(f, cp);
    ReadIsSize(f, cp);
    TypesAgree(size, s.conversion);
    assert TypeFor(size, '\0').None? by { NulIsNoConversion(size); }
    assert f[cp..size.next + 1] == f[cp..size.next] + [f[size.next]];
  }

  // ----- directives ------------------------------------------------------------------------

  lemma WidthStart(a: Amount, rest: string)
    requires IsWidth(a) && IsPlainStart(rest)
    ensures var t := WidthText(a) + rest; t != "" && !IsFlag(t[0]) && LeadsNoDollar(t)
  {
    LeadsPlainly(rest);
    var t := WidthText(a) + rest;
    if a.Digits? {
      assert t[0] == a.text[0] && a.text[0] in a.text;
      LeadsAfterDigits(a.text, rest);
    } else {
      LeadsPlainly(t);
    }
  }

  lemma {:induction false} FlagsStart(flags: string, rest: string)
    requires AreFlags(flags) && LeadsNoDollar(rest)
    ensures LeadsNoDollar(flags + rest)
  {
    if flags == "" {
      assert flags + rest == rest;
    } else {
      assert flags[0] in flags;
      FlagsAgree(flags[0]);
      FlagsStart(flags[1..], rest);
      assert flags + rest == flags[..1] + (flags[1..] + rest);
      if IsDigit(flags[0]) {
        LeadsAfterDigits(flags[..1], flags[1..] + rest);
      } else {
        LeadsPlainly(flags + rest);
      }
    }
  }

  /** What follows the percent sign, the argument number, the flags, and the width. */
  function FieldsText(s: Spec): string { s.flags + (WidthText(s.width) + RestText(s)) }

  function RestText(s: Spec): string { PrecisionText(s.precision) + (s.size + [s.conversion]) }

  /** The record of a directive, part by part, from its precision at cp on. */
  function RestRecord(d: Directive, s: Spec, cp: nat, posn: nat): Directive
    requires IsSpec(s)
  {
    WithConversion(WithPrecision(d, s.precision, cp, posn), s, cp + |RestText(s)|, posn + StarNexts(s.precision))
  }

  function RestNexts(s: Spec): nat
    requires IsSpec(s)
  {
    StarNexts(s.precision) + ValueNexts(s)
  }

  function FieldsRecord(start: nat, s: Spec, cp: nat, posn: nat): Directive
    requires IsSpec(s)
  {
    var d := EmptyDirective(start).(flags := set c | c in s.flags);
    var at := cp + |s.flags|;
    RestRecord(WithWidth(d, s.width, at, posn), s, at + |WidthText(s.width)|, posn + StarNexts(s.width))
  }

  lemma PartsOfSpec(s: Spec)
    requires IsSpec(s)
    ensures IsReference(s.arg) && AreFlags(s.flags) && IsWidth(s.width) && IsPrecision(s.precision)
    ensures TypeOf(s).Some? && Nexts(s) == StarNexts(s.width) + RestNexts(s)
  {
  }

  lemma PrecisionKeeps(d: Directive, a: Amount, at: nat, posn: nat)
    requires IsPrecision(a)
    ensures WithPrecision(d, a, at, posn).dirStart == d.dirStart
    ensures WithPrecision(d, a, at, posn).argIndex == d.argIndex
  {
  }

  lemma RestIsRead(f: string, d: Directive, cp: nat, numbered: nat, posn: nat, s: Spec, tail: string)
    requires IsFormat(f) && d.dirStart < cp <= |f| && f[cp..] == RestText(s) + tail
    requires d.precisionStart.None? && d.precisionArgIndex == ARG_NONE && d.precisionEnd == 0
    requires d.argIndex == ARG_NONE && numbered <= ARG_NONE
    requires IsSpec(s) && IsNumberOf(s.arg, numbered) && posn + RestNexts(s) <= SIZE_MAX
    ensures RestOf(f, d, cp, numbered, posn)
      == Some((RestRecord(d, s, cp, posn), TypeOf(s).value, posn + RestNexts(s)))
  {
    hide IsFormat, PrecisionOf, ConversionOf, TypeOf, IsPlainStart, PrecisionText, IsNumberOf, IsSpec, IsPrecision,
         WithConversion, WithPrecision, RestText;
    PartsOfSpec(s);
    PrecisionKeeps(d, s.precision, cp, posn);
    SizeStart(s, tail);
    RestFollows(f, cp, s, tail);
    PrecisionIsRead(f, d, cp, posn, s.precision, s.size + ([s.conversion] + tail));
    ConversionIsRead(f, WithPrecision(d, s.precision, cp, posn), cp + |PrecisionText(s.precision)|, numbered,
                     posn + StarNexts(s.precision), s, tail);
  }

  lemma RestFollows(f: string, cp: nat, s: Spec, tail: string)
    requires cp <= |f| && f[cp..] == RestText(s) + tail
    ensures var at := cp + |PrecisionText(s.precision)|;
      && f[cp..] == PrecisionText(s.precision) + (s.size + ([s.conversion] + tail))
      && at <= |f| && f[at..] == s.size + ([s.conversion] + tail) && cp + |RestText(s)| == at + |s.size| + 1
  {
    hide PrecisionText;
    var conversion := s.size + ([s.conversion] + tail);
    assert RestText(s) + tail == PrecisionText(s.precision) + conversion;
    After(f, cp, PrecisionText(s.precision), conversion);
  }

  lemma FieldsAreRead(f: string, start: nat, cp: nat, numbered: nat, posn: nat, s: Spec, tail: string)
    requires IsFormat(f) && start < cp <= |f| && f[cp..] == FieldsText(s) + tail
    requires IsSpec(s) && numbered <= ARG_NONE && IsNumberOf(s.arg, numbered) && posn + Nexts(s) <= SIZE_MAX
    ensures FieldsOf(f, start, cp, numbered, posn)
      == Some((FieldsRecord(start, s, cp, posn), TypeOf(s).value, posn + Nexts(s)))
  {
    hide IsFormat, FlagsEnd, WidthOf, RestOf, RestRecord, TypeOf, IsPlainStart, RestText, WidthText, IsNumberOf,
         IsSpec, Nexts, RestNexts, WithWidth, IsWidth, FieldsText;
    PartsOfSpec(s);
    FlagsAreRead(f, cp, s, tail);
    RestStart(s, tail);
    var at := cp + |s.flags|;
    var d := EmptyDirective(start).(flags := set c | c in s.flags);
    WidthIsRead(f, d, at, posn, s.width, RestText(s) + tail);
    WidthKeeps(d, s.width, at, posn);
    RestIsRead(f, WithWidth(d, s.width, at, posn), at + |WidthText(s.width)|, numbered, posn + StarNexts(s.width), s,
               tail);
  }

  lemma FlagsAreRead(f: string, cp: nat, s: Spec, tail: string)
    requires IsFormat(f) && cp <= |f| && f[cp..] == FieldsText(s) + tail && IsSpec(s)
    ensures var at := cp + |s.flags|;
      && FlagsEnd(f, cp) == at && (set k | cp <= k < at :: f[k]) == (set c | c in s.flags)
      && at + |WidthText(s.width)| <= |f| && f[at..] == WidthText(s.width) + (RestText(s) + tail)
      && f[at + |WidthText(s.width)|..] == RestText(s) + tail
  {
    hide IsFormat, FlagsEnd, TypeOf, IsPlainStart, RestText, WidthText, LeadsNoDollar, IsWidth;
    var rest := RestText(s) + tail;
    var width := WidthText(s.width) + rest;
    assert FieldsText(s) + tail == s.flags + width;
    RestStart(s, tail);
    WidthStart(s.width, rest);
    FlagsEndIs(f, cp, s.flags, width);
    After(f, cp, s.flags, width);
    FlagSet(f, cp, s.flags);
    After(f, cp + |s.flags|, WidthText(s.width), rest);
  }

  lemma RestStart(s: Spec, tail: string)
    requires IsSpec(s)
    ensures IsPlainStart(RestText(s) + tail)
  {
    hide TypeOf, PrecisionText;
    SizeStart(s, tail);
    PrecisionStart(s.precision, s.size + ([s.conversion] + tail));
    assert RestText(s) + tail == PrecisionText(s.precision) + (s.size + ([s.conversion] + tail));
  }

  lemma FieldsStart(s: Spec, tail: string)
    requires IsSpec(s)
    ensures LeadsNoDollar(FieldsText(s) + tail)
  {
    hide TypeOf, RestText, IsPlainStart, LeadsNoDollar, WidthText;
    RestStart(s, tail);
    WidthStart(s.width, RestText(s) + tail);
    FlagsStart(s.flags, WidthText(s.width) + (RestText(s) + tail));
    assert FieldsText(s) + tail == s.flags + (WidthText(s.width) + (RestText(s) + tail));
  }

  /** A directive that stands in the format is read, and recorded as it stands. */
  lemma DirectiveIsRead(f: string, start: nat, posn: nat, s: Spec, tail: string)
    requires IsFormat(f) && start < |f| && f[start..] == SpecText(s) + tail
    requires IsSpec(s) && posn + Nexts(s) <= SIZE_MAX
    ensures DirectiveOf(f, start, posn) == Some((RecordOf(s, start, posn), TypeOf(s).value, posn + Nexts(s)))
  {
    hide IsFormat, PositionOf, FieldsOf, TypeOf, FieldsText, ReferenceText, FieldsRecord, RecordOf, LeadsNoDollar;
    var fields := FieldsText(s) + tail;
    SpecInSteps(s, start, posn);
    assert f[start..] == "%" + (ReferenceText(s.arg) + fields);
    After(f, start, "%", ReferenceText(s.arg) + fields);
    FieldsStart(s, tail);
    ReferenceIsRead(f, start + 1, s.arg, fields);
    NextIsEmpty(s.arg);
    After(f, start + 1, ReferenceText(s.arg), fields);
    var numbered := if s.arg.Next? then ARG_NONE else PositionOf(f, start + 1).index;
    FieldsAreRead(f, start, start + 1 + |ReferenceText(s.arg)|, numbered, posn, s, tail);
  }

  /** The text and the record of a directive, part by part. */
  lemma SpecInSteps(s: Spec, start: nat, posn: nat)
    ensures SpecText(s) == "%" + (ReferenceText(s.arg) + FieldsText(s))
    ensures IsSpec(s) && posn + Nexts(s) <= SIZE_MAX ==>
      RecordOf(s, start, posn) == FieldsRecord(start, s, start + 1 + |ReferenceText(s.arg)|, posn)
  {
    hide TypeOf, ReferenceText, WidthText, PrecisionText, RecordedAs;
  }

  lemma PrecisionStart(a: Amount, rest: string)
    requires IsPrecision(a) && IsPlainStart(rest)
    ensures IsPlainStart(PrecisionText(a) + rest)
  {
  }

  lemma NextIsEmpty(r: Reference)
    ensures r.Next? ==> ReferenceText(r) == ""
  {
  }

  lemma FlagSet(f: string, cp: nat, flags: string)
    requires cp + |flags| <= |f| && f[cp..cp + |flags|] == flags
    ensures (set k | cp <= k < cp + |flags| :: f[k]) == set c | c in flags
  {
    forall c | c in flags ensures c in set k | cp <= k < cp + |flags| :: f[k] {
      var i :| 0 <= i < |flags| && flags[i] == c;
      assert f[cp + i] == c;
    }
    forall k | cp <= k < cp + |flags| ensures f[k] in flags {
      assert flags[k - cp] == f[k];
    }
  }

  lemma Join(f: string, a: nat, b: nat, c: nat)
    requires a <= b <= c <= |f|
    ensures f[a..b] + f[b..c] == f[a..c]
  {
  }

  lemma ReadIsRest(f: string, d: Directive, cp: nat, numbered: nat, posn: nat, arg: Reference, flags: string,
                   width: Amount)
    returns (s: Spec)
    requires IsFormat(f) && d.dirStart < cp <= |f| && posn <= SIZE_MAX
    requires d.precisionStart.None? && d.precisionArgIndex == ARG_NONE && d.precisionEnd == 0
    requires d.argIndex == ARG_NONE && numbered <= ARG_NONE && IsReference(arg) && IsNumberOf(arg, numbered)
    requires AreFlags(flags) && IsWidth(width)
    requires RestOf(f, d, cp, numbered, posn).Some?
    ensures IsSpec(s) && s.arg == arg && s.flags == flags && s.width == width
    ensures posn + RestNexts(s) <= SIZE_MAX
    ensures var (w, ty, p) := RestOf(f, d, cp, numbered, posn).value;
      && w == RestRecord(d, s, cp, posn) && f[cp..w.dirEnd] == RestText(s) && w.dirEnd == cp + |RestText(s)|
      && Some(ty) == TypeOf(s) && p == posn + RestNexts(s)
  {
    hide IsFormat, PrecisionOf, ConversionOf, SizeAt, TypeOf, IsReference, IsWidth, IsPrecision, PrecisionText, IsSpec,
         WithConversion, WithPrecision;
    var precision := ReadIsPrecision(f, d, cp, posn);
    var (d2, cp2, posn2) := PrecisionOf(f, d, cp, posn).value;
    var size := SizeAt(f, cp2);
    s := Spec(arg, flags, width, precision, f[cp2..size.next], At(f, size.next));
    ReadIsConversion(f, d2, cp2, numbered, posn2, s);
    var (w, ty, p) := RestOf(f, d, cp, numbered, posn).value;
    Join(f, cp, cp2, w.dirEnd);
  }

  lemma ReadIsFields(f: string, start: nat, cp: nat, numbered: nat, posn: nat, arg: Reference) returns (s: Spec)
    requires IsFormat(f) && start < cp <= |f| && posn <= SIZE_MAX
    requires numbered <= ARG_NONE && IsReference(arg) && IsNumberOf(arg, numbered)
    requires FieldsOf(f, start, cp, numbered, posn).Some?
    ensures IsSpec(s) && s.arg == arg && posn + Nexts(s) <= SIZE_MAX
    ensures var (d, ty, p) := FieldsOf(f, start, cp, numbered, posn).value;
      && d == FieldsRecord(start, s, cp, posn) && f[cp..d.dirEnd] == FieldsText(s)
      && Some(ty) == TypeOf(s) && p == posn + Nexts(s)
  {
    hide IsFormat, WidthOf, RestOf, TypeOf, IsReference, IsWidth, WidthText, RestText, RestRecord, WithWidth, IsSpec;
    var e := FlagsEnd(f, cp);
    FlagSet(f, cp, f[cp..e]);
    forall c | c in f[cp..e] ensures c in FLAGS { FlagsAgree(c); }
    var d := EmptyDirective(start).(flags := set k | cp <= k < e :: f[k]);
    var width := ReadIsWidth(f, d, e, posn);
    var (d1, cp1, posn1) := WidthOf(f, d, e, posn).value;
    WidthKeeps(d, width, e, posn);
    s := ReadIsRest(f, d1, cp1, numbered, posn1, arg, f[cp..e], width);
    PartsOfSpec(s);
    var (w, ty, p) := FieldsOf(f, start, cp, numbered, posn).value;
    Join(f, e, cp1, w.dirEnd);
    Join(f, cp, e, w.dirEnd);
  }

  /** What is read as a directive is one, recorded as it stands. */
  lemma ReadIsDirective(f: string, start: nat, posn: nat) returns (s: Spec)
    requires IsFormat(f) && start < |f| && f[start] == '%' && posn <= SIZE_MAX
    requires DirectiveOf(f, start, posn).Some?
    ensures var (d, ty, p) := DirectiveOf(f, start, posn).value;
      d.dirStart == start && IsDirectiveOf(s, f, posn, d, ty, p) && f[start..d.dirEnd] == SpecText(s)
  {
    hide IsFormat, PositionOf, FieldsOf, TypeOf, IsReference, FieldsText, ReferenceText, SpecText, FieldsRecord, IsSpec,
         RecordOf, Nexts;
    var number := PositionOf(f, start + 1);
    var arg := ReadIsReference(f, start + 1);
    var cp := if number.Numbered? then number.next else start + 1;
    var numbered := if number.Numbered? then number.index else ARG_NONE;
    NextIsEmpty(arg);
    s := ReadIsFields(f, start, cp, numbered, posn, arg);
    var (d, ty, p) := DirectiveOf(f, start, posn).value;
    SpecInSteps(s, start, posn);
    SpecFollows(f, start, cp, d.dirEnd, s);
  }

  lemma SpecFollows(f: string, start: nat, cp: nat, end: nat, s: Spec)
    requires start < cp <= end <= |f| && f[start] == '%'
    requires f[start + 1..cp] == ReferenceText(s.arg) && f[cp..end] == FieldsText(s)
    ensures f[start..end] == SpecText(s) && StandsAt(f, start, SpecText(s)) && cp == start + 1 + |ReferenceText(s.arg)|
  {
    hide ReferenceText, FieldsText, SpecText;
    SpecInSteps(s, 0, 0);
    Join(f, start + 1, cp, end);
    Join(f, start, start + 1, end);
    assert f[start..end] <= f[start..];
  }

  lemma WidthKeeps(d: Directive, a: Amount, at: nat, posn: nat)
    requires IsWidth(a)
    ensures var w := WithWidth(d, a, at, posn);
      && w.precisionStart == d.precisionStart && w.precisionArgIndex == d.precisionArgIndex
      && w.precisionEnd == d.precisionEnd && w.argIndex == d.argIndex && w.dirStart == d.dirStart
  {
  }

  /** printf_parse reads a directive exactly where one stands, and records exactly what it denotes. */
  lemma DirectiveExactly(f: string, start: nat, posn: nat, d: Directive, ty: ArgType, p: nat)
    requires IsFormat(f) && start < |f| && f[start] == '%' && posn <= SIZE_MAX
    ensures DirectiveOf(f, start, posn) == Some((d, ty, p))
      <==> d.dirStart == start && IsDirective(f, posn, d, ty, p)
  {
    hide DirectiveOf, IsDirectiveOf;
    if DirectiveOf(f, start, posn) == Some((d, ty, p)) {
      var s := ReadIsDirective(f, start, posn);
    }
    if d.dirStart == start && IsDirective(f, posn, d, ty, p) {
      var s: Spec :| IsDirectiveOf(s, f, posn, d, ty, p);
      DirectiveOfSpec(s, f, posn, d, ty, p);
    }
  }

  /** The grammar is unambiguous: at most one directive stands at a place, with one record. */
  lemma DirectiveIsUnique(f: string, posn: nat, d1: Directive, ty1: ArgType, p1: nat, d2: Directive, ty2: ArgType,
                          p2: nat)
    requires IsFormat(f) && posn <= SIZE_MAX && d1.dirStart == d2.dirStart < |f| && f[d1.dirStart] == '%'
    requires IsDirective(f, posn, d1, ty1, p1) && IsDirective(f, posn, d2, ty2, p2)
    ensures d1 == d2 && ty1 == ty2 && p1 == p2
  {
    DirectiveExactly(f, d1.dirStart, posn, d1, ty1, p1);
    DirectiveExactly(f, d1.dirStart, posn, d2, ty2, p2);
  }

  lemma DirectiveOfSpec(s: Spec, f: string, posn: nat, d: Directive, ty: ArgType, p: nat)
    requires IsFormat(f) && d.dirStart < |f| && posn <= SIZE_MAX && IsDirectiveOf(s, f, posn, d, ty, p)
    ensures DirectiveOf(f, d.dirStart, posn) == Some((d, ty, p))
  {
    hide SpecText, DirectiveOf, IsSpec, RecordOf, Nexts;
    DirectiveIsRead(f, d.dirStart, posn, s, f[d.dirStart..][|SpecText(s)|..]);
  }

  // ----- formats ---------------------------------------------------------------------------

  /** Text without percent signs, and the directive after it. */
  datatype Part = Part(literal: string, spec: Spec)

  datatype Format = Format(parts: seq<Part>, tail: string)

  predicate AreParts(parts: seq<Part>) {
    forall i | 0 <= i < |parts| :: '%' !in parts[i].literal && IsSpec(parts[i].spec)
  }

  predicate IsWellFormed(fmt: Format) {
    AreParts(fmt.parts) && '%' !in fmt.tail
  }

  function FormatText(fmt: Format): string
    decreases |fmt.parts|
  {
    if fmt.parts == [] then fmt.tail
    else fmt.parts[0].literal + (SpecText(fmt.parts[0].spec) + FormatText(Format(fmt.parts[1..], fmt.tail)))
  }

  /** The unnumbered arguments a format uses. */
  function AllNexts(parts: seq<Part>): nat
    requires AreParts(parts)
  {
    if parts == [] then 0 else Nexts(parts[0].spec) + AllNexts(parts[1..])
  }

  /** The records of the directives of a format that starts at cp, and the types of their values. */
  function Records(parts: seq<Part>, cp: nat, posn: nat): (seq<Directive>, seq<ArgType>)
    requires AreParts(parts) && posn + AllNexts(parts) <= SIZE_MAX
  {
    if parts == [] then ([], []) else
      var start := cp + |parts[0].literal|;
      var d := RecordOf(parts[0].spec, start, posn);
      var (ds, tys) := Records(parts[1..], d.dirEnd, posn + Nexts(parts[0].spec));
      ([d] + ds, [TypeOf(parts[0].spec).value] + tys)
  }

  /** The format f denotes these directives and types of values. */
  ghost predicate Denotes(f: string, ds: seq<Directive>, tys: seq<ArgType>) {
    exists fmt :: IsWellFormed(fmt) && FormatText(fmt) == f && DenotesFrom(fmt, 0, 0, ds, tys)
  }

  predicate DenotesFrom(fmt: Format, cp: nat, posn: nat, ds: seq<Directive>, tys: seq<ArgType>)
    requires IsWellFormed(fmt)
  {
    posn + AllNexts(fmt.parts) <= SIZE_MAX && Records(fmt.parts, cp, posn) == (ds, tys)
  }

  lemma {:induction false} LiteralIsSkipped(f: string, cp: nat, posn: nat, literal: string, rest: string)
    requires IsFormat(f) && cp <= |f| && f[cp..] == literal + rest && '%' !in literal && posn <= SIZE_MAX
    ensures cp + |literal| <= |f| && f[cp + |literal|..] == rest
    ensures DirectivesFrom(f, cp, posn) == DirectivesFrom(f, cp + |literal|, posn)
    decreases |literal|
  {
    hide DirectiveOf;
    After(f, cp, literal, rest);
    if literal != "" {
      assert f[cp + 0] == literal[0] && literal[0] in literal;
      assert f[cp + 1..] == literal[1..] + rest by {
        assert f[cp + 1..] == f[cp..][1..];
      }
      LiteralIsSkipped(f, cp + 1, posn, literal[1..], rest);
    }
  }

  /** One directive, then what follows it. */
  lemma DirectiveThenRest(f: string, cp: nat, posn: nat, s: Spec, rest: string)
    requires IsFormat(f) && cp <= |f| && f[cp..] == SpecText(s) + rest
    requires IsSpec(s) && posn + Nexts(s) <= SIZE_MAX
    ensures var d := RecordOf(s, cp, posn);
      && d.dirEnd <= |f| && f[d.dirEnd..] == rest
      && DirectivesFrom(f, cp, posn) ==
           match DirectivesFrom(f, d.dirEnd, posn + Nexts(s))
           case None => None
           case Some((ds, tys)) => Some(([d] + ds, [TypeOf(s).value] + tys))
  {
    hide DirectiveOf, IsSpec, Nexts, TypeOf, SpecText, RecordOf, DirectivesFrom, IsFormat;
    After(f, cp, SpecText(s), rest);
    SpecEnds(s, cp, posn);
    assert f[cp + 0] == '%';
    DirectiveIsRead(f, cp, posn, s, rest);
    DirectiveFirst(f, cp, posn);
  }

  lemma SpecEnds(s: Spec, start: nat, posn: nat)
    ensures SpecText(s) != "" && SpecText(s)[0] == '%'
    ensures IsSpec(s) && posn + Nexts(s) <= SIZE_MAX ==>
      RecordOf(s, start, posn).dirStart == start && RecordOf(s, start, posn).dirEnd == start + |SpecText(s)|
  {
    hide IsSpec, Nexts, TypeOf, ReferenceText;
  }

  lemma DirectiveFirst(f: string, cp: nat, posn: nat)
    requires IsFormat(f) && cp < |f| && f[cp] == '%' && posn <= SIZE_MAX
    ensures DirectivesFrom(f, cp, posn) ==
      match DirectiveOf(f, cp, posn)
      case None => None
      case Some((d, ty, p)) =>
        match DirectivesFrom(f, d.dirEnd, p)
        case None => None
        case Some((ds, tys)) => Some(([d] + ds, [ty] + tys))
  {
    hide DirectiveOf;
  }

  /** A well-formed format is read, and yields what it denotes. */
  lemma {:induction false} FormatIsRead(f: string, cp: nat, posn: nat, fmt: Format)
    requires IsFormat(f) && cp <= |f| && f[cp..] == FormatText(fmt)
    requires IsWellFormed(fmt) && posn + AllNexts(fmt.parts) <= SIZE_MAX
    ensures DirectivesFrom(f, cp, posn) == Some(Records(fmt.parts, cp, posn))
    decreases |fmt.parts|
  {
    hide DirectiveOf, IsSpec, Nexts, TypeOf, SpecText, RecordOf, DirectivesFrom;
    if fmt.parts == [] {
      assert f[cp..] == fmt.tail + "";
      LiteralIsSkipped(f, cp, posn, fmt.tail, "");
      NothingLeft(f, posn);
    } else {
      var part, rest := fmt.parts[0], Format(fmt.parts[1..], fmt.tail);
      LiteralIsSkipped(f, cp, posn, part.literal, SpecText(part.spec) + FormatText(rest));
      var start := cp + |part.literal|;
      DirectiveThenRest(f, start, posn, part.spec, FormatText(rest));
      FormatIsRead(f, RecordOf(part.spec, start, posn).dirEnd, posn + Nexts(part.spec), rest);
    }
  }

  lemma NothingLeft(f: string, posn: nat)
    requires IsFormat(f) && posn <= SIZE_MAX
    ensures DirectivesFrom(f, |f|, posn) == Some(([], []))
  {
  }

  /** What is read is a well-formed format, and yields what it denotes. */
  lemma {:induction false} ReadIsFormat(f: string, cp: nat, posn: nat) returns (fmt: Format)
    requires IsFormat(f) && cp <= |f| && posn <= SIZE_MAX
    requires DirectivesFrom(f, cp, posn).Some?
    ensures IsWellFormed(fmt) && FormatText(fmt) == f[cp..]
    ensures var (ds, tys) := DirectivesFrom(f, cp, posn).value; DenotesFrom(fmt, cp, posn, ds, tys)
    decreases |f| - cp
  {
    hide DirectiveOf, IsSpec, Nexts, TypeOf, SpecText, RecordOf, Records, Lengthen, IsFormat;
    if cp == |f| {
      fmt := Format([], "");
      assert Records([], cp, posn) == ([], []) by { NoRecords(cp, posn); }
    } else if f[cp] != '%' {
      var rest := ReadIsFormat(f, cp + 1, posn);
      fmt := Lengthen(f[cp], rest);
      LengthenDenotes(f[cp], rest, cp, posn);
      assert f[cp..] == [f[cp]] + f[cp + 1..];
    } else {
      DirectiveFirst(f, cp, posn);
      var s := ReadIsDirective(f, cp, posn);
      var (d, ty, p) := DirectiveOf(f, cp, posn).value;
      var rest := ReadIsFormat(f, d.dirEnd, p);
      fmt := Format([Part("", s)] + rest.parts, rest.tail);
      var (ds, tys) := DirectivesFrom(f, d.dirEnd, p).value;
      DirectiveBefore(f, s, posn, d, ty, p, rest, ds, tys);
    }
  }

  lemma NoRecords(cp: nat, posn: nat)
    requires posn <= SIZE_MAX
    ensures Records([], cp, posn) == ([], [])
  {
  }

  lemma DirectiveBefore(f: string, s: Spec, posn: nat, d: Directive, ty: ArgType, p: nat, rest: Format,
                        ds: seq<Directive>, tys: seq<ArgType>)
    requires IsDirectiveOf(s, f, posn, d, ty, p) && IsWellFormed(rest)
    requires d.dirStart <= d.dirEnd <= |f| && f[d.dirStart..d.dirEnd] == SpecText(s)
    requires FormatText(rest) == f[d.dirEnd..]
    requires DenotesFrom(rest, d.dirEnd, p, ds, tys)
    ensures var fmt := Format([Part("", s)] + rest.parts, rest.tail);
      && IsWellFormed(fmt) && FormatText(fmt) == f[d.dirStart..]
      && DenotesFrom(fmt, d.dirStart, posn, [d] + ds, [ty] + tys)
  {
    hide IsSpec, Nexts, TypeOf, SpecText, RecordOf;
    var fmt := Format([Part("", s)] + rest.parts, rest.tail);
    assert fmt.parts[1..] == rest.parts && Format(fmt.parts[1..], fmt.tail) == rest;
    assert FormatText(fmt) == "" + (SpecText(s) + FormatText(rest));
    Join(f, d.dirStart, d.dirEnd, |f|);
    assert f[d.dirStart..|f|] == f[d.dirStart..] && f[d.dirEnd..|f|] == f[d.dirEnd..];
  }

  /** The format with c before it. */
  function Lengthen(c: char, fmt: Format): Format {
    if fmt.parts == [] then Format([], [c] + fmt.tail)
    else Format([Part([c] + fmt.parts[0].literal, fmt.parts[0].spec)] + fmt.parts[1..], fmt.tail)
  }

  lemma LengthenDenotes(c: char, fmt: Format, cp: nat, posn: nat)
    requires IsWellFormed(fmt) && c != '%'
    ensures var long := Lengthen(c, fmt);
      && IsWellFormed(long) && FormatText(long) == [c] + FormatText(fmt)
      && AllNexts(long.parts) == AllNexts(fmt.parts)
      && (posn + AllNexts(fmt.parts) <= SIZE_MAX ==> Records(long.parts, cp, posn) == Records(fmt.parts, cp + 1, posn))
  {
    hide IsSpec, Nexts, TypeOf, SpecText, RecordOf;
    var long := Lengthen(c, fmt);
    if fmt.parts != [] {
      assert long.parts[1..] == fmt.parts[1..];
      assert [c] + fmt.parts[0].literal + (SpecText(fmt.parts[0].spec) + FormatText(Format(fmt.parts[1..], fmt.tail)))
        == [c] + FormatText(fmt);
    }
  }

  /** printf_parse reads exactly the well-formed formats, and yields exactly the directives and types
    * that they denote.
    */
  lemma FormatExactly(f: string, ds: seq<Directive>, tys: seq<ArgType>)
    requires IsFormat(f)
    ensures DirectivesFrom(f, 0, 0) == Some((ds, tys)) <==> Denotes(f, ds, tys)
  {
    hide DirectivesFrom, DenotesFrom, IsWellFormed, FormatText;
    assert f[0..] == f;
    if DirectivesFrom(f, 0, 0) == Some((ds, tys)) {
      var fmt := ReadIsFormat(f, 0, 0);
    }
    if Denotes(f, ds, tys) {
      var fmt :| IsWellFormed(fmt) && FormatText(fmt) == f && DenotesFrom(fmt, 0, 0, ds, tys);
      DenotedIsRead(f, fmt, ds, tys);
    }
  }

  lemma DenotedIsRead(f: string, fmt: Format, ds: seq<Directive>, tys: seq<ArgType>)
    requires IsFormat(f) && IsWellFormed(fmt) && FormatText(fmt) == f && DenotesFrom(fmt, 0, 0, ds, tys)
    ensures DirectivesFrom(f, 0, 0) == Some((ds, tys))
  {
    hide DirectivesFrom, FormatText;
    assert f[0..] == f;
    FormatIsRead(f, 0, 0, fmt);
  }

  // ----- order and coverage ----------------------------------------------------------------

  /** d and ty are what is recorded of the directive that stands there. */
  ghost predicate IsRecorded(f: string, d: Directive, ty: ArgType) {
    exists posn: nat, p: nat :: IsDirective(f, posn, d, ty, p)
  }

  /** The directives of f from cp on: each recorded as it stands, in order and disjoint, and every
    * percent sign from cp on inside one of them.
    */
  ghost predicate DirectivesOk(f: string, cp: nat, ds: seq<Directive>, tys: seq<ArgType>) {
    && cp <= |f| && |ds| == |tys|
    && (forall i | 0 <= i < |ds| :: IsRecorded(f, ds[i], tys[i]) && cp <= ds[i].dirStart < ds[i].dirEnd <= |f|)
    && (forall i | 0 <= i < |ds| - 1 :: ds[i].dirEnd <= ds[i + 1].dirStart)
    && (forall k | cp <= k < |f| && f[k] == '%' :: IsCovered(ds, k))
  }

  ghost predicate IsCovered(ds: seq<Directive>, k: nat) {
    exists i | 0 <= i < |ds| :: ds[i].dirStart <= k < ds[i].dirEnd
  }

  /** The directives of a format, in order and disjoint, cover its percent signs. */
  lemma {:induction false} DirectivesCover(f: string, cp: nat, posn: nat)
    requires IsFormat(f) && cp <= |f| && posn <= SIZE_MAX
    ensures DirectivesFrom(f, cp, posn).Some? ==>
      var (ds, tys) := DirectivesFrom(f, cp, posn).value;
      DirectivesOk(f, cp, ds, tys)
    decreases |f| - cp
  {
    hide DirectiveOf, IsRecorded, IsDirective, IsDirectiveOf;
    var r := DirectivesFrom(f, cp, posn);
    if r.Some? && cp < |f| {
      if f[cp] != '%' {
        DirectivesCover(f, cp + 1, posn);
        assert forall k | cp <= k < |f| && f[k] == '%' :: k != cp;
      } else {
        var (d, ty, p) := DirectiveOf(f, cp, posn).value;
        DirectiveIsRecorded(f, cp, posn);
        DirectivesCover(f, d.dirEnd, p);
        var (ds, tys) := DirectivesFrom(f, d.dirEnd, p).value;
        FirstDirective(f, cp, d, ty, ds, tys);
      }
    }
  }

  lemma DirectiveIsRecorded(f: string, start: nat, posn: nat)
    requires IsFormat(f) && start < |f| && f[start] == '%' && posn <= SIZE_MAX && DirectiveOf(f, start, posn).Some?
    ensures var (d, ty, _) := DirectiveOf(f, start, posn).value; IsRecorded(f, d, ty)
  {
    hide DirectiveOf, IsDirective;
    var (d, ty, p) := DirectiveOf(f, start, posn).value;
    DirectiveExactly(f, start, posn, d, ty, p);
  }

  lemma FirstDirective(f: string, cp: nat, d: Directive, ty: ArgType, ds: seq<Directive>, tys: seq<ArgType>)
    requires IsFormat(f) && d.dirStart == cp < d.dirEnd <= |f| && IsRecorded(f, d, ty)
    requires DirectivesOk(f, d.dirEnd, ds, tys)
    ensures DirectivesOk(f, cp, [d] + ds, [ty] + tys)
  {
    hide IsRecorded;
    var all := [d] + ds;
    forall k | cp <= k < |f| && f[k] == '%' ensures IsCovered(all, k) {
      if k < d.dirEnd {
        assert all[0].dirStart <= k < all[0].dirEnd;
      } else {
        assert IsCovered(ds, k);
        var i :| 0 <= i < |ds| && ds[i].dirStart <= k < ds[i].dirEnd;
        assert all[i + 1] == ds[i];
      }
    }
  }
}
