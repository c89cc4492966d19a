/** What the format-string parser printf_parse (printf-parse.c) reads, as functions of the format:
  * the code's own order of tests, directive by directive. The configuration is that for char
  * formats on a 64-bit glibc system: wide characters and strings, the I flag and the B conversion
  * are there, the unistdio, Mac OS and Windows extensions are not.
  *
  * A format is modelled without its terminator, and every read is proved to stay at or before it.
  */
module PrintfFormat {
  import opened Chars
  import opened Options

  const SIZE_MAX := 0xFFFF_FFFF_FFFF_FFFF

  /** No argument index. */
  const ARG_NONE := SIZE_MAX

  // ----- argument types --------------------------------------------------------------------

  datatype Width = SChar | Short | Int | Long | LongLong | Exact(bits: nat) | Fast(bits: nat)

  datatype ArgType =
    | NoType | Signed(w: Width) | Unsigned(w: Width) | Double | LongDouble | Char | WideChar
    | String | WideString | Pointer | CountPointer(w: Width)

  /** A size specifier: the integer width, whether floating-point values are long double, and
    * where the conversion character follows.
    */
  datatype Size = Size(width: Width, longDouble: bool, next: nat)

  /** The character at i; NUL at the end. */
  function At(f: string, i: nat): char
    requires i <= |f|
  {
    if i < |f| then f[i] else '\0'
  }

  /** A format holds no NUL. */
  predicate IsFormat(f: string) { '\0' !in f }

  /** The size specifier at cp, possibly empty. */
  function SizeAt(f: string, cp: nat): (s: Size)
    requires IsFormat(f) && cp <= |f|
    ensures cp <= s.next <= |f|
  {
    if At(f, cp) == 'h' then
      if At(f, cp + 1) == 'h' then Size(SChar, false, cp + 2) else Size(Short, false, cp + 1)
    else if At(f, cp) == 'l' then
      if At(f, cp + 1) == 'l' then Size(LongLong, true, cp + 2) else Size(Long, false, cp + 1)
    else if At(f, cp) == 'j' || At(f, cp) == 'z' || At(f, cp) == 'Z' || At(f, cp) == 't' then Size(Long, false, cp + 1)
    else if At(f, cp) == 'w' then
      if At(f, cp + 1) == 'f' then
        match BitsAt(f, cp + 2)
        case Some((bits, next)) => Size(Fast(bits), false, next)
        case None => Size(Int, false, cp)
      else
        match BitsAt(f, cp + 1)
        case Some((bits, next)) => Size(Exact(bits), false, next)
        case None => Size(Int, false, cp)
    else if At(f, cp) == 'L' then Size(LongLong, true, cp + 1)
    else Size(Int, false, cp)
  }

  /** The bit count of a w or wf specifier: 8, 16, 32 or 64. */
  function BitsAt(f: string, cp: nat): (r: Option<(nat, nat)>)
    requires IsFormat(f) && cp <= |f|
    ensures r.Some? ==> cp < r.value.1 <= |f|
  {
    if At(f, cp) == '8' then Some((8, cp + 1))
    else if At(f, cp) == '1' && At(f, cp + 1) == '6' then Some((16, cp + 2))
    else if At(f, cp) == '3' && At(f, cp + 1) == '2' then Some((32, cp + 2))
    else if At(f, cp) == '6' && At(f, cp + 1) == '4' then Some((64, cp + 2))
    else None
  }

  /** The argument type of a conversion character under a size; None for an unknown one. */
  function TypeFor(s: Size, c: char): Option<ArgType> {
    if c == 'd' || c == 'i' then Some(Signed(s.width))
    else if c == 'b' || c == 'o' || c == 'u' || c == 'x' || c == 'X' || c == 'B' then Some(Unsigned(s.width))
    else if c == 'f' || c == 'F' || c == 'e' || c == 'E' || c == 'g' || c == 'G' || c == 'a' || c == 'A'
    then Some(if s.longDouble then LongDouble else Double)
    else if c == 'c' then Some(if s.width.Long? || s.width.LongLong? then WideChar else Char)
    else if c == 'C' then Some(WideChar)
    else if c == 's' then Some(if s.width.Long? || s.width.LongLong? then WideString else String)
    else if c == 'S' then Some(WideString)
    else if c == 'p' then Some(Pointer)
    else if c == 'n' then Some(CountPointer(s.width))
    else if c == '%' then Some(NoType)
    else None
  }

  /** The conversion recorded in a directive: C and S count as c and s. */
  function Recorded(c: char): char {
    if c == 'C' then 'c' else if c == 'S' then 's' else c
  }

  // ----- directives ------------------------------------------------------------------------

  datatype Directive = Directive(
    dirStart: nat, dirEnd: nat, flags: set<char>,
    widthStart: Option<nat>, widthEnd: nat, widthArgIndex: nat,
    precisionStart: Option<nat>, precisionEnd: nat, precisionArgIndex: nat,
    conversion: char, argIndex: nat)

  predicate IsFlag(c: char) {
    c == '\'' || c == '-' || c == '+' || c == ' ' || c == '#' || c == '0' || c == 'I'
  }

  ghost predicate AllDigits(f: string, from: nat, to: nat) {
    from <= to <= |f| && forall k | from <= k < to :: IsDigit(f[k])
  }

  // ----- numbered arguments ----------------------------------------------------------------

  /** The number a string of digits denotes. */
  function DecimalValue(f: string, from: nat, to: nat): nat
    requires AllDigits(f, from, to)
  {
    if from == to then 0 else 10 * DecimalValue(f, from, to - 1) + (f[to - 1] as int - '0' as int)
  }

  datatype Position = NoPosition | Numbered(index: nat, next: nat) | BadNumber

  /** Where the digits from cp on end. */
  function DigitsEnd(f: string, cp: nat): (e: nat)
    requires IsFormat(f) && cp <= |f|
    ensures cp <= e <= |f| && AllDigits(f, cp, e) && !IsDigit(At(f, e))
    decreases |f| - cp
  {
    if IsDigit(At(f, cp)) then DigitsEnd(f, cp + 1) else cp
  }

  /** The test for a positional argument at cp: digits followed by a dollar sign, numbering the
    * arguments from 1. The number must not reach SIZE_MAX.
    */
  function PositionOf(f: string, cp: nat): (p: Position)
    requires IsFormat(f) && cp <= |f|
    ensures p.Numbered? ==> p.index + 1 < SIZE_MAX && cp < p.next <= |f|
  {
    var e := DigitsEnd(f, cp);
    if e == cp || At(f, e) != '$' then NoPosition
    else if 0 < DecimalValue(f, cp, e) < SIZE_MAX then Numbered(DecimalValue(f, cp, e) - 1, e + 1)
    else BadNumber
  }

  // ----- the format as a sequence of directives ----------------------------------------------

  /** Where the flags from cp on end. */
  function FlagsEnd(f: string, cp: nat): (e: nat)
    requires IsFormat(f) && cp <= |f|
    ensures cp <= e <= |f|
    ensures (forall k | cp <= k < e :: IsFlag(f[k])) && !IsFlag(At(f, e))
    decreases |f| - cp
  {
    if IsFlag(At(f, cp)) then FlagsEnd(f, cp + 1) else cp
  }

  /** The argument a star at cp - 1 stands for: the one it numbers, or the next unnumbered one.
    * posn counts the unnumbered arguments so far.
    */
  function StarOf(f: string, cp: nat, posn: nat): (r: Option<(nat, nat, nat)>)
    requires IsFormat(f) && cp <= |f| && posn <= SIZE_MAX
    ensures r.Some? ==> r.value.0 < ARG_NONE && cp <= r.value.1 <= |f| && r.value.2 <= SIZE_MAX
    ensures r.Some? ==> r.value.2 <= posn + 1
  {
    match PositionOf(f, cp)
    case BadNumber => None
    case Numbered(n, next) => Some((n, next, posn))
    case NoPosition => if posn == ARG_NONE then None else Some((posn, cp, posn + 1))
  }

  /** The width at cp, added to the directive, with what follows it. */
  function WidthOf(f: string, d: Directive, cp: nat, posn: nat): (r: Option<(Directive, nat, nat)>)
    requires IsFormat(f) && d.dirStart < cp <= |f| && posn <= SIZE_MAX
    requires d.widthStart.None? && d.widthArgIndex == ARG_NONE && d.widthEnd == 0
    ensures r.Some? ==> var (w, next, p) := r.value;
      && cp <= next <= |f| && p <= SIZE_MAX
      && p - posn <= next - cp
      && w == d.(widthStart := w.widthStart, widthEnd := w.widthEnd, widthArgIndex := w.widthArgIndex)
  {
    if At(f, cp) == '*' then
      match StarOf(f, cp + 1, posn)
      case None => None
      case Some((index, next, p)) =>
        Some((d.(widthStart := Some(cp), widthEnd := cp + 1, widthArgIndex := index), next, p))
    else if IsDigit(At(f, cp)) then
      Some((d.(widthStart := Some(cp), widthEnd := DigitsEnd(f, cp)), DigitsEnd(f, cp), posn))
    else Some((d, cp, posn))
  }

  /** The precision at cp. */
  function PrecisionOf(f: string, d: Directive, cp: nat, posn: nat): (r: Option<(Directive, nat, nat)>)
    requires IsFormat(f) && d.dirStart < cp <= |f| && posn <= SIZE_MAX
    requires d.precisionStart.None? && d.precisionArgIndex == ARG_NONE && d.precisionEnd == 0
    ensures r.Some? ==> var (w, next, p) := r.value;
      && cp <= next <= |f| && p <= SIZE_MAX
      && p - posn <= next - cp
      && w == d.(precisionStart := w.precisionStart, precisionEnd := w.precisionEnd,
                 precisionArgIndex := w.precisionArgIndex)
  {
    if At(f, cp) != '.' then Some((d, cp, posn))
    else if At(f, cp + 1) == '*' then
      match StarOf(f, cp + 2, posn)
      case None => None
      case Some((index, next, p)) =>
        Some((d.(precisionStart := Some(cp), precisionEnd := cp + 2, precisionArgIndex := index), next, p))
    else
      Some((d.(precisionStart := Some(cp), precisionEnd := DigitsEnd(f, cp + 1)), DigitsEnd(f, cp + 1), posn))
  }

  /** The size and conversion at cp; the value is the argument numbered at the start of the
    * directive, or the next unnumbered one, or none for a percent sign.
    */
  function ConversionOf(f: string, d: Directive, cp: nat, numbered: nat, posn: nat)
    : (r: Option<(Directive, ArgType, nat)>)
    requires IsFormat(f) && d.dirStart < cp <= |f| && posn <= SIZE_MAX
    requires d.argIndex == ARG_NONE && numbered <= ARG_NONE
    ensures r.Some? ==> var (c, ty, p) := r.value;
      && cp < c.dirEnd <= |f| && p <= SIZE_MAX
      && p - posn <= c.dirEnd - cp
      && c == d.(argIndex := c.argIndex, conversion := Recorded(f[c.dirEnd - 1]), dirEnd := c.dirEnd)
  {
    var size := SizeAt(f, cp);
    var c := At(f, size.next);
    match TypeFor(size, c)
    case None => None
    case Some(ty) =>
      var d' := d.(conversion := Recorded(c), dirEnd := size.next + 1);
      assert c != '\0' by { NulIsNoConversion(size); }
      if ty == NoType then Some((d', ty, posn))
      else if numbered != ARG_NONE then Some((d'.(argIndex := numbered), ty, posn))
      else if posn == ARG_NONE then None
      else Some((d'.(argIndex := posn), ty, posn + 1))
  }

  lemma NulIsNoConversion(s: Size)
    ensures TypeFor(s, '\0').None?
  {
  }

  function EmptyDirective(start: nat): Directive {
    Directive(start, 0, {}, None, 0, ARG_NONE, None, 0, ARG_NONE, ' ', ARG_NONE)
  }

  /** The directive whose percent sign is at start, the type of its value, and the unnumbered
    * arguments consumed up to its end; None for a malformed one.
    */
  function DirectiveOf(f: string, start: nat, posn: nat): (r: Option<(Directive, ArgType, nat)>)
    requires IsFormat(f) && start < |f| && posn <= SIZE_MAX
    ensures r.Some? ==> r.value.0.dirStart == start && start + 1 < r.value.0.dirEnd <= |f| && r.value.2 <= SIZE_MAX
    ensures r.Some? ==> r.value.2 - posn < r.value.0.dirEnd - start
  {
    match PositionOf(f, start + 1)
    case BadNumber => None
    case Numbered(n, next) => FieldsOf(f, start, next, n, posn)
    case NoPosition => FieldsOf(f, start, start + 1, ARG_NONE, posn)
  }

  /** The directive from its flags, at cp, on. */
  function FieldsOf(f: string, start: nat, cp: nat, numbered: nat, posn: nat)
    : (r: Option<(Directive, ArgType, nat)>)
    requires IsFormat(f) && start < cp <= |f| && posn <= SIZE_MAX && numbered <= ARG_NONE
    ensures r.Some? ==> r.value.0.dirStart == start && cp < r.value.0.dirEnd <= |f| && r.value.2 <= SIZE_MAX
    ensures r.Some? ==> r.value.2 - posn <= r.value.0.dirEnd - cp
  {
    var e := FlagsEnd(f, cp);
    var d := EmptyDirective(start).(flags := set k | cp <= k < e :: f[k]);
    match WidthOf(f, d, e, posn)
    case None => None
    case Some((d1, cp1, posn1)) => RestOf(f, d1, cp1, numbered, posn1)
  }

  /** The directive from its precision, at cp, on. */
  function RestOf(f: string, d: Directive, cp: nat, numbered: nat, posn: nat)
    : (r: Option<(Directive, ArgType, nat)>)
    requires IsFormat(f) && d.dirStart < cp <= |f| && posn <= SIZE_MAX && numbered <= ARG_NONE
    requires d.precisionStart.None? && d.precisionArgIndex == ARG_NONE && d.precisionEnd == 0
    requires d.argIndex == ARG_NONE
    ensures r.Some? ==> r.value.0.dirStart == d.dirStart && cp < r.value.0.dirEnd <= |f| && r.value.2 <= SIZE_MAX
    ensures r.Some? ==> r.value.0.widthArgIndex == d.widthArgIndex
    ensures r.Some? ==> r.value.2 - posn <= r.value.0.dirEnd - cp
  {
    match PrecisionOf(f, d, cp, posn)
    case None => None
    case Some((d2, cp2, posn2)) => ConversionOf(f, d2, cp2, numbered, posn2)
  }

  /** The directives of a format from cp on, with their value types; None if one is malformed. */
  function DirectivesFrom(f: string, cp: nat, posn: nat): (r: Option<(seq<Directive>, seq<ArgType>)>)
    requires IsFormat(f) && cp <= |f| && posn <= SIZE_MAX
    ensures r.Some? ==> |r.value.0| == |r.value.1|
    decreases |f| - cp
  {
    if cp == |f| then Some(([], []))
    else if f[cp] != '%' then DirectivesFrom(f, cp + 1, posn)
    else
      match DirectiveOf(f, cp, posn)
      case None => None
      case Some((d, ty, p)) =>
        match DirectivesFrom(f, d.dirEnd, p)
        case None => None
        case Some((ds, tys)) => Some(([d] + ds, [ty] + tys))
  }
}
