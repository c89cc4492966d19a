/** The format-string parser printf_parse (printf-parse.c) with its growing tables. A memory block
  * is available when its size does not exceed the parser's memory.
  */
module PrintfParse {
  import opened Options
  import opened Chars
  import opened PrintfFormat
  import opened PrintfGrammar

  const N_DIRECT_ALLOC_DIRECTIVES := 7
  const N_DIRECT_ALLOC_ARGUMENTS := 7
  const SIZEOF_DIRECTIVE := 88
  const SIZEOF_ARGUMENT := 32

  /** xsum and xtimes: SIZE_MAX stands for overflow. A sum that wraps around is smaller than its
    * first operand.
    */
  function Xsum(a: nat, b: nat): (r: nat)
    requires a <= SIZE_MAX && b <= SIZE_MAX
    ensures r == Min(a + b, SIZE_MAX)
  {
    var sum := (a + b) % (SIZE_MAX + 1);
    if sum >= a then sum else SIZE_MAX
  }

  function Xtimes(n: nat, size: nat): (r: nat)
    requires size > 0
    ensures r == Min(n * size, SIZE_MAX)
  {
    assert n <= SIZE_MAX / size <==> n * size <= SIZE_MAX by {
      DivMul(n, size);
    }
    if n <= SIZE_MAX / size then n * size else SIZE_MAX
  }

  lemma DivMul(n: nat, size: nat)
    requires size > 0
    ensures n <= SIZE_MAX / size <==> n * size <= SIZE_MAX
  {
    var q := SIZE_MAX / size;
    assert SIZE_MAX == q * size + SIZE_MAX % size;
    if n <= q {
      assert n * size <= q * size;
    } else {
      assert n * size >= (q + 1) * size == q * size + size;
    }
  }

  function Min(a: int, b: int): int { if a <= b then a else b }

  // ----- what a parse yields -----------------------------------------------------------------

  function WidthLength(d: Directive): int {
    if d.widthStart.None? then 0 else d.widthEnd - d.widthStart.value
  }

  function PrecisionLength(d: Directive): int {
    if d.precisionStart.None? then 0 else d.precisionEnd - d.precisionStart.value
  }

  /** The longest width and precision of the directives, 0 if there is none. */
  ghost predicate AreLongest(ds: seq<Directive>, width: nat, precision: nat) {
    && (forall i | 0 <= i < |ds| :: WidthLength(ds[i]) <= width && PrecisionLength(ds[i]) <= precision)
    && (width == 0 || exists i | 0 <= i < |ds| :: WidthLength(ds[i]) == width)
    && (precision == 0 || exists i | 0 <= i < |ds| :: PrecisionLength(ds[i]) == precision)
  }

  /** A use of an argument: the index and the type it is fetched with. */
  datatype Use = Use(index: nat, ty: ArgType)

  function WidthUses(d: Directive): seq<Use> {
    if d.widthArgIndex == ARG_NONE then [] else [Use(d.widthArgIndex, Signed(Int))]
  }

  function PrecisionUses(d: Directive): seq<Use> {
    if d.precisionArgIndex == ARG_NONE then [] else [Use(d.precisionArgIndex, Signed(Int))]
  }

  function ValueUses(d: Directive, ty: ArgType): seq<Use> {
    if d.argIndex == ARG_NONE then [] else [Use(d.argIndex, ty)]
  }

  function RestUses(d: Directive, ty: ArgType): seq<Use> {
    PrecisionUses(d) + ValueUses(d, ty)
  }

  /** What a directive uses, in the order it is registered. */
  function UsesOf(d: Directive, ty: ArgType): seq<Use> {
    WidthUses(d) + RestUses(d, ty)
  }

  function AllUses(ds: seq<Directive>, tys: seq<ArgType>): seq<Use>
    requires |ds| == |tys|
  {
    if ds == [] then [] else AllUses(ds[..|ds| - 1], tys[..|tys| - 1]) + UsesOf(ds[|ds| - 1], tys[|tys| - 1])
  }

  /** The argument table serves the uses: each use finds its own type at its index, and an entry
    * that no use refers to has no type.
    */
  ghost predicate ArgumentsOk(args: seq<ArgType>, uses: seq<Use>) {
    && (forall i | 0 <= i < |uses| :: uses[i].index < |args| && args[uses[i].index] == uses[i].ty != NoType)
    && (forall k | 0 <= k < |args| && args[k] != NoType :: IsUsed(uses, k))
    && (args != [] ==> args[|args| - 1] != NoType)
  }

  ghost predicate IsUsed(uses: seq<Use>, k: nat) {
    exists i | 0 <= i < |uses| :: uses[i].index == k
  }

  /** Uses that agree on the type of every argument they share. */
  ghost predicate AreCompatible(uses: seq<Use>) {
    forall i, j | 0 <= i < |uses| && 0 <= j < |uses| && uses[i].index == uses[j].index :: uses[i].ty == uses[j].ty
  }

  lemma ArgumentsAreCompatible(args: seq<ArgType>, uses: seq<Use>)
    requires ArgumentsOk(args, uses)
    ensures AreCompatible(uses)
  {
  }

  lemma IncompatibleStays(a: seq<Use>, b: seq<Use>)
    requires !AreCompatible(a)
    ensures !AreCompatible(a + b)
  {
    var i, j :| 0 <= i < |a| && 0 <= j < |a| && a[i].index == a[j].index && a[i].ty != a[j].ty;
    assert (a + b)[i] == a[i] && (a + b)[j] == a[j];
  }

  // ----- numbered arguments ----------------------------------------------------------------

  /** The computation with xsum and xtimes agrees with the exact value. */
  method PositionAt(f: string, cp: nat) returns (r: Position)
    requires IsFormat(f) && cp <= |f|
    ensures r == PositionOf(f, cp)
  {
    if !IsDigit(At(f, cp)) {
      return NoPosition;
    }
    var np := SkipDigits(f, cp);
    if At(f, np) != '$' {
      return NoPosition;
    }
    var n := 0;
    var k := cp;
    while IsDigit(At(f, k))
      invariant cp <= k <= np
      invariant n == Min(DecimalValue(f, cp, k), SIZE_MAX)
      decreases np - k
    {
      n := Xsum(Xtimes(n, 10), f[k] as int - '0' as int);
      k := k + 1;
    }
    if n == 0 || n == SIZE_MAX {
      return BadNumber;
    }
    return Numbered(n - 1, np + 1);
  }

  /** Digits from cp on. */
  method SkipDigits(f: string, cp: nat) returns (next: nat)
    requires IsFormat(f) && cp <= |f|
    ensures next == DigitsEnd(f, cp)
  {
    next := cp;
    while IsDigit(At(f, next))
      invariant cp <= next <= |f| && DigitsEnd(f, next) == DigitsEnd(f, cp)
      decreases |f| - next
    {
      next := next + 1;
    }
  }

  // ----- memory ----------------------------------------------------------------------------

  /** No block of this size can be had. */
  predicate IsTooLarge(size: nat, memory: nat) {
    size >= SIZE_MAX || size > memory
  }

  /** The format writes n + 1 as the number of an argument. */
  ghost predicate IsNumbered(f: string, n: nat)
    requires IsFormat(f)
  {
    exists cp | 0 <= cp <= |f| :: PositionOf(f, cp).Numbered? && PositionOf(f, cp).index == n
  }

  /** Memory may not suffice for the format: for twice as many directives as can be in it, at two
    * characters each, or for twice as many arguments as one that it numbers.
    */
  ghost predicate NeedsMore(f: string, memory: nat)
    requires IsFormat(f)
  {
    || IsTooLarge(SIZEOF_DIRECTIVE * |f|, memory)
    || exists n: nat | IsNumbered(f, n) :: IsTooLarge(2 * SIZEOF_ARGUMENT * (n + 1), memory)
  }

  lemma NoRoomForArgument(f: string, memory: nat, n: nat)
    requires IsFormat(f) && (n < |f| || IsNumbered(f, n)) && IsTooLarge(2 * SIZEOF_ARGUMENT * (n + 1), memory)
    ensures NeedsMore(f, memory)
  {
  }

  lemma NoRoomForDirective(f: string, memory: nat, count: nat)
    requires IsFormat(f) && 2 * count <= |f| && IsTooLarge(2 * SIZEOF_DIRECTIVE * count, memory)
    ensures NeedsMore(f, memory)
  {
  }

  // ----- the parser ------------------------------------------------------------------------

  datatype Outcome = Ok | Invalid | NoMemory

  class Parser {
    const format: string
    const memory: nat
    var dirCount: nat
    var dir: array<Directive>
    var argCount: nat
    var arg: array<ArgType>
    var argPosn: nat
    var maxWidthLength: nat
    var maxPrecisionLength: nat
    // every use registered so far, and the value type of every directive
    ghost var uses: seq<Use>
    ghost var types: seq<ArgType>

    /** There is always room for one more directive, and the arguments fit their table. */
    ghost predicate Valid()
      reads this, dir, arg
    {
      && IsFormat(format)
      && dirCount < dir.Length && argCount <= arg.Length
      && argPosn <= SIZE_MAX
      && ArgumentsOk(arg[..argCount], uses)
    }

    constructor (format: string, memory: nat)
      requires IsFormat(format)
      ensures Valid() && this.format == format && this.memory == memory
      ensures dirCount == 0 && argCount == 0 && argPosn == 0 && uses == [] && types == []
      ensures maxWidthLength == 0 && maxPrecisionLength == 0
      ensures dir.Length == N_DIRECT_ALLOC_DIRECTIVES && arg.Length == N_DIRECT_ALLOC_ARGUMENTS
      ensures fresh(dir) && fresh(arg)
    {
      this.format := format;
      this.memory := memory;
      dirCount, argCount, argPosn := 0, 0, 0;
      maxWidthLength, maxPrecisionLength := 0, 0;
      uses, types := [], [];
      dir := new Directive[N_DIRECT_ALLOC_DIRECTIVES];
      arg := new ArgType[N_DIRECT_ALLOC_ARGUMENTS];
    }

    /** The first part of REGISTER_ARG: make room for index n. */
    method MakeRoom(n: nat) returns (ok: bool)
      requires argCount <= arg.Length && n < SIZE_MAX
      modifies this`arg
      ensures ok ==> argCount <= arg.Length && n < arg.Length && arg[..argCount] == old(arg[..argCount])
      ensures ok && n >= old(arg.Length) ==>
        arg.Length == if n < 2 * old(arg.Length) then 2 * old(arg.Length) else n + 1
      ensures n < old(arg.Length) ==> ok && arg == old(arg)
      ensures arg == old(arg) || fresh(arg)
      ensures !ok ==> arg == old(arg) && IsTooLarge(2 * SIZEOF_ARGUMENT * (n + 1), memory)
    {
      if n >= arg.Length {
        var capacity := Xtimes(arg.Length, 2);
        if capacity <= n {
          capacity := Xsum(n, 1);
        }
        var size := Xtimes(capacity, SIZEOF_ARGUMENT);
        if size == SIZE_MAX || size > memory {
          return false;
        }
        var block := new ArgType[capacity];
        forall k | 0 <= k < argCount {
          block[k] := arg[k];
        }
        assert block[..argCount] == arg[..argCount];
        arg := block;
      }
      return true;
    }

    /** The second part: entries up to n exist, new ones without a type. */
    method FillGap(n: nat)
      requires argCount <= arg.Length && n < arg.Length
      modifies this`argCount, arg
      ensures argCount == (if n < old(argCount) then old(argCount) else n + 1) <= arg.Length
      ensures arg[..argCount] == old(arg[..argCount]) + NoTypes(argCount - old(argCount))
    {
      ghost var before := arg[..argCount];
      while argCount <= n
        invariant |before| <= argCount <= arg.Length && (argCount <= n + 1 || argCount == |before|)
        invariant arg[..argCount] == before + NoTypes(argCount - |before|)
      {
        arg[argCount] := NoType;
        argCount := argCount + 1;
        assert arg[..argCount] == arg[..argCount - 1] + [NoType];
      }
    }

    /** REGISTER_ARG: grow the table if needed, fill the gap, and record or check the type. */
    method RegisterArg(n: nat, ty: ArgType) returns (r: Outcome)
      requires Valid() && n < ARG_NONE && ty != NoType
      modifies this`argCount, this`arg, this`uses, arg
      ensures r.Ok? ==> Valid() && uses == old(uses) + [Use(n, ty)]
      ensures r.Ok? ==> argCount == if n < old(argCount) then old(argCount) else n + 1
      ensures r.Invalid? ==> !AreCompatible(old(uses) + [Use(n, ty)])
      ensures r.NoMemory? ==> IsTooLarge(2 * SIZEOF_ARGUMENT * (n + 1), memory)
      ensures arg == old(arg) || fresh(arg)
    {
      hide ArgumentsOk;
      ghost var before := arg[..argCount];
      var room := MakeRoom(n);
      if !room {
        return NoMemory;
      }
      FillGap(n);
      if arg[n] == NoType {
        arg[n] := ty;
      } else if arg[n] != ty {
        assert arg[..argCount][n] != NoType;
        ConflictingUse(before, uses, n, ty);
        return Invalid;
      }
      assert n < |before| ==> before[n] in {NoType, ty};
      ArgumentsGrow(before, arg[..argCount], uses, n, ty);
      uses := uses + [Use(n, ty)];
      return Ok;
    }

    /** After a star: the argument it names, or the next one, is registered as an int. */
    method ParseStar(cp: nat) returns (r: Outcome, index: nat, next: nat)
      requires Valid() && argPosn < cp <= |format|
      modifies this`argCount, this`arg, this`uses, this`argPosn, arg
      ensures r.Ok? ==> Valid() && StarOf(format, cp, old(argPosn)) == Some((index, next, argPosn))
      ensures r.Ok? ==> uses == old(uses) + [Use(index, Signed(Int))]
      ensures r.Invalid? ==>
        var c := StarOf(format, cp, old(argPosn));
        c.None? || !AreCompatible(old(uses) + [Use(c.value.0, Signed(Int))])
      ensures arg == old(arg) || fresh(arg)
      ensures r.NoMemory? ==> NeedsMore(format, memory)
    {
      hide ArgumentsOk, AreCompatible, NeedsMore, IsTooLarge;
      var p := PositionAt(format, cp);
      index, next := 0, cp;
      match p {
        case BadNumber =>
          return Invalid, 0, cp;
        case Numbered(n, after) =>
          index, next := n, after;
        case NoPosition =>
          index := argPosn;
          argPosn := (argPosn + 1) % (SIZE_MAX + 1);
          if index == ARG_NONE {
            return Invalid, 0, cp;
          }
      }
      assert p.Numbered? ==> IsNumbered(format, index);
      r := RegisterArg(index, Signed(Int));
      if r.NoMemory? {
        NoRoomForArgument(format, memory, index);
      }
    }

    /** The field width at cp. */
    method ParseWidth(dp: Directive, cp: nat) returns (r: Outcome, d: Directive, next: nat)
      requires Valid() && dp.dirStart < cp <= |format| && argPosn < cp
      requires dp.widthStart.None? && dp.widthArgIndex == ARG_NONE && dp.widthEnd == 0
      modifies this`argCount, this`arg, this`uses, this`argPosn, this`maxWidthLength, arg
      ensures r.Ok? ==> Valid() && WidthOf(format, dp, cp, old(argPosn)) == Some((d, next, argPosn))
      ensures r.Ok? ==> uses == old(uses) + WidthUses(d)
      ensures r.Invalid? ==>
        var c := WidthOf(format, dp, cp, old(argPosn));
        c.None? || !AreCompatible(old(uses) + WidthUses(c.value.0))
      ensures r.Ok? ==> maxWidthLength == Max(old(maxWidthLength), WidthLength(d))
      ensures arg == old(arg) || fresh(arg)
      ensures r.NoMemory? ==> NeedsMore(format, memory)
    {
      hide ArgumentsOk, AreCompatible, StarOf, NeedsMore;
      r, d, next := Ok, dp, cp;
      if At(format, cp) == '*' {
        d := d.(widthStart := Some(cp), widthEnd := cp + 1);
        if maxWidthLength < 1 {
          maxWidthLength := 1;
        }
        var index;
        r, index, next := ParseStar(cp + 1);
        d := d.(widthArgIndex := index);
      } else if IsDigit(At(format, cp)) {
        next := SkipDigits(format, cp);
        d := d.(widthStart := Some(cp), widthEnd := next);
        if maxWidthLength < next - cp {
          maxWidthLength := next - cp;
        }
      }
    }

    /** The precision at cp. */
    method ParsePrecision(dp: Directive, cp: nat) returns (r: Outcome, d: Directive, next: nat)
      requires Valid() && dp.dirStart < cp <= |format| && argPosn < cp
      requires dp.precisionStart.None? && dp.precisionArgIndex == ARG_NONE && dp.precisionEnd == 0
      modifies this`argCount, this`arg, this`uses, this`argPosn, this`maxPrecisionLength, arg
      ensures r.Ok? ==> Valid() && PrecisionOf(format, dp, cp, old(argPosn)) == Some((d, next, argPosn))
      ensures r.Ok? ==> uses == old(uses) + PrecisionUses(d)
      ensures r.Invalid? ==>
        var c := PrecisionOf(format, dp, cp, old(argPosn));
        c.None? || !AreCompatible(old(uses) + PrecisionUses(c.value.0))
      ensures r.Ok? ==> maxPrecisionLength == Max(old(maxPrecisionLength), PrecisionLength(d))
      ensures arg == old(arg) || fresh(arg)
      ensures r.NoMemory? ==> NeedsMore(format, memory)
    {
      hide ArgumentsOk, AreCompatible, StarOf, NeedsMore;
      r, d, next := Ok, dp, cp;
      if At(format, cp) == '.' {
        if At(format, cp + 1) == '*' {
          d := d.(precisionStart := Some(cp), precisionEnd := cp + 2);
          if maxPrecisionLength < 2 {
            maxPrecisionLength := 2;
          }
          var index;
          r, index, next := ParseStar(cp + 2);
          d := d.(precisionArgIndex := index);
        } else {
          next := SkipDigits(format, cp + 1);
          d := d.(precisionStart := Some(cp), precisionEnd := next);
          if maxPrecisionLength < next - cp {
            maxPrecisionLength := next - cp;
          }
        }
      }
    }

    /** The size specifier and the conversion character at cp. */
    method ParseConversion(dp: Directive, cp: nat, numbered: nat) returns (r: Outcome, d: Directive, ty: ArgType)
      requires Valid() && dp.dirStart < cp <= |format| && dp.argIndex == ARG_NONE && numbered <= ARG_NONE
      requires argPosn < cp && (numbered == ARG_NONE || IsNumbered(format, numbered))
      modifies this`argCount, this`arg, this`uses, this`argPosn, arg
      ensures r.Ok? ==> Valid() && ConversionOf(format, dp, cp, numbered, old(argPosn)) == Some((d, ty, argPosn))
      ensures r.Ok? ==> uses == old(uses) + ValueUses(d, ty)
      ensures r.Invalid? ==>
        var c := ConversionOf(format, dp, cp, numbered, old(argPosn));
        c.None? || !AreCompatible(old(uses) + ValueUses(c.value.0, c.value.1))
      ensures arg == old(arg) || fresh(arg)
      ensures r.NoMemory? ==> NeedsMore(format, memory)
    {
      hide ArgumentsOk, AreCompatible, SizeAt, TypeFor, NeedsMore, IsTooLarge, IsNumbered;
      var size := SizeAt(format, cp);
      var c := At(format, size.next);
      r, d, ty := Ok, dp, NoType;
      var t := TypeFor(size, c);
      if t.None? {
        return Invalid, dp, NoType;
      }
      ty := t.value;
      if ty != NoType {
        var index := numbered;
        if index == ARG_NONE {
          index := argPosn;
          argPosn := (argPosn + 1) % (SIZE_MAX + 1);
          if index == ARG_NONE {
            return Invalid, dp, NoType;
          }
        }
        r := RegisterArg(index, ty);
        if r.NoMemory? {
          NoRoomForArgument(format, memory, index);
        }
        d := d.(argIndex := index);
      }
      d := d.(conversion := Recorded(c), dirEnd := size.next + 1);
    }

    /** The flags at cp. */
    method ParseFlags(cp: nat) returns (flags: set<char>, next: nat)
      requires IsFormat(format) && cp <= |format|
      ensures next == FlagsEnd(format, cp)
      ensures flags == set k | cp <= k < next :: format[k]
    {
      flags, next := {}, cp;
      while IsFlag(At(format, next))
        invariant cp <= next <= |format| && FlagsEnd(format, next) == FlagsEnd(format, cp)
        invariant flags == set k | cp <= k < next :: format[k]
        decreases |format| - next
      {
        flags := flags + {format[next]};
        next := next + 1;
      }
    }

    /** A directive from its precision, at cp, on. */
    method ParseRest(dp: Directive, cp: nat, numbered: nat) returns (r: Outcome, d: Directive, ty: ArgType)
      requires Valid() && dp.dirStart < cp <= |format| && numbered <= ARG_NONE && dp.argIndex == ARG_NONE
      requires argPosn < cp && (numbered == ARG_NONE || IsNumbered(format, numbered))
      requires dp.precisionStart.None? && dp.precisionArgIndex == ARG_NONE && dp.precisionEnd == 0
      modifies this`argCount, this`arg, this`uses, this`argPosn, this`maxPrecisionLength, arg
      ensures r.Ok? ==> Valid() && RestOf(format, dp, cp, numbered, old(argPosn)) == Some((d, ty, argPosn))
      ensures r.Ok? ==> uses == old(uses) + RestUses(d, ty)
      ensures r.Invalid? ==>
        var c := RestOf(format, dp, cp, numbered, old(argPosn));
        c.None? || !AreCompatible(old(uses) + RestUses(c.value.0, c.value.1))
      ensures r.Ok? ==> maxPrecisionLength == Max(old(maxPrecisionLength), PrecisionLength(d))
      ensures r.Ok? ==> WidthLength(d) == WidthLength(dp)
      ensures arg == old(arg) || fresh(arg)
      ensures r.NoMemory? ==> NeedsMore(format, memory)
    {
      hide ArgumentsOk, AreCompatible, PrecisionOf, ConversionOf, PrecisionUses, ValueUses;
      ty := NoType;
      ghost var whole := RestOf(format, dp, cp, numbered, argPosn);
      RestConflict(uses, format, dp, cp, numbered, argPosn);
      var next;
      r, d, next := ParsePrecision(dp, cp);
      if !r.Ok? {
        return;
      }
      ghost var withPrecision := d;
      r, d, ty := ParseConversion(d, next, numbered);
      SamePrecisionUses(withPrecision, d);
      assert old(uses) + PrecisionUses(d) + ValueUses(d, ty) == old(uses) + RestUses(d, ty);
    }

    /** A directive from its flags, at cp, on. */
    method ParseFields(start: nat, cp0: nat, numbered: nat) returns (r: Outcome, d: Directive, ty: ArgType)
      requires Valid() && start < cp0 <= |format| && numbered <= ARG_NONE
      requires argPosn < cp0 && (numbered == ARG_NONE || IsNumbered(format, numbered))
      modifies this`argCount, this`arg, this`uses, this`argPosn, this`maxWidthLength, this`maxPrecisionLength, arg
      ensures r.Ok? ==> Valid() && FieldsOf(format, start, cp0, numbered, old(argPosn)) == Some((d, ty, argPosn))
      ensures r.Ok? ==> uses == old(uses) + UsesOf(d, ty)
      ensures r.Invalid? ==> IsRefused(FieldsOf(format, start, cp0, numbered, old(argPosn)), old(uses))
      ensures r.Ok? ==> maxWidthLength == Max(old(maxWidthLength), WidthLength(d))
      ensures r.Ok? ==> maxPrecisionLength == Max(old(maxPrecisionLength), PrecisionLength(d))
      ensures arg == old(arg) || fresh(arg)
      ensures r.NoMemory? ==> NeedsMore(format, memory)
    {
      hide ArgumentsOk, AreCompatible, WidthOf, RestOf, WidthUses, RestUses, IsRefused, UsesOf;
      ty := NoType;
      var flags, cp := ParseFlags(cp0);
      d := EmptyDirective(start).(flags := flags);
      FieldsConflict(uses, format, start, cp0, numbered, argPosn);
      r, d, cp := ParseWidth(d, cp);
      if !r.Ok? {
        return;
      }
      ghost var withWidth := d;
      r, d, ty := ParseRest(d, cp, numbered);
      SameWidthUses(withWidth, d);
      UsesJoin(old(uses), d, ty);
    }

    /** One directive, whose percent sign is at start. */
    method ParseDirective(start: nat) returns (r: Outcome, d: Directive, ty: ArgType)
      requires Valid() && argPosn <= start < |format|
      modifies this`argCount, this`arg, this`uses, this`argPosn, this`maxWidthLength, this`maxPrecisionLength, arg
      ensures r.Ok? ==> Valid() && DirectiveOf(format, start, old(argPosn)) == Some((d, ty, argPosn))
      ensures r.Ok? ==> uses == old(uses) + UsesOf(d, ty)
      ensures r.Invalid? ==> IsRefused(DirectiveOf(format, start, old(argPosn)), old(uses))
      ensures r.Ok? ==> maxWidthLength == Max(old(maxWidthLength), WidthLength(d))
      ensures r.Ok? ==> maxPrecisionLength == Max(old(maxPrecisionLength), PrecisionLength(d))
      ensures arg == old(arg) || fresh(arg)
      ensures r.NoMemory? ==> NeedsMore(format, memory)
    {
      hide ArgumentsOk, FieldsOf, PositionOf, UsesOf, NeedsMore;
      d, ty := EmptyDirective(start), NoType;
      var p := PositionAt(format, start + 1);
      match p {
        case BadNumber => r := Invalid;
        case Numbered(n, next) => r, d, ty := ParseFields(start, next, n);
        case NoPosition => r, d, ty := ParseFields(start, start + 1, ARG_NONE);
      }
    }

    /** Store a directive; when the table is full, double it. */
    method AddDirective(d: Directive, ty: ArgType) returns (ok: bool)
      requires Valid()
      modifies this`dir, this`dirCount, this`types, dir
      ensures ok ==> Valid() && dirCount == old(dirCount) + 1
      ensures ok ==> dir[..dirCount] == old(dir[..dirCount]) + [d] && types == old(types) + [ty]
      ensures ok ==> dir.Length == if dirCount < old(dir.Length) then old(dir.Length) else 2 * old(dir.Length)
      ensures dir == old(dir) || fresh(dir)
      ensures !ok ==> IsTooLarge(2 * SIZEOF_DIRECTIVE * (old(dirCount) + 1), memory)
    {
      ghost var before := dir[..dirCount];
      dir[dirCount] := d;
      dirCount := dirCount + 1;
      types := types + [ty];
      assert dir[..dirCount] == before + [d];
      if dirCount >= dir.Length {
        var capacity := Xtimes(dir.Length, 2);
        var size := Xtimes(capacity, SIZEOF_DIRECTIVE);
        if size == SIZE_MAX || size > memory {
          return false;
        }
        var block := new Directive[capacity];
        forall k | 0 <= k < dirCount {
          block[k] := dir[k];
        }
        assert block[..dirCount] == dir[..dirCount];
        dir := block;
      }
      return true;
    }

    /** printf_parse. Success means that the format is well formed and its uses of arguments are
      * compatible: then the table holds the directives that the format denotes and the argument
      * table serves exactly their uses; the entry after the last directive marks the end of the
      * format. The format is refused only when it is malformed or its uses conflict, and memory
      * runs out only when it may not suffice for the format.
      */
    method Parse() returns (r: Outcome)
      requires Valid() && dirCount == 0 && argCount == 0 && argPosn == 0 && uses == [] && types == []
      requires maxWidthLength == 0 && maxPrecisionLength == 0
      modifies this, dir, arg
      ensures r.Ok? ==> Valid() && |types| == dirCount && Denotes(format, dir[..dirCount], types)
      ensures r.Ok? ==> ArgumentsOk(arg[..argCount], AllUses(dir[..dirCount], types))
      ensures r.Ok? ==> IsAcceptable(format)
      ensures r.Invalid? ==> !IsAcceptable(format)
      ensures r.Ok? ==> AreLongest(dir[..dirCount], maxWidthLength, maxPrecisionLength)
      ensures r.Ok? ==> dir[dirCount].dirStart == |format|
      ensures r.NoMemory? ==> NeedsMore(format, memory)
    {
      hide ArgumentsOk, AreCompatible, DirectiveOf, AllUses, AreLongest, NeedsMore, IsTooLarge, Denotes, IsAcceptable;
      var cp := 0;
      EmptyTables();
      while At(format, cp) != '\0'
        invariant Valid() && cp <= |format| && argPosn <= cp && 2 * dirCount <= cp
        invariant dir == old(dir) || fresh(dir)
        invariant arg == old(arg) || fresh(arg)
        invariant |types| == dirCount && uses == AllUses(dir[..dirCount], types)
        invariant DirectivesFrom(format, 0, 0)
          == Prepend(dir[..dirCount], types, DirectivesFrom(format, cp, argPosn))
        invariant AreLongest(dir[..dirCount], maxWidthLength, maxPrecisionLength)
        decreases |format| - cp
      {
        if format[cp] == '%' {
          ghost var ds, tys, posn := dir[..dirCount], types, argPosn;
          ghost var w, p := maxWidthLength, maxPrecisionLength;
          var d, ty;
          r, d, ty := ParseDirective(cp);
          if r.Invalid? {
            LateConflict(format, cp, posn, ds, tys);
            AcceptableIsRead(format);
            return;
          }
          if r.NoMemory? {
            return;
          }
          assert dir[..dirCount] == ds;
          var ok := AddDirective(d, ty);
          if !ok {
            NoRoomForDirective(format, memory, |ds| + 1);
            return NoMemory;
          }
          PrependOne(ds, tys, d, ty, DirectivesFrom(format, d.dirEnd, argPosn));
          LongestGrows(ds, w, p, d);
          AllUsesGrow(ds, tys, d, ty);
          cp := d.dirEnd;
        } else {
          cp := cp + 1;
        }
      }
      ghost var ds := dir[..dirCount];
      dir[dirCount] := dir[dirCount].(dirStart := cp);
      assert dir[..dirCount] == ds;
      assert ds + [] == ds && types + [] == types;
      FormatExactly(format, ds, types);
      AcceptableIsRead(format);
      ArgumentsAreCompatible(arg[..argCount], uses);
      return Ok;
    }
  }

  /** The format is well formed, and its uses of each argument agree on its type. */
  ghost predicate IsAcceptable(f: string) {
    exists ds, tys | |ds| == |tys| :: Denotes(f, ds, tys) && AreCompatible(AllUses(ds, tys))
  }

  lemma AcceptableIsRead(f: string)
    requires IsFormat(f)
    ensures IsAcceptable(f) <==>
      var all := DirectivesFrom(f, 0, 0); all.Some? && AreCompatible(AllUses(all.value.0, all.value.1))
  {
    hide Denotes, DirectivesFrom, AreCompatible, AllUses;
    if IsAcceptable(f) {
      var ds, tys :| |ds| == |tys| && Denotes(f, ds, tys) && AreCompatible(AllUses(ds, tys));
      FormatExactly(f, ds, tys);
    }
    var all := DirectivesFrom(f, 0, 0);
    if all.Some? {
      FormatExactly(f, all.value.0, all.value.1);
    }
  }

  /** Directives found before the rest of the format. */
  function Prepend(ds: seq<Directive>, tys: seq<ArgType>, rest: Option<(seq<Directive>, seq<ArgType>)>)
    : Option<(seq<Directive>, seq<ArgType>)>
  {
    if rest.None? then None else Some((ds + rest.value.0, tys + rest.value.1))
  }

  lemma PrependOne(ds: seq<Directive>, tys: seq<ArgType>, d: Directive, ty: ArgType,
                   rest: Option<(seq<Directive>, seq<ArgType>)>)
    ensures Prepend(ds + [d], tys + [ty], rest) == Prepend(ds, tys, Prepend([d], [ty], rest))
  {
    if rest.Some? {
      assert ds + [d] + rest.value.0 == ds + ([d] + rest.value.0);
      assert tys + [ty] + rest.value.1 == tys + ([ty] + rest.value.1);
    }
  }

  lemma EmptyTables()
    ensures AllUses([], []) == [] && AreLongest([], 0, 0)
    ensures forall rest :: Prepend([], [], rest) == rest
  {
    forall rest: Option<(seq<Directive>, seq<ArgType>)> ensures Prepend([], [], rest) == rest {
      if rest.Some? {
        assert [] + rest.value.0 == rest.value.0 && [] + rest.value.1 == rest.value.1;
      }
    }
  }

  lemma ConflictingUse(args: seq<ArgType>, uses: seq<Use>, n: nat, ty: ArgType)
    requires ArgumentsOk(args, uses) && n < |args| && args[n] != NoType && args[n] != ty
    ensures !AreCompatible(uses + [Use(n, ty)])
  {
    assert IsUsed(uses, n);
    var i :| 0 <= i < |uses| && uses[i].index == n;
    var all := uses + [Use(n, ty)];
    assert all[i].index == all[|uses|].index && all[i].ty != all[|uses|].ty;
  }

  /** A directive is refused if it is malformed or conflicts with the uses before it. */
  ghost predicate IsRefused(d: Option<(Directive, ArgType, nat)>, uses: seq<Use>) {
    d.None? || !AreCompatible(uses + UsesOf(d.value.0, d.value.1))
  }

  lemma UsesJoin(uses: seq<Use>, d: Directive, ty: ArgType)
    ensures uses + WidthUses(d) + RestUses(d, ty) == uses + UsesOf(d, ty)
  {
  }

  /** A conflict of the precision, or of the value after it, is one of both together. */
  lemma RestConflict(uses: seq<Use>, f: string, dp: Directive, cp: nat, numbered: nat, posn: nat)
    requires IsFormat(f) && dp.dirStart < cp <= |f| && posn <= SIZE_MAX
    requires numbered <= ARG_NONE && dp.argIndex == ARG_NONE
    requires dp.precisionStart.None? && dp.precisionArgIndex == ARG_NONE && dp.precisionEnd == 0
    ensures RestOf(f, dp, cp, numbered, posn).Some? ==>
      var (d, ty, _) := RestOf(f, dp, cp, numbered, posn).value;
      var d2 := PrecisionOf(f, dp, cp, posn).value.0;
      && (!AreCompatible(uses + PrecisionUses(d2)) ==> !AreCompatible(uses + RestUses(d, ty)))
      && uses + PrecisionUses(d2) + ValueUses(d, ty) == uses + RestUses(d, ty)
  {
    hide AreCompatible, PrecisionOf, ConversionOf;
    if RestOf(f, dp, cp, numbered, posn).Some? {
      var (d, ty, _) := RestOf(f, dp, cp, numbered, posn).value;
      var d2 := PrecisionOf(f, dp, cp, posn).value.0;
      SamePrecisionUses(d2, d);
      assert uses + PrecisionUses(d2) + ValueUses(d, ty) == uses + RestUses(d, ty);
      if !AreCompatible(uses + PrecisionUses(d2)) {
        IncompatibleStays(uses + PrecisionUses(d2), ValueUses(d, ty));
      }
    }
  }

  /** A conflict of the width, or of what follows it, is one of the whole directive. */
  lemma FieldsConflict(uses: seq<Use>, f: string, start: nat, cp: nat, numbered: nat, posn: nat)
    requires IsFormat(f) && start < cp <= |f| && posn <= SIZE_MAX && numbered <= ARG_NONE
    ensures var whole := FieldsOf(f, start, cp, numbered, posn);
      var e := FlagsEnd(f, cp);
      var w := WidthOf(f, EmptyDirective(start).(flags := set k | cp <= k < e :: f[k]), e, posn);
      && (w.None? ==> IsRefused(whole, uses))
      && (w.Some? && !AreCompatible(uses + WidthUses(w.value.0)) ==> IsRefused(whole, uses))
      && (w.Some? && whole.Some? ==>
            var (d, ty, _) := whole.value;
            !AreCompatible(uses + WidthUses(w.value.0) + RestUses(d, ty)) ==> IsRefused(whole, uses))
      && (whole.None? ==> IsRefused(whole, uses))
  {
    hide AreCompatible, WidthOf, RestOf, RestUses, WidthUses;
    var whole := FieldsOf(f, start, cp, numbered, posn);
    if whole.Some? {
      var (d, ty, _) := whole.value;
      var e := FlagsEnd(f, cp);
      var d1 := WidthOf(f, EmptyDirective(start).(flags := set k | cp <= k < e :: f[k]), e, posn).value.0;
      SameWidthUses(d1, d);
      assert uses + WidthUses(d1) + RestUses(d, ty) == uses + UsesOf(d, ty);
      if !AreCompatible(uses + WidthUses(d1)) {
        IncompatibleStays(uses + WidthUses(d1), RestUses(d, ty));
      }
    }
  }

  /** Widths and precisions given by stars are fetched as ints, and nothing else is used for them. */
  lemma StarsAreInts(d: Directive)
    ensures forall u | u in WidthUses(d) + PrecisionUses(d) ::
      u.ty == Signed(Int) && (u.index == d.widthArgIndex || u.index == d.precisionArgIndex)
    ensures forall k | k in {d.widthArgIndex, d.precisionArgIndex} && k != ARG_NONE ::
      Use(k, Signed(Int)) in WidthUses(d) + PrecisionUses(d)
  {
  }

  lemma SameWidthUses(d: Directive, d': Directive)
    ensures d'.widthArgIndex == d.widthArgIndex ==> WidthUses(d') == WidthUses(d)
  {
  }

  lemma SamePrecisionUses(d: Directive, d': Directive)
    ensures d'.precisionArgIndex == d.precisionArgIndex ==> PrecisionUses(d') == PrecisionUses(d)
  {
  }

  lemma {:induction false} AllUsesConcat(a: seq<Directive>, at: seq<ArgType>, b: seq<Directive>, bt: seq<ArgType>)
    requires |a| == |at| && |b| == |bt|
    ensures AllUses(a + b, at + bt) == AllUses(a, at) + AllUses(b, bt)
    decreases |b|
  {
    hide UsesOf;
    if b == [] {
      assert a + b == a && at + bt == at;
    } else {
      var n := |b| - 1;
      assert (a + b)[..|a + b| - 1] == a + b[..n] && (at + bt)[..|at + bt| - 1] == at + bt[..n];
      AllUsesConcat(a, at, b[..n], bt[..n]);
    }
  }

  /** The rest of a format from a percent sign on is its directive and what follows it. */
  lemma UnfoldDirective(f: string, cp: nat, posn: nat)
    requires IsFormat(f) && cp < |f| && f[cp] == '%' && posn <= SIZE_MAX
    ensures DirectiveOf(f, cp, posn).None? ==> DirectivesFrom(f, cp, posn).None?
    ensures DirectiveOf(f, cp, posn).Some? ==>
      var (d, ty, p) := DirectiveOf(f, cp, posn).value;
      && cp < d.dirEnd <= |f| && p <= SIZE_MAX
      && DirectivesFrom(f, cp, posn) == Prepend([d], [ty], DirectivesFrom(f, d.dirEnd, p))
  {
    hide DirectiveOf;
  }

  /** A malformed directive, or one in conflict with those before it, spoils the whole format. */
  lemma LateConflict(f: string, cp: nat, posn: nat, ds: seq<Directive>, tys: seq<ArgType>)
    requires IsFormat(f) && cp < |f| && f[cp] == '%' && posn <= SIZE_MAX && |ds| == |tys|
    requires IsRefused(DirectiveOf(f, cp, posn), AllUses(ds, tys))
    ensures var all := Prepend(ds, tys, DirectivesFrom(f, cp, posn));
      all.None? || !AreCompatible(AllUses(all.value.0, all.value.1))
  {
    hide AreCompatible, DirectiveOf, UsesOf, AllUses, DirectivesFrom;
    UnfoldDirective(f, cp, posn);
    if DirectivesFrom(f, cp, posn).Some? {
      var (d, ty, p) := DirectiveOf(f, cp, posn).value;
      PrependOne(ds, tys, d, ty, DirectivesFrom(f, d.dirEnd, p));
      var (ds', tys') := DirectivesFrom(f, d.dirEnd, p).value;
      AllUsesConcat(ds + [d], tys + [ty], ds', tys');
      AllUsesGrow(ds, tys, d, ty);
      IncompatibleStays(AllUses(ds, tys) + UsesOf(d, ty), AllUses(ds', tys'));
    }
  }

  function Max(a: int, b: int): int { if a <= b then b else a }

  lemma AllUsesGrow(ds: seq<Directive>, tys: seq<ArgType>, d: Directive, ty: ArgType)
    requires |ds| == |tys|
    ensures AllUses(ds + [d], tys + [ty]) == AllUses(ds, tys) + UsesOf(d, ty)
  {
    assert (ds + [d])[..|ds|] == ds && (tys + [ty])[..|tys|] == tys;
  }

  lemma LongestGrows(ds: seq<Directive>, w: nat, p: nat, d: Directive)
    requires AreLongest(ds, w, p)
    ensures AreLongest(ds + [d], Max(w, WidthLength(d)), Max(p, PrecisionLength(d)))
  {
    var ds' := ds + [d];
    assert ds'[|ds|] == d;
    if w != 0 {
      var i :| 0 <= i < |ds| && WidthLength(ds[i]) == w;
      assert ds'[i] == ds[i];
    }
    if p != 0 {
      var i :| 0 <= i < |ds| && PrecisionLength(ds[i]) == p;
      assert ds'[i] == ds[i];
    }
  }

  function NoTypes(n: nat): (s: seq<ArgType>)
    ensures |s| == n
  {
    seq(n, _ => NoType)
  }

  lemma ArgumentsGrow(before: seq<ArgType>, after: seq<ArgType>, uses: seq<Use>, n: nat, ty: ArgType)
    requires ArgumentsOk(before, uses) && ty != NoType
    requires n < |after| && |before| <= |after| <= (if n < |before| then |before| else n + 1)
    requires n < |before| ==> before[n] in {NoType, ty}
    requires after[n] == ty
    requires forall k | 0 <= k < |before| && k != n :: after[k] == before[k]
    requires forall k | |before| <= k < |after| && k != n :: after[k] == NoType
    ensures ArgumentsOk(after, uses + [Use(n, ty)])
  {
    var uses' := uses + [Use(n, ty)];
    forall i | 0 <= i < |uses'| ensures uses'[i].index < |after| && after[uses'[i].index] == uses'[i].ty {
      if i < |uses| {
        assert uses[i].index < |before| && before[uses[i].index] == uses[i].ty;
      }
    }
    forall k | 0 <= k < |after| && after[k] != NoType ensures IsUsed(uses', k) {
      if k == n {
        assert uses'[|uses|].index == k;
      } else {
        assert IsUsed(uses, k);
        var i :| 0 <= i < |uses| && uses[i].index == k;
        assert uses'[i].index == k;
      }
    }
  }
}
