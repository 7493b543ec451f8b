/** `printf_parse` (intl/printf-parse.c). */
module PrintfParse {
  import opened Options
  import opened PrintfSize
  import opened PrintfSpec

  const SIZEOF_ARGUMENT: nat := 32
  const SIZEOF_DIRECTIVE: nat := 88

  /** `arguments`: the types found so far, in memory that grows. */
  class Arguments {
    var arg: array<ArgType>
    var count: nat

    constructor ()
      ensures Valid() && Types() == [] && fresh(arg)
    {
      arg := new ArgType[0];
      count := 0;
    }

    ghost predicate Valid()
      reads this
    {
      count <= arg.Length <= 2 * count && arg.Length <= SIZE_MAX
    }

    ghost function Types(): seq<ArgType>
      reads this, arg
      requires Valid()
    {
      arg[..count]
    }

    /** `realloc`. */
    method Grow(room: nat)
      requires Valid() && arg.Length <= room
      modifies this`arg
      ensures fresh(arg) && arg.Length == room && arg[..count] == old(arg[..count])
    {
      var memory := new ArgType[room](_ => TYPE_NONE);
      var i := 0;
      while i < count
        invariant 0 <= i <= count && memory[..i] == arg[..i]
        modifies memory
      {
        memory[i] := arg[i];
        i := i + 1;
      }
      arg := memory;
    }

    /** Makes room for argument `n`; fails if the size of the memory cannot be expressed. */
    method Reserve(n: nat) returns (ok: bool)
      requires Valid() && n < SIZE_MAX
      modifies this`arg
      ensures arg == old(arg) || fresh(arg)
      ensures count <= arg.Length && arg[..count] == old(arg[..count])
      ensures ok ==> n < arg.Length <= SIZE_MAX && arg.Length <= 2 * (if count > n then count else n + 1)
      ensures !ok ==> n >= HUGE && arg == old(arg)
    {
      if n >= arg.Length {
        var room := Xtimes(arg.Length, 2);
        XtimesSaturates(arg.Length, 2);
        if room <= n {
          room := Xsum(n, 1);
          XsumSaturates(n, 1);
        }
        var memorySize := Xtimes(room, SIZEOF_ARGUMENT);
        XtimesSaturates(room, SIZEOF_ARGUMENT);
        if memorySize == SIZE_MAX {
          return false;
        }
        Grow(room);
      }
      ok := true;
    }

    /** REGISTER_ARG. */
    method Register(n: nat, ty: ArgType) returns (ok: bool)
      requires Valid() && n < SIZE_MAX && ty != TYPE_NONE
      modifies this, arg
      ensures Valid() && (arg == old(arg) || fresh(arg))
      ensures ok ==> Registered(old(Types()), (n, ty)) == Some(Types())
      ensures !ok ==> Registered(old(Types()), (n, ty)) == None || n >= HUGE
    {
      ghost var ts := Types();
      ok := Reserve(n);
      if !ok {
        return;
      }
      while count <= n
        invariant |ts| <= count <= arg.Length && (count > |ts| ==> count <= n + 1)
        invariant arg[..count] == ts + seq(count - |ts|, _ => TYPE_NONE)
        invariant arg.Length <= 2 * (if count > n then count else n + 1)
        modifies `count, arg
        decreases n + 1 - count
      {
        arg[count] := TYPE_NONE;
        count := count + 1;
      }
      ghost var padded := arg[..count];
      if arg[n] == TYPE_NONE {
        arg[n] := ty;
        assert arg[..count] == padded[n := ty];
      } else if arg[n] != ty {
        ok := false;
      } else {
        assert padded[n := ty] == padded;
      }
    }
  }

  /** The value of the digits from `cp` on, cut off at SIZE_MAX. */
  method ReadNumber(f: string, cp: nat, ghost end: nat) returns (n: size, np: nat)
    requires cp <= end <= |f| && !Digit(At(f, end)) && forall k :: cp <= k < end ==> Digit(f[k])
    ensures np == end && Digits(f[cp..end]) && n == Min(Decimal(f[cp..end]), SIZE_MAX)
  {
    n, np := 0, cp;
    while Digit(At(f, np))
      invariant cp <= np <= end && Digits(f[cp..np])
      invariant n == Min(Decimal(f[cp..np]), SIZE_MAX)
      decreases end - np
    {
      AddDigitSaturates(Decimal(f[cp..np]), f[np]);
      assert f[cp..np + 1][..np - cp] == f[cp..np];
      n := Xsum(Xtimes(n, 10), f[np] as nat - '0' as nat);
      np := np + 1;
    }
  }

  /** A position, if there is one at `cp`. */
  method ReadPosition(f: string, cp: nat) returns (d: Demand, next: nat)
    requires cp <= |f|
    ensures d == PositionDemand(f[cp..PositionEnd(f, cp)]) && (!d.BadArg? ==> next == PositionEnd(f, cp))
    ensures !d.NoArg? && (d.Arg? && d.pos.Some? ==> d.pos.value < SIZE_MAX)
  {
    var np := cp;
    while Digit(At(f, np))
      invariant cp <= np <= |f| && (forall k :: cp <= k < np ==> Digit(f[k]))
      decreases |f| - np
    {
      np := np + 1;
    }
    RunIs(f, cp, DIGIT, np);
    if np == cp || At(f, np) != '$' {
      return Arg(None), cp;
    }
    assert f[cp..np + 1][..np - cp] == f[cp..np];
    var n, end := ReadNumber(f, cp, np);
    if n == 0 || n == SIZE_MAX {
      return BadArg, cp;
    }
    return Arg(Some(n - 1)), end + 1;
  }

  /** A run of characters of a class. */
  method ReadRun(f: string, cp: nat, p: char -> bool) returns (next: nat)
    requires cp <= |f|
    ensures next == RunEnd(f, cp, p)
  {
    next := cp;
    while next < |f| && p(f[next])
      invariant cp <= next <= |f| && (forall k :: cp <= k < next ==> p(f[k]))
    {
      next := next + 1;
    }
    RunIs(f, cp, p, next);
  }

  method ReadFlags(f: string, cp: nat) returns (flags: set<char>, next: nat)
    requires cp <= |f|
    ensures next == RunEnd(f, cp, FLAG) && flags == FlagSet(f[cp..next])
  {
    flags, next := {}, cp;
    while IsFlag(At(f, next))
      invariant cp <= next <= |f| && (forall k :: cp <= k < next ==> IsFlag(f[k]))
      invariant flags == FlagSet(f[cp..next])
      decreases |f| - next
    {
      assert f[cp..next + 1] == f[cp..next] + [f[next]];
      flags := flags + {f[next]};
      next := next + 1;
    }
    RunIs(f, cp, FLAG, next);
  }

  method ReadSize(f: string, cp: nat) returns (flags: nat, next: nat)
    requires cp <= |f|
    ensures next == RunEnd(f, cp, SIZE) && flags == SizeFlags(f[cp..next])
  {
    flags, next := 0, cp;
    while IsSize(At(f, next))
      invariant cp <= next <= |f| && (forall k :: cp <= k < next ==> IsSize(f[k]))
      invariant flags == SizeFlags(f[cp..next])
      decreases |f| - next
    {
      assert f[cp..next + 1][..next - cp] == f[cp..next];
      flags := SizeStep(flags, f[next]);
      next := next + 1;
    }
    RunIs(f, cp, SIZE, next);
  }

  /** The uses contradict each other or an earlier one, or one has an impossible number. */
  ghost predicate Refused(ts: seq<ArgType>, us: seq<Use>) {
    RegisterAll(ts, us).None? || SomeHuge(us)
  }

  /** The outcome of taking the argument `d` for a value of type `ty`. */
  ghost predicate Took(
    ok: bool, d: Demand, ty: ArgType, arg: Option<nat>, next: nat, ts: seq<ArgType>, after: seq<ArgType>, posn: nat)
  {
    if ok then
      !d.BadArg? && (arg, next) == Take(d, posn) && next <= SIZE_MAX && RegisterAll(ts, UseOf(arg, ty)) == Some(after)
    else !d.BadArg? ==> Refused(ts, UseOf(Take(d, posn).0, ty))
  }

  /** Takes an argument and registers its type. */
  method TakeArg(d: Demand, posn: nat, ty: ArgType, a: Arguments) returns (ok: bool, arg: Option<nat>, next: nat)
    requires a.Valid() && posn <= SIZE_MAX && d.Arg? && (d.pos.Some? ==> d.pos.value < SIZE_MAX) && ty != TYPE_NONE
    modifies a, a.arg
    ensures a.Valid() && (a.arg == old(a.arg) || fresh(a.arg))
    ensures Took(ok, d, ty, arg, next, old(a.Types()), a.Types(), posn)
  {
    ghost var ts := a.Types();
    var n;
    if d.pos.Some? {
      n, next := d.pos.value, posn;
    } else {
      n, next := posn, posn + 1;
    }
    arg := Some(n);
    ghost var us: seq<Use> := [(n, ty)];
    assert n >= HUGE ==> us[0].0 >= HUGE;
    assert RegisterAll(ts, []) == Some(ts) && us[..0] == [];
    if n == SIZE_MAX {
      return false, arg, next;
    }
    ok := a.Register(n, ty);
  }

  /** What the parse of a width or a precision leaves behind. */
  datatype Field = Field(start: Option<nat>, end: Option<nat>, arg: Option<nat>, length: nat)

  /** Where a field is recorded that has the text `s` at `cp`. */
  ghost predicate Placed(x: Field, s: string, k: nat, cp: nat) {
    && x.start == (if s == "" then None else Some(cp)) && x.length == FieldLength(s, k)
    && x.end == (if s == "" then None else Some(cp + FieldLength(s, k)))
  }

  /** A star at `cp`, and the argument it stands for. */
  method ReadStar(f: string, cp: nat, posn: nat, a: Arguments)
    returns (ok: bool, arg: Option<nat>, next: nat, end: nat, ghost d: Demand)
    requires cp < |f| && a.Valid() && posn <= SIZE_MAX
    modifies a, a.arg
    ensures a.Valid() && (a.arg == old(a.arg) || fresh(a.arg))
    ensures d == PositionDemand(f[cp + 1..PositionEnd(f, cp + 1)])
    ensures Took(ok, d, TYPE_INT, arg, next, old(a.Types()), a.Types(), posn)
    ensures ok ==> end == PositionEnd(f, cp + 1)
  {
    var index;
    index, end := ReadPosition(f, cp + 1);
    d := index;
    ok, arg, next := false, None, posn;
    if index.Arg? {
      ok, arg, next := TakeArg(index, posn, TYPE_INT, a);
    }
  }

  method ReadWidth(f: string, cp: nat, posn: nat, a: Arguments)
    returns (ok: bool, x: Field, next: nat, end: nat, ghost d: Demand)
    requires cp <= |f| && a.Valid() && posn <= SIZE_MAX
    modifies a, a.arg
    ensures a.Valid() && (a.arg == old(a.arg) || fresh(a.arg))
    ensures d == StarDemand(f[cp..WidthEnd(f, cp)], 0)
    ensures Took(ok, d, TYPE_INT, x.arg, next, old(a.Types()), a.Types(), posn)
    ensures ok ==> end == WidthEnd(f, cp) && Placed(x, f[cp..end], 0, cp)
  {
    x, next, end, d := Field(None, None, None, 0), posn, cp, NoArg;
    ghost var s := f[cp..WidthEnd(f, cp)];
    if At(f, cp) == '*' {
      assert s[1..] == f[cp + 1..PositionEnd(f, cp + 1)];
      var arg;
      ok, arg, next, end, d := ReadStar(f, cp, posn, a);
      x := Field(Some(cp), Some(cp + 1), arg, 1);
    } else {
      if Digit(At(f, cp)) {
        end := ReadRun(f, cp, DIGIT);
        x := Field(Some(cp), Some(end), None, end - cp);
      }
      ok := true;
    }
  }

  method ReadPrecision(f: string, cp: nat, posn: nat, a: Arguments)
    returns (ok: bool, x: Field, next: nat, end: nat, ghost d: Demand)
    requires cp <= |f| && a.Valid() && posn <= SIZE_MAX
    modifies a, a.arg
    ensures a.Valid() && (a.arg == old(a.arg) || fresh(a.arg))
    ensures d == StarDemand(f[cp..PrecisionEnd(f, cp)], 1)
    ensures Took(ok, d, TYPE_INT, x.arg, next, old(a.Types()), a.Types(), posn)
    ensures ok ==> end == PrecisionEnd(f, cp) && Placed(x, f[cp..end], 1, cp)
  {
    x, next, end, ok, d := Field(None, None, None, 0), posn, cp, true, NoArg;
    ghost var s := f[cp..PrecisionEnd(f, cp)];
    if At(f, cp) == '.' {
      if At(f, cp + 1) == '*' {
        assert s[2..] == f[cp + 2..PositionEnd(f, cp + 2)];
        var arg;
        ok, arg, next, end, d := ReadStar(f, cp + 1, posn, a);
        x := Field(Some(cp), Some(cp + 2), arg, 2);
      } else {
        end := ReadRun(f, cp + 1, DIGIT);
        x := Field(Some(cp), Some(end), None, end - cp);
      }
    }
  }

  /** The conversion character and the argument it takes. */
  method ReadConversion(f: string, cp: nat, sizeFlags: nat, position: Demand, posn: nat, a: Arguments)
    returns (ok: bool, conversion: char, arg: Option<nat>, next: nat)
    requires cp <= |f| && a.Valid() && posn <= SIZE_MAX
    requires position.Arg? && (position.pos.Some? ==> position.pos.value < SIZE_MAX)
    modifies a, a.arg
    ensures a.Valid() && (a.arg == old(a.arg) || fresh(a.arg))
    ensures cp == |f| || TypeOf(f[cp], sizeFlags).None? ==> !ok
    ensures cp < |f| ==> conversion == Conversion(f[cp])
    ensures cp < |f| && TypeOf(f[cp], sizeFlags).Some? ==>
      var ty := TypeOf(f[cp], sizeFlags).value;
      Took(ok, if ty == TYPE_NONE then NoArg else position, ty, arg, next, old(a.Types()), a.Types(), posn)
  {
    var c := At(f, cp);
    conversion, arg, next := Conversion(c), None, posn;
    var ty := TypeOf(c, sizeFlags);
    if ty.None? {
      return false, conversion, arg, next;
    }
    ok := true;
    if ty.value != TYPE_NONE {
      ok, arg, next := TakeArg(position, posn, ty.value, a);
    }
  }
}
