/** One turn of `printf_parse`'s loop: the directive behind a `%` (intl/printf-parse.c:128-502). */
module PrintfDirective {
  import opened Options
  import opened PrintfParse
  import opened PrintfSize
  import opened PrintfSpec

  lemma RefusedEarly(ts: seq<ArgType>, us: seq<Use>, vs: seq<Use>)
    requires Refused(ts, us)
    ensures Refused(ts, us + vs)
  {
    RegisterMore(ts, us, vs);
    if SomeHuge(us) {
      var k :| 0 <= k < |us| && us[k].0 >= HUGE;
      assert (us + vs)[k].0 >= HUGE;
    }
  }

  lemma RefusedLate(ts: seq<ArgType>, us: seq<Use>, mid: seq<ArgType>, vs: seq<Use>)
    requires RegisterAll(ts, us) == Some(mid) && Refused(mid, vs)
    ensures Refused(ts, us + vs)
  {
    RegisterMore(ts, us, vs);
    if SomeHuge(vs) {
      var k :| 0 <= k < |vs| && vs[k].0 >= HUGE;
      assert (us + vs)[|us| + k].0 >= HUGE;
    }
  }

  /** The outcome for all the arguments of a directive. */
  ghost predicate AllTook(ok: bool, sh: Shape, args: Args, ts: seq<ArgType>, after: seq<ArgType>, posn: nat) {
    if ok then
      && sh.Legal() && args == ArgsOf(sh, posn) && args.next <= SIZE_MAX
      && RegisterAll(ts, ShapeUses(sh, posn)) == Some(after)
    else sh.Legal() ==> Refused(ts, ShapeUses(sh, posn))
  }

  lemma WidthFails(sh: Shape, args: Args, ts: seq<ArgType>, after: seq<ArgType>, posn: nat, arg: Option<nat>, next: nat)
    requires Took(false, sh.width, TYPE_INT, arg, next, ts, after, posn)
    ensures AllTook(false, sh, args, ts, after, posn)
  {
    if sh.Legal() {
      var x := ArgsOf(sh, posn);
      RefusedEarly(ts, UseOf(x.width, TYPE_INT), UseOf(x.prec, TYPE_INT));
      RefusedEarly(ts, UseOf(x.width, TYPE_INT) + UseOf(x.prec, TYPE_INT), UseOf(x.conv, sh.ty.value));
    }
  }

  lemma PrecisionFails(
    sh: Shape, args: Args, ts: seq<ArgType>, mid: seq<ArgType>, after: seq<ArgType>, posn: nat,
    w: Option<nat>, posn1: nat, arg: Option<nat>, next: nat)
    requires Took(true, sh.width, TYPE_INT, w, posn1, ts, mid, posn)
    requires Took(false, sh.prec, TYPE_INT, arg, next, mid, after, posn1)
    ensures AllTook(false, sh, args, ts, after, posn)
  {
    if sh.Legal() {
      var x := ArgsOf(sh, posn);
      RefusedLate(ts, UseOf(x.width, TYPE_INT), mid, UseOf(x.prec, TYPE_INT));
      RefusedEarly(ts, UseOf(x.width, TYPE_INT) + UseOf(x.prec, TYPE_INT), UseOf(x.conv, sh.ty.value));
    }
  }

  lemma ConversionTaken(
    ok: bool, sh: Shape, ts: seq<ArgType>, mid: seq<ArgType>, mid': seq<ArgType>, after: seq<ArgType>, posn: nat,
    w: Option<nat>, posn1: nat, r: Option<nat>, posn2: nat, arg: Option<nat>, next: nat)
    requires Took(true, sh.width, TYPE_INT, w, posn1, ts, mid, posn)
    requires Took(true, sh.prec, TYPE_INT, r, posn2, mid, mid', posn1)
    requires sh.ty.Some? && !sh.pos.BadArg? && Took(ok, ConvDemand(sh), sh.ty.value, arg, next, mid', after, posn2)
    ensures AllTook(ok, sh, Args(w, r, arg, next), ts, after, posn)
  {
    var x := ArgsOf(sh, posn);
    var us := UseOf(x.width, TYPE_INT) + UseOf(x.prec, TYPE_INT);
    RegisterMore(ts, UseOf(x.width, TYPE_INT), UseOf(x.prec, TYPE_INT));
    if ok {
      RegisterMore(ts, us, UseOf(x.conv, sh.ty.value));
    } else {
      RefusedLate(ts, us, mid', UseOf(x.conv, sh.ty.value));
    }
  }

  /** What is read of a directive, but for its arguments. */
  datatype Text = Text(flags: set<char>, width: Field, precision: Field, conversion: char, end: nat)

  /** The text of the directive at `i` has the ends `x`. */
  ghost predicate TextRead(f: string, t: Text, x: Ends) {
    && x.flags <= x.width <= x.prec <= x.size < |f| && x.pos <= x.flags
    && t.flags == FlagSet(f[x.pos..x.flags]) && t.conversion == Conversion(f[x.size]) && t.end == x.size + 1
    && Placed(t.width, f[x.flags..x.width], 0, x.flags) && Placed(t.precision, f[x.width..x.prec], 1, x.width)
  }

  /** The shape of the directive with the ends `x`. */
  ghost predicate ShapeRead(f: string, i: nat, sh: Shape, x: Ends) {
    && i + 1 <= x.pos <= x.flags <= x.width <= x.prec <= x.size <= |f|
    && IsPosition(f[i + 1..x.pos]) && sh.pos == PositionDemand(f[i + 1..x.pos])
    && sh.width == StarDemand(f[x.flags..x.width], 0) && sh.prec == StarDemand(f[x.width..x.prec], 1)
    && sh.ty == if x.size < |f| then TypeOf(f[x.size], SizeFlags(f[x.prec..x.size])) else None
  }

  /** The precision, the size letters and the conversion. */
  method ReadRest(
      f: string, i: nat, cp: nat, position: Demand, posn1: nat, a: Arguments, ghost x: Ends, ghost sh: Shape,
      ghost ts: seq<ArgType>, ghost posn: nat, ghost w: Option<nat>, ghost wd: Demand)
    returns (ok: bool, precision: Field, conversion: char, arg: Option<nat>, next: nat, end: nat)
    requires ShapeRead(f, i, sh, x) && cp == x.width && x.prec == PrecisionEnd(f, x.width)
      && x.size == RunEnd(f, x.prec, SIZE)
    requires a.Valid() && posn1 <= SIZE_MAX && wd == sh.width
    requires position == sh.pos && position.Arg? && (position.pos.Some? ==> position.pos.value < SIZE_MAX)
    requires Took(true, wd, TYPE_INT, w, posn1, ts, a.Types(), posn)
    modifies a, a.arg
    ensures a.Valid() && (a.arg == old(a.arg) || fresh(a.arg))
    ensures AllTook(ok, sh, Args(w, precision.arg, arg, next), ts, a.Types(), posn)
    ensures ok ==>
      && end == x.size < |f| && Placed(precision, f[x.width..x.prec], 1, x.width) && conversion == Conversion(f[x.size])
  {
    ghost var mid := a.Types();
    conversion, arg := '\0', None;
    ghost var rd;
    ok, precision, next, end, rd := ReadPrecision(f, cp, posn1, a);
    if !ok {
      PrecisionFails(sh, Args(w, precision.arg, arg, next), ts, mid, a.Types(), posn, w, posn1, precision.arg, next);
      return;
    }
    ghost var mid', posn2 := a.Types(), next;
    var sizeFlags;
    sizeFlags, end := ReadSize(f, end);
    ok, conversion, arg, next := ReadConversion(f, end, sizeFlags, position, next, a);
    if sh.ty.Some? {
      ConversionTaken(ok, sh, ts, mid, mid', a.Types(), posn, w, posn1, precision.arg, posn2, arg, next);
    }
  }

  method ReadDirective(f: string, i: nat, posn: nat, a: Arguments, ghost x: Ends, ghost sh: Shape)
    returns (ok: bool, t: Text, args: Args)
    requires i < |f| && x == EndsOf(f, i) && ShapeRead(f, i, sh, x) && a.Valid() && posn <= SIZE_MAX
    modifies a, a.arg
    ensures a.Valid() && (a.arg == old(a.arg) || fresh(a.arg))
    ensures AllTook(ok, sh, args, old(a.Types()), a.Types(), posn)
    ensures ok ==> TextRead(f, t, x)
  {
    ghost var ts := a.Types();
    ok, args := false, Args(None, None, None, posn);
    t := Text({}, Field(None, None, None, 0), Field(None, None, None, 0), '\0', i);
    var position, cp := ReadPosition(f, i + 1);
    if position.BadArg? {
      return;
    }
    var flags;
    flags, cp := ReadFlags(f, cp);
    var width, posn1;
    ghost var wd;
    ok, width, posn1, cp, wd := ReadWidth(f, cp, posn, a);
    if !ok {
      WidthFails(sh, args, ts, a.Types(), posn, width.arg, posn1);
      return;
    }
    var precision, conversion, arg, next;
    ok, precision, conversion, arg, next, cp :=
      ReadRest(f, i, cp, position, posn1, a, x, sh, ts, posn, width.arg, wd);
    args := Args(width.arg, precision.arg, arg, next);
    t := Text(flags, width, precision, conversion, cp + 1);
  }
}
