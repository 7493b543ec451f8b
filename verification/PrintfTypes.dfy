/** What a successful `printf_parse` says about the arguments: every number it records is below the
    count, and the slot holds the one type that all uses of the argument agree on. */
module PrintfTypes {
  import opened Options
  import opened PrintfFormat
  import opened PrintfScan
  import opened PrintfSpec

  /** No two uses of one argument differ in type. */
  ghost predicate Agreeing(us: seq<Use>) {
    forall j, k :: 0 <= j < |us| && 0 <= k < |us| && us[j].0 == us[k].0 ==> us[j].1 == us[k].1
  }

  ghost predicate Typed(us: seq<Use>) {
    forall k :: 0 <= k < |us| ==> us[k].1 != TYPE_NONE
  }

  /** `ts` holds exactly the types of the uses, and nothing in the slots between. */
  ghost predicate Holding(us: seq<Use>, ts: seq<ArgType>) {
    && (forall k :: 0 <= k < |us| ==> us[k].0 < |ts| && ts[us[k].0] == us[k].1)
    && (forall n :: 0 <= n < |ts| && ts[n] != TYPE_NONE ==> (n, ts[n]) in us)
    && (ts != [] ==> ts[|ts| - 1] != TYPE_NONE)
  }

  lemma RegisterOne(us: seq<Use>, ts: seq<ArgType>, u: Use)
    requires Typed(us) && u.1 != TYPE_NONE && Holding(us, ts) && Agreeing(us)
    ensures Registered(ts, u).Some? <==> Agreeing(us + [u])
    ensures Registered(ts, u).Some? ==> Holding(us + [u], Registered(ts, u).value)
  {
    if Registered(ts, u).Some? {
      var after := Registered(ts, u).value;
      forall n | 0 <= n < |after| && after[n] != TYPE_NONE ensures (n, after[n]) in us + [u] {
        if n != u.0 {
          assert (n, ts[n]) in us;
        }
      }
      assert forall k :: 0 <= k < |us| ==> (us + [u])[k] == us[k];
      assert Holding(us + [u], after);
    } else {
      assert u.0 < |ts| && (u.0, ts[u.0]) in us;
      var k :| 0 <= k < |us| && us[k] == (u.0, ts[u.0]);
      assert (us + [u])[k].0 == (us + [u])[|us|].0;
    }
  }

  /** Registration succeeds exactly if the uses agree, and then the slots hold their types. */
  lemma {:induction false} RegisterMeans(us: seq<Use>)
    requires Typed(us)
    ensures RegisterAll([], us).Some? <==> Agreeing(us)
    ensures RegisterAll([], us).Some? ==> Holding(us, RegisterAll([], us).value)
  {
    if us != [] {
      var vs, u := us[..|us| - 1], us[|us| - 1];
      assert us == vs + [u];
      RegisterMeans(vs);
      if RegisterAll([], vs).Some? {
        RegisterOne(vs, RegisterAll([], vs).value, u);
      } else {
        var j, k :| 0 <= j < |vs| && 0 <= k < |vs| && vs[j].0 == vs[k].0 && vs[j].1 != vs[k].1;
        assert us[j].0 == us[k].0 && us[j].1 != us[k].1;
      }
    }
  }

  /** A demand for an argument comes with a type. */
  lemma ShapeTyped(sh: Shape, posn: nat)
    requires sh.Legal()
    ensures Typed(ShapeUses(sh, posn))
  {}

  lemma {:induction false} UsesTyped(l: seq<Found>)
    ensures Typed(UsesIn(l))
  {
    if l != [] {
      UsesTyped(l[..|l| - 1]);
      var sh := ShapeOf(l[|l| - 1].1);
      if sh.Legal() {
        ShapeTyped(sh, PosnAfter(l[..|l| - 1]));
      }
    }
  }

  /** The type that a directive asks for. */
  function TypeFor(p: Pieces): ArgType {
    if ShapeOf(p).ty.None? then TYPE_NONE else ShapeOf(p).ty.value
  }

  /** The arguments are among the uses. */
  ghost predicate Used(args: Args, ty: ArgType, us: seq<Use>) {
    && (args.width.Some? ==> (args.width.value, TYPE_INT) in us)
    && (args.prec.Some? ==> (args.prec.value, TYPE_INT) in us)
    && (args.conv.Some? ==> (args.conv.value, ty) in us)
  }

  lemma ShapeUsed(sh: Shape, posn: nat)
    requires sh.Legal()
    ensures Used(ArgsOf(sh, posn), sh.ty.value, ShapeUses(sh, posn))
  {
    var args, us := ArgsOf(sh, posn), ShapeUses(sh, posn);
    assert args.width.Some? ==> us[0] == (args.width.value, TYPE_INT);
    assert args.prec.Some? ==> us[|UseOf(args.width, TYPE_INT)|] == (args.prec.value, TYPE_INT);
    assert args.conv.Some? ==> us[|us| - 1] == (args.conv.value, sh.ty.value);
  }

  /** The arguments recorded for the `k`-th directive. */
  function ArgsAt(l: seq<Found>, k: nat): Args
    requires k < |l|
  {
    ArgsOf(ShapeOf(l[k].1), PosnAfter(l[..k]))
  }

  lemma {:induction false} RecordAt(l: seq<Found>, k: nat)
    requires k < |l|
    ensures RecordsOf(l)[k] == Recorded(l[k].0, l[k].1, ArgsAt(l, k))
  {
    if k < |l| - 1 {
      assert l[..|l| - 1][..k] == l[..k];
      RecordAt(l[..|l| - 1], k);
    }
  }

  lemma {:induction false} UsedAt(l: seq<Found>, k: nat, sh: Shape)
    requires k < |l| && sh == ShapeOf(l[k].1) && sh.Legal()
    ensures Used(ArgsAt(l, k), sh.ty.value, UsesIn(l))
  {
    var m := l[..|l| - 1];
    if k < |l| - 1 {
      assert m[..k] == l[..k];
      UsedAt(m, k, sh);
      assert forall u <- UsesIn(m) :: u in UsesIn(l);
    } else {
      ShapeUsed(sh, PosnAfter(m));
      assert forall u <- ShapeUses(sh, PosnAfter(m)) :: u in UsesIn(l);
    }
  }

  lemma {:induction false} TiledLegal(f: string, i: nat, l: seq<Found>, k: nat)
    requires i <= |f| && Tiled(f, i, l) && k < |l|
    ensures Legal(l[k].1)
    decreases |l|
  {
    if k > 0 {
      TiledLegal(f, l[0].0 + |l[0].1.Text()|, l[1..], k - 1);
    }
  }

  /** The number is that of an argument of the type. */
  predicate InRange(arg: Option<nat>, ty: ArgType, ts: seq<ArgType>) {
    arg.Some? ==> arg.value < |ts| && ts[arg.value] == ty
  }

  lemma UsedInRange(args: Args, ty: ArgType, us: seq<Use>, ts: seq<ArgType>)
    requires Used(args, ty, us) && Holding(us, ts)
    ensures InRange(args.width, TYPE_INT, ts) && InRange(args.prec, TYPE_INT, ts) && InRange(args.conv, ty, ts)
  {}

  lemma ConvTaken(sh: Shape, posn: nat)
    requires sh.Legal() && !sh.pos.NoArg?
    ensures ArgsOf(sh, posn).conv.None? <==> sh.ty.value == TYPE_NONE
  {}

  /** After a successful parse every recorded argument number is below the count of arguments, and the
      argument has the type that this directive asks for; only `%%` asks for none. */
  lemma ArgumentsInRange(f: string, l: seq<Found>, ts: seq<ArgType>, k: nat)
    requires Tiled(f, 0, l) && RegisterAll([], UsesIn(l)) == Some(ts) && k < |l|
    ensures
      var d := RecordsOf(l)[k];
      && InRange(d.widthArg, TYPE_INT, ts) && InRange(d.precArg, TYPE_INT, ts)
      && InRange(d.arg, TypeFor(l[k].1), ts) && (d.arg.None? <==> TypeFor(l[k].1) == TYPE_NONE)
  {
    var sh := ShapeOf(l[k].1);
    TiledLegal(f, 0, l, k);
    UsesTyped(l);
    RegisterMeans(UsesIn(l));
    UsedAt(l, k, sh);
    UsedInRange(ArgsAt(l, k), sh.ty.value, UsesIn(l), ts);
    RecordAt(l, k);
    ConvTaken(sh, PosnAfter(l[..k]));
  }
}
