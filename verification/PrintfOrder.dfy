/** Which arguments the directives of a format take: the next ones in turn, or those with the numbers given
    (section 7.19.6.1 of ISO C99 and POSIX). */
module PrintfOrder {
  import opened Options
  import opened PrintfFormat
  import opened PrintfScan
  import opened PrintfSize
  import opened PrintfSpec

  // ----- in turn

  /** No argument is asked for by number. */
  predicate InTurn(p: Pieces) {
    && p.pos == "" && (p.width != "" && p.width[0] == '*' ==> p.width == "*")
    && (|p.prec| > 1 && p.prec[1] == '*' ==> p.prec == ".*")
  }

  /** What a directive takes, in order: a width, a precision, and the value of its conversion. */
  function Takes(p: Pieces, ty: ArgType): seq<ArgType> {
    (if p.width == "*" then [TYPE_INT] else []) + (if p.prec == ".*" then [TYPE_INT] else [])
    + (if p.conv == '%' then [] else [ty])
  }

  function TypeIn(p: Pieces): ArgType {
    var ty := TypeOf(p.conv, SizeFlags(p.size));
    if ty.Some? then ty.value else TYPE_NONE
  }

  function TakenBy(l: seq<Found>): seq<ArgType> {
    if l == [] then [] else TakenBy(l[..|l| - 1]) + Takes(l[|l| - 1].1, TypeIn(l[|l| - 1].1))
  }

  /** The uses of the arguments from `n` on, one after the other. */
  function Numbered(ts: seq<ArgType>, n: nat): (us: seq<Use>)
    ensures |us| == |ts|
  {
    seq(|ts|, k requires 0 <= k < |ts| => (n + k, ts[k]))
  }

  lemma NumberedJoined(a: seq<ArgType>, b: seq<ArgType>)
    ensures Numbered(a + b, 0) == Numbered(a, 0) + Numbered(b, |a|)
  {}

  lemma NoType(c: char, flags: nat)
    ensures TypeOf(c, flags) == Some(TYPE_NONE) <==> c == '%'
  {}

  lemma OneInTurn(p: Pieces, n: nat)
    requires InTurn(p) && IsWidth(p.width) && IsPrecision(p.prec) && TypeOf(p.conv, SizeFlags(p.size)).Some?
    ensures
      var sh := ShapeOf(p);
      && sh.Legal() && ShapeUses(sh, n) == Numbered(Takes(p, TypeIn(p)), n)
      && ArgsOf(sh, n).next == n + |Takes(p, TypeIn(p))|
  {
    NoType(p.conv, SizeFlags(p.size));
    var sh := ShapeOf(p);
    assert sh.pos == Arg(None);
    assert sh.width == if p.width == "*" then Arg(None) else NoArg;
    assert sh.prec == if p.prec == ".*" then Arg(None) else NoArg;
  }

  /** All directives take their arguments in turn. */
  ghost predicate AllInTurn(l: seq<Found>) {
    forall k :: 0 <= k < |l| ==> Proper(l[k].1)
  }

  predicate Proper(p: Pieces) {
    InTurn(p) && IsWidth(p.width) && IsPrecision(p.prec) && TypeOf(p.conv, SizeFlags(p.size)).Some?
  }

  /** Without numbers the arguments are taken one after the other, and their types are those of the directives in order,
      with an int in front for each star. */
  lemma {:induction false} TakenInOrder(l: seq<Found>)
    requires AllInTurn(l)
    ensures UsesIn(l) == Numbered(TakenBy(l), 0) && PosnAfter(l) == |TakenBy(l)|
    ensures RegisterAll([], UsesIn(l)) == Some(TakenBy(l))
  {
    if l != [] {
      var rest, p := l[..|l| - 1], l[|l| - 1].1;
      assert Proper(p);
      TakenInOrder(rest);
      OneInTurn(p, PosnAfter(rest));
      NumberedJoined(TakenBy(rest), Takes(p, TypeIn(p)));
      RegisterMore([], UsesIn(rest), ShapeUses(ShapeOf(p), PosnAfter(rest)));
      TypesTaken(p);
      RegisterNumbered(TakenBy(rest), Takes(p, TypeIn(p)));
    }
  }

  lemma TypesTaken(p: Pieces)
    requires Proper(p)
    ensures forall k :: 0 <= k < |Takes(p, TypeIn(p))| ==> Takes(p, TypeIn(p))[k] != TYPE_NONE
  {
    NoType(p.conv, SizeFlags(p.size));
  }

  lemma {:induction false} RegisterNumbered(ts: seq<ArgType>, more: seq<ArgType>)
    requires forall k :: 0 <= k < |more| ==> more[k] != TYPE_NONE
    ensures RegisterAll(ts, Numbered(more, |ts|)) == Some(ts + more)
  {
    if more == [] {
      assert ts + more == ts;
    } else {
      var n := |more| - 1;
      RegisterNumbered(ts, more[..n]);
      var us := Numbered(more, |ts|);
      assert us[..n] == Numbered(more[..n], |ts|) && us[n] == (|ts| + n, more[n]);
      var padded := (ts + more[..n]) + seq(1, _ => TYPE_NONE);
      assert padded[|ts| + n := more[n]] == ts + more;
    }
  }

  // ----- by number

  predicate ProperNumber(digits: Option<string>) {
    digits.Some? ==> digits.value != "" && Digits(digits.value) && 0 < Decimal(digits.value) < SIZE_MAX
  }

  lemma NumberRead(digits: string)
    requires digits != "" && Digits(digits) && 0 < Decimal(digits) < SIZE_MAX
    ensures IsPosition(digits + "$") && PositionDemand(digits + "$") == Arg(Some(Decimal(digits) - 1))
  {
    assert (digits + "$")[..|digits + "$"| - 1] == digits;
  }

  /** The argument that a number stands for. */
  function ArgumentOf(digits: Option<string>): Option<nat>
    requires ProperNumber(digits)
  {
    if digits.None? then None else Some(Decimal(digits.value) - 1)
  }

  function DemandFor(a: Option<nat>): Demand {
    if a.None? then NoArg else Arg(a)
  }

  lemma UsesByNumber(sh: Shape, width: Option<nat>, prec: Option<nat>, conv: nat, ty: ArgType, n: nat)
    requires sh == Shape(Arg(Some(conv)), DemandFor(width), DemandFor(prec), Some(ty)) && ty != TYPE_NONE
    ensures sh.Legal() && ArgsOf(sh, n).next == n
    ensures ShapeUses(sh, n) == UseOf(width, TYPE_INT) + UseOf(prec, TYPE_INT) + [(conv, ty)]
  {}

  lemma StarRead(s: string, k: nat, digits: Option<string>)
    requires ProperNumber(digits) && k <= 1
    requires s == if digits.None? then "" else (if k == 0 then "*" else ".*") + digits.value + "$"
    ensures StarDemand(s, k) == DemandFor(ArgumentOf(digits))
  {
    if digits.Some? {
      NumberRead(digits.value);
      assert s[k + 1..] == digits.value + "$";
    }
  }

  /** With numbers the arguments taken are the ones that are named, counted from 1, wherever the directive stands. */
  lemma TakenByNumber(p: Pieces, conv: string, width: Option<string>, prec: Option<string>, n: nat)
    requires ProperNumber(Some(conv)) && ProperNumber(width) && ProperNumber(prec)
    requires p.pos == conv + "$" && p.width == if width.None? then "" else "*" + width.value + "$"
    requires p.prec == if prec.None? then "" else ".*" + prec.value + "$"
    requires TypeOf(p.conv, SizeFlags(p.size)).Some? && p.conv != '%'
    ensures
      var sh := ShapeOf(p);
      && sh.Legal() && ArgsOf(sh, n).next == n
      && ShapeUses(sh, n)
         == UseOf(ArgumentOf(width), TYPE_INT) + UseOf(ArgumentOf(prec), TYPE_INT) + [(Decimal(conv) - 1, TypeIn(p))]
  {
    NumberRead(conv);
    StarRead(p.width, 0, width);
    StarRead(p.prec, 1, prec);
    NoType(p.conv, SizeFlags(p.size));
    UsesByNumber(ShapeOf(p), ArgumentOf(width), ArgumentOf(prec), Decimal(conv) - 1, TypeIn(p), n);
  }
}
