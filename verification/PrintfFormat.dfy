/** `printf_parse` as a whole (intl/printf-parse.c:69-524). */
module PrintfFormat {
  import opened Options
  import opened PrintfDirective
  import opened PrintfParse
  import opened PrintfScan
  import opened PrintfSize
  import opened PrintfSpec

  /** How many arguments the directives take in order. */
  function PosnAfter(l: seq<Found>): nat {
    if l == [] then 0 else ArgsOf(ShapeOf(l[|l| - 1].1), PosnAfter(l[..|l| - 1])).next
  }

  /** The records of the directives. */
  function RecordsOf(l: seq<Found>): (ds: seq<Directive>)
    ensures |ds| == |l|
  {
    if l == [] then []
    else
      var (i, p) := l[|l| - 1];
      RecordsOf(l[..|l| - 1]) + [Recorded(i, p, ArgsOf(ShapeOf(p), PosnAfter(l[..|l| - 1])))]
  }

  /** All their uses of arguments. */
  function UsesIn(l: seq<Found>): seq<Use> {
    if l == [] then []
    else
      var sh := ShapeOf(l[|l| - 1].1);
      UsesIn(l[..|l| - 1]) + if sh.Legal() then ShapeUses(sh, PosnAfter(l[..|l| - 1])) else []
  }

  /** The length of the longest width (`k` = 0) or precision (`k` = 1). */
  function Longest(l: seq<Found>, k: nat): nat {
    if l == [] then 0
    else
      var p := l[|l| - 1].1;
      Xmax(Longest(l[..|l| - 1], k), FieldLength(if k == 0 then p.width else p.prec, k))
  }

  lemma OneMore(l: seq<Found>, i: nat, p: Pieces)
    ensures PosnAfter(l + [(i, p)]) == ArgsOf(ShapeOf(p), PosnAfter(l)).next
    ensures RecordsOf(l + [(i, p)]) == RecordsOf(l) + [Recorded(i, p, ArgsOf(ShapeOf(p), PosnAfter(l)))]
    ensures ShapeOf(p).Legal() ==> UsesIn(l + [(i, p)]) == UsesIn(l) + ShapeUses(ShapeOf(p), PosnAfter(l))
    ensures Longest(l + [(i, p)], 0) == Xmax(Longest(l, 0), FieldLength(p.width, 0))
    ensures Longest(l + [(i, p)], 1) == Xmax(Longest(l, 1), FieldLength(p.prec, 1))
  {
    assert (l + [(i, p)])[..|l|] == l;
  }

  // ----- what the scan says about what has been read

  /** `done` has been read when the program is at `cp`. */
  ghost predicate Read(t: nat -> Turn, n: nat, cp: nat, done: seq<Found>) {
    && cp <= n
    && ScanTurns(t, n, 0) == (match ScanTurns(t, n, cp) case None => None case Some(l) => Some(done + l))
  }

  lemma ReadText(t: nat -> Turn, n: nat, cp: nat, done: seq<Found>)
    requires Read(t, n, cp, done) && cp < n && t(cp).Plain?
    ensures Read(t, n, cp + 1, done)
  {}

  lemma ReadOne(t: nat -> Turn, n: nat, cp: nat, done: seq<Found>, p: Pieces, end: nat)
    requires Read(t, n, cp, done) && cp < end <= n && t(cp) == Dir(p, end)
    ensures Read(t, n, end, done + [(cp, p)])
  {
    match ScanTurns(t, n, end)
    case None =>
    case Some(l) => assert done + ([(cp, p)] + l) == (done + [(cp, p)]) + l;
  }

  lemma ReadBad(t: nat -> Turn, n: nat, cp: nat, done: seq<Found>)
    requires Read(t, n, cp, done) && cp < n && t(cp).Bad?
    ensures ScanTurns(t, n, 0).None?
  {}

  /** The uses by a part of the directives begin those by all. */
  lemma {:induction false} UsesBegin(l: seq<Found>, r: seq<Found>)
    ensures UsesIn(l) <= UsesIn(l + r)
  {
    if r == [] {
      assert l + r == l;
    } else {
      UsesBegin(l, r[..|r| - 1]);
      assert (l + r)[..|l + r| - 1] == l + r[..|r| - 1];
    }
  }

  /** The format is not read, because of an improper directive or the uses of arguments. */
  ghost predicate Unread(t: nat -> Turn, n: nat) {
    ScanTurns(t, n, 0).Some? ==> Refused([], UsesIn(ScanTurns(t, n, 0).value))
  }

  /** What the directives read so far refuse, the whole format refuses. */
  lemma RefusedWhole(t: nat -> Turn, n: nat, cp: nat, done: seq<Found>)
    requires Read(t, n, cp, done) && Refused([], UsesIn(done))
    ensures Unread(t, n)
  {
    if ScanTurns(t, n, 0).Some? {
      var l := ScanTurns(t, n, cp).value;
      UsesBegin(done, l);
      var us := UsesIn(done + l);
      assert us == UsesIn(done) + us[|UsesIn(done)|..];
      RefusedEarly([], UsesIn(done), us[|UsesIn(done)|..]);
    }
  }

  // ----- one directive

  lemma ShapeOfEnds(f: string, i: nat, x: Ends, sh: Shape)
    requires i < |f| && x == EndsOf(f, i) && ShapeRead(f, i, sh, x)
    ensures PiecesAt(f, i).Some? ==> sh == ShapeOf(PiecesAt(f, i).value)
    ensures PiecesAt(f, i).None? ==> !sh.Legal()
  {}

  function RecordOf(i: nat, t: Text, args: Args): Directive {
    Directive(
      i, t.end, t.flags, t.width.start, t.width.end, args.width, t.precision.start, t.precision.end, args.prec,
      t.conversion, args.conv)
  }

  lemma RecordIs(f: string, i: nat, x: Ends, t: Text, args: Args, p: Pieces)
    requires i < |f| && x == EndsOf(f, i) && TextRead(f, t, x) && PiecesAt(f, i) == Some(p)
    ensures RecordOf(i, t, args) == Recorded(i, p, args) && t.end == x.size + 1
    ensures t.width.length == FieldLength(p.width, 0) && t.precision.length == FieldLength(p.prec, 1)
  {
    RecordOfParts(f, i, x, t, args, p);
  }

  lemma RecordOfParts(f: string, i: nat, x: Ends, t: Text, args: Args, p: Pieces)
    requires i + 1 <= x.pos && TextRead(f, t, x) && p.conv == f[x.size] && |p.size| == x.size - x.prec
    requires |p.pos| == x.pos - i - 1 && p.flags == f[x.pos..x.flags]
    requires p.width == f[x.flags..x.width] && p.prec == f[x.width..x.prec]
    ensures RecordOf(i, t, args) == Recorded(i, p, args) && t.end == x.size + 1
    ensures t.width.length == FieldLength(p.width, 0) && t.precision.length == FieldLength(p.prec, 1)
  {}

  /** The outcome of a turn of the loop that comes to a directive. */
  ghost predicate TurnTaken(
    ok: bool, d: Directive, w: nat, r: nat, end: nat, next: nat, turn: Turn, i: nat, posn: nat,
    ts: seq<ArgType>, after: seq<ArgType>)
  {
    if !turn.Dir? then !ok
    else
      var sh := ShapeOf(turn.p);
      && sh.Legal()
      && if ok then
          && d == Recorded(i, turn.p, ArgsOf(sh, posn)) && end == turn.end
          && w == FieldLength(turn.p.width, 0) && r == FieldLength(turn.p.prec, 1)
          && next == ArgsOf(sh, posn).next <= SIZE_MAX && RegisterAll(ts, ShapeUses(sh, posn)) == Some(after)
        else Refused(ts, ShapeUses(sh, posn))
  }

  method TakeTurn(f: string, i: nat, posn: nat, a: Arguments, ghost turns: nat -> Turn)
    returns (ok: bool, d: Directive, w: nat, r: nat, end: nat, next: nat)
    requires Tells(f, turns) && i < |f| && f[i] == '%' && a.Valid() && posn <= SIZE_MAX
    modifies a, a.arg
    ensures a.Valid() && (a.arg == old(a.arg) || fresh(a.arg))
    ensures TurnTaken(ok, d, w, r, end, next, turns(i), i, posn, old(a.Types()), a.Types())
  {
    ghost var x := EndsOf(f, i);
    ghost var sh := Shape(
      PositionDemand(f[i + 1..x.pos]), StarDemand(f[x.flags..x.width], 0), StarDemand(f[x.width..x.prec], 1),
      if x.size < |f| then TypeOf(f[x.size], SizeFlags(f[x.prec..x.size])) else None);
    ShapeOfEnds(f, i, x, sh);
    var t, args;
    ok, t, args := ReadDirective(f, i, posn, a, x, sh);
    assert turns(i) == TurnAt(f, i);
    d, w, r, end, next := RecordOf(i, t, args), t.width.length, t.precision.length, t.end, args.next;
    if ok {
      RecordIs(f, i, x, t, args, PiecesAt(f, i).value);
    }
  }

  /** `char_directives`, in memory that grows. */
  class Directives {
    var dir: array<Directive>
    var count: nat
    var maxWidthLength: nat
    var maxPrecisionLength: nat

    constructor ()
      ensures Valid() && Records() == [] && count == 0 && fresh(dir)
    {
      dir := new Directive[1](_ => Directive(0, 0, {}, None, None, None, None, None, None, '\0', None));
      count, maxWidthLength, maxPrecisionLength := 0, 0, 0;
    }

    /** There is room for one more directive, or the sentinel. */
    ghost predicate Valid()
      reads this
    {
      count < dir.Length <= 2 * count + 1 && dir.Length <= SIZE_MAX
    }

    ghost function Records(): seq<Directive>
      reads this, dir
      requires Valid()
    {
      dir[..count]
    }

    method Copy(memory: array<Directive>)
      requires count < memory.Length && count <= dir.Length && memory != dir
      modifies memory
      ensures memory[..count] == dir[..count]
    {
      var i := 0;
      while i < count
        invariant 0 <= i <= count && memory[..i] == dir[..i]
      {
        memory[i] := dir[i];
        i := i + 1;
      }
    }

    /** Sets the sentinel and the lengths. */
    method Close(cp: nat, maxWidthLength: nat, maxPrecisionLength: nat)
      requires Valid()
      modifies this`maxWidthLength, this`maxPrecisionLength, dir
      ensures Valid() && Records() == old(Records()) && dir[count].dirStart == cp
      ensures this.maxWidthLength == maxWidthLength && this.maxPrecisionLength == maxPrecisionLength
    {
      dir[count] := dir[count].(dirStart := cp);
      this.maxWidthLength := maxWidthLength;
      this.maxPrecisionLength := maxPrecisionLength;
    }

    /** Adds a directive and makes room for the next. */
    method Push(d: Directive) returns (ok: bool)
      requires Valid()
      modifies this`dir, this`count, dir
      ensures dir == old(dir) || fresh(dir)
      ensures ok ==> Valid() && count == old(count) + 1 && Records() == old(Records()) + [d]
      ensures !ok ==> count == old(count) + 1 && count >= 0x100_0000_0000_0000
    {
      dir[count] := d;
      count := count + 1;
      if count >= dir.Length {
        var room := Xtimes(dir.Length, 2);
        XtimesSaturates(dir.Length, 2);
        var memorySize := Xtimes(room, SIZEOF_DIRECTIVE);
        XtimesSaturates(room, SIZEOF_DIRECTIVE);
        if memorySize == SIZE_MAX {
          return false;
        }
        var memory := new Directive[room](_ => d);
        Copy(memory);
        dir := memory;
      }
      ok := true;
    }
  }

  /** What the program has found out when it has read `done`. */
  ghost predicate Known(
    done: seq<Found>, records: seq<Directive>, ts: seq<ArgType>, posn: nat, w: nat, r: nat)
  {
    && records == RecordsOf(done) && RegisterAll([], UsesIn(done)) == Some(ts)
    && posn == PosnAfter(done) <= SIZE_MAX && w == Longest(done, 0) && r == Longest(done, 1)
  }

  lemma UsesRefused(cp: nat, done: seq<Found>, p: Pieces, ts: seq<ArgType>)
    requires RegisterAll([], UsesIn(done)) == Some(ts)
    requires ShapeOf(p).Legal() && Refused(ts, ShapeUses(ShapeOf(p), PosnAfter(done)))
    ensures Refused([], UsesIn(done + [(cp, p)]))
  {
    OneMore(done, cp, p);
    RefusedLate([], UsesIn(done), ts, ShapeUses(ShapeOf(p), PosnAfter(done)));
  }

  /** A directive that is not taken makes the whole format fail. */
  lemma TurnFails(
    t: nat -> Turn, n: nat, cp: nat, done: seq<Found>, d: Directive, w: nat, r: nat, end: nat, next: nat,
    ts: seq<ArgType>, after: seq<ArgType>)
    requires Read(t, n, cp, done) && cp < n && !t(cp).Plain? && RegisterAll([], UsesIn(done)) == Some(ts)
    requires t(cp).Dir? ==> cp < t(cp).end <= n
    requires TurnTaken(false, d, w, r, end, next, t(cp), cp, PosnAfter(done), ts, after)
    ensures Unread(t, n)
  {
    if t(cp).Bad? {
      ReadBad(t, n, cp, done);
    } else {
      var p := t(cp).p;
      UsesRefused(cp, done, p, ts);
      ReadOne(t, n, cp, done, p, t(cp).end);
      RefusedWhole(t, n, t(cp).end, done + [(cp, p)]);
    }
  }

  lemma TurnKnown(
    cp: nat, done: seq<Found>, d: Directive, w: nat, r: nat, end: nat, next: nat, turn: Turn,
    ts: seq<ArgType>, after: seq<ArgType>, records: seq<Directive>, posn: nat, maxw: nat, maxr: nat)
    requires Known(done, records, ts, posn, maxw, maxr)
    requires turn.Dir? && TurnTaken(true, d, w, r, end, next, turn, cp, posn, ts, after)
    ensures Known(done + [(cp, turn.p)], records + [d], after, next, Xmax(maxw, w), Xmax(maxr, r))
  {
    OneMore(done, cp, turn.p);
    RegisterMore([], UsesIn(done), ShapeUses(ShapeOf(turn.p), posn));
  }

  /** What holds between two turns of the loop. */
  ghost predicate Going(
    t: nat -> Turn, n: nat, cp: nat, done: seq<Found>, d: Directives, a: Arguments, posn: nat, w: nat, r: nat)
    reads d, d.dir, a, a.arg
  {
    && |done| <= cp && Read(t, n, cp, done) && d.Valid() && a.Valid() && d.dir as object != a.arg as object
    && d.count == |done| && Known(done, d.Records(), a.Types(), posn, w, r)
  }

  const LONG: nat := 0x100_0000_0000_0000

  /** A turn that comes to a directive. */
  method AddDirective(
      f: string, cp: nat, posn: nat, w: nat, r: nat, d: Directives, a: Arguments,
      ghost t: nat -> Turn, ghost done: seq<Found>)
    returns (ok: bool, cp': nat, posn': nat, w': nat, r': nat, ghost more: seq<Found>)
    requires cp < |f| && f[cp] == '%' && Tells(f, t)
    requires Going(t, |f|, cp, done, d, a, posn, w, r)
    modifies d, d.dir, a, a.arg
    ensures d.dir == old(d.dir) || fresh(d.dir)
    ensures a.arg == old(a.arg) || fresh(a.arg)
    ensures ok ==> cp < cp' && Going(t, |f|, cp', more, d, a, posn', w', r')
    ensures !ok ==> Unread(t, |f|) || |f| >= LONG
  {
    ghost var records, ts := d.Records(), a.Types();
    cp', posn', w', r', more := cp, posn, w, r, done;
    var dp, wl, rl, end, next;
    ok, dp, wl, rl, end, next := TakeTurn(f, cp, posn, a, t);
    TurnEnds(f, t, cp);
    if !ok {
      TurnFails(t, |f|, cp, done, dp, wl, rl, end, next, ts, a.Types());
      return;
    }
    ReadOne(t, |f|, cp, done, t(cp).p, end);
    TurnKnown(cp, done, dp, wl, rl, end, next, t(cp), ts, a.Types(), records, posn, w, r);
    more := done + [(cp, t(cp).p)];
    ok := d.Push(dp);
    cp', posn', w', r' := end, next, Xmax(w, wl), Xmax(r, rl);
  }

  /** A turn of the loop. */
  method Advance(
      f: string, cp: nat, posn: nat, w: nat, r: nat, d: Directives, a: Arguments,
      ghost t: nat -> Turn, ghost done: seq<Found>)
    returns (ok: bool, cp': nat, posn': nat, w': nat, r': nat, ghost more: seq<Found>)
    requires cp < |f| && Tells(f, t) && Going(t, |f|, cp, done, d, a, posn, w, r)
    modifies d, d.dir, a, a.arg
    ensures (d.dir == old(d.dir) || fresh(d.dir)) && (a.arg == old(a.arg) || fresh(a.arg))
    ensures ok ==> cp < cp' && Going(t, |f|, cp', more, d, a, posn', w', r')
    ensures !ok ==> Unread(t, |f|) || |f| >= LONG
  {
    TurnEnds(f, t, cp);
    if f[cp] == '%' {
      ok, cp', posn', w', r', more := AddDirective(f, cp, posn, w, r, d, a, t, done);
    } else {
      ReadText(t, |f|, cp, done);
      ok, cp', posn', w', r', more := true, cp + 1, posn, w, r, done;
    }
  }

  /** The end of the format. */
  method Finish(
    f: string, posn: nat, w: nat, r: nat, d: Directives, a: Arguments, ghost t: nat -> Turn, ghost done: seq<Found>)
    requires Going(t, |f|, |f|, done, d, a, posn, w, r)
    modifies d, d.dir
    ensures ScanTurns(t, |f|, 0) == Some(done) && d.Valid() && a.Valid() && d.dir[d.count].dirStart == |f|
    ensures Known(done, d.Records(), a.Types(), PosnAfter(done), d.maxWidthLength, d.maxPrecisionLength)
  {
    ReadAll(t, |f|, done);
    d.Close(|f|, w, r);
  }

  /** The loop. */
  method ParseTurns(f: string, d: Directives, a: Arguments, ghost t: nat -> Turn)
    returns (ok: bool, ghost done: seq<Found>)
    requires Tells(f, t) && Going(t, |f|, 0, [], d, a, 0, 0, 0) && d as object != a as object
    modifies d, d.dir, a, a.arg
    ensures ok ==>
      && ScanTurns(t, |f|, 0) == Some(done) && d.Valid() && a.Valid() && d.dir[d.count].dirStart == |f|
      && Known(done, d.Records(), a.Types(), PosnAfter(done), d.maxWidthLength, d.maxPrecisionLength)
    ensures !ok ==> Unread(t, |f|) || |f| >= LONG
  {
    var cp: nat, posn: nat, maxWidthLength: nat, maxPrecisionLength: nat := 0, 0, 0, 0;
    done := [];
    while cp < |f|
      invariant (d.dir == old(d.dir) || fresh(d.dir)) && (a.arg == old(a.arg) || fresh(a.arg))
      invariant cp <= |f| && Going(t, |f|, cp, done, d, a, posn, maxWidthLength, maxPrecisionLength) == true
      decreases |f| - cp
    {
      ok, cp, posn, maxWidthLength, maxPrecisionLength, done :=
        Advance(f, cp, posn, maxWidthLength, maxPrecisionLength, d, a, t, done);
      if !ok {
        return;
      }
    }
    Finish(f, posn, maxWidthLength, maxPrecisionLength, d, a, t, done);
    ok := true;
  }

  /** On success the records, the types and the lengths are those of the directives that the format is
      made of; it fails only if there is an improper directive, if the uses of some argument contradict
      each other, or if a number or the format is too large for memory. */
  method Parse(format: string) returns (ok: bool, d: Directives, a: Arguments)
    ensures ok ==>
      && Scan(format, 0).Some? && d.Valid() && a.Valid()
      && d.Records() == RecordsOf(Scan(format, 0).value) && d.dir[d.count].dirStart == |format|
      && RegisterAll([], UsesIn(Scan(format, 0).value)) == Some(a.Types())
      && d.maxWidthLength == Longest(Scan(format, 0).value, 0)
      && d.maxPrecisionLength == Longest(Scan(format, 0).value, 1)
    ensures !ok ==> Scan(format, 0).None? || Refused([], UsesIn(Scan(format, 0).value)) || |format| >= LONG
  {
    d := new Directives();
    a := new Arguments();
    TurnsTell(format);
    ReadNothing(TurnsOf(format), |format|);
    ghost var done;
    ok, done := ParseTurns(format, d, a, TurnsOf(format));
  }

  lemma TurnsTell(f: string)
    ensures Tells(f, TurnsOf(f))
  {}

  lemma ReadNothing(t: nat -> Turn, n: nat)
    ensures Read(t, n, 0, []) && Known([], [], [], 0, 0, 0)
  {
    if ScanTurns(t, n, 0).Some? {
      assert [] + ScanTurns(t, n, 0).value == ScanTurns(t, n, 0).value;
    }
  }

  lemma ReadAll(t: nat -> Turn, n: nat, done: seq<Found>)
    requires Read(t, n, n, done)
    ensures ScanTurns(t, n, 0) == Some(done)
  {
    assert done + [] == done;
  }
}
