/** The directives of a format string (intl/printf-parse.h, section 7.19.6.1 of ISO C99 with the
    positional arguments of POSIX), on a system whose `long` has the width of `size_t`. */
module PrintfSpec {
  import opened Options
  import opened PrintfSize

  datatype ArgType =
    | TYPE_NONE | TYPE_SCHAR | TYPE_UCHAR | TYPE_SHORT | TYPE_USHORT | TYPE_INT | TYPE_UINT
    | TYPE_LONGINT | TYPE_ULONGINT | TYPE_LONGLONGINT | TYPE_ULONGLONGINT | TYPE_DOUBLE | TYPE_LONGDOUBLE
    | TYPE_CHAR | TYPE_WIDE_CHAR | TYPE_STRING | TYPE_WIDE_STRING | TYPE_POINTER
    | TYPE_COUNT_SCHAR_POINTER | TYPE_COUNT_SHORT_POINTER | TYPE_COUNT_INT_POINTER
    | TYPE_COUNT_LONGINT_POINTER | TYPE_COUNT_LONGLONGINT_POINTER

  /** The character at `i`, or the NUL at the end. */
  function At(f: string, i: nat): char {
    if i < |f| then f[i] else '\0'
  }

  /** Where the longest run of characters of a class that starts at `i` ends. */
  function RunEnd(f: string, i: nat, p: char -> bool): (e: nat)
    requires i <= |f|
    ensures i <= e <= |f| && (e < |f| ==> !p(f[e]))
    ensures forall k :: i <= k < e ==> p(f[k])
    decreases |f| - i
  {
    if i < |f| && p(f[i]) then RunEnd(f, i + 1, p) else i
  }

  /** A run is determined by its class and what follows. */
  lemma {:induction false} RunIs(f: string, i: nat, p: char -> bool, e: nat)
    requires i <= e <= |f| && (e < |f| ==> !p(f[e])) && forall k :: i <= k < e ==> p(f[k])
    ensures RunEnd(f, i, p) == e
    decreases e - i
  {
    if i < e {
      RunIs(f, i + 1, p, e);
    }
  }

  predicate IsFlag(c: char) {
    c in "'-+ #0"
  }

  predicate IsSize(c: char) {
    c in "hLljzZt"
  }

  const DIGIT: char -> bool := c => Digit(c)
  const FLAG: char -> bool := c => IsFlag(c)
  const SIZE: char -> bool := c => IsSize(c)

  // ----- the parts of a directive

  /** The parts, as they are written. */
  datatype Pieces = Pieces(pos: string, flags: string, width: string, prec: string, size: string, conv: char) {
    function Text(): (t: string)
      ensures |t| > 0 && t[0] == '%'
    {
      "%" + pos + flags + width + prec + size + [conv]
    }
  }

  /** A position: digits and `$`, or nothing. */
  predicate IsPosition(s: string) {
    s == "" || (|s| >= 2 && s[|s| - 1] == '$' && Digits(s[..|s| - 1]))
  }

  function PositionEnd(f: string, i: nat): (e: nat)
    requires i <= |f|
    ensures i <= e <= |f| && IsPosition(f[i..e])
  {
    var e := RunEnd(f, i, DIGIT);
    if e > i && At(f, e) == '$' then assert Digits(f[i..e + 1][..e - i]); e + 1 else i
  }

  function WidthEnd(f: string, i: nat): (e: nat)
    requires i <= |f|
    ensures i <= e <= |f|
  {
    if At(f, i) == '*' then PositionEnd(f, i + 1) else RunEnd(f, i, DIGIT)
  }

  function PrecisionEnd(f: string, i: nat): (e: nat)
    requires i <= |f|
    ensures i <= e <= |f|
  {
    if At(f, i) != '.' then i
    else if At(f, i + 1) == '*' then PositionEnd(f, i + 2)
    else RunEnd(f, i + 1, DIGIT)
  }

  /** The ends of the parts of the directive at `i`. */
  datatype Ends = Ends(pos: nat, flags: nat, width: nat, prec: nat, size: nat)

  function EndsOf(f: string, i: nat): (x: Ends)
    requires i < |f|
    ensures i + 1 <= x.pos <= x.flags <= x.width <= x.prec <= x.size <= |f|
  {
    var p := PositionEnd(f, i + 1);
    var g := RunEnd(f, p, FLAG);
    var w := WidthEnd(f, g);
    var r := PrecisionEnd(f, w);
    Ends(p, g, w, r, RunEnd(f, r, SIZE))
  }

  function PiecesAt(f: string, i: nat): Option<Pieces>
    requires i < |f|
  {
    var x := EndsOf(f, i);
    if x.size == |f| then None
    else Some(Pieces(
      f[i + 1..x.pos], f[x.pos..x.flags], f[x.flags..x.width], f[x.width..x.prec], f[x.prec..x.size], f[x.size]))
  }

  lemma PiecesText(f: string, i: nat)
    requires i < |f| && f[i] == '%' && PiecesAt(f, i).Some?
    ensures PiecesAt(f, i).value.Text() == f[i..EndsOf(f, i).size + 1]
  {
    var p := PiecesAt(f, i).value;
    JoinedText(f, i, EndsOf(f, i), p.pos, p.flags, p.width, p.prec, p.size, p.conv);
  }

  lemma JoinedText(
    f: string, i: nat, x: Ends, pos: string, flags: string, width: string, prec: string, size: string, conv: char)
    requires i + 1 <= x.pos <= x.flags <= x.width <= x.prec <= x.size < |f| && f[i] == '%'
    requires pos == f[i + 1..x.pos] && flags == f[x.pos..x.flags] && width == f[x.flags..x.width]
    requires prec == f[x.width..x.prec] && size == f[x.prec..x.size] && conv == f[x.size]
    ensures Pieces(pos, flags, width, prec, size, conv).Text() == f[i..x.size + 1]
  {
    assert "%" == f[i..i + 1] && [conv] == f[x.size..x.size + 1];
    Joined(f, i, i + 1, x.pos);
    Joined(f, i, x.pos, x.flags);
    Joined(f, i, x.flags, x.width);
    Joined(f, i, x.width, x.prec);
    Joined(f, i, x.prec, x.size);
    Joined(f, i, x.size, x.size + 1);
  }

  lemma Joined(f: string, a: nat, b: nat, c: nat)
    requires a <= b <= c <= |f|
    ensures f[a..b] + f[b..c] == f[a..c]
  {}

  // ----- types

  /** The state of the loop over the size letters: one bit for each of `h`, `hh` and `L`, and eight for
      every other letter. */
  function SizeStep(flags: nat, c: char): nat {
    if c == 'h' then
      if flags % 2 == 0 then flags + 1 else if flags / 2 % 2 == 0 then flags + 2 else flags
    else if c == 'L' then
      if flags / 4 % 2 == 0 then flags + 4 else flags
    else flags + 8
  }

  function SizeFlags(s: string): nat {
    if s == "" then 0 else SizeStep(SizeFlags(s[..|s| - 1]), s[|s| - 1])
  }

  function IntType(
    flags: nat, longLong: ArgType, long: ArgType, schar: ArgType, short: ArgType, plain: ArgType): ArgType {
    if flags >= 16 || flags / 4 % 2 == 1 then longLong
    else if flags >= 8 then long
    else if flags / 2 % 2 == 1 then schar
    else if flags % 2 == 1 then short
    else plain
  }

  /** How often the letter occurs. */
  function Occurrences(s: string, c: char): nat {
    if s == "" then 0 else Occurrences(s[..|s| - 1], c) + if s[|s| - 1] == c then 1 else 0
  }

  /** The flags for so many of `h`, of `L` and of the other letters. */
  function FlagsFor(h: nat, l: nat, others: nat): nat {
    (if h >= 1 then 1 else 0) + (if h >= 2 then 2 else 0) + (if l >= 1 then 4 else 0) + 8 * others
  }

  lemma Halves(f: nat, half: nat, odd: nat)
    requires f == 2 * half + odd && odd <= 1
    ensures f / 2 == half && f % 2 == odd
  {}

  lemma FlagBits(a: nat, b: nat, d: nat, n: nat)
    requires a <= 1 && b <= 1 && d <= 1
    ensures var f := a + 2 * b + 4 * d + 8 * n; f % 2 == a && f / 2 % 2 == b && f / 4 % 2 == d
  {
    var f := a + 2 * b + 4 * d + 8 * n;
    Halves(f, b + 2 * d + 4 * n, a);
    Halves(b + 2 * d + 4 * n, d + 2 * n, b);
    Halves(d + 2 * n, n, d);
    assert f / 4 == d + 2 * n;
  }

  lemma StepCounts(h: nat, l: nat, others: nat, c: char)
    ensures
      SizeStep(FlagsFor(h, l, others), c)
      == if c == 'h' then FlagsFor(h + 1, l, others)
         else if c == 'L' then FlagsFor(h, l + 1, others)
         else FlagsFor(h, l, others + 1)
  {
    FlagBits(if h >= 1 then 1 else 0, if h >= 2 then 1 else 0, if l >= 1 then 1 else 0, others);
  }

  /** The letters that stand for eight. */
  function Others(s: string): int {
    |s| - Occurrences(s, 'h') - Occurrences(s, 'L')
  }

  /** The flags depend on how often the letters occur, whatever their order. */
  lemma {:induction false} SizeFlagsCount(s: string)
    ensures 0 <= Others(s) && SizeFlags(s) == FlagsFor(Occurrences(s, 'h'), Occurrences(s, 'L'), Others(s))
    decreases |s|
  {
    if s != "" {
      var t := s[..|s| - 1];
      SizeFlagsCount(t);
      StepCounts(Occurrences(t, 'h'), Occurrences(t, 'L'), Others(t), s[|s| - 1]);
    }
  }

  lemma Selected(
    f: nat, a: nat, b: nat, d: nat, n: nat, longLong: ArgType, long: ArgType, schar: ArgType, short: ArgType,
    plain: ArgType)
    requires f % 2 == a && f / 2 % 2 == b && f / 4 % 2 == d && f == a + 2 * b + 4 * d + 8 * n
    requires a <= 1 && b <= 1 && d <= 1
    ensures
      IntType(f, longLong, long, schar, short, plain)
      == if d == 1 || n >= 2 then longLong
         else if n == 1 then long
         else if b == 1 then schar
         else if a == 1 then short
         else plain
  {}

  /** What the size letters of an integer conversion mean, in any order and number: `L` or two long letters, then one
      long letter, then two letters `h`, then one. */
  lemma SizeMeans(
    s: string, longLong: ArgType, long: ArgType, schar: ArgType, short: ArgType, plain: ArgType)
    ensures
      IntType(SizeFlags(s), longLong, long, schar, short, plain)
      == if Occurrences(s, 'L') >= 1 || Others(s) >= 2 then longLong
         else if Others(s) == 1 then long
         else if Occurrences(s, 'h') >= 2 then schar
         else if Occurrences(s, 'h') == 1 then short
         else plain
  {
    SizeFlagsCount(s);
    var h := Occurrences(s, 'h');
    var a, b, d := if h >= 1 then 1 else 0, if h >= 2 then 1 else 0, if Occurrences(s, 'L') >= 1 then 1 else 0;
    FlagBits(a, b, d, Others(s));
    Selected(SizeFlags(s), a, b, d, Others(s), longLong, long, schar, short, plain);
  }

  /** The type of the argument of a conversion; none for an unknown conversion. */
  function TypeOf(c: char, flags: nat): Option<ArgType> {
    if c in "di" then
      Some(IntType(flags, TYPE_LONGLONGINT, TYPE_LONGINT, TYPE_SCHAR, TYPE_SHORT, TYPE_INT))
    else if c in "ouxX" then
      Some(IntType(flags, TYPE_ULONGLONGINT, TYPE_ULONGINT, TYPE_UCHAR, TYPE_USHORT, TYPE_UINT))
    else if c in "fFeEgGaA" then
      Some(if flags >= 16 || flags / 4 % 2 == 1 then TYPE_LONGDOUBLE else TYPE_DOUBLE)
    else if c == 'c' then Some(if flags >= 8 then TYPE_WIDE_CHAR else TYPE_CHAR)
    else if c == 'C' then Some(TYPE_WIDE_CHAR)
    else if c == 's' then Some(if flags >= 8 then TYPE_WIDE_STRING else TYPE_STRING)
    else if c == 'S' then Some(TYPE_WIDE_STRING)
    else if c == 'p' then Some(TYPE_POINTER)
    else if c == 'n' then
      Some(IntType(flags, TYPE_COUNT_LONGLONGINT_POINTER, TYPE_COUNT_LONGINT_POINTER, TYPE_COUNT_SCHAR_POINTER,
        TYPE_COUNT_SHORT_POINTER, TYPE_COUNT_INT_POINTER))
    else if c == '%' then Some(TYPE_NONE)
    else None
  }

  /** The number of a position; none if it is 0 or too large. */
  function Index(s: string): Option<nat>
    requires IsPosition(s) && s != ""
  {
    var n := Min(Decimal(s[..|s| - 1]), SIZE_MAX);
    if n == 0 || n == SIZE_MAX then None else Some(n - 1)
  }

  /** What a part says about an argument: it takes none, or the one with the given number, or else the
      next one in order; or its number is not a proper one. */
  datatype Demand = NoArg | BadArg | Arg(pos: Option<nat>)

  function PositionDemand(s: string): Demand
    requires IsPosition(s)
  {
    if s == "" then Arg(None) else if Index(s).None? then BadArg else Arg(Index(s))
  }

  /** A width (`k` = 0) or precision (`k` = 1) takes an argument if it is a star. */
  predicate Starred(s: string, k: nat) {
    k < |s| && s[k] == '*' && IsPosition(s[k + 1..])
  }

  function StarDemand(s: string, k: nat): Demand {
    if Starred(s, k) then PositionDemand(s[k + 1..]) else NoArg
  }

  /** The recorded length of a width or precision; a star's position is not part of it. */
  function FieldLength(s: string, k: nat): nat {
    if Starred(s, k) then k + 1 else |s|
  }

  /** All that matters of a directive for its arguments. */
  datatype Shape = Shape(pos: Demand, width: Demand, prec: Demand, ty: Option<ArgType>) {
    predicate Legal() {
      !pos.BadArg? && !width.BadArg? && !prec.BadArg? && ty.Some?
    }
  }

  function ShapeOf(p: Pieces): Shape {
    Shape(
      if IsPosition(p.pos) then PositionDemand(p.pos) else BadArg,
      StarDemand(p.width, 0), StarDemand(p.prec, 1), TypeOf(p.conv, SizeFlags(p.size)))
  }

  /** Every position in the directive is a proper one, and its conversion is known. */
  predicate Legal(p: Pieces) {
    ShapeOf(p).Legal()
  }

  // ----- argument numbers

  /** The argument taken when `posn` have been taken in order before, and how many then. */
  function Take(d: Demand, posn: nat): (Option<nat>, nat) {
    match d
    case NoArg => (None, posn)
    case BadArg => (None, posn)
    case Arg(None) => (Some(posn), posn + 1)
    case Arg(Some(n)) => (Some(n), posn)
  }

  /** The arguments of a directive: width and precision come first. A `%%` takes none. */
  datatype Args = Args(width: Option<nat>, prec: Option<nat>, conv: Option<nat>, next: nat)

  function ConvDemand(sh: Shape): Demand {
    if sh.ty == Some(TYPE_NONE) then NoArg else sh.pos
  }

  function ArgsOf(sh: Shape, posn: nat): Args {
    var (w, posn1) := Take(sh.width, posn);
    var (r, posn2) := Take(sh.prec, posn1);
    var (a, posn3) := Take(ConvDemand(sh), posn2);
    Args(w, r, a, posn3)
  }

  function Conversion(c: char): char {
    if c == 'C' then 'c' else if c == 'S' then 's' else c
  }

  /** The flags, which may be given in any order and more than once. */
  function FlagSet(s: string): set<char> {
    set c | c in s
  }

  /** The directive as the program records it; absent pointers and ARG_NONE are None. */
  datatype Directive = Directive(
    dirStart: nat, dirEnd: nat, flags: set<char>,
    widthStart: Option<nat>, widthEnd: Option<nat>, widthArg: Option<nat>,
    precStart: Option<nat>, precEnd: Option<nat>, precArg: Option<nat>,
    conversion: char, arg: Option<nat>)

  /** The record of the directive `p` at `i`, with the arguments `args`. */
  function Recorded(i: nat, p: Pieces, args: Args): Directive {
    var g := i + 1 + |p.pos| + |p.flags|;
    var h := g + |p.width|;
    Directive(
      i, h + |p.prec| + |p.size| + 1, FlagSet(p.flags),
      if p.width == "" then None else Some(g), if p.width == "" then None else Some(g + FieldLength(p.width, 0)),
      args.width,
      if p.prec == "" then None else Some(h), if p.prec == "" then None else Some(h + FieldLength(p.prec, 1)),
      args.prec, Conversion(p.conv), args.conv)
  }

  /** One use of an argument. */
  type Use = (nat, ArgType)

  function UseOf(a: Option<nat>, t: ArgType): seq<Use> {
    if a.None? then [] else [(a.value, t)]
  }

  /** The uses of arguments by a directive, in the order in which they are registered. */
  function Uses(args: Args, ty: ArgType): seq<Use> {
    (UseOf(args.width, TYPE_INT) + UseOf(args.prec, TYPE_INT)) + UseOf(args.conv, ty)
  }

  /** The uses by a legal directive. */
  function ShapeUses(sh: Shape, posn: nat): seq<Use>
    requires sh.Legal()
  {
    Uses(ArgsOf(sh, posn), sh.ty.value)
  }

  /** The types of the arguments after one more use; none if it contradicts an earlier one. */
  function Registered(ts: seq<ArgType>, u: Use): Option<seq<ArgType>> {
    var padded := if u.0 < |ts| then ts else ts + seq(u.0 + 1 - |ts|, _ => TYPE_NONE);
    if padded[u.0] == TYPE_NONE || padded[u.0] == u.1 then Some(padded[u.0 := u.1]) else None
  }

  function RegisterAll(ts: seq<ArgType>, us: seq<Use>): Option<seq<ArgType>> {
    if us == [] then Some(ts)
    else
      match RegisterAll(ts, us[..|us| - 1])
      case None => None
      case Some(next) => Registered(next, us[|us| - 1])
  }

  lemma {:induction false} RegisterMore(ts: seq<ArgType>, us: seq<Use>, vs: seq<Use>)
    ensures RegisterAll(ts, us + vs) ==
      match RegisterAll(ts, us)
      case None => None
      case Some(next) => RegisterAll(next, vs)
  {
    if vs == [] {
      assert us + vs == us;
    } else {
      assert (us + vs)[..|us + vs| - 1] == us + vs[..|vs| - 1];
      RegisterMore(ts, us, vs[..|vs| - 1]);
    }
  }

  /** An argument number for which no memory could be described. */
  const HUGE: nat := 0x200_0000_0000_0000

  ghost predicate SomeHuge(us: seq<Use>) {
    exists k :: 0 <= k < |us| && us[k].0 >= HUGE
  }
}
