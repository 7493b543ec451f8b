/** The ways of writing options and operands on a command line, and that a scan gives back exactly what was written
    (lib/getopt.c, the comment before `_getopt_internal_r`). */
module GetoptRender {
  import opened Getopt
  import opened GetoptSpec
  import opened Options

  // ----- what an option string declares

  datatype Takes = Nothing | Required | Optional

  datatype Declaration = Declaration(c: char, takes: Takes)

  function Colons(t: Takes): string {
    match t
    case Nothing => ""
    case Required => ":"
    case Optional => "::"
  }

  function OptString(ds: seq<Declaration>): string {
    if ds == [] then ""
    else [ds[0].c] + Colons(ds[0].takes) + OptString(ds[1..])
  }

  /** Each character is declared once, and none is a colon. */
  predicate Distinct(ds: seq<Declaration>) {
    && (forall i :: 0 <= i < |ds| ==> ds[i].c != ':')
    && forall i, j :: 0 <= i < j < |ds| ==> ds[i].c != ds[j].c
  }

  /** What the character is declared to take; none if it is not declared. */
  function Declared(ds: seq<Declaration>, c: char): Option<Takes> {
    if ds == [] then None else if ds[0].c == c then Some(ds[0].takes) else Declared(ds[1..], c)
  }

  function KindFor(t: Option<Takes>): Kind {
    match t
    case None => Unknown
    case Some(Nothing) => NoArgument
    case Some(Required) => RequiredArgument
    case Some(Optional) => OptionalArgument
  }

  lemma IndexFirst(s: string, c: char, k: nat)
    requires k <= |s| && (k < |s| ==> s[k] == c) && forall i :: 0 <= i < k ==> s[i] != c
    ensures IndexOf(s, c) == k
  {}

  lemma KindBehind(a: string, s: string, c: char)
    requires c !in a
    ensures KindOf(a + s, c) == KindOf(s, c)
  {
    var k := IndexOf(s, c);
    forall i | 0 <= i < |a| + k ensures (a + s)[i] != c {
      assert (a + s)[i] == if i < |a| then a[i] else s[i - |a|];
    }
    IndexFirst(a + s, c, |a| + k);
  }

  lemma KindFirst(s: string, c: char)
    requires s != "" && s[0] == c && c != ':'
    ensures
      KindOf(s, c)
      == if |s| == 1 || s[1] != ':' then NoArgument
         else if |s| == 2 || s[2] != ':' then RequiredArgument
         else OptionalArgument
  {
    IndexFirst(s, c, 0);
  }

  lemma DistinctTail(ds: seq<Declaration>)
    requires Distinct(ds) && ds != []
    ensures Distinct(ds[1..]) && (OptString(ds[1..]) != "" ==> OptString(ds[1..])[0] != ':')
  {
    assert forall i :: 0 <= i < |ds[1..]| ==> ds[1..][i] == ds[i + 1];
  }

  /** The option string means its declarations. */
  lemma {:induction false} KindDeclared(ds: seq<Declaration>, c: char)
    requires Distinct(ds)
    ensures KindOf(OptString(ds), c) == KindFor(Declared(ds, c))
  {
    if ds != [] && c != ':' {
      var rest := OptString(ds[1..]);
      DistinctTail(ds);
      if ds[0].c == c {
        KindFirst(OptString(ds), c);
      } else {
        KindDeclared(ds[1..], c);
        KindBehind([ds[0].c] + Colons(ds[0].takes), rest, c);
      }
    } else if ds != [] {
      ColonDeclared(ds);
    }
  }

  lemma {:induction false} ColonDeclared(ds: seq<Declaration>)
    requires Distinct(ds)
    ensures Declared(ds, ':') == None
  {
    if ds != [] {
      DistinctTail(ds);
      ColonDeclared(ds[1..]);
    }
  }

  /** What a caller of getopt passes: the declarations, behind a character for the ordering and a colon that asks for
      missing arguments to be told apart; the long options; and whether POSIXLY_CORRECT is set. */
  datatype Setup = Setup(sign: string, quiet: bool, ds: seq<Declaration>, longopts: Option<seq<LongOption>>,
    posix: bool) {
    function Passed(): string {
      sign + Behind()
    }

    function Behind(): string {
      (if quiet then ":" else "") + OptString(ds)
    }

    function Ordered(): Ordering {
      if sign == "-" then RETURN_IN_ORDER else if sign == "+" || posix then REQUIRE_ORDER else PERMUTE
    }

    function Config(): Config {
      GetoptSpec.Config(Passed(), longopts, Ordered())
    }

    predicate Valid() {
      && Distinct(ds) && (sign == "" || sign == "-" || sign == "+")
      && (sign == "" && !quiet && ds != [] ==> ds[0].c != '-' && ds[0].c != '+')
    }

    function Kind(c: char): Kind {
      KindFor(Declared(ds, c))
    }
  }

  /** The option string means the declarations, except for the sign. */
  ghost predicate InForce(su: Setup, os: string) {
    && (forall c {:trigger KindOf(os, c)} :: c !in su.sign ==> KindOf(os, c) == su.Kind(c))
    && (su.sign == "" || !su.quiet ==> Missing(os) == if su.quiet then ':' as int else '?' as int)
  }

  lemma BothInForce(su: Setup)
    requires su.Valid()
    ensures OrderingOf(su.Passed(), su.posix) == su.Ordered()
    ensures InForce(su, Stripped(su.Passed())) && InForce(su, su.Passed())
  {
    var os := su.Behind();
    assert su.sign == "" ==> su.Passed() == os;
    assert su.sign != "" ==> su.Passed()[1..] == os;
    assert Stripped(su.Passed()) == os;
    if su.ds != [] {
      DistinctTail(su.ds);
    }
    forall c ensures KindOf(os, c) == su.Kind(c) {
      KindDeclared(su.ds, c);
      if c == ':' {
        ColonDeclared(su.ds);
      } else if su.quiet {
        KindBehind(":", OptString(su.ds), c);
      } else {
        assert os == OptString(su.ds);
      }
    }
    forall c | c !in su.sign ensures KindOf(su.Passed(), c) == su.Kind(c) {
      KindBehind(su.sign, os, c);
    }
  }

  // ----- what is written

  /** The last option of a cluster: none with an argument; one with its argument in the same element or in the next; one
      without the argument that it may have. */
  datatype Last = NoLast | Attached(c: char, value: string) | Followed(c: char, value: string) | Without(c: char)

  datatype LongValue = NoValue | Joined(value: string) | Next(value: string)

  /** A cluster of short options, a long option, one that cannot be used, or an operand. */
  datatype Item =
    | Cluster(flags: string, last: Last)
    | Long(name: string, k: nat, value: LongValue)
    | Unusable(name: string, joined: Option<string>, opt: int)
    | Operand(word: string)

  function LastText(last: Last): string {
    match last
    case NoLast => ""
    case Attached(c, value) => [c] + value
    case Followed(c, _) => [c]
    case Without(c) => [c]
  }

  function Joining(joined: Option<string>): string {
    if joined.None? then "" else "=" + joined.value
  }

  function Elements(it: Item): seq<string> {
    match it
    case Cluster(flags, last) => ["-" + (flags + LastText(last))] + if last.Followed? then [last.value] else []
    case Long(name, _, NoValue) => ["--" + name]
    case Long(name, _, Joined(v)) => ["--" + (name + ("=" + v))]
    case Long(name, _, Next(v)) => ["--" + name, v]
    case Unusable(name, joined, _) => ["--" + (name + Joining(joined))]
    case Operand(word) => [word]
  }

  function Rendered(items: seq<Item>): seq<string> {
    if items == [] then [] else Elements(items[0]) + Rendered(items[1..])
  }

  /** What is written behind the items: nothing; words behind `--`; words with an operand in front; or a cluster or long
      option that lacks its argument. */
  datatype Tail =
    | Nowhere
    | Dashes(words: seq<string>)
    | Words(words: seq<string>)
    | Lacking(flags: string, c: char)
    | LackingLong(name: string, k: nat)

  function TailElements(tail: Tail): seq<string> {
    match tail
    case Nowhere => []
    case Dashes(words) => ["--"] + words
    case Words(words) => words
    case Lacking(flags, c) => ["-" + (flags + [c])]
    case LackingLong(name, _) => ["--" + name]
  }

  // ----- what it means

  /** A flag is returned as it is; one that is not declared as a question mark, with `optopt` saying which. */
  function FlagEvents(su: Setup, flags: string): seq<Event> {
    if flags == "" then []
    else
      var c := flags[0] as int;
      [if Declared(su.ds, flags[0]).None? then Event('?' as int, None, Some(c), None, None)
       else Event(c, None, None, None, None)] + FlagEvents(su, flags[1..])
  }

  function LastEvents(last: Last): seq<Event> {
    match last
    case NoLast => []
    case Attached(c, value) => [Event(c as int, Some(value), None, None, None)]
    case Followed(c, value) => [Event(c as int, Some(value), None, None, None)]
    case Without(c) => [Event(c as int, None, None, None, None)]
  }

  function LongValueOf(value: LongValue): Option<string> {
    if value.NoValue? then None else Some(value.value)
  }

  /** A long option is returned with its index; its value is stored if it has a flag, and returned otherwise. */
  function LongEvent(p: LongOption, k: nat, value: LongValue): Event {
    Event(
      if p.flag.None? then p.val else 0, LongValueOf(value), None, Some(k),
      if p.flag.None? then None else Some((p.flag.value, p.val)))
  }

  function ItemEvents(su: Setup, it: Item): seq<Event> {
    match it
    case Cluster(flags, last) => FlagEvents(su, flags) + LastEvents(last)
    case Long(_, k, value) =>
      if su.longopts.None? || k >= |su.longopts.value| then [] else [LongEvent(su.longopts.value[k], k, value)]
    case Unusable(_, _, opt) => [Event('?' as int, None, Some(opt), None, None)]
    case Operand(word) =>
      if su.Ordered() == RETURN_IN_ORDER then [Event(1, Some(word), None, None, None)] else []
  }

  /** A missing argument is reported by a question mark, or by a colon if that was asked for. */
  function Reported(su: Setup, opt: int): Event {
    Event(if su.quiet then ':' as int else '?' as int, None, Some(opt), None, None)
  }

  function Events(su: Setup, items: seq<Item>, tail: Tail): seq<Event> {
    if items == [] then
      match tail
      case Lacking(flags, c) => FlagEvents(su, flags) + [Reported(su, c as int)]
      case LackingLong(_, k) =>
        if su.longopts.None? || k >= |su.longopts.value| then [] else [Reported(su, su.longopts.value[k].val)]
      case _ => []
    else ItemEvents(su, items[0]) + Events(su, items[1..], tail)
  }

  function ItemOperands(su: Setup, it: Item): seq<string> {
    if it.Operand? && su.Ordered() == PERMUTE then [it.word] else []
  }

  function Operands(su: Setup, items: seq<Item>, tail: Tail): seq<string> {
    if items == [] then (if tail.Dashes? || tail.Words? then tail.words else [])
    else ItemOperands(su, items[0]) + Operands(su, items[1..], tail)
  }

  // ----- what can be written

  predicate IsOperand(word: string) {
    |word| < 2 || word[0] != '-'
  }

  /** Options without arguments, declared or not. */
  predicate ProperFlags(su: Setup, flags: string) {
    forall k :: 0 <= k < |flags| ==>
      flags[k] !in su.sign && (su.Kind(flags[k]) == NoArgument || su.Kind(flags[k]) == Unknown)
  }

  predicate ProperLast(su: Setup, last: Last) {
    match last
    case NoLast => true
    case Attached(c, value) => c !in su.sign && value != ""
      && (su.Kind(c) == RequiredArgument || su.Kind(c) == OptionalArgument)
    case Followed(c, _) => c !in su.sign && su.Kind(c) == RequiredArgument
    case Without(c) => c !in su.sign && su.Kind(c) == OptionalArgument
  }

  /** The text behind a dash is neither empty nor taken for `--` or a long option. */
  predicate ProperText(su: Setup, text: string) {
    text != "" && text != "-" && (su.longopts.Some? ==> text[0] != '-')
  }

  predicate ProperName(name: string) {
    name != "" && '=' !in name
  }

  /** The name is that of an option without an argument, which has the value `opt`. */
  ghost predicate Unneeded(ls: seq<LongOption>, name: string, k: nat, opt: int) {
    Means(ls, name, Found(k)) && k < |ls| && ls[k].hasArg == 0 && ls[k].val == opt
  }

  ghost predicate Proper(su: Setup, it: Item) {
    match it
    case Cluster(flags, last) => ProperFlags(su, flags) && ProperLast(su, last)
      && ProperText(su, flags + LastText(last))
    case Long(name, k, value) =>
      && ProperName(name) && su.longopts.Some? && k < |su.longopts.value| && Means(su.longopts.value, name, Found(k))
      && (match value
          case NoValue => su.longopts.value[k].hasArg != 1
          case Joined(_) => su.longopts.value[k].hasArg != 0
          case Next(_) => su.longopts.value[k].hasArg == 1)
    case Unusable(name, joined, opt) =>
      && '=' !in name && name + Joining(joined) != "" && su.longopts.Some?
      && (|| (Means(su.longopts.value, name, NotFound) && opt == 0)
          || (Means(su.longopts.value, name, Ambiguous) && opt == 0)
          || (joined.Some? && exists k: nat :: Unneeded(su.longopts.value, name, k, opt)))
    case Operand(word) => IsOperand(word) && su.Ordered() != REQUIRE_ORDER
  }

  ghost predicate ProperTail(su: Setup, tail: Tail) {
    match tail
    case Nowhere => true
    case Dashes(_) => true
    case Words(words) => su.Ordered() == REQUIRE_ORDER && words != [] && IsOperand(words[0])
    case Lacking(flags, c) =>
      && ProperFlags(su, flags) && c !in su.sign && su.Kind(c) == RequiredArgument
      && ProperText(su, flags + [c]) && (su.sign == "" || !su.quiet)
    case LackingLong(name, k) =>
      && ProperName(name) && su.longopts.Some? && k < |su.longopts.value| && Means(su.longopts.value, name, Found(k))
      && su.longopts.value[k].hasArg == 1 && (su.sign == "" || !su.quiet)
  }

  // ----- the scan reads what is written

  /** The elements from `i` on begin with `xs`. */
  predicate Here(args: seq<string>, i: nat, xs: seq<string>) {
    i + |xs| <= |args| && forall k {:trigger xs[k]} :: 0 <= k < |xs| ==> args[i + k] == xs[k]
  }

  /** From what is left of element `i` the scan gives the events `evs`, marks everything before element `next` with `b`,
      and goes on there. */
  ghost predicate GoesOn(
    cfg: Config, os: string, args: seq<string>, i: nat, rest: string, evs: seq<Event>, b: bool, os': string, next: nat)
  {
    && i <= next <= |args| && (rest != "" ==> i < |args|)
    && forall n: nat {:trigger Copies(b, n)} :: n == next - i ==>
        && Future(cfg, os, args, i, rest) == evs + Future(cfg, os', args, next, "")
        && Mask(cfg, os, args, i, rest) == Copies(b, n) + Mask(cfg, os', args, next, "")
  }

  lemma OneStep(cfg: Config, os: string, args: seq<string>, i: nat, rest: string, st: Step, ev: Event)
    requires i <= |args| && (rest != "" ==> i < |args|)
    requires TurnAt(cfg, os, args, i, rest) == Do(st) && st.rest == "" && ev == st.ev
    ensures GoesOn(cfg, os, args, i, rest, [ev], true, cfg.optstring, st.i)
  {
    assert Future(cfg, os, args, i, rest) == [ev] + Future(cfg, cfg.optstring, args, st.i, "");
    assert Mask(cfg, os, args, i, rest) == Copies(true, st.i - i) + Mask(cfg, cfg.optstring, args, st.i, "");
  }

  /** A step inside an element. */
  lemma StepInside(
    cfg: Config, os: string, args: seq<string>, i: nat, rest: string, st: Step, ev: Event, evs: seq<Event>, next: nat)
    requires i < |args| && TurnAt(cfg, os, args, i, rest) == Do(st) && st.i == i && ev == st.ev
    requires GoesOn(cfg, cfg.optstring, args, i, st.rest, evs, true, cfg.optstring, next)
    ensures GoesOn(cfg, os, args, i, rest, [ev] + evs, true, cfg.optstring, next)
  {
    var tail := Future(cfg, cfg.optstring, args, next, "");
    assert [ev] + (evs + tail) == ([ev] + evs) + tail;
    var more := Mask(cfg, cfg.optstring, args, i, st.rest);
    assert more == Copies(true, next - i) + Mask(cfg, cfg.optstring, args, next, "");
    assert Copies(true, 0) + more == more;
    assert Future(cfg, os, args, i, rest) == ([ev] + evs) + tail;
    assert Mask(cfg, os, args, i, rest) == more;
  }

  /** The last option of a cluster. */
  lemma ReadLast(su: Setup, os: string, args: seq<string>, i: nat, last: Last)
    requires InForce(su, os) && ProperLast(su, last) && !last.NoLast? && i < |args|
    requires last.Followed? ==> i + 1 < |args| && args[i + 1] == last.value
    ensures
      var next := if last.Followed? then i + 2 else i + 1;
      GoesOn(su.Config(), os, args, i, LastText(last), LastEvents(last), true, su.Passed(), next)
  {
    var text := LastText(last);
    assert text[0] == last.c && (last.Attached? ==> text[1..] == last.value);
    assert KindOf(os, last.c) == su.Kind(last.c);
    var st := ShortStep(os, args, i, text);
    OneStep(su.Config(), os, args, i, text, st, LastEvents(last)[0]);
  }

  /** One flag. */
  lemma ReadFlag(su: Setup, os: string, args: seq<string>, i: nat, c: char, more: string)
    requires InForce(su, os) && i < |args| && c !in su.sign && (su.Kind(c) == NoArgument || su.Kind(c) == Unknown)
    ensures
      var st := ShortStep(os, args, i, [c] + more);
      && [st.ev] == FlagEvents(su, [c])
      && st.i == (if more == "" then i + 1 else i) && st.rest == more
  {
    assert ([c] + more)[0] == c && ([c] + more)[1..] == more;
    assert KindOf(os, c) == su.Kind(c);
    assert FlagEvents(su, "") == [];
    assert su.Kind(c) == Unknown <==> Declared(su.ds, c).None?;
  }

  lemma FlagsApart(su: Setup, flags: string)
    requires ProperFlags(su, flags) && flags != ""
    ensures FlagEvents(su, flags) == FlagEvents(su, [flags[0]]) + FlagEvents(su, flags[1..])
      && |FlagEvents(su, [flags[0]])| == 1
    ensures ProperFlags(su, flags[1..])
    ensures flags[0] !in su.sign && (su.Kind(flags[0]) == NoArgument || su.Kind(flags[0]) == Unknown)
  {
    assert [flags[0]][1..] == "";
    assert FlagEvents(su, "") == [];
    forall k | 0 <= k < |flags[1..]| ensures flags[1..][k] == flags[k + 1] {}
  }

  /** A flag in front of what is left of an element. */
  lemma FlagFirst(su: Setup, os: string, args: seq<string>, i: nat, c: char, rest: string, evs: seq<Event>, next: nat)
    requires InForce(su, os) && i < |args| && c !in su.sign && (su.Kind(c) == NoArgument || su.Kind(c) == Unknown)
    requires if rest == "" then evs == [] && next == i + 1
             else GoesOn(su.Config(), su.Passed(), args, i, rest, evs, true, su.Passed(), next)
    ensures GoesOn(su.Config(), os, args, i, [c] + rest, FlagEvents(su, [c]) + evs, true, su.Passed(), next) == true
  {
    ReadFlag(su, os, args, i, c, rest);
    var text := [c] + rest;
    var st := ShortStep(os, args, i, text);
    var ev := st.ev;
    if rest == "" {
      OneStep(su.Config(), os, args, i, text, st, ev);
      assert [ev] + evs == [ev];
    } else {
      StepInside(su.Config(), os, args, i, text, st, ev, evs, next);
    }
  }

  /** What is left of a cluster, up to its last option or the missing argument of it. */
  lemma {:induction false} ReadFlags(
    su: Setup, os: string, args: seq<string>, i: nat, flags: string, text: string, evs: seq<Event>, next: nat)
    requires InForce(su, os) == true && InForce(su, su.Passed()) == true && i < |args| && ProperFlags(su, flags)
    requires flags + text != "" && (text == "" ==> evs == [] && next == i + 1)
    requires text != "" && flags == "" ==>
      GoesOn(su.Config(), os, args, i, text, evs, true, su.Passed(), next) == true
    requires text != "" ==> GoesOn(su.Config(), su.Passed(), args, i, text, evs, true, su.Passed(), next) == true
    ensures GoesOn(su.Config(), os, args, i, flags + text, FlagEvents(su, flags) + evs, true, su.Passed(), next)
      == true
    decreases |flags|
  {
    if flags == "" {
      assert flags + text == text && FlagEvents(su, flags) + evs == evs;
    } else {
      FlagsApart(su, flags);
      var rest, more := flags[1..] + text, FlagEvents(su, flags[1..]) + evs;
      assert flags + text == [flags[0]] + rest;
      assert FlagEvents(su, flags) + evs == FlagEvents(su, [flags[0]]) + more;
      if rest == "" {
        assert FlagEvents(su, "") == [];
      } else {
        ReadFlags(su, su.Passed(), args, i, flags[1..], text, evs, next);
      }
      FlagFirst(su, os, args, i, flags[0], rest, more, next);
    }
  }

  /** Beginning an element with a cluster in it. */
  lemma IntoElement(
    su: Setup, os: string, args: seq<string>, i: nat, text: string, evs: seq<Event>, os': string, next: nat)
    requires i < |args| && args[i] == "-" + text && ProperText(su, text)
    requires GoesOn(su.Config(), os, args, i, text, evs, true, os', next)
    ensures GoesOn(su.Config(), os, args, i, "", evs, true, os', next)
  {
    var cfg := su.Config();
    assert args[i][1..] == text && args[i][1] == text[0] && args[i] != "--" by {
      assert |args[i]| == |text| + 1;
    }
    assert TurnAt(cfg, os, args, i, "") == TurnAt(cfg, os, args, i, text);
    assert TurnAt(cfg, os, args, i, "").Do?;
    assert Future(cfg, os, args, i, "") == Future(cfg, os, args, i, text);
    assert Mask(cfg, os, args, i, "") == Mask(cfg, os, args, i, text);
    assert Mask(cfg, os, args, i, text) == Copies(true, next - i) + Mask(cfg, os', args, next, "");
  }

  lemma ReadCluster(su: Setup, os: string, args: seq<string>, i: nat, it: Item)
    requires InForce(su, os) == true && InForce(su, su.Passed()) == true && it.Cluster? && Proper(su, it)
    requires Here(args, i, Elements(it))
    ensures GoesOn(su.Config(), os, args, i, "", ItemEvents(su, it), true, su.Passed(), i + |Elements(it)|)
  {
    var last := it.last;
    var text, next := LastText(last), i + |Elements(it)|;
    assert args[i] == Elements(it)[0];
    if last.Followed? {
      assert args[i + 1] == Elements(it)[1];
    }
    if !last.NoLast? {
      ReadLast(su, os, args, i, last);
      ReadLast(su, su.Passed(), args, i, last);
    }
    ReadFlags(su, os, args, i, it.flags, text, LastEvents(last), next);
    IntoElement(su, os, args, i, it.flags + text, ItemEvents(su, it), su.Passed(), next);
  }

  /** Beginning an element with a long option in it. */
  lemma LongTurn(su: Setup, os: string, args: seq<string>, i: nat, name: string, tail: string)
    requires i < |args| && su.longopts.Some? && name + tail != "" && '=' !in name && (tail != "" ==> tail[0] == '=')
    requires args[i] == "--" + (name + tail)
    ensures IndexOf(name + tail, '=') == |name| && (name + tail)[..|name|] == name
    ensures TurnAt(su.Config(), os, args, i, "") == Do(LongStep(os, su.longopts.value, args, i, name + tail))
  {
    var body := name + tail;
    IndexFirst(body, '=', |name|);
    assert args[i][2..] == body && args[i][0] == '-' && args[i][1] == '-' && |args[i]| == |body| + 2;
  }

  /** Beginning an element with a long option that there is. */
  lemma FoundTurn(su: Setup, os: string, args: seq<string>, i: nat, name: string, tail: string, k: nat)
    requires i < |args| && su.longopts.Some? && ProperName(name) && (tail != "" ==> tail[0] == '=')
    requires args[i] == "--" + (name + tail) && Means(su.longopts.value, name, Found(k))
    ensures IndexOf(name + tail, '=') == |name| && LookupLong(su.longopts.value, (name + tail)[..|name|]) == Found(k)
    ensures TurnAt(su.Config(), os, args, i, "") == Do(LongStep(os, su.longopts.value, args, i, name + tail))
  {
    LongTurn(su, os, args, i, name, tail);
    MeaningIsUnique(su.longopts.value, name, LookupLong(su.longopts.value, name), Found(k));
  }

  lemma ReadJoined(su: Setup, os: string, args: seq<string>, i: nat, name: string, k: nat, v: string)
    requires Proper(su, Long(name, k, Joined(v))) && i < |args| && args[i] == "--" + (name + ("=" + v))
    ensures GoesOn(su.Config(), os, args, i, "", ItemEvents(su, Long(name, k, Joined(v))), true, su.Passed(), i + 1)
  {
    var body := name + ("=" + v);
    FoundTurn(su, os, args, i, name, "=" + v, k);
    assert body[|name| + 1..] == v;
    var st := LongStep(os, su.longopts.value, args, i, body);
    OneStep(su.Config(), os, args, i, "", st, ItemEvents(su, Long(name, k, Joined(v)))[0]);
  }

  lemma ReadUnjoined(su: Setup, os: string, args: seq<string>, i: nat, name: string, k: nat, value: LongValue)
    requires Proper(su, Long(name, k, value)) && !value.Joined? && i < |args| && args[i] == "--" + name
    requires value.Next? ==> i + 1 < |args| && args[i + 1] == value.value
    ensures
      GoesOn(su.Config(), os, args, i, "", ItemEvents(su, Long(name, k, value)), true, su.Passed(),
        i + if value.Next? then 2 else 1)
  {
    assert name + "" == name;
    FoundTurn(su, os, args, i, name, "", k);
    var st := LongStep(os, su.longopts.value, args, i, name);
    OneStep(su.Config(), os, args, i, "", st, ItemEvents(su, Long(name, k, value))[0]);
  }

  lemma ReadLongItem(su: Setup, os: string, args: seq<string>, i: nat, it: Item)
    requires it.Long? && Proper(su, it) == true
    requires Here(args, i, Elements(it))
    ensures GoesOn(su.Config(), os, args, i, "", ItemEvents(su, it), true, su.Passed(), i + |Elements(it)|) == true
  {
    assert args[i] == Elements(it)[0];
    if it.value.Joined? {
      ReadJoined(su, os, args, i, it.name, it.k, it.value.value);
    } else {
      if it.value.Next? {
        assert args[i + 1] == Elements(it)[1];
      }
      ReadUnjoined(su, os, args, i, it.name, it.k, it.value);
    }
  }

  lemma ReadUnusable(su: Setup, os: string, args: seq<string>, i: nat, it: Item)
    requires it.Unusable? && Proper(su, it)
    requires i < |args| && args[i] == Elements(it)[0]
    ensures GoesOn(su.Config(), os, args, i, "", ItemEvents(su, it), true, su.Passed(), i + 1)
  {
    var ls, tail := su.longopts.value, Joining(it.joined);
    LongTurn(su, os, args, i, it.name, tail);
    var m := LookupLong(ls, it.name);
    if Means(ls, it.name, NotFound) {
      MeaningIsUnique(ls, it.name, m, NotFound);
    } else if Means(ls, it.name, Ambiguous) {
      MeaningIsUnique(ls, it.name, m, Ambiguous);
    } else {
      var k: nat :| Unneeded(ls, it.name, k, it.opt);
      MeaningIsUnique(ls, it.name, m, Found(k));
    }
    var st := LongStep(os, ls, args, i, it.name + tail);
    OneStep(su.Config(), os, args, i, "", st, ItemEvents(su, it)[0]);
  }

  lemma ReadOperand(su: Setup, os: string, args: seq<string>, i: nat, word: string)
    requires IsOperand(word) && su.Ordered() != REQUIRE_ORDER && i < |args| && args[i] == word
    ensures
      var permute := su.Ordered() == PERMUTE;
      GoesOn(su.Config(), os, args, i, "", ItemEvents(su, Operand(word)), !permute,
        if permute then os else su.Passed(), i + 1)
  {
    var cfg := su.Config();
    assert word != "--" && NonOption(word);
    if su.Ordered() == PERMUTE {
      assert TurnAt(cfg, os, args, i, "") == Skip;
      assert Copies(false, 1) == [false];
      var evs := Future(cfg, os, args, i + 1, "");
      assert [] + evs == evs;
    } else {
      OneStep(cfg, os, args, i, "", Step(Plain(1, Some(word)), i + 1, ""), Event(1, Some(word), None, None, None));
    }
  }

  /** The option string in force behind an item: after a return it is the caller's. */
  function Later(su: Setup, os: string, it: Item): string {
    if su.Ordered() == PERMUTE && it.Operand? then os else su.Passed()
  }

  lemma ReadItem(su: Setup, os: string, args: seq<string>, i: nat, it: Item)
    requires InForce(su, os) == true && InForce(su, su.Passed()) == true && Proper(su, it) == true
    requires Here(args, i, Elements(it))
    ensures
      var permuted := su.Ordered() == PERMUTE && it.Operand?;
      GoesOn(su.Config(), os, args, i, "", ItemEvents(su, it), !permuted, Later(su, os, it), i + |Elements(it)|) == true
  {
    match it
    case Cluster(_, _) => ReadCluster(su, os, args, i, it);
    case Long(_, _, _) => ReadLongItem(su, os, args, i, it);
    case Unusable(_, _, _) =>
      assert args[i] == Elements(it)[0];
      ReadUnusable(su, os, args, i, it);
    case Operand(word) =>
      assert args[i] == Elements(it)[0];
      ReadOperand(su, os, args, i, word);
  }

  // ----- the whole line

  /** The scan from element `i` on: what it returns and what it leaves. */
  ghost predicate Yields(su: Setup, os: string, args: seq<string>, i: nat, evs: seq<Event>, left: seq<string>)
    requires i <= |args|
  {
    && Future(su.Config(), os, args, i, "") == evs
    && Select(args[i..], Mask(su.Config(), os, args, i, ""), false) == left
  }

  lemma AllLeft(args: seq<string>, i: nat)
    requires i <= |args|
    ensures Select(args[i..], Copies(false, |args| - i), false) == args[i..]
  {
    SelectCopies(args[i..], false, false);
  }

  lemma Across(
    su: Setup, os: string, args: seq<string>, i: nat, evs: seq<Event>, b: bool, os': string, next: nat,
    more: seq<Event>, kept: seq<string>, left: seq<string>)
    requires GoesOn(su.Config(), os, args, i, "", evs, b, os', next) == true
    requires Yields(su, os', args, next, more, left) == true
    requires kept == if b then [] else args[i..next]
    ensures Yields(su, os, args, i, evs + more, kept + left) == true
  {
    var rest := Mask(su.Config(), os', args, next, "");
    assert args[i..] == args[i..next] + args[next..];
    SelectAppend(args[i..next], Copies(b, next - i), args[next..], rest, false);
    SelectCopies(args[i..next], false, b);
  }

  lemma ReadDashes(su: Setup, os: string, args: seq<string>, i: nat, words: seq<string>)
    requires i < |args| && args[i..] == ["--"] + words
    ensures Yields(su, os, args, i, [], words)
  {
    assert args[i] == args[i..][0];
    assert TurnAt(su.Config(), os, args, i, "") == DashDash;
    assert Copies(true, 1) == [true];
    SelectAppend(["--"], [true], words, Copies(false, |words|), false);
    SelectCopies(words, false, false);
    assert Select(["--"], [true], false) == [];
  }

  lemma ReadWords(su: Setup, os: string, args: seq<string>, i: nat, words: seq<string>)
    requires su.Ordered() == REQUIRE_ORDER && words != [] && IsOperand(words[0]) && i < |args| && args[i..] == words
    ensures Yields(su, os, args, i, [], words)
  {
    assert args[i] == args[i..][0];
    assert TurnAt(su.Config(), os, args, i, "") == Stop;
    AllLeft(args, i);
  }

  lemma ReadTail(su: Setup, os: string, args: seq<string>, i: nat, tail: Tail)
    requires InForce(su, os) && InForce(su, su.Passed()) && ProperTail(su, tail)
    requires i <= |args| && args[i..] == TailElements(tail)
    ensures Yields(su, os, args, i, Events(su, [], tail), Operands(su, [], tail)) == true
  {
    match tail
    case Nowhere =>
      assert i == |args|;
    case Dashes(words) => ReadDashes(su, os, args, i, words);
    case Words(words) => ReadWords(su, os, args, i, words);
    case Lacking(flags, c) =>
      LackingShort(su, os, args, i, flags, c);
      Ending(su, os, args, i, Events(su, [], tail));
    case LackingLong(name, k) =>
      LackingArgument(su, os, args, i, name, k);
      Ending(su, os, args, i, Events(su, [], tail));
  }

  lemma Ending(su: Setup, os: string, args: seq<string>, i: nat, evs: seq<Event>)
    requires i + 1 == |args| && GoesOn(su.Config(), os, args, i, "", evs, true, su.Passed(), i + 1)
    ensures Yields(su, os, args, i, evs, [])
  {
    NothingBehind(su, args, i + 1);
    Across(su, os, args, i, evs, true, su.Passed(), i + 1, [], [], []);
    assert evs + [] == evs;
  }

  lemma NothingBehind(su: Setup, args: seq<string>, i: nat)
    requires i == |args|
    ensures Yields(su, su.Passed(), args, i, [], [])
  {}

  lemma LackingShort(su: Setup, os: string, args: seq<string>, i: nat, flags: string, c: char)
    requires InForce(su, os) && InForce(su, su.Passed()) && ProperTail(su, Lacking(flags, c))
    requires i + 1 == |args| && args[i..] == ["-" + (flags + [c])]
    ensures GoesOn(su.Config(), os, args, i, "", Events(su, [], Lacking(flags, c)), true, su.Passed(), i + 1)
  {
    var p := Reported(su, c as int);
    assert args[i] == args[i..][0];
    assert KindOf(os, c) == su.Kind(c) && KindOf(su.Passed(), c) == su.Kind(c);
    OneStep(su.Config(), os, args, i, [c], ShortStep(os, args, i, [c]), p);
    OneStep(su.Config(), su.Passed(), args, i, [c], ShortStep(su.Passed(), args, i, [c]), p);
    ReadFlags(su, os, args, i, flags, [c], [p], i + 1);
    IntoElement(su, os, args, i, flags + [c], Events(su, [], Lacking(flags, c)), su.Passed(), i + 1);
  }

  lemma LackingArgument(su: Setup, os: string, args: seq<string>, i: nat, name: string, k: nat)
    requires InForce(su, os) && ProperTail(su, LackingLong(name, k))
    requires i + 1 == |args| && args[i..] == ["--" + name]
    ensures GoesOn(su.Config(), os, args, i, "", Events(su, [], LackingLong(name, k)), true, su.Passed(), i + 1)
  {
    var ls := su.longopts.value;
    var p := Reported(su, ls[k].val);
    assert args[i] == args[i..][0] && name + "" == name;
    FoundTurn(su, os, args, i, name, "", k);
    OneStep(su.Config(), os, args, i, "", LongStep(os, ls, args, i, name), p);
  }

  /** From element `i` on there is `line`. */
  ghost predicate At(args: seq<string>, i: nat, line: seq<string>) {
    i <= |args| && args[i..] == line
  }

  lemma OperandOnly(su: Setup, args: seq<string>, i: nat, it: Item)
    requires Here(args, i, Elements(it)) == true
    ensures
      ItemOperands(su, it) == if su.Ordered() == PERMUTE && it.Operand? then args[i..i + |Elements(it)|] else []
  {
    if it.Operand? {
      assert args[i] == Elements(it)[0];
    }
  }

  /** An item, and then what the scan makes of the rest. */
  lemma ReadFirst(
    su: Setup, os: string, args: seq<string>, i: nat, it: Item, os': string, next: nat, more: seq<Event>,
    left: seq<string>)
    requires InForce(su, os) == true && InForce(su, su.Passed()) == true && Proper(su, it) == true
    requires next == i + |Elements(it)| && Here(args, i, Elements(it)) == true && os' == Later(su, os, it)
    requires Yields(su, os', args, next, more, left) == true
    ensures Yields(su, os, args, i, ItemEvents(su, it) + more, ItemOperands(su, it) + left) == true
  {
    ReadItem(su, os, args, i, it);
    OperandOnly(su, args, i, it);
    var permuted := su.Ordered() == PERMUTE && it.Operand?;
    Across(su, os, args, i, ItemEvents(su, it), !permuted, os', next, more, ItemOperands(su, it), left);
  }

  lemma AtSplit(args: seq<string>, i: nat, first: seq<string>, rest: seq<string>)
    requires At(args, i, first + rest)
    ensures Here(args, i, first) && At(args, i + |first|, rest)
  {
    forall k {:trigger first[k]} | 0 <= k < |first| ensures args[i + k] == first[k] {
      assert args[i + k] == args[i..][k];
    }
    assert args[i + |first|..] == args[i..][|first|..];
  }

  lemma Associated(a: seq<string>, b: seq<string>, c: seq<string>)
    ensures (a + b) + c == a + (b + c)
  {}

  lemma ElementsFirst(args: seq<string>, i: nat, items: seq<Item>, tail: Tail)
    requires At(args, i, Rendered(items) + TailElements(tail)) == true && items != []
    ensures Here(args, i, Elements(items[0])) == true
    ensures At(args, i + |Elements(items[0])|, Rendered(items[1..]) + TailElements(tail)) == true
  {
    Associated(Elements(items[0]), Rendered(items[1..]), TailElements(tail));
    AtSplit(args, i, Elements(items[0]), Rendered(items[1..]) + TailElements(tail));
  }

  /** Whatever options and operands are written, in whatever way, the scan returns the options with their arguments and
      leaves the operands. */
  lemma {:induction false} ReadLine(su: Setup, os: string, args: seq<string>, i: nat, items: seq<Item>, tail: Tail)
    requires InForce(su, os) == true && InForce(su, su.Passed()) == true
    requires (forall it <- items :: Proper(su, it) == true) && ProperTail(su, tail) == true
    requires At(args, i, Rendered(items) + TailElements(tail)) == true
    ensures i <= |args| && Yields(su, os, args, i, Events(su, items, tail), Operands(su, items, tail)) == true
    decreases |items|
  {
    if items == [] {
      assert Rendered(items) + TailElements(tail) == TailElements(tail);
      ReadTail(su, os, args, i, tail);
    } else {
      ElementsFirst(args, i, items, tail);
      var next, rest := i + |Elements(items[0])|, items[1..];
      var os' := Later(su, os, items[0]);
      ReadLine(su, os', args, next, rest, tail);
      ReadFirst(su, os, args, i, items[0], os', next, Events(su, rest, tail), Operands(su, rest, tail));
    }
  }

  lemma LeftBehind(all: seq<string>, args: seq<string>, m: seq<bool>, optind: nat, left: seq<string>)
    requires |args| >= 1 && |m| == |args| - 1 && all == args[..1] + Partition(args[1..], m)
    requires Select(args[1..], m, false) == left && optind == 1 + |Select(args[1..], m, true)|
    ensures optind <= |all| && all[optind..] == left && |all| >= 1 && all[0] == args[0]
      && multiset(all) == multiset(args)
  {
    SelectMultiset(args[1..], m);
    assert args == args[..1] + args[1..];
    assert all[0] == args[..1][0];
  }

  lemma ReadWhole(su: Setup, args: seq<string>, items: seq<Item>, tail: Tail)
    requires su.Valid() && (forall it <- items :: Proper(su, it)) && ProperTail(su, tail)
    requires |args| >= 1 && args[1..] == Rendered(items) + TailElements(tail)
    ensures
      var (events, mask) := WholeScan(args, su.Passed(), su.longopts, su.posix, 1);
      events == Events(su, items, tail) && Select(args[1..], mask, false) == Operands(su, items, tail)
  {
    BothInForce(su);
    assert At(args, 1, Rendered(items) + TailElements(tail));
    ReadLine(su, Stripped(su.Passed()), args, 1, items, tail);
  }

  /** A caller is returned the options that are written on its command line, and finds the operands at `optind`. */
  method ScanRendered(d: Data, argv: array<string>, su: Setup, ghost items: seq<Item>, ghost tail: Tail)
    returns (got: seq<(int, Option<string>)>)
    requires d.Fresh() && d.First() == 1 && su.Valid() && NoWLong(su.Passed()) && NoOptionEnds(su.longopts)
    requires (forall it <- items :: Proper(su, it)) && ProperTail(su, tail)
    requires argv.Length >= 1 && argv[1..] == Rendered(items) + TailElements(tail)
    modifies d, argv
    ensures got == Returned(Events(su, items, tail))
    ensures d.optind <= argv.Length && argv[d.optind..] == Operands(su, items, tail)
    ensures argv[0] == old(argv[0]) && multiset(argv[..]) == old(multiset(argv[..]))
  {
    ghost var args := argv[..];
    var os := su.Passed();
    assert args[1..] == argv[1..];
    ReadWhole(su, args, items, tail);
    got := ScanAll(d, argv, os, su.longopts, su.posix);
    LeftBehind(argv[..], args, WholeScan(args, os, su.longopts, su.posix, 1).1, d.optind, Operands(su, items, tail));
    assert argv[..][d.optind..] == argv[d.optind..];
  }
}
