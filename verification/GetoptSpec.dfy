/** What a complete scan of an argument vector by getopt means: a plain left-to-right reading of the
    original arguments (lib/getopt.c, the comment before `_getopt_internal_r`). */
module GetoptSpec {
  import opened Options

  datatype Ordering = REQUIRE_ORDER | PERMUTE | RETURN_IN_ORDER

  /** `struct option`. `flag` names the variable to set, if any. */
  datatype LongOption = LongOption(name: string, hasArg: nat, flag: Option<nat>, val: int)

  /** One return of getopt: the value returned, `optarg`, the value given to `optopt` if it is
      assigned, the index of the long option and the store through `flag`, if any. */
  datatype Event = Event(ret: int, optarg: Option<string>, optopt: Option<int>, longind: Option<nat>,
    store: Option<(nat, int)>)

  /** What stays fixed during a scan. `optstring` is as the caller passes it. */
  datatype Config = Config(optstring: string, longopts: Option<seq<LongOption>>, ordering: Ordering)

  /** NONOPTION_P. */
  predicate NonOption(e: string) {
    |e| < 2 || e[0] != '-'
  }

  // ----- short options

  datatype Kind = Unknown | NoArgument | RequiredArgument | OptionalArgument

  function IndexOf(s: string, c: char): (k: nat)
    ensures k <= |s| && (k < |s| ==> s[k] == c) && forall i :: 0 <= i < k ==> s[i] != c
  {
    if s == "" || s[0] == c then 0
    else
      assert forall i :: 0 <= i < |s| - 1 ==> s[1..][i] == s[i + 1];
      var k := IndexOf(s[1..], c);
      assert forall i :: 1 <= i < k + 1 ==> s[i] == s[1..][i - 1];
      k + 1
  }

  /** How the option string declares the option character `c`. */
  function KindOf(os: string, c: char): Kind {
    var k := IndexOf(os, c);
    if k == |os| || c == ':' then Unknown
    else if k + 1 == |os| || os[k + 1] != ':' then NoArgument
    else if k + 2 == |os| || os[k + 2] != ':' then RequiredArgument
    else OptionalArgument
  }

  function Missing(os: string): int {
    if os != "" && os[0] == ':' then ':' as int else '?' as int
  }

  /** The event, the index of the element to look at next, and what is left of the current cluster
      of option characters. */
  datatype Step = Step(ev: Event, i: nat, rest: string)

  function Plain(ret: int, optarg: Option<string>): Event {
    Event(ret, optarg, None, None, None)
  }

  function Complaint(ret: int, optopt: int): Event {
    Event(ret, None, Some(optopt), None, None)
  }

  /** The first option character of `rest`, which is what remains of element `i`. */
  function ShortStep(os: string, args: seq<string>, i: nat, rest: string): (st: Step)
    requires i < |args| && rest != ""
    ensures st.rest == rest[1..] || st.rest == ""
    ensures i <= st.i <= |args| && (st.i == i <==> st.rest != "")
  {
    var c, more := rest[0], rest[1..];
    match KindOf(os, c)
    case Unknown => Step(Complaint('?' as int, c as int), if more == "" then i + 1 else i, more)
    case NoArgument => Step(Plain(c as int, None), if more == "" then i + 1 else i, more)
    case OptionalArgument => Step(Plain(c as int, if more == "" then None else Some(more)), i + 1, "")
    case RequiredArgument =>
      if more != "" then Step(Plain(c as int, Some(more)), i + 1, "")
      else if i + 1 == |args| then Step(Complaint(Missing(os), c as int), i + 1, "")
      else Step(Plain(c as int, Some(args[i + 1])), i + 2, "")
  }

  // ----- long options

  datatype Match = NotFound | Ambiguous | Found(k: nat)

  /** `p` is a name that begins with `name`. */
  predicate Abbreviates(name: string, p: LongOption) {
    name <= p.name
  }

  predicate SameEffect(p: LongOption, q: LongOption) {
    p.hasArg == q.hasArg && p.flag == q.flag && p.val == q.val
  }

  /** `m` is what the name stands for: the first option of exactly that name; failing that, the first
      option it abbreviates, provided all others it abbreviates do the same. */
  ghost predicate Means(ls: seq<LongOption>, name: string, m: Match) {
    match m
    case NotFound => forall k :: 0 <= k < |ls| ==> !Abbreviates(name, ls[k])
    case Found(k) =>
      && k < |ls| && Abbreviates(name, ls[k])
      && (ls[k].name == name ==> forall j :: 0 <= j < k ==> ls[j].name != name)
      && (ls[k].name != name ==>
          && (forall j :: 0 <= j < |ls| ==> ls[j].name != name)
          && (forall j :: 0 <= j < k ==> !Abbreviates(name, ls[j]))
          && (forall j :: 0 <= j < |ls| && Abbreviates(name, ls[j]) ==> SameEffect(ls[k], ls[j])))
    case Ambiguous =>
      && (forall j :: 0 <= j < |ls| ==> ls[j].name != name)
      && exists j, k :: 0 <= j < k < |ls| && Abbreviates(name, ls[j]) && Abbreviates(name, ls[k])
          && !SameEffect(ls[j], ls[k])
  }

  /** At most one meaning. */
  lemma MeaningIsUnique(ls: seq<LongOption>, name: string, m: Match, n: Match)
    requires Means(ls, name, m) && Means(ls, name, n)
    ensures m == n
  {
    if m.Found? && n.Found? {
      var j, k := m.k, n.k;
      if ls[j].name == name {
        assert ls[k].name == name;
      }
    }
  }

  /** The first option from `k` on whose name is exactly `name`. */
  function FirstExact(ls: seq<LongOption>, name: string, k: nat): (r: nat)
    requires k <= |ls|
    ensures k <= r <= |ls| && (r < |ls| ==> ls[r].name == name)
    ensures forall j :: k <= j < r ==> ls[j].name != name
    decreases |ls| - k
  {
    if k == |ls| || ls[k].name == name then k else FirstExact(ls, name, k + 1)
  }

  function FirstAbbreviated(ls: seq<LongOption>, name: string, k: nat): (r: nat)
    requires k <= |ls|
    ensures k <= r <= |ls| && (r < |ls| ==> Abbreviates(name, ls[r]))
    ensures forall j :: k <= j < r ==> !Abbreviates(name, ls[j])
    decreases |ls| - k
  {
    if k == |ls| || Abbreviates(name, ls[k]) then k else FirstAbbreviated(ls, name, k + 1)
  }

  function LookupLong(ls: seq<LongOption>, name: string): (m: Match)
    ensures Means(ls, name, m)
  {
    var x := FirstExact(ls, name, 0);
    if x < |ls| then Found(x)
    else
      var k := FirstAbbreviated(ls, name, 0);
      if k == |ls| then NotFound
      else if forall j :: 0 <= j < |ls| && Abbreviates(name, ls[j]) ==> SameEffect(ls[k], ls[j]) then Found(k)
      else
        assert exists j :: k < j < |ls| && Abbreviates(name, ls[j]) && !SameEffect(ls[k], ls[j]);
        Ambiguous
  }

  /** The long option element `i`; `body` is what follows the two dashes. */
  function LongStep(os: string, ls: seq<LongOption>, args: seq<string>, i: nat, body: string): (st: Step)
    requires i < |args|
    ensures st.rest == "" && i < st.i <= |args|
  {
    var eq := IndexOf(body, '=');
    match LookupLong(ls, body[..eq])
    case NotFound => Step(Complaint('?' as int, 0), i + 1, "")
    case Ambiguous => Step(Complaint('?' as int, 0), i + 1, "")
    case Found(k) =>
      var p := ls[k];
      var ret := if p.flag.None? then p.val else 0;
      var store := if p.flag.None? then None else Some((p.flag.value, p.val));
      if eq < |body| then
        if p.hasArg != 0 then Step(Event(ret, Some(body[eq + 1..]), None, Some(k), store), i + 1, "")
        else Step(Complaint('?' as int, p.val), i + 1, "")
      else if p.hasArg == 1 then
        if i + 1 < |args| then Step(Event(ret, Some(args[i + 1]), None, Some(k), store), i + 2, "")
        else Step(Complaint(Missing(os), p.val), i + 1, "")
      else Step(Event(ret, None, None, Some(k), store), i + 1, "")
  }

  // ----- the scan

  /** What happens at a position of the scan: a step that returns to the caller, a non-option that is
      passed over, the element `--`, or the end of the scan. */
  datatype Turn = Do(step: Step) | Skip | DashDash | Stop

  predicate IsLong(cfg: Config, e: string) {
    cfg.longopts.Some? && |e| >= 2 && e[1] == '-'
  }

  function Room(args: seq<string>, i: nat, rest: string): nat {
    if rest == "" && i < |args| then |args[i]| else |rest|
  }

  /** Position `i`, with `rest` still to be read of a cluster of short options in element `i`. `os` is
      the option string in force during the current call. */
  function TurnAt(cfg: Config, os: string, args: seq<string>, i: nat, rest: string): (t: Turn)
    requires i <= |args| && (rest != "" ==> i < |args|)
    ensures t.Do? ==> i <= t.step.i <= |args| && (t.step.rest != "" ==> t.step.i == i < |args|)
    ensures t.Do? && t.step.i == i ==> t.step.rest != "" && |t.step.rest| < Room(args, i, rest)
    ensures !t.Do? && !t.Stop? ==> i < |args|
  {
    if rest != "" then Do(ShortStep(os, args, i, rest))
    else if i == |args| then Stop
    else if args[i] == "--" then DashDash
    else if NonOption(args[i]) then
      match cfg.ordering
      case PERMUTE => Skip
      case REQUIRE_ORDER => Stop
      case RETURN_IN_ORDER => Do(Step(Plain(1, Some(args[i])), i + 1, ""))
    else if IsLong(cfg, args[i]) then Do(LongStep(os, cfg.longopts.value, args, i, args[i][2..]))
    else Do(ShortStep(os, args, i, args[i][1..]))
  }

  /** The events of the rest of the scan. Later calls use the caller's option string. */
  function Future(cfg: Config, os: string, args: seq<string>, i: nat, rest: string): seq<Event>
    requires i <= |args| && (rest != "" ==> i < |args|)
    decreases |args| - i, Room(args, i, rest)
  {
    match TurnAt(cfg, os, args, i, rest)
    case Do(st) => [st.ev] + Future(cfg, cfg.optstring, args, st.i, st.rest)
    case Skip => Future(cfg, os, args, i + 1, "")
    case DashDash => []
    case Stop => []
  }

  function Copies(b: bool, n: nat): (r: seq<bool>)
    ensures |r| == n && forall k :: 0 <= k < n ==> r[k] == b
  {
    seq(n, _ => b)
  }

  /** For each element from `i` on, whether the scan takes it as an option, an option's argument or
      `--` (true), or leaves it as a non-option (false). */
  function Mask(cfg: Config, os: string, args: seq<string>, i: nat, rest: string): (m: seq<bool>)
    requires i <= |args| && (rest != "" ==> i < |args|)
    ensures |m| == |args| - i
    decreases |args| - i, Room(args, i, rest)
  {
    match TurnAt(cfg, os, args, i, rest)
    case Do(st) => Copies(true, st.i - i) + Mask(cfg, cfg.optstring, args, st.i, st.rest)
    case Skip => [false] + Mask(cfg, os, args, i + 1, "")
    case DashDash => [true] + Copies(false, |args| - i - 1)
    case Stop => Copies(false, |args| - i)
  }

  /** The elements of `xs` marked `b`, in order. */
  function Select<T>(xs: seq<T>, m: seq<bool>, b: bool): (r: seq<T>)
    requires |xs| == |m|
  {
    if xs == [] then []
    else (if m[0] == b then [xs[0]] else []) + Select(xs[1..], m[1..], b)
  }

  lemma {:induction false} SelectAppend<T>(xs: seq<T>, m: seq<bool>, ys: seq<T>, n: seq<bool>, b: bool)
    requires |xs| == |m| && |ys| == |n|
    ensures Select(xs + ys, m + n, b) == Select(xs, m, b) + Select(ys, n, b)
  {
    if xs == [] {
      assert xs + ys == ys && m + n == n;
    } else {
      var head := if m[0] == b then [xs[0]] else [];
      SelectAppend(xs[1..], m[1..], ys, n, b);
      assert (xs + ys)[1..] == xs[1..] + ys;
      assert (m + n)[1..] == m[1..] + n;
      assert Select(xs + ys, m + n, b) == head + Select(xs[1..] + ys, m[1..] + n, b);
    }
  }

  lemma {:induction false} SelectCopies<T>(xs: seq<T>, b: bool, c: bool)
    ensures Select(xs, Copies(c, |xs|), b) == if b == c then xs else []
  {
    if xs != [] {
      assert Copies(c, |xs|)[1..] == Copies(c, |xs[1..]|);
      SelectCopies(xs[1..], b, c);
    }
  }

  lemma {:induction false} SelectLengths<T>(xs: seq<T>, m: seq<bool>)
    requires |xs| == |m|
    ensures |Select(xs, m, true)| + |Select(xs, m, false)| == |xs|
  {
    if xs != [] {
      SelectLengths(xs[1..], m[1..]);
    }
  }

  /** A permutation that keeps the order inside both classes. */
  function Partition<T>(xs: seq<T>, m: seq<bool>): seq<T>
    requires |xs| == |m|
  {
    Select(xs, m, true) + Select(xs, m, false)
  }

  lemma {:induction false} SelectMultiset<T>(xs: seq<T>, m: seq<bool>)
    requires |xs| == |m|
    ensures multiset(Partition(xs, m)) == multiset(xs)
  {
    if xs != [] {
      SelectMultiset(xs[1..], m[1..]);
      assert xs == [xs[0]] + xs[1..];
      assert multiset(xs) == multiset([xs[0]]) + multiset(xs[1..]);
      var t, f := Select(xs[1..], m[1..], true), Select(xs[1..], m[1..], false);
      assert multiset(t + f) == multiset(t) + multiset(f);
      if m[0] {
        assert Partition(xs, m) == [xs[0]] + (t + f);
      } else {
        assert Partition(xs, m) == t + ([xs[0]] + f);
      }
    }
  }
}
