/** The character of the option string that selects the ordering is passed over in the first call
    only (lib/getopt.c:412-418); every later call searches the option string with it. This module says
    when that can be seen. */
module GetoptSign {
  import opened Getopt
  import opened GetoptSpec
  import opened Options

  predicate Signed(os: string) {
    os != "" && (os[0] == '-' || os[0] == '+')
  }

  /** A short option is read the same with and without the sign. */
  ghost predicate ReadAlike(os: string) {
    forall args: seq<string>, i: nat, rest: string | i < |args| && rest != "" ::
      ShortStep(Stripped(os), args, i, rest) == ShortStep(os, args, i, rest)
  }

  /** What can be checked of the option string alone. */
  ghost predicate SignUnseen(os: string) {
    Signed(os) ==>
      && KindOf(os[1..], os[0]) == KindOf(os, os[0])
      && (Missing(os[1..]) != '?' as int ==> forall c :: KindOf(os[1..], c) != RequiredArgument)
  }

  lemma IndexAfterSign(os: string, c: char)
    requires Signed(os) && c != os[0]
    ensures KindOf(os, c) == KindOf(os[1..], c)
  {
    assert IndexOf(os, c) == IndexOf(os[1..], c) + 1;
  }

  /** The sign cannot be noticed through short options exactly if the same character is declared the
      same way behind it and no missing argument is to be reported as `:`. */
  lemma SignSeen(os: string)
    ensures ReadAlike(os) <==> SignUnseen(os)
  {
    if Signed(os) {
      var t := os[1..];
      if ReadAlike(os) {
        ShortStepTells(os, t, os[0]);
        forall c | Missing(t) != '?' as int ensures KindOf(t, c) != RequiredArgument {
          ShortStepTells(os, t, c);
        }
      }
      if SignUnseen(os) {
        forall args: seq<string>, i: nat, rest: string | i < |args| && rest != ""
          ensures ShortStep(Stripped(os), args, i, rest) == ShortStep(os, args, i, rest)
        {
          if rest[0] != os[0] {
            IndexAfterSign(os, rest[0]);
          }
        }
      }
    }
  }

  /** The kind of an option, and the report of a missing argument, can be read off single steps. */
  lemma ShortStepTells(os: string, t: string, c: char)
    requires forall args: seq<string>, i: nat, rest: string | i < |args| && rest != "" ::
      ShortStep(t, args, i, rest) == ShortStep(os, args, i, rest)
    ensures KindOf(t, c) == KindOf(os, c)
    ensures KindOf(t, c) == RequiredArgument ==> Missing(t) == Missing(os)
  {
    var alone, followed := [[c]], [[c], "x"];
    assert ShortStep(t, alone, 0, [c]) == ShortStep(os, alone, 0, [c]);
    assert ShortStep(t, followed, 0, [c]) == ShortStep(os, followed, 0, [c]);
    assert ShortStep(t, followed, 0, [c, 'y']) == ShortStep(os, followed, 0, [c, 'y']);
  }

  // ----- whole scans

  /** The reading of a whole vector with the stripped option string throughout. */
  ghost function PlainScan(args: seq<string>, optstring: string, longopts: Option<seq<LongOption>>, posix: bool, i: nat)
    : (seq<Event>, seq<bool>)
    requires i <= |args|
  {
    var plain := Config(Stripped(optstring), longopts, OrderingOf(optstring, posix));
    (Future(plain, Stripped(optstring), args, i, ""), Mask(plain, Stripped(optstring), args, i, ""))
  }

  /** Every vector is scanned as it would be with the stripped option string throughout. */
  ghost predicate ScannedAlike(os: string, longopts: Option<seq<LongOption>>, posix: bool) {
    forall args: seq<string>, i: nat {:trigger WholeScan(args, os, longopts, posix, i)} | 1 <= i <= |args| ::
      WholeScan(args, os, longopts, posix, i) == PlainScan(args, os, longopts, posix, i)
  }

  /** The first `n` characters of the option's name are a name for it that an argument has to follow. */
  ghost predicate Demands(ls: seq<LongOption>, k: nat, n: nat) {
    && k < |ls| && 1 <= n <= |ls[k].name| && ls[k].hasArg == 1 && '=' !in ls[k].name[..n]
    && LookupLong(ls, ls[k].name[..n]) == Found(k)
  }

  ghost predicate NeedsArgument(longopts: Option<seq<LongOption>>) {
    longopts.Some? && exists k, n :: Demands(longopts.value, k, n)
  }

  /** What can be checked of the option string and the long options. */
  ghost predicate ScanUnseen(os: string, longopts: Option<seq<LongOption>>) {
    SignUnseen(os) && (NeedsArgument(longopts) ==> Missing(Stripped(os)) == Missing(os))
  }

  lemma LongAlike(os: string, t: string, ls: seq<LongOption>, args: seq<string>, i: nat, body: string)
    requires i < |args| && body != "" && (NeedsArgument(Some(ls)) ==> Missing(t) == Missing(os))
    ensures LongStep(os, ls, args, i, body) == LongStep(t, ls, args, i, body)
  {
    var eq := IndexOf(body, '=');
    var m := LookupLong(ls, body[..eq]);
    if m.Found? && eq == |body| && ls[m.k].hasArg == 1 {
      assert body[..eq] == body && body <= ls[m.k].name;
      assert ls[m.k].name[..|body|] == body;
      assert Demands(ls, m.k, |body|);
    }
  }

  lemma LongBody(e: string)
    requires |e| >= 2 && e[0] == '-' && e[1] == '-'
    ensures e == "--" || e[2..] != ""
  {}

  lemma TurnAlike(cfg: Config, os: string, args: seq<string>, i: nat, rest: string)
    requires i <= |args| && (rest != "" ==> i < |args|) && (os == cfg.optstring || os == Stripped(cfg.optstring))
    requires ReadAlike(cfg.optstring) && ScanUnseen(cfg.optstring, cfg.longopts)
    ensures
      var plain := cfg.(optstring := Stripped(cfg.optstring));
      TurnAt(cfg, os, args, i, rest) == TurnAt(plain, plain.optstring, args, i, rest)
  {
    if rest == "" && i < |args| && args[i] != "--" && !NonOption(args[i]) && IsLong(cfg, args[i]) {
      LongBody(args[i]);
      LongAlike(os, Stripped(cfg.optstring), cfg.longopts.value, args, i, args[i][2..]);
    }
  }

  /** Then the scan is the plain reading. */
  lemma {:induction false} PlainReading(cfg: Config, args: seq<string>, i: nat, rest: string, os: string)
    requires i <= |args| && (rest != "" ==> i < |args|) && (os == cfg.optstring || os == Stripped(cfg.optstring))
    requires ScanUnseen(cfg.optstring, cfg.longopts)
    ensures
      var plain := cfg.(optstring := Stripped(cfg.optstring));
      && Future(cfg, os, args, i, rest) == Future(plain, plain.optstring, args, i, rest)
      && Mask(cfg, os, args, i, rest) == Mask(plain, plain.optstring, args, i, rest)
    decreases |args| - i, Room(args, i, rest)
  {
    var plain := cfg.(optstring := Stripped(cfg.optstring));
    SignSeen(cfg.optstring);
    TurnAlike(cfg, os, args, i, rest);
    match TurnAt(cfg, os, args, i, rest)
    case Do(st) => PlainReading(cfg, args, st.i, st.rest, cfg.optstring);
    case Skip => PlainReading(cfg, args, i + 1, "", os);
    case DashDash =>
    case Stop =>
  }

  // A colon is no option: an element that begins with one uses up the first call.

  lemma SecondEvent(cfg: Config, args: seq<string>, more: string)
    requires |args| >= 2 && args[1] == "-:" + more && more != ""
    ensures
      var future := Future(cfg, Stripped(cfg.optstring), args, 1, "");
      |future| >= 2 && future[1] == ShortStep(cfg.optstring, args, 1, more).ev
  {
    var e, t := args[1], Stripped(cfg.optstring);
    assert e[1..] == ":" + more && (":" + more)[1..] == more;
    assert TurnAt(cfg, t, args, 1, "") == Do(ShortStep(t, args, 1, ":" + more));
    var st := ShortStep(cfg.optstring, args, 1, more);
    assert Future(cfg, cfg.optstring, args, 1, more) == [st.ev] + Future(cfg, cfg.optstring, args, st.i, st.rest);
  }

  lemma SameSecond(os: string, longopts: Option<seq<LongOption>>, posix: bool, args: seq<string>, more: string)
    requires ScannedAlike(os, longopts, posix) && |args| >= 2 && args[1] == "-:" + more && more != "" && Signed(os)
    ensures ShortStep(os, args, 1, more).ev == ShortStep(os[1..], args, 1, more).ev
  {
    var ord := OrderingOf(os, posix);
    assert WholeScan(args, os, longopts, posix, 1) == PlainScan(args, os, longopts, posix, 1);
    SecondEvent(Config(os, longopts, ord), args, more);
    PlainSecond(Config(os[1..], longopts, ord), args, more);
  }

  lemma PlainSecond(cfg: Config, args: seq<string>, more: string)
    requires |args| >= 2 && args[1] == "-:" + more && more != ""
    ensures
      var future := Future(cfg, cfg.optstring, args, 1, "");
      |future| >= 2 && future[1] == ShortStep(cfg.optstring, args, 1, more).ev
  {
    var e, t := args[1], cfg.optstring;
    assert e[1..] == ":" + more && (":" + more)[1..] == more;
    assert TurnAt(cfg, t, args, 1, "") == Do(ShortStep(t, args, 1, ":" + more));
    var st := ShortStep(t, args, 1, more);
    assert Future(cfg, t, args, 1, more) == [st.ev] + Future(cfg, t, args, st.i, st.rest);
  }

  /** The kind of an option, and the report of a missing argument, can be read off three vectors. */
  lemma VectorsTell(os: string, longopts: Option<seq<LongOption>>, posix: bool, c: char)
    requires ScannedAlike(os, longopts, posix) && Signed(os)
    ensures KindOf(os[1..], c) == KindOf(os, c)
    ensures KindOf(os[1..], c) == RequiredArgument ==> Missing(os[1..]) == Missing(os)
  {
    var alone, followed := ["wol", "-:" + [c]], ["wol", "-:" + [c], "x"];
    var joined := ["wol", "-:" + [c, 'y']];
    SameSecond(os, longopts, posix, alone, [c]);
    SameSecond(os, longopts, posix, followed, [c]);
    SameSecond(os, longopts, posix, joined, [c, 'y']);
  }

  /** A long option without its argument, in the second call. */
  lemma LongSecond(cfg: Config, first: string, k: nat, n: nat)
    requires cfg.longopts.Some? && Demands(cfg.longopts.value, k, n)
    ensures
      var ls := cfg.longopts.value;
      var args := ["wol", "-:", "--" + ls[k].name[..n]];
      Future(cfg, first, args, 1, "")
        == [Complaint('?' as int, ':' as int), Complaint(Missing(cfg.optstring), ls[k].val)]
  {
    var ls := cfg.longopts.value;
    var name := ls[k].name[..n];
    var args := ["wol", "-:", "--" + name];
    assert args[1][1..] == ":" && args[2][2..] == name && IndexOf(name, '=') == |name| && name[..|name|] == name;
    assert TurnAt(cfg, first, args, 1, "") == Do(Step(Complaint('?' as int, ':' as int), 2, ""));
    assert TurnAt(cfg, cfg.optstring, args, 2, "") == Do(Step(Complaint(Missing(cfg.optstring), ls[k].val), 3, ""));
    assert Future(cfg, cfg.optstring, args, 3, "") == [];
  }

  /** The sign cannot be noticed in any scan exactly if the same character is declared the same way behind it, and no
      missing argument, neither of a short nor of a long option, is to be reported as `:`. */
  lemma ScanSeen(os: string, longopts: Option<seq<LongOption>>, posix: bool)
    ensures ScannedAlike(os, longopts, posix) <==> ScanUnseen(os, longopts)
  {
    var cfg := Config(os, longopts, OrderingOf(os, posix));
    if ScanUnseen(os, longopts) {
      forall args: seq<string>, i: nat | 1 <= i <= |args|
        ensures WholeScan(args, os, longopts, posix, i) == PlainScan(args, os, longopts, posix, i)
      {
        PlainReading(cfg, args, i, "", Stripped(os));
      }
    }
    if Signed(os) && ScannedAlike(os, longopts, posix) {
      VectorsTell(os, longopts, posix, os[0]);
      forall c | Missing(os[1..]) != '?' as int ensures KindOf(os[1..], c) != RequiredArgument {
        VectorsTell(os, longopts, posix, c);
      }
      if NeedsArgument(longopts) {
        var k, n :| Demands(longopts.value, k, n);
        LongTells(os, longopts, posix, k, n);
      }
    }
  }

  lemma LongTells(os: string, longopts: Option<seq<LongOption>>, posix: bool, k: nat, n: nat)
    requires ScannedAlike(os, longopts, posix) && longopts.Some? && Demands(longopts.value, k, n)
    ensures Missing(Stripped(os)) == Missing(os)
  {
    var args := ["wol", "-:", "--" + longopts.value[k].name[..n]];
    var cfg := Config(os, longopts, OrderingOf(os, posix));
    LongSecond(cfg, Stripped(os), k, n);
    LongSecond(cfg.(optstring := Stripped(os)), Stripped(os), k, n);
    assert WholeScan(args, os, longopts, posix, 1) == PlainScan(args, os, longopts, posix, 1);
  }

  lemma FirstScan(cfg: Config, args: seq<string>)
    requires cfg == Config("+a", None, REQUIRE_ORDER) && args == ["wol", "-+"]
    ensures Future(cfg, "a", args, 1, "") == [Complaint('?' as int, '+' as int)]
  {
    assert args[1][1..] == "+";
    assert Future(cfg, "a", args, 2, "") == [];
  }

  lemma SecondScan(cfg: Config, args: seq<string>)
    requires cfg == Config("+a", None, REQUIRE_ORDER) && args == ["wol", "-a", "-+"]
    ensures Future(cfg, "a", args, 1, "") == [Plain('a' as int, None), Plain('+' as int, None)]
  {
    assert args[1][1..] == "a" && args[2][1..] == "+";
    assert Future(cfg, "+a", args, 3, "") == [];
    assert Future(cfg, "+a", args, 2, "") == [Plain('+' as int, None)];
  }

  /** The option string `+a` declares one option, yet a `+` is taken as an option in any call but the
      first. */
  lemma SignIsSeen()
    ensures WholeScan(["wol", "-+"], "+a", None, false, 1).0 == [Complaint('?' as int, '+' as int)]
    ensures WholeScan(["wol", "-a", "-+"], "+a", None, false, 1).0 == [Plain('a' as int, None), Plain('+' as int, None)]
  {
    FirstScan(Config("+a", None, REQUIRE_ORDER), ["wol", "-+"]);
    SecondScan(Config("+a", None, REQUIRE_ORDER), ["wol", "-a", "-+"]);
  }
}
