/** The resumable option scanner of lib/getopt.c. Each call is proved to make one step of the plain
    scan of the original arguments, and a complete run to return its events and leave the vector
    stably partitioned. */
module Getopt {
  import opened GetoptExchange
  import opened GetoptLayout
  import opened GetoptSpec
  import opened Options

  /** The search of the long option table: an exact match ends it, a second different abbreviation
      makes it ambiguous. */
  method FindLong(ls: seq<LongOption>, name: string) returns (m: Match)
    ensures m == LookupLong(ls, name)
  {
    var pfound: Option<nat> := None;
    var exact, ambig := false, false;
    var optionIndex := 0;
    while optionIndex < |ls| && !exact
      invariant 0 <= optionIndex <= |ls|
      invariant exact ==> pfound.Some? && Means(ls, name, Found(pfound.value))
      invariant !exact ==> forall j :: 0 <= j < optionIndex ==> ls[j].name != name
      invariant !exact && pfound.None? ==> !ambig && forall j :: 0 <= j < optionIndex ==> !Abbreviates(name, ls[j])
      invariant !exact && pfound.Some? ==>
        && pfound.value < optionIndex && Abbreviates(name, ls[pfound.value])
        && (forall j :: 0 <= j < pfound.value ==> !Abbreviates(name, ls[j]))
      invariant !exact && pfound.Some? && !ambig ==>
        forall j :: 0 <= j < optionIndex && Abbreviates(name, ls[j]) ==> SameEffect(ls[pfound.value], ls[j])
      invariant !exact && ambig ==> pfound.Some?
      invariant !exact && ambig ==>
        exists j :: pfound.value < j < optionIndex && Abbreviates(name, ls[j]) && !SameEffect(ls[pfound.value], ls[j])
      decreases |ls| - optionIndex, !exact
    {
      var p := ls[optionIndex];
      if name <= p.name {
        if |name| == |p.name| {
          pfound := Some(optionIndex);
          exact := true;
        } else if pfound.None? {
          pfound := Some(optionIndex);
        } else if ls[pfound.value].hasArg != p.hasArg || ls[pfound.value].flag != p.flag
            || ls[pfound.value].val != p.val {
          ambig := true;
        }
      }
      if !exact {
        optionIndex := optionIndex + 1;
      }
    }
    if ambig && !exact {
      m := Ambiguous;
    } else if pfound.Some? {
      m := Found(pfound.value);
    } else {
      m := NotFound;
    }
    MeaningIsUnique(ls, name, m, LookupLong(ls, name));
  }

  /** `strchr`, or the search for the end of a long option's name. */
  method FindChar(s: string, c: char) returns (k: nat)
    ensures k == IndexOf(s, c)
  {
    k := 0;
    while k < |s| && s[k] != c
      invariant 0 <= k <= |s|
      invariant forall i :: 0 <= i < k ==> s[i] != c
    {
      k := k + 1;
    }
    ghost var j := IndexOf(s, c);
  }

  /** Whether a short option `W` is declared to stand for long options; that extension is not part of
      this model. */
  predicate NoWLong(os: string) {
    forall k :: 0 <= k < |os| - 1 ==> !(os[k] == 'W' && os[k + 1] == ';')
  }

  /** The option string without the character that selects the ordering. */
  function Stripped(os: string): string {
    if os != "" && (os[0] == '-' || os[0] == '+') then os[1..] else os
  }

  /** `_getopt_initialize`'s choice of the ordering. */
  function OrderingOf(os: string, posixlyCorrect: bool): Ordering {
    if os != "" && os[0] == '-' then RETURN_IN_ORDER
    else if os != "" && os[0] == '+' then REQUIRE_ORDER
    else if posixlyCorrect then REQUIRE_ORDER
    else PERMUTE
  }

  datatype Observed = Observed(optarg: Option<string>, optopt: int, longind: nat, stores: map<nat, int>)

  /** What a caller sees after the event `ev` that it did not see before. */
  function After(ev: Event, o: Observed): Observed {
    Observed(
      ev.optarg,
      if ev.optopt.Some? then ev.optopt.value else o.optopt,
      if ev.longind.Some? then ev.longind.value else o.longind,
      if ev.store.Some? then o.stores[ev.store.value.0 := ev.store.value.1] else o.stores)
  }

  /** `struct _getopt_data`, with ghost fields for the vector as first seen and for what the scan has
      decided about its elements. */
  class Data {
    var optind: nat
    var optarg: Option<string>
    var optopt: int
    var longind: nat
    var stores: map<nat, int>      // what has been stored through `flag`
    var nextchar: Option<string>
    var ordering: Ordering
    var posixlyCorrect: bool
    var firstNonopt: nat
    var lastNonopt: nat
    var initialized: bool
    ghost var orig: seq<string>
    ghost var start: nat
    ghost var mask: seq<bool>

    constructor ()
      ensures !initialized && optind == 1
    {
      optind, optarg, optopt, longind, stores := 1, None, '?' as int, 0, map[];
      nextchar, ordering, posixlyCorrect, firstNonopt, lastNonopt := None, PERMUTE, false, 0, 0;
      initialized := false;
      orig, start, mask := [], 0, [];
    }

    /** What is left of the current cluster of short options. */
    function Rest(): string
      reads this
    {
      if nextchar.None? then "" else nextchar.value
    }

    ghost predicate Invariant(argv: array<string>, cfg: Config)
      reads this, argv
    {
      && initialized && optind > 0 && ordering == cfg.ordering
      && Layout(orig, argv[..], start, firstNonopt, lastNonopt, optind, mask)
      && (ordering != PERMUTE ==> firstNonopt == lastNonopt)
      && (Rest() != "" ==> optind < |orig| && |orig[optind]| >= 2 && !IsLong(cfg, orig[optind]))
    }

    /** Between two calls of a scan of `argv`. (An equation, so that it is carried along as a
        whole.) */
    ghost predicate Scanning(argv: array<string>, cfg: Config)
      reads this, argv
    {
      Invariant(argv, cfg) == true
    }

    /** The scan that is still to come, and the whole of its decisions. */
    ghost function Events(cfg: Config, os: string): seq<Event>
      reads this
      requires optind <= |orig| && (Rest() != "" ==> optind < |orig|)
    {
      Future(cfg, os, orig, optind, Rest())
    }

    ghost function Decisions(cfg: Config, os: string): seq<bool>
      reads this
      requires optind <= |orig| && (Rest() != "" ==> optind < |orig|)
    {
      mask + Mask(cfg, os, orig, optind, Rest())
    }

    /** What a caller can look at besides `optind`. */
    ghost function View(): Observed
      reads this
    {
      Observed(optarg, optopt, longind, stores)
    }

    /** The part of `_getopt_initialize` that reads the leading character of the option string. */
    method SetOrdering(optstring: string, posix: bool) returns (os: string)
      modifies this`ordering, this`posixlyCorrect
      ensures os == Stripped(optstring) && ordering == OrderingOf(optstring, posix)
    {
      posixlyCorrect := posix;
      os := optstring;
      if os != "" && os[0] == '-' {
        ordering := RETURN_IN_ORDER;
        os := os[1..];
      } else if os != "" && os[0] == '+' {
        ordering := REQUIRE_ORDER;
        os := os[1..];
      } else if posixlyCorrect {
        ordering := REQUIRE_ORDER;
      } else {
        ordering := PERMUTE;
      }
    }

    /** `_getopt_initialize`, with the adjustment of `optind` that precedes it. */
    method Initialize(argv: array<string>, optstring: string, posix: bool, longopts: Option<seq<LongOption>>)
      returns (os: string)
      requires optind <= argv.Length && argv.Length >= 1
      modifies this`optind, this`firstNonopt, this`lastNonopt, this`nextchar, this`ordering
      modifies this`posixlyCorrect, this`initialized, this`orig, this`start, this`mask
      ensures os == Stripped(optstring)
      ensures Scanning(argv, Config(optstring, longopts, OrderingOf(optstring, posix)))
      ensures orig == argv[..] && start == optind == (if old(optind) == 0 then 1 else old(optind))
      ensures mask == [] && Rest() == ""
    {
      if optind == 0 {
        optind := 1;
      }
      firstNonopt, lastNonopt := optind, optind;
      nextchar := None;
      os := SetOrdering(optstring, posix);
      initialized := true;
      orig, start, mask := argv[..], optind, [];
      LayoutInitially(argv[..], optind);
    }

    /** Takes the elements up to `st.i` as options. */
    ghost method Take(argv: array<string>, first: nat, last: nat, i: nat, j: nat)
      requires Layout(orig, argv[..], start, first, last, i, mask) && i <= j <= |orig|
      modifies this`mask
      ensures Layout(orig, argv[..], start, first, last, j, mask)
      ensures mask == old(mask) + Copies(true, j - i)
    {
      TakeOptions(orig, argv[..], start, first, last, i, mask, j, Copies(true, j - i));
      mask := mask + Copies(true, j - i);
    }

    /** Decodes the next short option character; `next` is the element behind the cluster. */
    method ReadShort(argv: array<string>, os: string, ghost args: seq<string>)
      returns (r: int)
      requires Rest() != "" && NoWLong(os) && optarg == None
      requires optind < argv.Length == |args| && (optind + 1 < |args| ==> argv[optind + 1] == args[optind + 1])
      modifies this`optind, this`nextchar, this`optarg, this`optopt
      ensures
        var st := ShortStep(os, args, old(optind), old(Rest()));
        optind == st.i && Rest() == st.rest && r == st.ev.ret && View() == After(st.ev, old(View()))
    {
      var c := nextchar.value[0];
      nextchar := Some(nextchar.value[1..]);
      var temp := FindChar(os, c);
      if nextchar.value == "" {
        optind := optind + 1;
      }
      if temp == |os| || c == ':' {
        optopt := c as int;
        return '?' as int;
      }
      r := c as int;
      if temp + 1 < |os| && os[temp + 1] == ':' {
        if temp + 2 < |os| && os[temp + 2] == ':' {
          if nextchar.value != "" {
            optarg := Some(nextchar.value);
            optind := optind + 1;
          } else {
            optarg := None;
          }
        } else {
          if nextchar.value != "" {
            optarg := Some(nextchar.value);
            optind := optind + 1;
          } else if optind == argv.Length {
            optopt := c as int;
            r := if os != "" && os[0] == ':' then ':' as int else '?' as int;
          } else {
            optarg := Some(argv[optind]);
            optind := optind + 1;
          }
        }
        nextchar := None;
      }
    }

    /** Finds and applies the long option in the current element. */
    method ReadLong(argv: array<string>, os: string, ls: seq<LongOption>, ghost args: seq<string>)
      returns (r: int)
      requires nextchar.Some? && optarg == None
      requires optind < argv.Length == |args| && (optind + 1 < |args| ==> argv[optind + 1] == args[optind + 1])
      modifies this`optind, this`nextchar, this`optarg, this`optopt, this`longind, this`stores
      ensures
        var st := LongStep(os, ls, args, old(optind), old(Rest()));
        optind == st.i && Rest() == st.rest && r == st.ev.ret && View() == After(st.ev, old(View()))
    {
      var body := nextchar.value;
      var nameend := FindChar(body, '=');
      var m := FindLong(ls, body[..nameend]);
      nextchar := Some("");
      optind := optind + 1;
      if !m.Found? {
        optopt := 0;
        return '?' as int;
      }
      var pfound := ls[m.k];
      if nameend < |body| {
        if pfound.hasArg != 0 {
          optarg := Some(body[nameend + 1..]);
        } else {
          optopt := pfound.val;
          return '?' as int;
        }
      } else if pfound.hasArg == 1 {
        if optind < argv.Length {
          optarg := Some(argv[optind]);
          optind := optind + 1;
        } else {
          optopt := pfound.val;
          return if os != "" && os[0] == ':' then ':' as int else '?' as int;
        }
      }
      longind := m.k;
      if pfound.flag.Some? {
        stores := stores[pfound.flag.value := pfound.val];
        return 0;
      }
      r := pfound.val;
    }

    /** `exchange`, with the new place of the non-options. */
    method ExchangeKept(argv: array<string>)
      requires Layout(orig, argv[..], start, firstNonopt, lastNonopt, optind, mask)
      modifies this`firstNonopt, this`lastNonopt, argv
      ensures firstNonopt == old(firstNonopt) + (optind - old(lastNonopt)) && lastNonopt == optind
      ensures Layout(orig, argv[..], start, firstNonopt, lastNonopt, optind, mask) == true
    {
      ghost var first' := firstNonopt + (optind - lastNonopt);
      ExchangeLayout(orig, argv[..], start, firstNonopt, lastNonopt, optind, mask, first');
      Exchange(argv, firstNonopt, lastNonopt, optind);
      firstNonopt := firstNonopt + (optind - lastNonopt);
      lastNonopt := optind;
    }

    /** Moves the non-options kept so far behind the options that followed them. */
    method Normalize(argv: array<string>, cfg: Config)
      requires Scanning(argv, cfg) && ordering == PERMUTE
      modifies this`firstNonopt, this`lastNonopt, argv
      ensures Layout(orig, argv[..], start, firstNonopt, optind, optind, mask)
    {
      if firstNonopt != lastNonopt && lastNonopt != optind {
        ExchangeKept(argv);
      } else if lastNonopt != optind {
        EmptyRange(orig, argv[..], start, firstNonopt, optind, mask);
        firstNonopt := optind;
      }
    }

    /** Skips non-options, keeping them behind those already skipped. */
    method SkipNonOptions(argv: array<string>, cfg: Config, ghost os: string)
      requires Layout(orig, argv[..], start, firstNonopt, optind, optind, mask)
      requires cfg.ordering == PERMUTE && Rest() == ""
      modifies this`optind, this`lastNonopt, this`mask
      ensures optind >= old(optind) && lastNonopt == optind
      ensures Layout(orig, argv[..], start, firstNonopt, optind, optind, mask)
      ensures optind < argv.Length ==> !NonOption(argv[optind])
      ensures Events(cfg, os) == old(Events(cfg, os)) && Decisions(cfg, os) == old(Decisions(cfg, os))
    {
      while optind < argv.Length && NonOption(argv[optind])
        invariant optind >= old(optind)
        invariant Layout(orig, argv[..], start, firstNonopt, optind, optind, mask)
        invariant Events(cfg, os) == old(Events(cfg, os)) && Decisions(cfg, os) == old(Decisions(cfg, os))
        decreases argv.Length - optind
      {
        SkipOne(argv, cfg, os);
      }
      lastNonopt := optind;
    }

    method SkipOne(argv: array<string>, cfg: Config, ghost os: string)
      requires Layout(orig, argv[..], start, firstNonopt, optind, optind, mask)
      requires cfg.ordering == PERMUTE && Rest() == "" && optind < argv.Length && NonOption(argv[optind])
      modifies this`optind, this`mask
      ensures optind == old(optind) + 1
      ensures Layout(orig, argv[..], start, firstNonopt, optind, optind, mask)
      ensures Events(cfg, os) == old(Events(cfg, os)) && Decisions(cfg, os) == old(Decisions(cfg, os))
    {
      ArgvAt(orig, argv[..], start, firstNonopt, optind, optind, mask, optind);
      ghost var c := Copies(false, 1);
      LeaveNonOptions(orig, argv[..], start, firstNonopt, optind, mask, optind + 1, c);
      SkipTurn(cfg, os, orig, optind, mask, c);
      mask := mask + c;
      optind := optind + 1;
    }

    /** The element `--`: it counts as an option, and everything behind it as non-options. */
    method EndOfOptions(argv: array<string>, ghost cfg: Config, ghost os: string)
      requires Layout(orig, argv[..], start, firstNonopt, lastNonopt, optind, mask)
      requires Rest() == "" && optind < argv.Length && argv[optind] == "--"
      modifies this`optind, this`firstNonopt, this`lastNonopt, this`mask, argv
      ensures optind == lastNonopt == argv.Length
      ensures Layout(orig, argv[..], start, firstNonopt, lastNonopt, optind, mask)
      ensures old(Events(cfg, os)) == [] && mask == old(Decisions(cfg, os))
    {
      ArgvAt(orig, argv[..], start, firstNonopt, lastNonopt, optind, mask, optind);
      ghost var c := Copies(false, argv.Length - optind - 1);
      DashDashTurn(cfg, os, orig, optind, mask, c);
      Take(argv, firstNonopt, lastNonopt, optind, optind + 1);
      optind := optind + 1;
      if firstNonopt != lastNonopt && lastNonopt != optind {
        ExchangeKept(argv);
      } else if firstNonopt == lastNonopt {
        EmptyRange(orig, argv[..], start, firstNonopt, optind, mask);
        firstNonopt := optind;
      }
      LeaveNonOptions(orig, argv[..], start, firstNonopt, optind, mask, argv.Length, c);
      mask := mask + c;
      lastNonopt := argv.Length;
      optind := argv.Length;
    }

    /** At the end of the vector: backs over the non-options that were skipped. */
    method FinishScan(argv: array<string>, ghost cfg: Config, ghost os: string)
      requires Layout(orig, argv[..], start, firstNonopt, lastNonopt, optind, mask)
      requires Rest() == "" && optind == argv.Length
      requires lastNonopt == optind || firstNonopt == lastNonopt
      modifies this`optind
      ensures old(Events(cfg, os)) == [] && mask == old(Decisions(cfg, os))
      ensures Finished(orig, argv[..], start, mask, optind)
    {
      FinishedAtEnd(orig, argv[..], start, firstNonopt, lastNonopt, mask,
        if firstNonopt != lastNonopt then firstNonopt else |orig|);
      assert mask + [] == mask;
      if firstNonopt != lastNonopt {
        optind := firstNonopt;
      }
    }

    /** The element the scan has come to. */
    ghost predicate Arrived(argv: array<string>, cfg: Config)
      reads this, argv
    {
      && initialized && optind > 0 && ordering == cfg.ordering && Rest() == ""
      && Layout(orig, argv[..], start, firstNonopt, lastNonopt, optind, mask)
      && (ordering != PERMUTE ==> firstNonopt == lastNonopt)
      && (ordering == PERMUTE ==> lastNonopt == optind && (optind < argv.Length ==> !NonOption(argv[optind])))
    }

    /** What to do with it. */
    method Classify(argv: array<string>, cfg: Config, ghost os: string) returns (status: Status)
      requires Arrived(argv, cfg)
      modifies this`optind, this`firstNonopt, this`lastNonopt, this`mask, argv
      ensures status.Finish? ==>
        old(Events(cfg, os)) == [] && Finished(orig, argv[..], start, old(Decisions(cfg, os)), optind)
      ensures !status.Finish? ==>
        && Scanning(argv, cfg) && optind < argv.Length && argv[optind] == orig[optind] && argv[optind] != "--"
        && mask == old(mask) && optind == old(optind)
        && (status.NextOption? <==> !NonOption(argv[optind]))
      ensures status.NonOptionInOrder? ==> cfg.ordering == RETURN_IN_ORDER
    {
      if optind != argv.Length && argv[optind] == "--" {
        EndOfOptions(argv, cfg, os);
        FinishScan(argv, cfg, os);
        return Finish;
      }
      if optind == argv.Length {
        FinishScan(argv, cfg, os);
        return Finish;
      }
      ArgvAt(orig, argv[..], start, firstNonopt, lastNonopt, optind, mask, optind);
      if NonOption(argv[optind]) {
        if ordering == REQUIRE_ORDER {
          StopTurn(cfg, os, orig, optind);
          FinishedInOrder(orig, argv[..], start, firstNonopt, optind, mask, Copies(false, |orig| - optind));
          return Finish;
        }
        return NonOptionInOrder;
      }
      return NextOption;
    }

    /** The part of a call that only a permuting scan has. */
    method Permute(argv: array<string>, cfg: Config, ghost os: string)
      requires Scanning(argv, cfg) && Rest() == "" && ordering == PERMUTE
      modifies this`optind, this`firstNonopt, this`lastNonopt, this`mask, argv
      ensures Arrived(argv, cfg)
      ensures Events(cfg, os) == old(Events(cfg, os)) && Decisions(cfg, os) == old(Decisions(cfg, os))
    {
      Normalize(argv, cfg);
      SkipNonOptions(argv, cfg, os);
    }

    /** Advances to the next element (the first half of `_getopt_internal_r`). */
    method StartElement(argv: array<string>, cfg: Config, ghost os: string) returns (status: Status)
      requires Scanning(argv, cfg) && Rest() == ""
      modifies this`optind, this`firstNonopt, this`lastNonopt, this`mask, argv
      ensures status.Finish? ==>
        old(Events(cfg, os)) == [] && Finished(orig, argv[..], start, old(Decisions(cfg, os)), optind)
      ensures !status.Finish? ==>
        && Scanning(argv, cfg) && optind < argv.Length && argv[optind] == orig[optind] && argv[optind] != "--"
        && Events(cfg, os) == old(Events(cfg, os)) && Decisions(cfg, os) == old(Decisions(cfg, os))
        && (status.NextOption? <==> !NonOption(argv[optind]))
      ensures status.NonOptionInOrder? ==> cfg.ordering == RETURN_IN_ORDER
    {
      // These two only matter to a caller that has moved optind back.
      lastNonopt := Min(lastNonopt, optind);
      firstNonopt := Min(firstNonopt, optind);
      if ordering == PERMUTE {
        Permute(argv, cfg, os);
      }
      status := Classify(argv, cfg, os);
    }

    /** Takes the step that a long option asks for. */
    method TakeLong(argv: array<string>, os: string, cfg: Config) returns (r: int)
      requires Layout(orig, argv[..], start, firstNonopt, lastNonopt, optind, mask)
      requires optind < argv.Length && nextchar.Some? && optarg == None && cfg.longopts.Some?
      modifies this`optind, this`nextchar, this`optarg, this`optopt, this`longind, this`stores, this`mask
      ensures
        var st := LongStep(os, cfg.longopts.value, orig, old(optind), old(Rest()));
        optind == st.i && Rest() == st.rest && r == st.ev.ret && View() == After(st.ev, old(View()))
      ensures mask == old(mask) + Copies(true, optind - old(optind)) && old(optind) <= optind
      ensures Layout(orig, argv[..], start, firstNonopt, lastNonopt, optind, mask)
    {
      ghost var i := optind;
      if i + 1 < argv.Length {
        ArgvAt(orig, argv[..], start, firstNonopt, lastNonopt, i, mask, i + 1);
      }
      r := ReadLong(argv, os, cfg.longopts.value, orig);
      Take(argv, firstNonopt, lastNonopt, i, optind);
    }

    /** Takes the step that a short option asks for. */
    method TakeShort(argv: array<string>, os: string) returns (r: int)
      requires Layout(orig, argv[..], start, firstNonopt, lastNonopt, optind, mask)
      requires optind < argv.Length && Rest() != "" && optarg == None && NoWLong(os)
      modifies this`optind, this`nextchar, this`optarg, this`optopt, this`mask
      ensures
        var st := ShortStep(os, orig, old(optind), old(Rest()));
        optind == st.i && Rest() == st.rest && r == st.ev.ret && View() == After(st.ev, old(View()))
      ensures mask == old(mask) + Copies(true, optind - old(optind)) && old(optind) <= optind
      ensures Layout(orig, argv[..], start, firstNonopt, lastNonopt, optind, mask)
    {
      ghost var i := optind;
      if i + 1 < argv.Length {
        ArgvAt(orig, argv[..], start, firstNonopt, lastNonopt, i, mask, i + 1);
      }
      r := ReadShort(argv, os, orig);
      Take(argv, firstNonopt, lastNonopt, i, optind);
    }


    /** The events and decisions of the scan from the present position on. */
    ghost function Outlook(cfg: Config, os: string): (seq<Event>, seq<bool>)
      reads this
    {
      if optind <= |orig| && (Rest() != "" ==> optind < |orig|) then (Events(cfg, os), Decisions(cfg, os))
      else ([], [])
    }

    /** The scan from a position with the outlook `o` is over. */
    ghost predicate Concluded(argv: array<string>, o: (seq<Event>, seq<bool>))
      reads this, argv
    {
      o.0 == [] && Finished(orig, argv[..], start, o.1, optind)
    }

    /** Returns a non-option as the argument of an option with code 1. */
    method InOrderTurn(argv: array<string>, ghost os: string, cfg: Config) returns (r: int, ghost ev: Event)
      requires Scanning(argv, cfg) && Rest() == "" && optind < argv.Length && argv[optind] == orig[optind]
      requires argv[optind] != "--" && NonOption(argv[optind]) && cfg.ordering == RETURN_IN_ORDER
      modifies this`optind, this`optarg, this`mask
      ensures Scanning(argv, cfg) && r == ev.ret && View() == After(ev, old(View()))
      ensures old(Outlook(cfg, os)) == Preceded(ev, Outlook(cfg, cfg.optstring))
    {
      ev := Plain(1, Some(orig[optind]));
      DoTurn(cfg, os, orig, optind, "", mask, Step(ev, optind + 1, ""));
      Take(argv, firstNonopt, lastNonopt, optind, optind + 1);
      optarg := Some(argv[optind]);
      optind := optind + 1;
      r := 1;
    }

    /** Returns the long option in the element at `optind`. */
    method LongTurn(argv: array<string>, os: string, cfg: Config) returns (r: int, ghost ev: Event)
      requires Scanning(argv, cfg) && Rest() == "" && optind < argv.Length && argv[optind] == orig[optind]
      requires argv[optind] != "--" && !NonOption(argv[optind]) && IsLong(cfg, argv[optind]) && optarg == None
      modifies this`optind, this`nextchar, this`optarg, this`optopt, this`longind, this`stores, this`mask
      ensures Scanning(argv, cfg) && r == ev.ret && View() == After(ev, old(View()))
      ensures old(Outlook(cfg, os)) == Preceded(ev, Outlook(cfg, cfg.optstring))
    {
      ghost var st := LongStep(os, cfg.longopts.value, orig, optind, orig[optind][2..]);
      DoTurn(cfg, os, orig, optind, "", mask, st);
      nextchar := Some(argv[optind][2..]);
      r := TakeLong(argv, os, cfg);
      ev := st.ev;
    }

    /** Returns the next short option of the current cluster. */
    method ShortTurn(argv: array<string>, os: string, cfg: Config) returns (r: int, ghost ev: Event)
      requires Scanning(argv, cfg) && Rest() != "" && NoWLong(os) && optarg == None
      modifies this`optind, this`nextchar, this`optarg, this`optopt, this`mask
      ensures Scanning(argv, cfg) && r == ev.ret && View() == After(ev, old(View()))
      ensures old(Outlook(cfg, os)) == Preceded(ev, Outlook(cfg, cfg.optstring))
    {
      ghost var st := ShortStep(os, orig, optind, Rest());
      DoTurn(cfg, os, orig, optind, Rest(), mask, st);
      r := TakeShort(argv, os);
      ev := st.ev;
    }

    /** A call that comes to a new element; `ready` when that is a cluster of short options. */
    method NewElement(argv: array<string>, os: string, cfg: Config)
      returns (r: int, ghost ev: Option<Event>, ready: bool)
      requires Scanning(argv, cfg) && Rest() == "" && optarg == None
      modifies this`optind, this`optarg, this`nextchar, this`firstNonopt, this`lastNonopt, this`mask, argv
      modifies this`optopt, this`longind, this`stores
      ensures ready ==> Scanning(argv, cfg) && Rest() != "" && View() == old(View())
      ensures ready ==> Outlook(cfg, os) == old(Outlook(cfg, os))
      ensures !ready && ev.Some? ==> Scanning(argv, cfg) && r == ev.value.ret && View() == After(ev.value, old(View()))
      ensures !ready && ev.Some? ==> old(Outlook(cfg, os)) == Preceded(ev.value, Outlook(cfg, cfg.optstring))
      ensures !ready && ev.None? ==> Concluded(argv, old(Outlook(cfg, os))) && r == -1
    {
      var status := StartElement(argv, cfg, os);
      ready, r, ev := false, -1, None;
      ghost var e;
      if status.NonOptionInOrder? {
        r, e := InOrderTurn(argv, os, cfg);
        ev := Some(e);
      } else if status.NextOption? {
        if IsLong(cfg, argv[optind]) {
          r, e := LongTurn(argv, os, cfg);
          ev := Some(e);
        } else {
          ClusterTurn(cfg, os, orig, optind);
          nextchar := Some(argv[optind][1..]);
          ready := true;
        }
      }
    }

    /** A call in the middle of a scan: one step of the plain scan. */
    method Call(argv: array<string>, os: string, cfg: Config) returns (r: int, ghost ev: Option<Event>)
      requires Scanning(argv, cfg) && NoWLong(os)
      modifies this, argv
      ensures orig == old(orig) && start == old(start)
      ensures ev.Some? ==> Scanning(argv, cfg) && r == ev.value.ret && View() == After(ev.value, old(View()))
      ensures ev.Some? ==> old(Outlook(cfg, os)) == Preceded(ev.value, Outlook(cfg, cfg.optstring))
      ensures ev.None? ==> Concluded(argv, old(Outlook(cfg, os))) && r == -1
    {
      optarg := None;
      var ready := true;
      if Rest() == "" {
        r, ev, ready := NewElement(argv, os, cfg);
      }
      if ready {
        ghost var e;
        r, e := ShortTurn(argv, os, cfg);
        ev := Some(e);
      }
    }

    /** Whether the next call starts a scan. */
    predicate Fresh()
      reads this
    {
      optind == 0 || !initialized
    }

    /** Where a scan that has not started will start. */
    function First(): nat
      reads this
    {
      if optind == 0 then 1 else optind
    }

    /** What the next call demands: the index in range, and a scan under way left alone. */
    ghost predicate Ready(argv: array<string>, optstring: string, longopts: Option<seq<LongOption>>)
      reads this, argv
    {
      && (argv.Length >= 1 ==> First() <= argv.Length)
      && (!Fresh() ==> Scanning(argv, Config(optstring, longopts, ordering)))
    }

    /** The events and decisions to come. Only the first call passes over the character of the option
        string that selects the ordering. */
    ghost function Ahead(argv: array<string>, optstring: string, longopts: Option<seq<LongOption>>, posix: bool)
      : (seq<Event>, seq<bool>)
      requires Ready(argv, optstring, longopts) && argv.Length >= 1
      reads this, argv
    {
      if Fresh() then WholeScan(argv[..], optstring, longopts, posix, First())
      else Outlook(Config(optstring, longopts, ordering), optstring)
    }

    /** `_getopt_internal_r`. */
    method GetoptInternalR(argv: array<string>, optstring: string, longopts: Option<seq<LongOption>>, posix: bool)
      returns (r: int, ghost ev: Option<Event>)
      requires Ready(argv, optstring, longopts) && NoWLong(optstring)
      modifies this, argv
      ensures argv.Length < 1 ==> r == -1 && ev.None? && optind == old(optind)
      ensures argv.Length >= 1 && !old(Fresh()) ==> orig == old(orig) && start == old(start)
      ensures argv.Length >= 1 && old(Fresh()) ==> orig == old(argv[..]) && start == old(First())
      ensures ev.Some? ==> argv.Length >= 1 && Ready(argv, optstring, longopts) && !Fresh()
      ensures ev.Some? ==> r == ev.value.ret && View() == After(ev.value, old(View()))
      ensures ev.Some? ==>
        old(Ahead(argv, optstring, longopts, posix)) == Preceded(ev.value, Ahead(argv, optstring, longopts, posix))
      ensures argv.Length >= 1 && ev.None? ==>
        r == -1 && Concluded(argv, old(Ahead(argv, optstring, longopts, posix)))
    {
      if argv.Length < 1 {
        return -1, None;
      }
      var os := optstring;
      ghost var ahead := Ahead(argv, optstring, longopts, posix);
      if optind == 0 || !initialized {
        os := Initialize(argv, optstring, posix, longopts);
        assert mask + ahead.1 == ahead.1;
      }
      var cfg := Config(optstring, longopts, ordering);
      assert Outlook(cfg, os) == ahead;
      r, ev := Call(argv, os, cfg);
    }
  }

  /** Entering a cluster of short options changes nothing about the scan. */
  lemma ClusterTurn(cfg: Config, os: string, args: seq<string>, i: nat)
    requires i < |args| && !NonOption(args[i]) && args[i] != "--" && !IsLong(cfg, args[i])
    ensures Future(cfg, os, args, i, args[i][1..]) == Future(cfg, os, args, i, "")
    ensures Mask(cfg, os, args, i, args[i][1..]) == Mask(cfg, os, args, i, "")
  {
    assert TurnAt(cfg, os, args, i, args[i][1..]) == TurnAt(cfg, os, args, i, "");
  }

  /** A turn that returns to the caller. */
  lemma DoTurn(cfg: Config, os: string, args: seq<string>, i: nat, rest: string, m: seq<bool>, st: Step)
    requires i <= |args| && (rest != "" ==> i < |args|) && TurnAt(cfg, os, args, i, rest) == Do(st)
    ensures Future(cfg, os, args, i, rest) == [st.ev] + Future(cfg, cfg.optstring, args, st.i, st.rest)
    ensures m + Mask(cfg, os, args, i, rest)
      == (m + Copies(true, st.i - i)) + Mask(cfg, cfg.optstring, args, st.i, st.rest)
  {}

  lemma StopTurn(cfg: Config, os: string, args: seq<string>, i: nat)
    requires i < |args| && NonOption(args[i]) && cfg.ordering == REQUIRE_ORDER
    ensures Future(cfg, os, args, i, "") == [] && Mask(cfg, os, args, i, "") == Copies(false, |args| - i)
  {
    assert TurnAt(cfg, os, args, i, "").Stop?;
  }

  function Min(a: nat, b: nat): nat { if a > b then b else a }

  /** The outlook before a turn that returned `ev`. */
  function Preceded(ev: Event, o: (seq<Event>, seq<bool>)): (seq<Event>, seq<bool>) {
    ([ev] + o.0, o.1)
  }

  datatype Status = Finish | NonOptionInOrder | NextOption

  lemma DashDashTurn(cfg: Config, os: string, args: seq<string>, i: nat, m: seq<bool>, c: seq<bool>)
    requires i < |args| && args[i] == "--" && c == Copies(false, |args| - i - 1)
    ensures Future(cfg, os, args, i, "") == []
    ensures m + Mask(cfg, os, args, i, "") == (m + Copies(true, 1)) + c
  {
    assert TurnAt(cfg, os, args, i, "").DashDash?;
    assert Copies(true, 1) == [true];
  }

  lemma SkipTurn(cfg: Config, os: string, args: seq<string>, i: nat, m: seq<bool>, c: seq<bool>)
    requires i < |args| && NonOption(args[i]) && cfg.ordering == PERMUTE && c == Copies(false, 1)
    ensures Future(cfg, os, args, i, "") == Future(cfg, os, args, i + 1, "")
    ensures m + Mask(cfg, os, args, i, "") == (m + c) + Mask(cfg, os, args, i + 1, "")
  {
    assert TurnAt(cfg, os, args, i, "").Skip?;
    assert c == [false];
  }

  /** Elements not yet scanned are where they were. */
  lemma ArgvAt(
    orig: seq<string>, cur: seq<string>, start: nat, first: nat, last: nat, i: nat, m: seq<bool>, k: nat)
    requires Layout(orig, cur, start, first, last, i, m) && i <= k < |orig|
    ensures cur[k] == orig[k]
  {
    assert cur[k] == cur[i..][k - i] && orig[k] == orig[i..][k - i];
  }

  /** The plain reading of a whole vector from element `i`. */
  ghost function WholeScan(args: seq<string>, optstring: string, longopts: Option<seq<LongOption>>, posix: bool, i: nat)
    : (seq<Event>, seq<bool>)
    requires i <= |args|
  {
    var cfg := Config(optstring, longopts, OrderingOf(optstring, posix));
    (Future(cfg, Stripped(optstring), args, i, ""), Mask(cfg, Stripped(optstring), args, i, ""))
  }

  /** No long option has the code that ends a scan. */
  predicate NoOptionEnds(longopts: Option<seq<LongOption>>) {
    longopts.Some? ==> forall k :: 0 <= k < |longopts.value| ==> longopts.value[k].val != -1
  }

  lemma {:induction false} EventsDoNotEnd(cfg: Config, os: string, args: seq<string>, i: nat, rest: string)
    requires i <= |args| && (rest != "" ==> i < |args|) && NoOptionEnds(cfg.longopts)
    ensures forall e <- Future(cfg, os, args, i, rest) :: e.ret != -1
    decreases |args| - i, Room(args, i, rest)
  {
    match TurnAt(cfg, os, args, i, rest)
    case Do(st) =>
      assert st.ev.ret != -1;
      EventsDoNotEnd(cfg, cfg.optstring, args, st.i, st.rest);
    case Skip => EventsDoNotEnd(cfg, os, args, i + 1, "");
    case DashDash =>
    case Stop =>
  }

  /** The returned values with their arguments. */
  function Returned(evs: seq<Event>): (r: seq<(int, Option<string>)>) {
    seq(|evs|, k requires 0 <= k < |evs| => (evs[k].ret, evs[k].optarg))
  }

  lemma OneMore(done: seq<Event>, ev: Event, next: (seq<Event>, seq<bool>))
    ensures done + Preceded(ev, next).0 == (done + [ev]) + next.0
    ensures Returned(done + [ev]) == Returned(done) + [(ev.ret, ev.optarg)]
  {}

  /** What a call has returned, out of what was `ahead`. */
  ghost predicate Returning(
    d: Data, argv: array<string>, optstring: string, longopts: Option<seq<LongOption>>, posix: bool,
    r: int, ev: Option<Event>, ahead: (seq<Event>, seq<bool>))
    requires argv.Length >= 1
    reads d, argv
  {
    if ev.None? then r == -1 && d.Concluded(argv, ahead)
    else
      && d.Ready(argv, optstring, longopts) && !d.Fresh()
      && r == ev.value.ret != -1 && d.optarg == ev.value.optarg
      && ahead == Preceded(ev.value, d.Ahead(argv, optstring, longopts, posix))
  }

  /** One more call in the middle of a scan. */
  method CallAgain(
    d: Data, argv: array<string>, optstring: string, longopts: Option<seq<LongOption>>, posix: bool,
    ghost ahead: (seq<Event>, seq<bool>))
    returns (r: int, ghost ev: Option<Event>)
    requires argv.Length >= 1 && NoWLong(optstring) && d.Ready(argv, optstring, longopts) && !d.Fresh()
    requires ahead == d.Ahead(argv, optstring, longopts, posix) && forall e <- ahead.0 :: e.ret != -1
    modifies d, argv
    ensures d.orig == old(d.orig) && d.start == old(d.start)
    ensures Returning(d, argv, optstring, longopts, posix, r, ev, ahead)
  {
    r, ev := d.GetoptInternalR(argv, optstring, longopts, posix);
    if ev.Some? {
      assert ev.value in ahead.0;
    }
  }

  /** The calls of a scan, from its first return on. */
  method Collect(
    d: Data, argv: array<string>, optstring: string, longopts: Option<seq<LongOption>>, posix: bool,
    first: int, ghost event: Option<Event>, ghost whole: (seq<Event>, seq<bool>))
    returns (got: seq<(int, Option<string>)>)
    requires argv.Length >= 1 && NoWLong(optstring) && forall e <- whole.0 :: e.ret != -1
    requires Returning(d, argv, optstring, longopts, posix, first, event, whole)
    modifies d, argv
    ensures d.orig == old(d.orig) && d.start == old(d.start)
    ensures got == Returned(whole.0) && Finished(d.orig, argv[..], d.start, whole.1, d.optind)
  {
    ghost var done: seq<Event> := [];
    ghost var ahead, ev := whole, event;
    var r := first;
    got := [];
    assert done + ahead.0 == ahead.0;
    while r != -1
      invariant (forall e <- ahead.0 :: e.ret != -1) && whole == (done + ahead.0, ahead.1) && got == Returned(done)
      invariant d.orig == old(d.orig) && d.start == old(d.start)
      invariant Returning(d, argv, optstring, longopts, posix, r, ev, ahead)
      decreases |ahead.0|
    {
      got := got + [(r, d.optarg)];
      OneMore(done, ev.value, d.Ahead(argv, optstring, longopts, posix));
      done := done + [ev.value];
      ahead := d.Ahead(argv, optstring, longopts, posix);
      r, ev := CallAgain(d, argv, optstring, longopts, posix, ahead);
    }
    assert done + [] == done;
  }

  /** The loop of a caller that leaves `optind` and the vector alone: it is returned what the plain
      reading of the original vector says, and left with a stable partition of it, `optind` at the
      first non-option. */
  method ScanAll(d: Data, argv: array<string>, optstring: string, longopts: Option<seq<LongOption>>, posix: bool)
    returns (got: seq<(int, Option<string>)>)
    requires argv.Length >= 1 && d.Fresh() && d.First() <= argv.Length
    requires NoWLong(optstring) && NoOptionEnds(longopts)
    modifies d, argv
    ensures
      var s, args := old(d.First()), old(argv[..]);
      var (events, mask) := WholeScan(args, optstring, longopts, posix, s);
      && got == Returned(events)
      && argv[..] == args[..s] + Partition(args[s..], mask)
      && d.optind == s + |Select(args[s..], mask, true)|
  {
    ghost var s, args := d.First(), argv[..];
    ghost var whole := WholeScan(args, optstring, longopts, posix, s);
    EventsDoNotEnd(Config(optstring, longopts, OrderingOf(optstring, posix)), Stripped(optstring), args, s, "");
    var r, ev := d.GetoptInternalR(argv, optstring, longopts, posix);
    if ev.Some? {
      assert ev.value in whole.0;
    }
    got := Collect(d, argv, optstring, longopts, posix, r, ev, whole);
  }
}
