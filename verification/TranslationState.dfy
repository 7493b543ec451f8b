/** The state behind `dcigettext` and the functions that bind domains: bindings, the list of loaded domains and the
    table of known translations, updated in place (intl/dcigettext.c:429-706, intl/textdomain.c:67-142). */
module TranslationState {
  import opened Bindings
  import opened LocaleDomain
  import opened LocaleList
  import opened LocaleListing
  import opened Options
  import opened StringOrder
  import opened TranslationSearch
  import opened Translations

  /** The locale from `i` on in the list of languages, and where it ends; at the end of the list it is "C". */
  predicate IsNext(value: CString, i: nat, locale: CString, e: nat)
    requires i <= |value|
  {
    var j := Colons(value, i);
    if j == |value| then locale == "C" && e == j else e == NameEnd(value, j) && locale == value[j..e]
  }

  method NextLocale(value: CString, start: nat) returns (singleLocale: CString, e: nat)
    requires start <= |value|
    ensures IsNext(value, start, singleLocale, e)
  {
    var i := start;
    while i < |value| && value[i] == ':'
      invariant start <= i <= |value| && Colons(value, start) == Colons(value, i)
    {
      i := i + 1;
    }
    singleLocale, e := "C", i;
    if i < |value| {
      while e < |value| && value[e] != ':'
        invariant i <= e <= |value| && NameEnd(value, i) == NameEnd(value, e)
      {
        e := e + 1;
      }
      singleLocale := value[i..e];
    }
  }

  lemma LanguagesFrom(value: CString, i: nat, secure: bool, locale: CString, e: nat)
    requires i <= |value| && IsNext(value, i, locale, e)
    ensures e <= |value| && (locale != "C" && locale != "POSIX" ==> i < e)
    ensures
      Languages(value, i, secure)
      == if secure && '/' in locale then Languages(value, e, secure)
         else if locale == "C" || locale == "POSIX" then []
         else [locale] + Languages(value, e, secure)
  {}

  lemma Behind(w: World, l: Listing, name: string, leads: seq<string>, codeset: Option<string>, msgid: string)
    requires name in l && l[name].leads == leads && MessageIn(w, l, name, codeset, msgid).None?
    ensures FirstHit(w, l, Candidates(l, name), codeset, msgid) == FirstHit(w, l, leads, codeset, msgid)
  {
    assert Candidates(l, name)[1..] == leads;
  }

  class Gettext {
    const w: World
    const bindings: State
    const domains: L10nList
    var root: Root
    var current: string
    ghost const f: Naming

    ghost predicate Valid()
      reads this, bindings, bindings.list, domains, domains.nodes
    {
      && bindings.Valid() && bindings.defaultDirname == w.defaultDirname && domains.Valid({}) && Genuine(f)
    }

    ghost function Now(): System
      reads this, bindings, domains
    {
      System(bindings.table, bindings.catCntr, domains.listing, root, current)
    }

    constructor (w: World)
      ensures Valid() && this.w == w && fresh(bindings) && fresh(domains) && Now() == Start()
      ensures bindings.list == [] && domains.nodes == [] && f == TheNaming()
    {
      this.w := w;
      bindings := new State(w.defaultDirname);
      domains := new L10nList();
      root, current, f := map[], DEFAULT_DOMAIN, TheNaming();
    }

    /** `_nl_find_msg` up to the search in the loaded file: nothing in what is decided not to be one. */
    method FindMsg(n: Node, codeset: Option<string>, msgid: string) returns (text: Option<string>)
      requires domains.Valid({}) && n in domains.nodes
      ensures text == MessageIn(w, domains.listing, n.filename, codeset, msgid)
    {
      ListedNode(domains, n);
      text := if n.decided then None else w.message(n.filename, codeset, msgid);
    }

    /** The message from a domain or else from its successors. */
    method FindMessage(n: Node, codeset: Option<string>, msgid: string) returns (hit: Option<Found>)
      requires domains.Valid({}) && n in domains.nodes
      ensures hit == FirstHit(w, domains.listing, Candidates(domains.listing, n.filename), codeset, msgid)
    {
      var text := FindMsg(n, codeset, msgid);
      if text.Some? {
        return Some(Found(n.filename, text.value));
      }
      ListedNode(domains, n);
      ghost var leads := domains.listing[n.filename].leads;
      Behind(w, domains.listing, n.filename, leads, codeset, msgid);
      hit := FindBehind(n.successor, codeset, msgid, leads);
    }

    /** The loop over the successors. */
    method FindBehind(successor: seq<Node?>, codeset: Option<string>, msgid: string, ghost leads: seq<string>)
      returns (hit: Option<Found>)
      requires domains.Valid({}) && Lead(successor, leads, domains.nodes)
      ensures hit == FirstHit(w, domains.listing, leads, codeset, msgid)
    {
      var cnt := 0;
      while successor[cnt] != null
        invariant cnt <= |leads|
        invariant FirstHit(w, domains.listing, leads, codeset, msgid)
               == FirstHit(w, domains.listing, leads[cnt..], codeset, msgid)
        decreases |leads| - cnt
      {
        var text := FindMsg(successor[cnt], codeset, msgid);
        if text.Some? {
          return Some(Found(successor[cnt].filename, text.value));
        }
        assert leads[cnt..][1..] == leads[cnt + 1..];
        cnt := cnt + 1;
      }
      hit := None;
    }

    /** `_nl_find_domain`, for a locale that has been copied out of the list of languages. */
    method FindNode(x: Where) returns (n: Node)
      requires domains.Valid({}) && Genuine(f)
      modifies domains
      ensures domains.Valid({}) && n in domains.nodes
        && (n.filename, domains.listing) == Find(f, old(domains.listing), x)
    {
      var size := |x.locale|;
      var single := new char[size + 1](i requires 0 <= i <= size => if i < size then x.locale[i] else '\0');
      assert single[..size] == x.locale;
      Finding(f, domains.listing, x);
      n := FindDomain(domains, x.dirname, single, x.xdomainname);
    }

    /** One language. */
    method SearchLanguage(locale: CString, q: Query) returns (hit: Option<Found>)
      requires domains.Valid({}) && Genuine(f)
      modifies domains
      ensures domains.Valid({}) && (hit, domains.listing) == SearchOne(w, f, old(domains.listing), q, locale)
    {
      var domain := FindNode(Where(q.dirname, locale, q.xdomainname));
      hit := FindMessage(domain, q.codeset, q.msgid);
    }

    /** The loop over the list of languages. */
    method SearchLanguages(value: CString, q: Query) returns (hit: Option<Found>)
      requires domains.Valid({}) && Genuine(f)
      modifies domains
      ensures domains.Valid({})
      ensures (hit, domains.listing) == Search(w, f, old(domains.listing), q, Languages(value, 0, w.secure))
    {
      var i := 0;
      ghost var locales := Languages(value, i, w.secure);
      ghost var whole := Search(w, f, domains.listing, q, locales);
      while true
        invariant i <= |value| && domains.Valid({}) == true && locales == Languages(value, i, w.secure)
        invariant Search(w, f, domains.listing, q, locales) == whole
        decreases |value| - i
      {
        var singleLocale, e := NextLocale(value, i);
        LanguagesFrom(value, i, w.secure, singleLocale, e);
        if w.secure && '/' in singleLocale {
          i := e;
          continue;
        }
        if singleLocale == "C" || singleLocale == "POSIX" {
          return None;
        }
        hit := SearchLanguage(singleLocale, q);
        if hit.Some? {
          return;
        }
        i := e;
        locales := locales[1..];
      }
    }

    /** The search, with its binding and directory. */
    method FindTranslation(key: Key) returns (hit: Option<Found>)
      requires Valid()
      modifies domains
      ensures Valid() && (hit, domains.listing) == Uncached(w, f, bindings.table, old(domains.listing), key)
    {
      var binding := bindings.Find(key.domainname);
      var dirname: CString := w.defaultDirname;
      if binding != null {
        dirname := binding.dirname;
        if !AbsolutePath(dirname) {
          if w.cwd.None? {
            return None;
          }
          dirname := w.cwd.value + "/" + dirname;
        }
      }
      var xdomainname := w.categoryName(key.category) + "/" + key.domainname + ".mo";
      var q := Query(dirname, xdomainname, if binding != null then binding.codeset else None, key.msgid);
      hit := SearchLanguages(w.categoryValue(key.category), q);
    }

    /** `dcigettext`. */
    method Dcigettext(c: Call) returns (r: Option<string>)
      requires Valid()
      modifies this`root, domains
      ensures Valid() && (Message(r), Now()) == Step(w, f, old(Now()), Lookup(c))
    {
      if c.msgid1.None? {
        return None;
      }
      var key := KeyOf(c, c.msgid1.value, current);
      if key in root && root[key].counter == bindings.catCntr {
        return Some(Translated(w, c, root[key].found));
      }
      var hit := FindTranslation(key);
      if hit.None? {
        return Some(Untranslated(c, c.msgid1.value));
      }
      root := root[key := Known(bindings.catCntr, hit.value)];
      r := Some(Translated(w, c, hit.value));
    }

    /** `bindtextdomain` and `bind_textdomain_codeset`. */
    method Bind(domainname: Option<string>, dirnamep: Param, codesetp: Param) returns (dirname: Param, codeset: Param)
      requires Valid()
      modifies bindings, bindings.list
      ensures Valid()
      ensures (Out.Bindings((dirname, codeset)), Now())
        == Step(w, f, old(Now()), Rebind(domainname, dirnamep, codesetp))
      ensures forall b :: b in bindings.list ==> b in old(bindings.list) || fresh(b)
    {
      dirname, codeset := bindings.SetBindingValues(domainname, dirnamep, codesetp);
    }

    /** `textdomain`; every call but a question steps the counter. */
    method TextDomain(domainname: Option<string>) returns (r: string)
      requires Valid()
      modifies this`current, bindings`catCntr
      ensures Valid() && (Default(r), Now()) == Step(w, f, old(Now()), SetDefault(domainname))
    {
      if domainname.None? {
        return current;
      }
      if domainname.value == "" || domainname.value == DEFAULT_DOMAIN {
        current := DEFAULT_DOMAIN;
      } else if domainname.value != current {
        current := domainname.value;
      }
      bindings.catCntr := bindings.catCntr + 1;
      r := current;
    }
  }

  method Do(g: Gettext, op: Op) returns (out: Out)
    requires g.Valid()
    modifies g, g.bindings, g.bindings.list, g.domains
    ensures g.Valid() && (out, g.Now()) == Step(g.w, g.f, old(g.Now()), op)
    ensures forall b :: b in g.bindings.list ==> b in old(g.bindings.list) || fresh(b)
  {
    match op
    case Rebind(domainname, dirname, codeset) =>
      var d, c := g.Bind(domainname, dirname, codeset);
      out := Out.Bindings((d, c));
    case SetDefault(domain) =>
      var name := g.TextDomain(domain);
      out := Default(name);
    case Lookup(call) =>
      var text := g.Dcigettext(call);
      out := Message(text);
  }

  method DoAll(g: Gettext, ops: seq<Op>) returns (outs: seq<Out>)
    requires g.Valid()
    modifies g, g.bindings, g.bindings.list, g.domains
    ensures g.Valid() && outs == Outputs(g.w, g.f, old(g.Now()), ops)
    decreases |ops|
  {
    if ops == [] {
      return [];
    }
    var out := Do(g, ops[0]);
    ghost var list := g.bindings.list;
    assert forall i :: 0 <= i < |list| ==> list[i] in list;
    var rest := DoAll(g, ops[1..]);
    outs := [out] + rest;
  }

  /** A whole run, from the start; where the names are steady, the answers are those of the system that searches every
      time. */
  method Run(w: World, ops: seq<Op>, ghost doms: string -> bool) returns (outs: seq<Out>)
    ensures outs == Outputs(w, TheNaming(), Start(), ops)
    ensures Steady(w, doms) && AllName(doms, ops) && doms(DEFAULT_DOMAIN) ==>
              outs == PlainOutputs(w, TheNaming(), Plain(Start()), ops)
  {
    var g := new Gettext(w);
    outs := DoAll(g, ops);
    if Steady(w, doms) && AllName(doms, ops) && doms(DEFAULT_DOMAIN) {
      SameFromStart(w, TheNaming(), doms, ops);
    }
  }
}
