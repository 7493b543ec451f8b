/** The search for a translation (intl/dcigettext.c:503-690), as it would be without the table of known
    translations: a walk through a list of languages and, for each, through the files that the list of loaded
    domains has for it. */
module TranslationSearch {
  import opened Bindings
  import opened LocaleDomain
  import opened LocaleListing
  import opened LocaleRequest
  import opened Options
  import opened StringOrder

  /** What `_nl_find_domain` is asked for. */
  datatype Where = Where(dirname: CString, locale: CString, xdomainname: string)

  function FullOf(x: Where): Request {
    Full(DirsOf(x.dirname, x.locale), x.locale, x.xdomainname)
  }

  function SpelledAs(x: Where): string {
    Spelled(DirsOf(x.dirname, x.locale), x.locale, x.xdomainname)
  }

  datatype Found = Found(file: string, text: string)

  /** What does not change: the contents of the files and the environment. */
  datatype World = World(
    message: (string, Option<string>, string) -> Option<string>, plural: (string, nat, string) -> string,
    categoryName: int -> string, categoryValue: int -> CString,
    cwd: Option<CString>, secure: bool, defaultDirname: CString)

  /** The names of nodes and the listing with a new node in it, as functions without their bodies: a `Genuine` naming
      is that of the list of loaded domains. */
  datatype Naming = Naming(spelled: Where -> string, full: Where -> string, enter: (Listing, Where) -> Listing)

  ghost predicate Genuine(f: Naming) {
    && (forall x {:trigger SpelledAs(x)} :: f.spelled(x) == SpelledAs(x))
    && (forall x {:trigger FullOf(x)} :: f.full(x) == NameOf(FullOf(x)))
    && forall l, x {:trigger Enter(l, FullOf(x))} :: f.enter(l, x) == Enter(l, FullOf(x))
  }

  function TheNaming(): (f: Naming)
    ensures Genuine(f)
  {
    Naming(SpelledAs, (x: Where) => NameOf(FullOf(x)), (l: Listing, x: Where) => Enter(l, FullOf(x)))
  }

  /** `_nl_find_domain`: the name of the node found or made, and the listing then. */
  function Find(f: Naming, l: Listing, x: Where): (string, Listing) {
    if f.spelled(x) in l then (f.spelled(x), l) else (f.full(x), f.enter(l, x))
  }

  lemma Finding(f: Naming, l: Listing, x: Where)
    requires Genuine(f)
    ensures Find(f, l, x) == FindIn(l, DirsOf(x.dirname, x.locale), x.locale, x.xdomainname)
  {
    assert f.spelled(x) == SpelledAs(x) && f.full(x) == NameOf(FullOf(x)) && f.enter(l, x) == Enter(l, FullOf(x));
  }

  /** A message in a file, unless it is decided that there is no such file. */
  function MessageIn(w: World, l: Listing, name: string, codeset: Option<string>, msgid: string): Option<string> {
    if name in l && !l[name].decided then w.message(name, codeset, msgid) else None
  }

  /** The first of the nodes whose file has the message. */
  function FirstHit(
    w: World, l: Listing, names: seq<string>, codeset: Option<string>, msgid: string): Option<Found>
  {
    if names == [] then None
    else
      var text := MessageIn(w, l, names[0], codeset, msgid);
      if text.Some? then Some(Found(names[0], text.value)) else FirstHit(w, l, names[1..], codeset, msgid)
  }

  // ----- the languages

  function Colons(value: CString, i: nat): (j: nat)
    requires i <= |value|
    ensures i <= j <= |value| && (j < |value| ==> value[j] != ':')
    decreases |value| - i
  {
    if i < |value| && value[i] == ':' then Colons(value, i + 1) else i
  }

  function NameEnd(value: CString, i: nat): (j: nat)
    requires i <= |value|
    ensures i <= j <= |value| && (i < |value| && value[i] != ':' ==> i < j)
    decreases |value| - i
  {
    if i < |value| && value[i] != ':' then NameEnd(value, i + 1) else i
  }

  /** The locales of a priority list that are tried, up to the first that means no translation. */
  function Languages(value: CString, i: nat, secure: bool): seq<CString>
    requires i <= |value|
    decreases |value| - i
  {
    var j := Colons(value, i);
    if j == |value| then []
    else
      var k := NameEnd(value, j);
      var locale := value[j..k];
      if secure && '/' in locale then Languages(value, k, secure)
      else if locale == "C" || locale == "POSIX" then []
      else [locale] + Languages(value, k, secure)
  }

  // ----- the search

  datatype Query = Query(dirname: CString, xdomainname: string, codeset: Option<string>, msgid: string)

  function SearchOne(w: World, f: Naming, l: Listing, q: Query, locale: CString): (Option<Found>, Listing) {
    var (name, m) := Find(f, l, Where(q.dirname, locale, q.xdomainname));
    (FirstHit(w, m, Candidates(m, name), q.codeset, q.msgid), m)
  }

  function Search(w: World, f: Naming, l: Listing, q: Query, locales: seq<CString>): (Option<Found>, Listing)
    decreases |locales|
  {
    if locales == [] then (None, l)
    else
      var (hit, m) := SearchOne(w, f, l, q, locales[0]);
      if hit.Some? then (hit, m) else Search(w, f, m, q, locales[1..])
  }

  /** What known translations are filed under. */
  datatype Key = Key(msgid: string, domainname: string, category: int)

  predicate AbsolutePath(p: string) {
    p != "" && p[0] == '/'
  }

  /** The directory of a domain; a relative one needs the working directory. */
  function DirnameOf(w: World, t: Table, domainname: string): Option<CString> {
    if domainname !in t then Some(w.defaultDirname)
    else if AbsolutePath(t[domainname].dirname) then Some(t[domainname].dirname)
    else if w.cwd.None? then None
    else Some(w.cwd.value + "/" + t[domainname].dirname)
  }

  function XDomainname(w: World, category: int, domainname: string): string {
    w.categoryName(category) + "/" + domainname + ".mo"
  }

  function QueryFor(w: World, t: Table, key: Key, dirname: CString): Query {
    Query(
      dirname, XDomainname(w, key.category, key.domainname),
      Effective(t, key.domainname, w.defaultDirname).codeset, key.msgid)
  }

  function LocalesFor(w: World, category: int): seq<CString> {
    Languages(w.categoryValue(category), 0, w.secure)
  }

  function Uncached(w: World, f: Naming, t: Table, l: Listing, key: Key): (Option<Found>, Listing) {
    var dirname := DirnameOf(w, t, key.domainname);
    if dirname.None? then (None, l)
    else Search(w, f, l, QueryFor(w, t, key, dirname.value), LocalesFor(w, key.category))
  }

  // ----- listings that searches leave

  /** What searches for domains with the names of `doms` can ask `_nl_find_domain` for. */
  ghost predicate Visits(w: World, doms: string -> bool, x: Where) {
    exists c, d :: x.locale in LocalesFor(w, c) && doms(d) && x.xdomainname == XDomainname(w, c, d)
  }

  /** The node is for one of these, or for what that inherits from. */
  ghost predicate Owned(w: World, doms: string -> bool, n: string, e: Entry) {
    exists x :: Visits(w, doms, x) && For(FullOf(x), n, e)
  }

  ghost predicate Grown(w: World, doms: string -> bool, l: Listing) {
    Complete(l, {}) && forall n {:trigger Owned(w, doms, n, l[n])} :: n in l ==> Owned(w, doms, n, l[n])
  }

  /** None of these has its spelling asked for, by itself or by another, unless that is its full form. */
  ghost predicate Steady(w: World, doms: string -> bool) {
    forall x, y :: Visits(w, doms, x) && Visits(w, doms, y) ==>
      SpelledAs(x) == NameOf(FullOf(x)) || !AsksFor(FullOf(y), SpelledAs(x))
  }

  lemma EnterAgain(f: Naming, l: Listing, x: Where)
    requires Genuine(f) && f.full(x) in l
    ensures f.enter(l, x) == l
  {
    assert Enter(l, FullOf(x)) == l;
  }

  lemma EnterGrows(w: World, f: Naming, doms: string -> bool, l: Listing, x: Where)
    requires Genuine(f) && Grown(w, doms, l) && Visits(w, doms, x)
    ensures var m := f.enter(l, x); Within(l, m) && Grown(w, doms, m) && f.full(x) in m
  {
    var m := Enter(l, FullOf(x));
    Entering(l, FullOf(x));
    forall n | n in m ensures Owned(w, doms, n, m[n]) {
      if n in l {
        assert Owned(w, doms, n, l[n]);
      } else {
        assert For(FullOf(x), n, m[n]);
      }
    }
  }

  lemma OwnedAsked(w: World, doms: string -> bool, n: string, e: Entry) returns (y: Where)
    requires Owned(w, doms, n, e)
    ensures Visits(w, doms, y) && AsksFor(FullOf(y), n)
  {
    y :| Visits(w, doms, y) && For(FullOf(y), n, e);
    var r :| r in [FullOf(y)] + Successors(FullOf(y)) && NameOf(r) == n && EntryOf(r) == e;
    AsksForSuccessor(FullOf(y), r);
  }

  /** If this is so, it is always the node of the full form that is found. */
  lemma FindSteady(w: World, f: Naming, doms: string -> bool, l: Listing, x: Where)
    requires Genuine(f) && Steady(w, doms) && Grown(w, doms, l) && Visits(w, doms, x)
    ensures Find(f, l, x) == (f.full(x), f.enter(l, x))
  {
    assert f.spelled(x) == SpelledAs(x) && f.full(x) == NameOf(FullOf(x));
    if f.spelled(x) in l {
      assert Owned(w, doms, f.spelled(x), l[f.spelled(x)]);
      var y := OwnedAsked(w, doms, f.spelled(x), l[f.spelled(x)]);
      EnterAgain(f, l, x);
    }
  }

  // ----- searches that repeat

  lemma {:induction false} HitAgain(
    w: World, l: Listing, m: Listing, names: seq<string>, codeset: Option<string>, msgid: string)
    requires Within(l, m) && AllIn(names, l)
    ensures FirstHit(w, m, names, codeset, msgid) == FirstHit(w, l, names, codeset, msgid)
  {
    if names != [] {
      assert names[0] in l;
      forall k | 0 <= k < |names[1..]| ensures names[1..][k] in l {
        assert names[1..][k] == names[k + 1];
      }
      HitAgain(w, l, m, names[1..], codeset, msgid);
    }
  }

  lemma CandidatesAgain(l: Listing, m: Listing, name: string)
    requires Within(l, m) && Complete(l, {}) && name in l
    ensures Candidates(m, name) == Candidates(l, name) && AllIn(Candidates(l, name), l)
  {
    assert AllIn(l[name].leads, l);
  }

  ghost predicate AllVisited(w: World, doms: string -> bool, q: Query, locales: seq<CString>) {
    forall k :: 0 <= k < |locales| ==> Visits(w, doms, Where(q.dirname, locales[k], q.xdomainname))
  }

  lemma OneAgain(w: World, f: Naming, doms: string -> bool, l: Listing, m: Listing, q: Query, locale: CString)
    requires Genuine(f) && Steady(w, doms) && Visits(w, doms, Where(q.dirname, locale, q.xdomainname))
    requires Grown(w, doms, l) && Grown(w, doms, m) && Within(SearchOne(w, f, l, q, locale).1, m)
    ensures SearchOne(w, f, m, q, locale) == (SearchOne(w, f, l, q, locale).0, m)
  {
    var x := Where(q.dirname, locale, q.xdomainname);
    var l' := f.enter(l, x);
    FindSteady(w, f, doms, l, x);
    FindSteady(w, f, doms, m, x);
    EnterGrows(w, f, doms, l, x);
    EnterAgain(f, m, x);
    CandidatesAgain(l', m, f.full(x));
    HitAgain(w, l', m, Candidates(l', f.full(x)), q.codeset, q.msgid);
  }

  lemma OneGrows(w: World, f: Naming, doms: string -> bool, l: Listing, q: Query, locale: CString)
    requires Genuine(f) && Grown(w, doms, l) && Visits(w, doms, Where(q.dirname, locale, q.xdomainname))
    ensures var m := SearchOne(w, f, l, q, locale).1; Within(l, m) && Grown(w, doms, m)
  {
    EnterGrows(w, f, doms, l, Where(q.dirname, locale, q.xdomainname));
  }

  lemma {:induction false} SearchGrows(
    w: World, f: Naming, doms: string -> bool, l: Listing, q: Query, locales: seq<CString>)
    requires Genuine(f) && Grown(w, doms, l) && AllVisited(w, doms, q, locales)
    ensures var m := Search(w, f, l, q, locales).1; Within(l, m) && Grown(w, doms, m)
    decreases |locales|
  {
    if locales != [] {
      OneGrows(w, f, doms, l, q, locales[0]);
      RestVisited(w, doms, q, locales);
      if SearchOne(w, f, l, q, locales[0]).0.None? {
        SearchGrows(w, f, doms, SearchOne(w, f, l, q, locales[0]).1, q, locales[1..]);
      }
    }
  }

  lemma RestVisited(w: World, doms: string -> bool, q: Query, locales: seq<CString>)
    requires AllVisited(w, doms, q, locales) && locales != []
    ensures AllVisited(w, doms, q, locales[1..])
  {}

  /** A search repeated in a longer listing ends the same. */
  lemma {:induction false} SearchAgain(
    w: World, f: Naming, doms: string -> bool, l: Listing, m: Listing, q: Query, locales: seq<CString>)
    requires Genuine(f) && Steady(w, doms) && AllVisited(w, doms, q, locales)
    requires Grown(w, doms, l) && Grown(w, doms, m) && Within(Search(w, f, l, q, locales).1, m)
    ensures Search(w, f, m, q, locales) == (Search(w, f, l, q, locales).0, m)
    decreases |locales|
  {
    if locales != [] {
      var (hit, l1) := SearchOne(w, f, l, q, locales[0]);
      OneGrows(w, f, doms, l, q, locales[0]);
      RestVisited(w, doms, q, locales);
      if hit.None? {
        SearchGrows(w, f, doms, l1, q, locales[1..]);
        SearchAgain(w, f, doms, l1, m, q, locales[1..]);
      }
      OneAgain(w, f, doms, l, m, q, locales[0]);
    }
  }

  lemma KeyVisits(w: World, doms: string -> bool, t: Table, key: Key, dirname: CString)
    requires doms(key.domainname)
    ensures AllVisited(w, doms, QueryFor(w, t, key, dirname), LocalesFor(w, key.category))
  {
    var q, locales := QueryFor(w, t, key, dirname), LocalesFor(w, key.category);
    forall k | 0 <= k < |locales| ensures Visits(w, doms, Where(q.dirname, locales[k], q.xdomainname)) {
      assert locales[k] in LocalesFor(w, key.category);
    }
  }

  lemma UncachedGrows(w: World, f: Naming, doms: string -> bool, t: Table, l: Listing, key: Key)
    requires Genuine(f) && Grown(w, doms, l) && doms(key.domainname)
    ensures var m := Uncached(w, f, t, l, key).1; Within(l, m) && Grown(w, doms, m)
  {
    var dirname := DirnameOf(w, t, key.domainname);
    if dirname.Some? {
      KeyVisits(w, doms, t, key, dirname.value);
      SearchGrows(w, f, doms, l, QueryFor(w, t, key, dirname.value), LocalesFor(w, key.category));
    }
  }

  /** Without a change of the bindings a search gives the same again, however many others come between. */
  lemma UncachedAgain(w: World, f: Naming, doms: string -> bool, t: Table, l: Listing, m: Listing, key: Key)
    requires Genuine(f) && Steady(w, doms) && doms(key.domainname)
    requires Grown(w, doms, l) && Grown(w, doms, m) && Within(Uncached(w, f, t, l, key).1, m)
    ensures Uncached(w, f, t, m, key) == (Uncached(w, f, t, l, key).0, m)
  {
    var dirname := DirnameOf(w, t, key.domainname);
    if dirname.Some? {
      KeyVisits(w, doms, t, key, dirname.value);
      SearchAgain(w, f, doms, l, m, QueryFor(w, t, key, dirname.value), LocalesFor(w, key.category));
    }
  }
}
