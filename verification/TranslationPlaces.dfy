/** Where the files of a domain are looked for, from the binding to the answer: what a program gets that binds a domain,
    selects it and asks for a message (intl/dcigettext.c:503-690, intl/bindtextdom.c, intl/textdomain.c). */
module TranslationPlaces {
  import opened Bindings
  import opened LocaleDomain
  import opened LocaleFile
  import opened LocaleListing
  import opened LocaleRequest
  import opened LocaleSpelling
  import opened Options
  import opened StringOrder
  import opened TranslationSearch
  import opened TranslationState
  import opened Translations

  // ----- the languages

  /** A value that names one locale. */
  predicate OneName(value: CString) {
    value != "" && ':' !in value && '/' !in value && value != "C" && value != "POSIX"
  }

  lemma {:induction false} NoColons(value: CString, i: nat)
    requires i <= |value| && ':' !in value
    ensures Colons(value, i) == i && NameEnd(value, i) == |value|
    decreases |value| - i
  {
    if i < |value| {
      assert value[i] in value;
      NoColons(value, i + 1);
    }
  }

  lemma OneLocale(value: CString, secure: bool)
    requires OneName(value)
    ensures Languages(value, 0, secure) == [value]
  {
    NoColons(value, 0);
    NoColons(value, |value|);
    assert value[0..|value|] == value;
  }

  lemma {:induction false} NoSlashes(value: CString, i: nat, secure: bool)
    requires i <= |value| && '/' !in value
    ensures forall s <- Languages(value, i, secure) :: '/' !in s
    decreases |value| - i
  {
    var j := Colons(value, i);
    if j < |value| {
      var k := NameEnd(value, j);
      NoSlashes(value, k, secure);
    }
  }

  // ----- one search from the start

  /** The node that is made first for a plain name is the file with the name's spelling. */
  lemma FirstFile(f: Naming, x: Where)
    requires Genuine(f) && PlainName(x.locale)
    ensures Find(f, map[], x).0 == SpelledAs(x)
    ensures
      var m := Find(f, map[], x).1;
      SpelledAs(x) in m && !m[SpelledAs(x)].decided
  {
    var q := FullOf(x);
    assert f.spelled(x) == SpelledAs(x) && f.full(x) == NameOf(q) && f.enter(map[], x) == Enter(map[], q);
    FullIsSpelling(DirsOf(x.dirname, x.locale), x.locale, x.xdomainname);
    Entering(map[], q);
    PartsBySyntax(x.locale);
    MaskSupplied(x.locale);
    assert !Decided(q);
  }

  lemma HitFirst(w: World, f: Naming, q: Query, locale: CString, text: string)
    requires Genuine(f) && PlainName(locale)
    requires w.message(SpelledAs(Where(q.dirname, locale, q.xdomainname)), q.codeset, q.msgid) == Some(text)
    ensures
      SearchOne(w, f, map[], q, locale).0 == Some(Found(SpelledAs(Where(q.dirname, locale, q.xdomainname)), text))
  {
    FirstFile(f, Where(q.dirname, locale, q.xdomainname));
  }

  // ----- files under a directory

  /** The name, and the names that the node leads to, begin with the prefix. */
  ghost predicate Under(prefix: string, name: string, e: Entry) {
    prefix <= name && forall n <- e.leads :: prefix <= n
  }

  ghost predicate AllUnder(prefix: string, l: Listing) {
    Complete(l, {}) && forall n {:trigger l[n]} :: n in l ==> Under(prefix, n, l[n])
  }

  lemma InDirectory(dirname: string, q: Request)
    requires q.dirs == [dirname]
    ensures dirname + "/" <= NameOf(q)
  {
    var rest := LocaleWith(q.mask, q.parts) + "/" + q.filename;
    assert NameOf(q) == (dirname + "/") + rest;
  }

  /** All that a request with one directory asks for is there. */
  lemma RequestUnder(dirname: string, q: Request, r: Request)
    requires q.dirs == [dirname] && r in [q] + Successors(q)
    ensures Under(dirname + "/", NameOf(r), EntryOf(r))
  {
    SameDirectory(q, r);
    InDirectory(dirname, r);
    var s := Successors(r);
    forall n | n in NamesOf(s) ensures dirname + "/" <= n {
      var k :| 0 <= k < |s| && NamesOf(s)[k] == n;
      SameDirectory(r, s[k]);
      InDirectory(dirname, s[k]);
    }
  }

  lemma SameDirectory(q: Request, r: Request)
    requires !Several(q) && r in [q] + Successors(q)
    ensures r.dirs == q.dirs
  {
    if r in Successors(q) {
      InSuccessors(q, r);
      InWithMask(q, r.mask, r);
    }
  }

  lemma StaysUnder(f: Naming, l: Listing, x: Where)
    requires Genuine(f) && AllUnder(x.dirname + "/", l) && '/' !in x.locale
    ensures
      var (name, m) := Find(f, l, x);
      AllUnder(x.dirname + "/", m) && name in m
  {
    var q := FullOf(x);
    assert f.spelled(x) == SpelledAs(x) && f.full(x) == NameOf(q) && f.enter(l, x) == Enter(l, q);
    Entering(l, q);
    var m := Enter(l, q);
    forall n {:trigger m[n]} | n in m ensures Under(x.dirname + "/", n, m[n]) {
      if n !in l {
        var r :| r in [q] + Successors(q) && NameOf(r) == n && EntryOf(r) == m[n];
        RequestUnder(x.dirname, q, r);
      } else {
        assert m[n] == l[n];
      }
    }
  }

  lemma {:induction false} NoHit(
    w: World, l: Listing, names: seq<string>, codeset: Option<string>, msgid: string, prefix: string)
    requires forall n <- names :: prefix <= n
    requires forall n {:trigger w.message(n, codeset, msgid)} :: prefix <= n ==> w.message(n, codeset, msgid).None?
    ensures FirstHit(w, l, names, codeset, msgid).None?
  {
    if names != [] {
      assert names[0] in names;
      forall n | n in names[1..] ensures prefix <= n {
        assert n in names;
      }
      NoHit(w, l, names[1..], codeset, msgid, prefix);
    }
  }

  /** Without a message in any file of the directory there is no hit. */
  lemma {:induction false} NothingThere(w: World, f: Naming, l: Listing, q: Query, locales: seq<CString>)
    requires Genuine(f) && AllUnder(q.dirname + "/", l) && forall s <- locales :: '/' !in s
    requires forall n {:trigger w.message(n, q.codeset, q.msgid)} ::
      q.dirname + "/" <= n ==> w.message(n, q.codeset, q.msgid).None?
    ensures Search(w, f, l, q, locales).0.None?
    decreases |locales|
  {
    if locales != [] {
      var (name, m) := Find(f, l, Where(q.dirname, locales[0], q.xdomainname));
      StaysUnder(f, l, Where(q.dirname, locales[0], q.xdomainname));
      assert Under(q.dirname + "/", name, m[name]);
      NoHit(w, m, Candidates(m, name), q.codeset, q.msgid, q.dirname + "/");
      NothingThere(w, f, m, q, locales[1..]);
    }
  }

  // ----- whole runs

  /** A domain is bound to a directory or not, selected, and asked for a message. */
  function Ops(binding: Option<CString>, codeset: Param, d: string, c: Call): seq<Op> {
    (if binding.Some? then [Rebind(Some(d), Present(binding), codeset)] else []) + [SetDefault(Some(d)), Lookup(c)]
  }

  /** The directory that the binding stands for: itself if it is absolute, or else in the working directory. */
  function Base(w: World, binding: Option<CString>): Option<CString> {
    match binding
    case None => Some(w.defaultDirname)
    case Some(dir) =>
      if dir != "" && dir[0] == '/' then Some(dir)
      else if w.cwd.None? then None
      else Some(w.cwd.value + "/" + dir)
  }

  /** The codeset that messages are asked for in. */
  function CodesetOf(binding: Option<CString>, codeset: Param): Option<CString> {
    if binding.Some? && codeset.Present? then codeset.value else None
  }

  ghost predicate Asks(d: string, c: Call, msgid: string) {
    d != "" && c.msgid1 == Some(msgid) && (c.domainname.None? || c.domainname.value == d)
  }

  /** The bindings when the message is asked for. */
  function TableThen(binding: Option<CString>, codeset: Param, d: string): Table {
    if binding.None? then map[]
    else
      var cs := CodesetOf(binding, codeset);
      map[d := Attributes(binding.value, cs, if cs.Some? then 1 else 0)]
  }

  lemma TwoSteps(w: World, f: Naming, s: System, d: string, c: Call, msgid: string)
    requires Asks(d, c, msgid) && s.listing == map[] && s.root == map[]
    ensures
      var outs := Outputs(w, f, s, [SetDefault(Some(d)), Lookup(c)]);
      && |outs| == 2
      && outs[1]
         == Message(Some(AnswerWith(w, c, msgid, Uncached(w, f, s.table, map[], Key(msgid, d, c.category)).0)))
  {
    var s1 := Step(w, f, s, SetDefault(Some(d))).1;
    assert s1.current == d;
    var ops := [SetDefault(Some(d)), Lookup(c)];
    assert ops[1..] == [Lookup(c)] && [Lookup(c)][1..] == [];
    assert Outputs(w, f, s1, [Lookup(c)])
      == [Step(w, f, s1, Lookup(c)).0] + Outputs(w, f, Step(w, f, s1, Lookup(c)).1, []);
  }

  lemma LastAnswer(
    w: World, f: Naming, binding: Option<CString>, codeset: Param, d: string, c: Call, msgid: string)
    requires Asks(d, c, msgid)
    ensures
      var outs := Outputs(w, f, Start(), Ops(binding, codeset, d, c));
      var t := TableThen(binding, codeset, d);
      && outs != []
      && outs[|outs| - 1]
         == Message(Some(AnswerWith(w, c, msgid, Uncached(w, f, t, map[], Key(msgid, d, c.category)).0)))
  {
    var rest := [SetDefault(Some(d)), Lookup(c)];
    if binding.None? {
      assert Ops(binding, codeset, d, c) == rest;
      TwoSteps(w, f, Start(), d, c, msgid);
    } else {
      var op := Rebind(Some(d), Present(binding), codeset);
      var (out, s) := Step(w, f, Start(), op);
      assert s.table == TableThen(binding, codeset, d);
      assert ([op] + rest)[0] == op && ([op] + rest)[1..] == rest;
      TwoSteps(w, f, s, d, c, msgid);
    }
  }

  /** The search that is made. */
  lemma SearchMade(w: World, binding: Option<CString>, codeset: Param, d: string, category: int, msgid: string)
    ensures
      var t := TableThen(binding, codeset, d);
      var base := Base(w, binding);
      && DirnameOf(w, t, d) == base
      && (base.Some? ==>
           QueryFor(w, t, Key(msgid, d, category), base.value)
           == Query(base.value, w.categoryName(category) + "/" + d + ".mo", CodesetOf(binding, codeset), msgid))
  {}

  /** The file of a domain for a locale. */
  function FileOf(w: World, base: string, loc: string, category: int, d: string): string {
    base + "/" + loc + "/" + w.categoryName(category) + "/" + d + ".mo"
  }

  lemma FileIsSpelling(w: World, base: CString, loc: CString, category: int, d: string)
    requires loc != "" && '/' !in loc
    ensures SpelledAs(Where(base, loc, w.categoryName(category) + "/" + d + ".mo")) == FileOf(w, base, loc, category, d)
  {
    assert DirsOf(base, loc) == [base];
    var x, n := base + "/" + loc + "/", w.categoryName(category);
    assert x + (n + "/" + d + ".mo") == x + n + "/" + d + ".mo";
  }

  /** A message in the file of the bound directory is what the program gets. */
  lemma Reached(
    w: World, f: Naming, binding: Option<CString>, codeset: Param, d: string, c: Call, msgid: string, text: string)
    requires Genuine(f) && Asks(d, c, msgid) && Base(w, binding).Some?
    requires OneName(w.categoryValue(c.category)) && PlainName(w.categoryValue(c.category))
    requires
      var file := FileOf(w, Base(w, binding).value, w.categoryValue(c.category), c.category, d);
      w.message(file, CodesetOf(binding, codeset), msgid) == Some(text)
    ensures
      var outs := Outputs(w, f, Start(), Ops(binding, codeset, d, c));
      var file := FileOf(w, Base(w, binding).value, w.categoryValue(c.category), c.category, d);
      && outs != []
      && outs[|outs| - 1] == Message(Some(if c.plural then w.plural(file, c.n, text) else text))
  {
    var base, loc := Base(w, binding).value, w.categoryValue(c.category);
    var t, key := TableThen(binding, codeset, d), Key(msgid, d, c.category);
    LastAnswer(w, f, binding, codeset, d, c, msgid);
    SearchMade(w, binding, codeset, d, c.category, msgid);
    OneLocale(loc, w.secure);
    FileIsSpelling(w, base, loc, c.category, d);
    HitFirst(w, f, QueryFor(w, t, key, base), loc, text);
  }

  /** No file of the bound directory has the message in the codeset asked for. */
  ghost predicate NoneHas(w: World, base: string, codeset: Option<string>, msgid: string) {
    forall n {:trigger w.message(n, codeset, msgid)} :: base + "/" <= n ==> w.message(n, codeset, msgid).None?
  }

  /** With no message in any file of the bound directory, or without a working directory for a relative one, the program
      gets its own string, for a plural message the one for its number. */
  lemma NotReached(
    w: World, f: Naming, binding: Option<CString>, codeset: Param, d: string, c: Call, msgid: string)
    requires Genuine(f) && Asks(d, c, msgid) && '/' !in w.categoryValue(c.category)
    requires Base(w, binding).Some? ==> NoneHas(w, Base(w, binding).value, CodesetOf(binding, codeset), msgid)
    ensures
      var outs := Outputs(w, f, Start(), Ops(binding, codeset, d, c));
      outs != [] && outs[|outs| - 1] == Message(Some(if c.plural && c.n != 1 then c.msgid2 else msgid))
  {
    var t, key := TableThen(binding, codeset, d), Key(msgid, d, c.category);
    LastAnswer(w, f, binding, codeset, d, c, msgid);
    SearchMade(w, binding, codeset, d, c.category, msgid);
    if Base(w, binding).Some? {
      NoSlashes(w.categoryValue(c.category), 0, w.secure);
      NothingThere(w, f, map[], QueryFor(w, t, key, Base(w, binding).value), LocalesFor(w, c.category));
    }
  }

  /** The same of the state that is updated in place. */
  method Ask(w: World, binding: Option<CString>, codeset: Param, d: string, c: Call, msgid: string)
    returns (answer: Out)
    requires Asks(d, c, msgid)
    ensures
      forall base, loc, text {:trigger FileOf(w, base, loc, c.category, d), Some(text)} ::
        && Base(w, binding) == Some(base) && loc == w.categoryValue(c.category) && OneName(loc) && PlainName(loc)
        && w.message(FileOf(w, base, loc, c.category, d), CodesetOf(binding, codeset), msgid) == Some(text)
        ==> answer == Message(
              Some(if c.plural then w.plural(FileOf(w, base, loc, c.category, d), c.n, text) else text))
    ensures
      && '/' !in w.categoryValue(c.category)
      && (Base(w, binding).Some? ==> NoneHas(w, Base(w, binding).value, CodesetOf(binding, codeset), msgid))
      ==> answer == Message(Some(if c.plural && c.n != 1 then c.msgid2 else msgid))
  {
    var outs := Run(w, Ops(binding, codeset, d, c), _ => true);
    LastAnswer(w, TheNaming(), binding, codeset, d, c, msgid);
    answer := outs[|outs| - 1];
    forall base, loc, text {:trigger FileOf(w, base, loc, c.category, d), Some(text)} |
      && Base(w, binding) == Some(base) && loc == w.categoryValue(c.category) && OneName(loc) && PlainName(loc)
      && w.message(FileOf(w, base, loc, c.category, d), CodesetOf(binding, codeset), msgid) == Some(text)
      ensures answer == Message(
        Some(if c.plural then w.plural(FileOf(w, base, loc, c.category, d), c.n, text) else text))
    {
      Reached(w, TheNaming(), binding, codeset, d, c, msgid, text);
    }
    if && '/' !in w.categoryValue(c.category)
      && (Base(w, binding).Some? ==> NoneHas(w, Base(w, binding).value, CodesetOf(binding, codeset), msgid))
    {
      NotReached(w, TheNaming(), binding, codeset, d, c, msgid);
    }
  }

  /** Asked without new values, a domain tells the directory and the codeset it was bound to before; without a binding,
      the default directory and no codeset. */
  lemma AskedBack(w: World, f: Naming, binding: Option<CString>, codeset: Param, d: string)
    requires d != ""
    ensures
      var ask := Rebind(Some(d), Present(None), Present(None));
      var ops := (if binding.Some? then [Rebind(Some(d), Present(binding), codeset)] else []) + [ask];
      var outs := Outputs(w, f, Start(), ops);
      && outs != []
      && outs[|outs| - 1] == Out.Bindings(
           (Present(Some(if binding.Some? then binding.value else w.defaultDirname)),
             Present(CodesetOf(binding, codeset))))
  {
    var ask := Rebind(Some(d), Present(None), Present(None));
    assert [ask][1..] == [];
    if binding.None? {
      assert [] + [ask] == [ask];
    } else {
      var op := Rebind(Some(d), Present(binding), codeset);
      var s := Step(w, f, Start(), op).1;
      assert s.table == TableThen(binding, codeset, d);
      assert ([op] + [ask])[0] == op && ([op] + [ask])[1..] == [ask];
      assert Outputs(w, f, s, [ask]) == [Step(w, f, s, ask).0] + Outputs(w, f, Step(w, f, s, ask).1, []);
    }
  }

  /** The default domain is the one that was selected last; asked for none it stays, and selecting the empty name brings
      back `messages`, which it is at the start. */
  lemma Selected(w: World, f: Naming, d: string)
    ensures
      Outputs(w, f, Start(), [SetDefault(None), SetDefault(Some(d)), SetDefault(None)])
      == [Default("messages"), Default(if d == "" then "messages" else d), Default(if d == "" then "messages" else d)]
  {
    var ops := [SetDefault(None), SetDefault(Some(d)), SetDefault(None)];
    var s1 := Step(w, f, Start(), ops[0]).1;
    var s2 := Step(w, f, s1, ops[1]).1;
    var s3 := Step(w, f, s2, ops[2]).1;
    assert ops[1..][0] == ops[1] && ops[1..][1..] == [ops[2]] && [ops[2]][1..] == [];
    assert Outputs(w, f, s2, [ops[2]]) == [Step(w, f, s2, ops[2]).0] + Outputs(w, f, s3, []);
    assert Outputs(w, f, s1, ops[1..]) == [Step(w, f, s1, ops[1]).0] + Outputs(w, f, s2, [ops[2]]);
  }
}
