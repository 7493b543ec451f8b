/** For which locale names the table of known translations gives the answers of a search: the condition is on the
    names alone. */
module TranslationNames {
  import opened LocaleDomain
  import opened LocaleExplode
  import opened LocaleFile
  import opened LocaleListing
  import opened LocaleLookups
  import opened LocaleMask
  import opened LocaleName
  import opened LocaleNormalized
  import opened LocaleRequest
  import opened LocaleSpelling
  import opened LocaleTwice
  import opened Options
  import opened StringOrder
  import opened TranslationSearch
  import opened Translations

  // ----- plain names

  /** If all locales that are tried have plain names, no search depends on the ones before. */
  lemma PlainSteady(w: World, doms: string -> bool)
    requires forall c, s :: s in LocalesFor(w, c) ==> PlainName(s)
    ensures Steady(w, doms)
  {
    forall x | Visits(w, doms, x) ensures SpelledAs(x) == NameOf(FullOf(x)) {
      FullIsSpelling(DirsOf(x.dirname, x.locale), x.locale, x.xdomainname);
    }
  }

  // ----- one language for each category

  predicate Flat(s: string) {
    '/' !in s
  }

  /** Every category has one language at most, categories with the same name the same one, and there are no slashes in
      names of categories and languages. */
  ghost predicate OneLanguage(w: World) {
    && (forall c {:trigger LocalesFor(w, c)} :: |LocalesFor(w, c)| <= 1)
    && (forall c, d {:trigger w.categoryName(c), w.categoryName(d)} ::
         w.categoryName(c) == w.categoryName(d) ==> LocalesFor(w, c) == LocalesFor(w, d))
    && (forall c {:trigger w.categoryName(c)} :: Flat(w.categoryName(c)))
    && forall c, s {:trigger s in LocalesFor(w, c)} :: s in LocalesFor(w, c) ==> Flat(s)
  }

  ghost predicate NoTwoForms(w: World) {
    forall c, s :: s in LocalesFor(w, c) ==> !TwoForms(s)
  }

  lemma PieceFlat(s: string, cut: Option<nat>, next: nat)
    requires Flat(s)
    ensures Piece(s, cut, next).Some? ==> Flat(Piece(s, cut, next).value)
  {}

  ghost predicate FlatPart(p: Option<string>) {
    p.Some? ==> Flat(p.value)
  }

  lemma PartsFlat(s: string)
    requires Flat(s)
    ensures
      var p := PartsOf(s);
      && Flat(p.language) && FlatPart(p.territory) && FlatPart(p.codeset) && FlatPart(p.normalized)
      && FlatPart(p.modifier) && FlatPart(p.special) && FlatPart(p.sponsor) && FlatPart(p.revision)
  {
    var c, x := CutsOf(s), StartsOf(CutsOf(s), |s|);
    PieceFlat(s, c.terr, x.cs);
    PieceFlat(s, c.cs, x.mod);
    PieceFlat(s, c.mod, x.spec);
    PieceFlat(s, c.spec, x.spon);
    PieceFlat(s, c.spon, x.rev);
    PieceFlat(s, c.rev, |s|);
    NormalizedIf(s);
    if PartsOf(s).codeset.Some? {
      NormalizeLow(PartsOf(s).codeset.value);
    }
  }

  lemma OptionalFlat(there: bool, sep: char, p: Option<string>)
    requires FlatPart(p) && sep != '/'
    ensures Flat(Optional(there, sep, p))
  {}

  lemma JoinFlat(a: string, b: string, c: string, d: string, e: string, f: string, g: string)
    requires Flat(a) && Flat(b) && Flat(c) && Flat(d) && Flat(e) && Flat(f) && Flat(g)
    ensures Flat(a + b + c + d + e + f + g)
  {}

  lemma LocaleFlat(s: string, c: Mask)
    requires Flat(s)
    ensures Flat(LocaleWith(c, PartsOf(s)))
  {
    var p := PartsOf(s);
    PartsFlat(s);
    var sep := if Has(c, CEN_AUDIENCE) then '+' else '@';
    OptionalFlat(Has(c, TERRITORY), '_', p.territory);
    OptionalFlat(Has(c, XPG_CODESET), '.', p.codeset);
    OptionalFlat(Has(c, XPG_NORM_CODESET), '.', p.normalized);
    OptionalFlat(Has(c, XPG_MODIFIER | CEN_AUDIENCE), sep, p.modifier);
    OptionalFlat(Has(c, CEN_SPECIAL), '+', p.special);
    OptionalFlat(Has(c, CEN_REVISION), '_', p.revision);
    assert Flat(SponsorPart(c, p));
    JoinFlat(
      p.language, Optional(Has(c, TERRITORY), '_', p.territory), Optional(Has(c, XPG_CODESET), '.', p.codeset),
      Optional(Has(c, XPG_NORM_CODESET), '.', p.normalized),
      Optional(Has(c, XPG_MODIFIER | CEN_AUDIENCE), sep, p.modifier), Optional(Has(c, CEN_SPECIAL), '+', p.special),
      SponsorPart(c, p));
  }

  /** Cut at the last slash. */
  lemma LastSlash(a: string, u: string, b: string, v: string)
    requires a + "/" + u == b + "/" + v && Flat(u) && Flat(v)
    ensures a == b && u == v
  {
    var x := a + "/" + u;
    assert x[|a|] == '/' && x[|b|] == '/';
    forall k | |a| < k < |x| ensures x[k] != '/' {
      assert x[k] == u[k - |a| - 1];
    }
    forall k | |b| < k < |x| ensures x[k] != '/' {
      assert x[k] == v[k - |b| - 1];
    }
    assert x[..|a|] == a && x[..|b|] == b && x[|a| + 1..] == u && x[|b| + 1..] == v;
  }

  lemma Slashes(head: string, category: string, domain: string)
    ensures head + "/" + (category + "/" + domain + ".mo") == head + "/" + category + "/" + (domain + ".mo")
  {}

  lemma FlatDirectory(dirname: string, s: string)
    requires Flat(s)
    ensures DirsOf(dirname, s) == [dirname] && Directory([dirname]) == dirname + "/"
  {}

  /** Two files are the same only if directory, locale, category and domain are. */
  lemma SameFile(
    dirname: string, x: string, category: string, domain: string,
    dirname': string, x': string, category': string, domain': string)
    requires Flat(x) && Flat(category) && Flat(domain) && Flat(x') && Flat(category') && Flat(domain')
    requires dirname + "/" + x + "/" + (category + "/" + domain + ".mo")
          == dirname' + "/" + x' + "/" + (category' + "/" + domain' + ".mo")
    ensures x == x' && category == category'
  {
    var head, head' := dirname + "/" + x, dirname' + "/" + x';
    Slashes(head, category, domain);
    Slashes(head', category', domain');
    LastSlash(head + "/" + category, domain + ".mo", head' + "/" + category', domain' + ".mo");
    LastSlash(head, category, head', category');
    LastSlash(dirname, x, dirname', x');
  }

  /** If the file for some of the parts of one name is that of the other as it is spelled, the names are the same. */
  lemma SameLocale(w: World, x: Where, y: Where, b: Mask)
    requires OneLanguage(w) && Visits(w, Flat, x) && Visits(w, Flat, y)
    requires NameOf(FullOf(y).(mask := b)) == SpelledAs(x)
    ensures x.locale == y.locale && LocaleWith(b, PartsOf(y.locale)) == x.locale
  {
    var c, d :| x.locale in LocalesFor(w, c) && Flat(d) && x.xdomainname == XDomainname(w, c, d);
    var c', d' :| y.locale in LocalesFor(w, c') && Flat(d') && y.xdomainname == XDomainname(w, c', d');
    LocaleFlat(y.locale, b);
    FlatDirectory(x.dirname, x.locale);
    FlatDirectory(y.dirname, y.locale);
    SameFile(
      x.dirname, x.locale, w.categoryName(c), d, y.dirname, LocaleWith(b, PartsOf(y.locale)), w.categoryName(c'), d');
    Alone(LocalesFor(w, c), x.locale, y.locale);
  }

  lemma Alone<T>(l: seq<T>, a: T, b: T)
    requires |l| <= 1 && a in l && b in l
    ensures a == b
  {}

  /** A name that is one of the names tried for it, but has not two forms, is plain. */
  lemma PlainThen(s: string, b: Mask)
    requires b == MaskOf(s) || b in Inherited(MaskOf(s), false)
    requires LocaleWith(b, PartsOf(s)) == s && !TwoForms(s)
    ensures PlainName(s)
  {
    if !Spellable(PartsOf(s), CutsOf(s).syntax) {
      NotSpelled(s, b);
    }
  }

  lemma PlainFull(x: Where)
    requires PlainName(x.locale)
    ensures SpelledAs(x) == NameOf(FullOf(x))
  {
    FullIsSpelling(DirsOf(x.dirname, x.locale), x.locale, x.xdomainname);
  }

  lemma AskedOf(y: Where, name: string) returns (b: Mask)
    requires AsksFor(FullOf(y), name)
    ensures b == MaskOf(y.locale) || b in Inherited(MaskOf(y.locale), false)
    ensures NameOf(FullOf(y).(mask := b)) == name
  {
    b := AskedBy(FullOf(y), name);
  }

  lemma OnlyItsOwn(w: World, x: Where, y: Where)
    requires OneLanguage(w) && NoTwoForms(w) && Visits(w, Flat, x) && Visits(w, Flat, y)
    requires AsksFor(FullOf(y), SpelledAs(x))
    ensures SpelledAs(x) == NameOf(FullOf(x))
  {
    var b := AskedOf(y, SpelledAs(x));
    SameLocale(w, x, y, b);
    PlainThen(x.locale, b);
    PlainFull(x);
  }

  /** Then it is enough that no name has two forms. */
  lemma OneLanguageSteady(w: World)
    requires OneLanguage(w) && NoTwoForms(w)
    ensures Steady(w, Flat)
  {
    forall x, y | Visits(w, Flat, x) && Visits(w, Flat, y) && AsksFor(FullOf(y), SpelledAs(x))
      ensures SpelledAs(x) == NameOf(FullOf(x))
    {
      OnlyItsOwn(w, x, y);
    }
  }

  // ----- a name with two forms

  /** What is in the files: one translation in one file, another in another. */
  function TwoMessages(file: string, language: string): (string, Option<string>, string) -> Option<string> {
    (name: string, codeset: Option<string>, msgid: string) =>
      if name == file then Some("found") else if name == language then Some("other") else None
  }

  /** The files that make a difference for a locale, and what is in them. */
  function Telling(
    s: string, dirname: string, xdomainname: string): (string, Option<string>, string) -> Option<string> {
    TwoMessages(
      OnceFile(DirsOf(dirname, s), s, xdomainname), LanguageFileOf(DirsOf(dirname, s), s, xdomainname))
  }

  lemma {:induction false} FirstFound(
    w: World, l: Listing, names: seq<string>, i: nat, file: string, language: string, codeset: Option<string>,
    msgid: string)
    requires w.message == TwoMessages(file, language) && IsFile(l, file)
    requires Precedes(names, i, file, language)
    ensures FirstHit(w, l, names, codeset, msgid) == Some(Found(file, "found"))
  {
    if names[0] != file {
      FirstFound(w, l, names[1..], i - 1, file, language, codeset, msgid);
    }
  }

  lemma {:induction false} OtherFound(
    w: World, l: Listing, names: seq<string>, file: string, language: string, codeset: Option<string>, msgid: string)
    requires w.message == TwoMessages(file, language) && IsFile(l, language)
    requires language in names && file !in names
    ensures FirstHit(w, l, names, codeset, msgid) == Some(Found(language, "other"))
  {
    if names[0] != language {
      OtherFound(w, l, names[1..], file, language, codeset, msgid);
    }
  }

  lemma SearchedApart(f: Naming, x: Where, s: string) returns (m: Listing, i: nat)
    requires Genuine(f) && TwoForms(s) && s == x.locale
    ensures
      var dirs := DirsOf(x.dirname, s);
      && Find(f, map[], x) == (f.full(x), m) && Find(f, m, x) == (f.spelled(x), m)
      && Apart(
           m, f.full(x), f.spelled(x), i, OnceFile(dirs, s, x.xdomainname), LanguageFileOf(dirs, s, x.xdomainname))
  {
    var found, i' := LookApart(DirsOf(x.dirname, s), s, x.xdomainname);
    m, i := found, i';
    Finding(f, map[], x);
    Finding(f, m, x);
    assert f.spelled(x) == SpelledAs(x) && f.full(x) == NameOf(FullOf(x));
  }

  /** The first search finds what the second does not. */
  lemma TwoSearches(w: World, f: Naming, q: Query, s: CString)
    requires Genuine(f) && TwoForms(s) && w.message == Telling(s, q.dirname, q.xdomainname)
    ensures
      var (hit, m) := SearchOne(w, f, map[], q, s);
      var (again, m') := SearchOne(w, f, m, q, s);
      hit.Some? && hit.value.text == "found" && again.Some? && again.value.text == "other" && m' == m
  {
    var x := Where(q.dirname, s, q.xdomainname);
    var file, language :=
      OnceFile(DirsOf(q.dirname, s), s, q.xdomainname), LanguageFileOf(DirsOf(q.dirname, s), s, q.xdomainname);
    var m, i := SearchedApart(f, x, s);
    FirstFound(w, m, Candidates(m, f.full(x)), i, file, language, q.codeset, q.msgid);
    OtherFound(w, m, Candidates(m, f.spelled(x)), file, language, q.codeset, q.msgid);
  }

  /** The call twice, for the default domain. */
  function AskTwice(category: int): seq<Op> {
    var lookup := Lookup(Call(None, Some("msgid"), "", false, 0, category));
    [lookup, lookup]
  }

  function TheKey(c: int): Key {
    Key("msgid", DEFAULT_DOMAIN, c)
  }

  lemma CachedTwice(w: World, f: Naming, c: int, hit: Found, m: Listing)
    requires Uncached(w, f, map[], map[], TheKey(c)) == (Some(hit), m)
    ensures Outputs(w, f, Start(), AskTwice(c)) == [Message(Some(hit.text)), Message(Some(hit.text))]
  {
    var ops := AskTwice(c);
    var op := ops[0];
    assert ops[1..] == [op] && [op][1..] == [];
    var s1 := System(map[], 0, m, map[TheKey(c) := Known(0, hit)], DEFAULT_DOMAIN);
    assert Step(w, f, Start(), op) == (Message(Some(hit.text)), s1);
    assert Step(w, f, s1, op) == (Message(Some(hit.text)), s1);
    Unfold(w, f, Start(), ops);
    Unfold(w, f, s1, [op]);
  }

  lemma SearchedTwice(w: World, f: Naming, c: int, hit: Found, again: Found, m: Listing)
    requires Uncached(w, f, map[], map[], TheKey(c)) == (Some(hit), m)
    requires Uncached(w, f, map[], m, TheKey(c)) == (Some(again), m)
    ensures PlainOutputs(w, f, Plain(Start()), AskTwice(c)) == [Message(Some(hit.text)), Message(Some(again.text))]
  {
    var ops := AskTwice(c);
    var op := ops[0];
    assert ops[1..] == [op] && [op][1..] == [];
    var p0, p1 := Plain(Start()), Plainly(map[], m, DEFAULT_DOMAIN);
    assert PlainStep(w, f, p0, op) == (Message(Some(hit.text)), p1);
    assert PlainStep(w, f, p1, op) == (Message(Some(again.text)), p1);
    UnfoldPlain(w, f, p0, ops);
    UnfoldPlain(w, f, p1, [op]);
  }

  /** The first language of the category. */
  ghost predicate FirstLanguage(w: World, c: int, s: CString) {
    LocalesFor(w, c) != [] && LocalesFor(w, c)[0] == s
  }

  lemma UncachedOne(w: World, f: Naming, l: Listing, c: int, s: CString, q: Query)
    requires FirstLanguage(w, c, s) && q == QueryFor(w, map[], TheKey(c), w.defaultDirname)
    requires SearchOne(w, f, l, q, s).0.Some?
    ensures Uncached(w, f, map[], l, TheKey(c)) == SearchOne(w, f, l, q, s)
  {}

  /** So the known translation is not what a search gives. */
  lemma AnswersDiffer(w: World, f: Naming, c: int, s: CString)
    requires Genuine(f) && FirstLanguage(w, c, s) && TwoForms(s)
    requires w.message == Telling(s, w.defaultDirname, XDomainname(w, c, DEFAULT_DOMAIN))
    ensures Outputs(w, f, Start(), AskTwice(c)) == [Message(Some("found")), Message(Some("found"))]
    ensures PlainOutputs(w, f, Plain(Start()), AskTwice(c)) == [Message(Some("found")), Message(Some("other"))]
  {
    var q := QueryFor(w, map[], TheKey(c), w.defaultDirname);
    var (hit, m) := SearchOne(w, f, map[], q, s);
    TwoSearches(w, f, q, s);
    UncachedOne(w, f, map[], c, s, q);
    UncachedOne(w, f, m, c, s, q);
    CachedTwice(w, f, c, hit.value, m);
    SearchedTwice(w, f, c, hit.value, SearchOne(w, f, m, q, s).0.value, m);
  }

  lemma Unfold(w: World, f: Naming, s: System, ops: seq<Op>)
    requires ops != []
    ensures Outputs(w, f, s, ops) == [Step(w, f, s, ops[0]).0] + Outputs(w, f, Step(w, f, s, ops[0]).1, ops[1..])
  {}

  lemma UnfoldPlain(w: World, f: Naming, s: Plainly, ops: seq<Op>)
    requires ops != []
    ensures
      PlainOutputs(w, f, s, ops)
        == [PlainStep(w, f, s, ops[0]).0] + PlainOutputs(w, f, PlainStep(w, f, s, ops[0]).1, ops[1..])
  {}

  // ----- both directions

  /** The answers are those of the system that searches every time, whatever is in the files and whatever is done. */
  ghost predicate AlwaysTheSame(w: World, f: Naming) {
    forall message, ops {:trigger Outputs(w.(message := message), f, Start(), ops)} ::
      AllName(Flat, ops) ==>
        Outputs(w.(message := message), f, Start(), ops) == PlainOutputs(w.(message := message), f, Plain(Start()), ops)
  }

  lemma SameLocales(w: World, message: (string, Option<string>, string) -> Option<string>, c: int)
    ensures LocalesFor(w.(message := message), c) == LocalesFor(w, c)
  {}

  lemma WithMessage(w: World, message: (string, Option<string>, string) -> Option<string>)
    requires OneLanguage(w) && NoTwoForms(w)
    ensures OneLanguage(w.(message := message)) && NoTwoForms(w.(message := message))
  {
    var v := w.(message := message);
    forall c ensures LocalesFor(v, c) == LocalesFor(w, c) && v.categoryName(c) == w.categoryName(c) {
      SameLocales(w, message, c);
    }
  }

  lemma SameIf(w: World, f: Naming)
    requires Genuine(f) && OneLanguage(w) && NoTwoForms(w)
    ensures AlwaysTheSame(w, f)
  {
    forall message, ops | AllName(Flat, ops)
      ensures Outputs(w.(message := message), f, Start(), ops)
           == PlainOutputs(w.(message := message), f, Plain(Start()), ops)
    {
      WithMessage(w, message);
      OneLanguageSteady(w.(message := message));
      SameFromStart(w.(message := message), f, Flat, ops);
    }
  }

  /** Whatever languages follow: if the first one of a category has two forms, they are not. */
  lemma FirstLanguageDiffers(w: World, f: Naming, c: int, s: CString)
    requires Genuine(f) && FirstLanguage(w, c, s) && TwoForms(s)
    ensures !AlwaysTheSame(w, f)
  {
    var message := Telling(s, w.defaultDirname, XDomainname(w, c, DEFAULT_DOMAIN));
    SameLocales(w, message, c);
    AnswersDiffer(w.(message := message), f, c, s);
    assert AllName(Flat, AskTwice(c));
  }

  lemma WithTwoForms(w: World) returns (c: int, s: CString)
    requires !NoTwoForms(w)
    ensures s in LocalesFor(w, c) && TwoForms(s) == true
  {
    c, s :| s in LocalesFor(w, c) && TwoForms(s) == true;
  }

  lemma OnlyOne<T>(l: seq<T>, a: T)
    requires |l| <= 1 && a in l
    ensures l == [a]
  {}

  /** With one language for each category: the answers are always the same if and only if no name of a language has
      two forms. */
  lemma AlwaysTheSameIf(w: World, f: Naming)
    requires Genuine(f) && OneLanguage(w)
    ensures AlwaysTheSame(w, f) <==> NoTwoForms(w)
  {
    if NoTwoForms(w) {
      SameIf(w, f);
    } else {
      var c, s := WithTwoForms(w);
      OnlyOne(LocalesFor(w, c), s);
      FirstLanguageDiffers(w, f, c, s);
    }
  }
}
