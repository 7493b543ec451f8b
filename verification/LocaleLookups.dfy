/** Two lookups, one after the other: of the same name, and of two names that share a file name
    (intl/finddomain.c:85-170). */
module LocaleLookups {
  import opened LocaleClash
  import opened LocaleDomain
  import opened LocaleList
  import opened LocaleListing
  import opened LocaleName
  import opened LocaleNormalized
  import opened LocaleRequest
  import opened LocaleSpelling
  import opened LocaleTwice
  import opened Options

  /** The name is listed, and is the file or leads to it. */
  ghost predicate LeadsTo(l: Listing, n: string, file: string) {
    n in l && file in Candidates(l, n)
  }

  /** The file that only the first lookup tries. */
  function OnceFile(dirs: seq<string>, s: string, filename: string): string {
    var q := Full(dirs, s, filename);
    NameOf(q.(mask := OnlyFirst(q.parts)))
  }

  /** Two lookups of a name with two forms, both not listed before: they end at different nodes, of which only the
      first leads to that file. */
  lemma LookTwice(l: Listing, dirs: seq<string>, s: string, filename: string)
    requires Complete(l, {}) && |dirs| <= 1 && TwoForms(s)
    requires Spelled(dirs, s, filename) !in l && NameOf(Full(dirs, s, filename)) !in l
    ensures
      var n, m := NameOf(Full(dirs, s, filename)), Enter(l, Full(dirs, s, filename));
      var file := OnceFile(dirs, s, filename);
      && FindIn(l, dirs, s, filename) == (n, m)
      && FindIn(m, dirs, s, filename) == (Spelled(dirs, s, filename), m) && Complete(m, {})
      && LeadsTo(m, n, file) && Spelled(dirs, s, filename) in m && !LeadsTo(m, Spelled(dirs, s, filename), file)
      && file in m && (file !in l ==> !m[file].decided)
  {
    var q, name, file := Full(dirs, s, filename), Spelled(dirs, s, filename), OnceFile(dirs, s, filename);
    var m := Enter(l, q);
    Entering(l, q);
    SpellingAsked(q, s);
    TriedOnce(q, s);
    FullIsSpelling(dirs, s, filename);
    LeadsListed(m, q, name);
    LeadsListed(m, q, file);
    LeadsAsAsked(m, q, file);
    var r := MadeFor(q, m, name);
    LeadsAsAsked(m, r, file);
    if file !in l {
      var r' := MadeFor(q, m, file);
    }
  }

  /** The request that a new entry is for. */
  lemma MadeFor(q: Request, m: Listing, n: string) returns (r: Request)
    requires n in m && For(q, n, m[n])
    ensures r in [q] + Successors(q) && NameOf(r) == n && EntryOf(r) == m[n]
  {
    r :| r in [q] + Successors(q) && NameOf(r) == n && EntryOf(r) == m[n];
  }

  lemma LeadsAsAsked(m: Listing, r: Request, file: string)
    requires NameOf(r) in m && m[NameOf(r)] == EntryOf(r)
    ensures LeadsTo(m, NameOf(r), file) <==> AsksFor(r, file)
  {
    assert Candidates(m, NameOf(r)) == [NameOf(r)] + NamesOf(Successors(r));
  }

  /** The file for the language alone. */
  function LanguageFileOf(dirs: seq<string>, s: string, filename: string): string {
    NameOf(Full(dirs, s, filename).(mask := 0))
  }

  /** The i-th name is the file, and nothing up to it is the other. */
  ghost predicate Precedes(names: seq<string>, i: nat, file: string, other: string) {
    i < |names| && names[i] == file && forall j :: 0 <= j <= i ==> names[j] != other
  }

  /** Both nodes lead to the file for the language alone, the first one after that file. */
  lemma LookTwiceOrder(l: Listing, dirs: seq<string>, s: string, filename: string) returns (i: nat)
    requires Complete(l, {}) && |dirs| <= 1 && TwoForms(s)
    requires Spelled(dirs, s, filename) !in l && NameOf(Full(dirs, s, filename)) !in l
    ensures
      var q := Full(dirs, s, filename);
      var m := Enter(l, q);
      var language := LanguageFileOf(dirs, s, filename);
      && LeadsTo(m, Spelled(dirs, s, filename), language)
      && language in m && (language !in l ==> !m[language].decided)
      && Precedes(Candidates(m, NameOf(q)), i, OnceFile(dirs, s, filename), language) == true
  {
    var q, name, language := Full(dirs, s, filename), Spelled(dirs, s, filename), LanguageFileOf(dirs, s, filename);
    var m := Enter(l, q);
    Entering(l, q);
    SpellingAsked(q, s);
    LeadsListed(m, q, name);
    var r := MadeFor(q, m, name);
    LanguageLast(q, s, r);
    LeadsAsAsked(m, r, language);
    AsksForInherited(q, r, language);
    LeadsListed(m, q, language);
    if language !in l {
      var r' := MadeFor(q, m, language);
      LanguageLast(q, s, r');
    }
    i := FileBeforeLanguage(q, s);
  }

  /** What the two lookups go through: the first nodes up to the file that only the first one leads to, the second ones
      on to the file for the language alone. */
  ghost predicate Apart(m: Listing, full: string, spelled: string, i: nat, file: string, language: string) {
    && IsFile(m, file) && IsFile(m, language) && Precedes(Candidates(m, full), i, file, language)
    && LeadsTo(m, spelled, language) && !LeadsTo(m, spelled, file)
  }

  lemma LookApart(dirs: seq<string>, s: string, filename: string) returns (m: Listing, i: nat)
    requires |dirs| <= 1 && TwoForms(s)
    ensures
      var full, name := NameOf(Full(dirs, s, filename)), Spelled(dirs, s, filename);
      && m == Enter(map[], Full(dirs, s, filename)) && FindIn(map[], dirs, s, filename) == (full, m)
      && FindIn(m, dirs, s, filename) == (name, m)
      && Apart(m, full, name, i, OnceFile(dirs, s, filename), LanguageFileOf(dirs, s, filename)) == true
  {
    LookTwice(map[], dirs, s, filename);
    i := LookTwiceOrder(map[], dirs, s, filename);
    m := Enter(map[], Full(dirs, s, filename));
  }

  lemma LeadsListed(m: Listing, q: Request, name: string)
    requires Complete(m, {}) && NameOf(q) in m && m[NameOf(q)] == EntryOf(q) && AsksFor(q, name)
    ensures name in m
  {
    if NameOf(q) != name {
      assert AllIn(m[NameOf(q)].leads, m);
    }
  }

  lemma ReachesIn(l: L10nList, n: Node, name: string)
    requires l.Valid({}) && n in l.nodes
    ensures Reaches(n, name) <==> LeadsTo(l.listing, n.filename, name)
  {
    FoundIn(l, n);
    ValidList(l);
    ReachesAsked(l, n, name);
  }

  lemma NotYet(l: L10nList, name: string)
    requires l.Valid({}) && !Listed(l.nodes, name)
    ensures name !in l.listing
  {}

  /** Looking up a name twice gives the same node, unless the first lookup is the first of its names at all and the
      name is one that can be spelled out but is not plain. Then the second node does not lead to all files that the
      first does. */
  method FindTwice(list: L10nList, dirname: string, locale: array<char>, again: array<char>, domainname: string)
    returns (r: Node, r': Node)
    requires list.Valid({}) && '\0' !in dirname
    requires 0 < locale.Length && locale[locale.Length - 1] == '\0' && '\0' !in locale[..locale.Length - 1]
    requires again != locale && again[..] == locale[..]
    modifies list, locale, again
    ensures list.Valid({}) && r in list.nodes && r' in list.nodes
    ensures
      var s := old(locale[..locale.Length - 1]);
      var dirs := DirsOf(dirname, s);
      && (r != r'
          <==> TwoForms(s) && !Listed(old(list.nodes), Spelled(dirs, s, domainname))
               && !Listed(old(list.nodes), NameOf(Full(dirs, s, domainname))))
      && (r != r' ==>
           Reaches(r, OnceFile(dirs, s, domainname)) && !Reaches(r', OnceFile(dirs, s, domainname)))
  {
    ghost var s, l := locale[..locale.Length - 1], list.listing;
    ghost var dirs := DirsOf(dirname, s);
    SameName(again, locale);
    ghost var before := list.nodes;
    if !Listed(before, Spelled(dirs, s, domainname)) && !Listed(before, NameOf(Full(dirs, s, domainname))) {
      NotYet(list, Spelled(dirs, s, domainname));
      NotYet(list, NameOf(Full(dirs, s, domainname)));
    }
    ListComplete(list);
    r := FindDomain(list, dirname, locale, domainname);
    r' := FindDomain(list, dirname, again, domainname);
    FullIsSpelling(dirs, s, domainname);
    OneNode(list, r, r');
    if r != r' {
      LookTwice(l, dirs, s, domainname);
      ReachesIn(list, r, OnceFile(dirs, s, domainname));
      ReachesIn(list, r', OnceFile(dirs, s, domainname));
    }
  }

  lemma SameName(a: array<char>, b: array<char>)
    requires a[..] == b[..] && 0 < b.Length
    ensures a.Length == b.Length && a[..a.Length - 1] == b[..b.Length - 1] && a[a.Length - 1] == b[b.Length - 1]
  {
    assert |a[..]| == a.Length && |b[..]| == b.Length;
    assert a[..][..a.Length - 1] == b[..][..a.Length - 1] && a[..][a.Length - 1] == b[..][a.Length - 1];
  }

  // ----- of two names

  lemma OnlyFor(q: Request, m: Listing, n: string, name: string)
    requires LeadsTo(m, n, name) && For(q, n, m[n])
    ensures AsksFor(q, name)
  {
    var r := MadeFor(q, m, n);
    LeadsAsAsked(m, r, name);
    AsksForInherited(q, r, name);
  }

  /** In an empty list, looking up the longer name and then the shorter one: the shorter one as it is spelled is not
      among the files of its node, though it would be without the lookup before. */
  lemma LookBoth(dirs: seq<string>, lang: string, terr: string, cs: string, filename: string)
    requires Clean(lang, terr, cs) && Normalize(cs) != cs && |dirs| <= 1
    ensures
      var s := XpgName(lang, terr, cs, None);
      var (n2, m) := FindIn(map[], dirs, Twice(lang, terr, cs), filename);
      var (n, m') := FindIn(m, dirs, s, filename);
      var (n0, m0) := FindIn(map[], dirs, s, filename);
      && Complete(m, {}) && !LeadsTo(m', n, Spelled(dirs, s, filename)) && LeadsTo(m0, n0, Spelled(dirs, s, filename))
  {
    var s, s2 := XpgName(lang, terr, cs, None), Twice(lang, terr, cs);
    var q, q2, name := Full(dirs, s, filename), Full(dirs, s2, filename), Spelled(dirs, s, filename);
    var m := Enter(map[], q2);
    NotAskedByOther(dirs, lang, terr, cs, filename);
    TakenByAnother(dirs, lang, terr, cs, filename);
    Entering(map[], q2);
    Entering(map[], q);
    if name in m {
      OnlyFor(q2, m, name, name);
    }
    LeadsListed(m, q2, NameOf(q));
    if LeadsTo(m, NameOf(q), name) {
      OnlyFor(q2, m, NameOf(q), name);
    }
  }

  lemma SameDirectory(dirname: string, lang: string, terr: string, cs: string)
    requires lang != ""
    ensures DirsOf(dirname, Twice(lang, terr, cs)) == DirsOf(dirname, XpgName(lang, terr, cs, None))
  {
    assert Twice(lang, terr, cs)[0] == lang[0] == XpgName(lang, terr, cs, None)[0];
  }

  /** Two lookups in an empty list. */
  method FindOneThenOther(
    dirname: string, one: array<char>, other: array<char>, domainname: string, ghost s: string, ghost s': string)
    returns (list: L10nList, r: Node)
    requires '\0' !in dirname && one != other && '\0' !in s && '\0' !in s'
    requires one[..] == s + ['\0'] && other[..] == s' + ['\0']
    modifies one, other
    ensures list.Valid({}) && r in list.nodes
    ensures
      (r.filename, list.listing)
      == FindIn(FindIn(map[], DirsOf(dirname, s), s, domainname).1, DirsOf(dirname, s'), s', domainname)
  {
    Ended(one, s);
    Ended(other, s');
    list := new L10nList();
    var before := FindDomain(list, dirname, one, domainname);
    assert list.listing == FindIn(map[], DirsOf(dirname, s), s, domainname).1;
    r := FindDomain(list, dirname, other, domainname);
  }

  /** The two lookups of `LookBoth`. */
  method FindBoth(
    dirname: string, longer: array<char>, locale: array<char>, domainname: string,
    ghost lang: string, ghost terr: string, ghost cs: string, ghost s: string)
    returns (r: Node)
    requires '\0' !in dirname && longer != locale && Clean(lang, terr, cs) && Normalize(cs) != cs
    requires '\0' !in lang && '\0' !in terr && '\0' !in cs && s == XpgName(lang, terr, cs, None)
    requires longer[..] == Twice(lang, terr, cs) + ['\0'] && locale[..] == s + ['\0']
    modifies longer, locale
    ensures Spellable(PartsOf(s), CutsOf(s).syntax) && !Reaches(r, Spelled(DirsOf(dirname, s), s, domainname))
  {
    NoZero(cs);
    SameDirectory(dirname, lang, terr, cs);
    var list, n := FindOneThenOther(dirname, longer, locale, domainname, Twice(lang, terr, cs), s);
    r := n;
    CanBeSpelled(lang, terr, cs);
    LookBoth(DirsOf(dirname, s), lang, terr, cs, domainname);
    ReachesIn(list, r, Spelled(DirsOf(dirname, s), s, domainname));
  }

  lemma CanBeSpelled(lang: string, terr: string, cs: string)
    requires Clean(lang, terr, cs)
    ensures var s := XpgName(lang, terr, cs, None); Spellable(PartsOf(s), CutsOf(s).syntax)
  {
    SplitBack(lang, terr, cs, None);
  }

  lemma Ended(a: array<char>, s: string)
    requires a[..] == s + ['\0']
    ensures a.Length == |s| + 1 && a[..a.Length - 1] == s && a[a.Length - 1] == '\0'
  {
    assert |a[..]| == a.Length && a[..][..|s|] == s && a[..][|s|] == '\0';
  }

  lemma NoZero(cs: string)
    ensures '\0' !in Normalize(cs)
  {
    NormalizeLow(cs);
  }
}
