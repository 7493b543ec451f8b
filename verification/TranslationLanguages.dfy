/** The list of languages of a category, from its text to the file that is used (intl/dcigettext.c:574-690). */
module TranslationLanguages {
  import opened Bindings
  import opened LocaleDomain
  import opened LocaleListing
  import opened LocaleRequest
  import opened LocaleSpelling
  import opened Options
  import opened StringOrder
  import opened TranslationPlaces
  import opened TranslationSearch
  import opened Translations

  // ----- from the text to the names

  /** Names with colons between them. */
  function Listed(names: seq<CString>): CString
    decreases |names|, 0
  {
    if names == [] then "" else names[0] + Behind(names[1..])
  }

  function Behind(names: seq<CString>): CString
    decreases |names|, 1
  {
    if names == [] then "" else ":" + Listed(names)
  }

  predicate AllNames(names: seq<CString>) {
    forall k :: 0 <= k < |names| ==> names[k] != "" && ':' !in names[k]
  }

  /** A name in front of others: passed over if it names a directory and the process is secure; the end of the list if
      it is `C` or `POSIX`. */
  function InFront(name: CString, rest: seq<CString>, secure: bool): seq<CString> {
    if secure && '/' in name then rest else if name == "C" || name == "POSIX" then [] else [name] + rest
  }

  /** The names that count. */
  function Counting(names: seq<CString>, secure: bool): (r: seq<CString>)
    decreases |names|
  {
    if names == [] then [] else InFront(names[0], Counting(names[1..], secure), secure)
  }

  lemma {:induction false} NameEndIs(value: CString, i: nat, j: nat)
    requires i <= j <= |value| && (forall k :: i <= k < j ==> value[k] != ':') && (j < |value| ==> value[j] == ':')
    ensures NameEnd(value, i) == j
    decreases j - i
  {
    if i < j {
      NameEndIs(value, i + 1, j);
    }
  }

  lemma SkipColons(value: CString, i: nat)
    requires i < |value| && value[i] == ':'
    ensures Colons(value, i) == Colons(value, i + 1)
  {}

  /** Colons between names, and more of them, make no difference. */
  lemma ColonFirst(value: CString, i: nat, secure: bool)
    requires i < |value| && value[i] == ':'
    ensures Languages(value, i, secure) == Languages(value, i + 1, secure)
  {
    SkipColons(value, i);
  }

  lemma NameHere(value: CString, i: nat, name: CString, tail: CString)
    requires i <= |value| && value[i..] == name + tail && name != "" && ':' !in name && (tail != "" ==> tail[0] == ':')
    ensures i + |name| <= |value| && value[i + |name|..] == tail && value[i..i + |name|] == name
    ensures Colons(value, i) == i && NameEnd(value, i) == i + |name|
  {
    var k := i + |name|;
    assert value[i..][..|name|] == name && value[i..][|name|..] == tail;
    forall x | i <= x < k ensures value[x] != ':' {
      assert value[x] == name[x - i] && name[x - i] in name;
    }
    if k < |value| {
      assert value[k] == value[k..][0];
    }
    NameEndIs(value, i, k);
  }

  /** From `i` on there is `text`. */
  ghost predicate Left(value: CString, i: nat, text: CString) {
    i <= |value| && value[i..] == text
  }

  /** `l` are the languages from `i` on. */
  ghost predicate Are(value: CString, i: nat, secure: bool, l: seq<CString>) {
    i <= |value| && forall x {:trigger Languages(x, i, secure)} :: x == value ==> l == Languages(x, i, secure)
  }

  lemma NoName(value: CString, k: nat, secure: bool)
    requires Left(value, k, "")
    ensures Are(value, k, secure, []) == true
  {
    assert k == |value|;
  }

  lemma NextName(value: CString, k: nat, names: seq<CString>, secure: bool)
    requires Left(value, k, Behind(names)) && names != []
    ensures Left(value, k + 1, Listed(names)) == true
    ensures forall l :: Are(value, k + 1, secure, l) ==> Are(value, k, secure, l) == true
  {
    assert value[k] == value[k..][0] && value[k + 1..] == value[k..][1..];
    ColonFirst(value, k, secure);
  }

  lemma NameRead(value: CString, i: nat, name: CString, tail: CString, secure: bool)
    requires Left(value, i, name + tail) && name != "" && ':' !in name && (tail != "" ==> tail[0] == ':')
    ensures Left(value, i + |name|, tail) == true
    ensures forall l :: Are(value, i + |name|, secure, l) ==> Are(value, i, secure, InFront(name, l, secure)) == true
  {
    var k := i + |name|;
    NameHere(value, i, name, tail);
    Stripped(value, i, k, name, secure);
    forall l | Are(value, k, secure, l) ensures Are(value, i, secure, InFront(name, l, secure)) == true {
      Fronted(value, i, k, name, secure, l);
    }
  }

  lemma Fronted(value: CString, i: nat, k: nat, name: CString, secure: bool, l: seq<CString>)
    requires i <= |value| && k <= |value| && Are(value, k, secure, l)
    requires Languages(value, i, secure) == InFront(name, Languages(value, k, secure), secure)
    ensures Are(value, i, secure, InFront(name, l, secure))
  {
    assert l == Languages(value, k, secure);
  }

  lemma Stripped(value: CString, i: nat, k: nat, name: CString, secure: bool)
    requires i < k <= |value| && Colons(value, i) == i && NameEnd(value, i) == k && value[i..k] == name
    ensures Languages(value, i, secure) == InFront(name, Languages(value, k, secure), secure)
  {}

  lemma {:induction false} LanguagesFrom(value: CString, i: nat, names: seq<CString>, secure: bool)
    requires Left(value, i, Listed(names)) == true && AllNames(names)
    ensures Are(value, i, secure, Counting(names, secure)) == true
    decreases |names|
  {
    if names == [] {
      NoName(value, i, secure);
    } else {
      var k, rest := i + |names[0]|, names[1..];
      NameRead(value, i, names[0], Behind(rest), secure);
      if rest == [] {
        NoName(value, k, secure);
      } else {
        assert forall x :: 0 <= x < |rest| ==> rest[x] == names[x + 1];
        NextName(value, k, rest, secure);
        LanguagesFrom(value, k + 1, rest, secure);
      }
      assert Are(value, k, secure, Counting(rest, secure));
    }
  }

  /** The languages are the names of the list that count, in order. */
  lemma LanguagesOf(names: seq<CString>, secure: bool)
    requires AllNames(names)
    ensures Languages(Listed(names), 0, secure) == Counting(names, secure)
  {
    assert Left(Listed(names), 0, Listed(names));
    LanguagesFrom(Listed(names), 0, names, secure);
  }

  // ----- a message in one file only

  /** Only this file has the message. */
  ghost predicate OnlyIn(w: World, file: string, codeset: Option<string>, msgid: string, text: string) {
    && w.message(file, codeset, msgid) == Some(text)
    && forall n {:trigger w.message(n, codeset, msgid)} :: n != file ==> w.message(n, codeset, msgid).None?
  }

  /** Every name listed is that of a file that is looked for. */
  ghost predicate AllFiles(l: Listing) {
    Complete(l, {}) && forall n {:trigger l[n]} :: n in l ==> !l[n].decided
  }

  lemma {:induction false} HitOnly(
    w: World, l: Listing, names: seq<string>, codeset: Option<string>, msgid: string, file: string, text: string)
    requires OnlyIn(w, file, codeset, msgid, text) && AllFiles(l) && AllIn(names, l)
    ensures FirstHit(w, l, names, codeset, msgid) == if file in names then Some(Found(file, text)) else None
  {
    if names != [] {
      assert names[0] in l && !l[names[0]].decided;
      assert AllIn(names[1..], l) by {
        assert forall k :: 0 <= k < |names[1..]| ==> names[1..][k] == names[k + 1];
      }
      HitOnly(w, l, names[1..], codeset, msgid, file, text);
    }
  }

  lemma NoneDecided(x: Where, r: Request)
    requires PlainName(x.locale) && r in [FullOf(x)] + Successors(FullOf(x))
    ensures !Decided(r)
  {
    var q := FullOf(x);
    PartsBySyntax(x.locale);
    MaskSupplied(x.locale);
    if r in Successors(q) {
      SuccessorSmaller(q, r);
      InSuccessors(q, r);
      InWithMask(q, r.mask, r);
    }
  }

  lemma StaysFiles(f: Naming, l: Listing, x: Where)
    requires Genuine(f) && AllFiles(l) && PlainName(x.locale)
    ensures
      var (name, m) := Find(f, l, x);
      AllFiles(m) && name == SpelledAs(x) && name in m
  {
    var q := FullOf(x);
    assert f.spelled(x) == SpelledAs(x) && f.full(x) == NameOf(q) && f.enter(l, x) == Enter(l, q);
    FullIsSpelling(DirsOf(x.dirname, x.locale), x.locale, x.xdomainname);
    Entering(l, q);
    var m := Enter(l, q);
    forall n {:trigger m[n]} | n in m ensures !m[n].decided {
      if n in l {
        assert m[n] == l[n];
      } else {
        var r :| r in [q] + Successors(q) && NameOf(r) == n && EntryOf(r) == m[n];
        NoneDecided(x, r);
      }
    }
  }

  lemma OneSearched(
    w: World, f: Naming, l: Listing, q: Query, locale: CString, file: string, text: string)
    requires Genuine(f) && AllFiles(l) && PlainName(locale) && OnlyIn(w, file, q.codeset, q.msgid, text)
    ensures
      var (hit, m) := SearchOne(w, f, l, q, locale);
      && AllFiles(m) && (hit.None? || hit == Some(Found(file, text)))
      && (file == SpelledAs(Where(q.dirname, locale, q.xdomainname)) ==> hit.Some?)
  {
    var x := Where(q.dirname, locale, q.xdomainname);
    StaysFiles(f, l, x);
    var (name, m) := Find(f, l, x);
    assert AllIn(m[name].leads, m);
    assert AllIn(Candidates(m, name), m);
    HitOnly(w, m, Candidates(m, name), q.codeset, q.msgid, file, text);
    assert name in Candidates(m, name);
  }

  /** Wherever the language stands in the list, the search comes to its file. */
  lemma {:induction false} FoundInList(
    w: World, f: Naming, l: Listing, q: Query, locales: seq<CString>, k: nat, file: string, text: string)
    requires Genuine(f) && AllFiles(l) && (forall s <- locales :: PlainName(s)) && k < |locales|
    requires OnlyIn(w, file, q.codeset, q.msgid, text)
    requires file == SpelledAs(Where(q.dirname, locales[k], q.xdomainname))
    ensures Search(w, f, l, q, locales).0 == Some(Found(file, text))
    decreases |locales|
  {
    assert locales[0] in locales;
    OneSearched(w, f, l, q, locales[0], file, text);
    var (hit, m) := SearchOne(w, f, l, q, locales[0]);
    if hit.None? {
      FoundInList(w, f, m, q, locales[1..], k - 1, file, text);
    }
  }

  // ----- whole runs

  /** Names that are looked up by their spelling. */
  predicate PlainNames(names: seq<CString>) {
    AllNames(names)
    && forall k :: 0 <= k < |names| ==>
      PlainName(names[k]) && '/' !in names[k] && names[k] != "C" && names[k] != "POSIX"
  }

  lemma {:induction false} AllCount(names: seq<CString>, secure: bool)
    requires forall k :: 0 <= k < |names| ==> '/' !in names[k] && names[k] != "C" && names[k] != "POSIX"
    ensures Counting(names, secure) == names
    decreases |names|
  {
    if names != [] {
      assert forall x :: 0 <= x < |names[1..]| ==> names[1..][x] == names[x + 1];
      AllCount(names[1..], secure);
    }
  }

  /** With a list of languages, a message that only the file of one of them has is found, wherever it stands in the
      list; and one in the file of the first language is preferred, whatever other files have. */
  lemma ReachedInList(
    w: World, f: Naming, binding: Option<CString>, codeset: Param, d: string, c: Call, msgid: string,
    names: seq<CString>, k: nat, text: string)
    requires Genuine(f) && Asks(d, c, msgid) && Base(w, binding).Some? && PlainNames(names) && k < |names|
    requires w.categoryValue(c.category) == Listed(names)
    requires
      var file := FileOf(w, Base(w, binding).value, names[k], c.category, d);
      var cs := CodesetOf(binding, codeset);
      OnlyIn(w, file, cs, msgid, text) || (k == 0 && w.message(file, cs, msgid) == Some(text))
    ensures
      var outs := Outputs(w, f, Start(), Ops(binding, codeset, d, c));
      var file := FileOf(w, Base(w, binding).value, names[k], c.category, d);
      && outs != []
      && outs[|outs| - 1] == Message(Some(if c.plural then w.plural(file, c.n, text) else text))
  {
    var base := Base(w, binding).value;
    var t, key := TableThen(binding, codeset, d), Key(msgid, d, c.category);
    var q := QueryFor(w, t, key, base);
    var file := FileOf(w, base, names[k], c.category, d);
    LastAnswer(w, f, binding, codeset, d, c, msgid);
    SearchMade(w, binding, codeset, d, c.category, msgid);
    LanguagesOf(names, w.secure);
    AllCount(names, w.secure);
    FileIsSpelling(w, base, names[k], c.category, d);
    if w.message(file, q.codeset, msgid) == Some(text) && k == 0 {
      HitFirst(w, f, q, names[0], text);
    } else {
      FoundInList(w, f, map[], q, names, k, file, text);
    }
  }
}
