/** Locale names in either syntax, and the files that are tried for them in order (the comment in
    intl/finddomain.c:65-84, intl/explodename.c, intl/l10nflist.c). */
module LocaleShapes {
  import opened LocaleClash
  import opened LocaleDomain
  import opened LocaleFile
  import opened LocaleListing
  import opened LocaleMask
  import opened LocaleName
  import opened LocaleNormalized
  import opened LocaleRequest
  import opened Options

  // ----- names of both syntaxes

  /** language[_territory[.codeset]][@modifier] */
  datatype Xpg4 = Xpg4(lang: string, terr: Option<string>, cs: Option<string>, mod: Option<string>) {
    ghost predicate Proper() {
      && lang != "" && Without(lang, "_@+,") && (cs.Some? ==> terr.Some?)
      && (terr.Some? ==> Without(terr.value, ".@+,_")) && (cs.Some? ==> Without(cs.value, "@"))
    }

    function Name(): string {
      lang + Prefixed('_', terr) + Prefixed('.', cs) + Prefixed('@', mod)
    }
  }

  /** language[_territory][+audience][+special][,[sponsor][_revision]] */
  datatype CenName = CenName(
    lang: string, terr: Option<string>, aud: Option<string>, special: Option<string>, sponsor: Option<string>,
    revision: Option<string>)
  {
    ghost predicate Proper() {
      && lang != "" && Without(lang, "_@+,") && (terr.Some? ==> Without(terr.value, ".@+,_"))
      && (aud.Some? ==> Without(aud.value, "+,_")) && (special.Some? ==> aud.Some? && Without(special.value, ",_"))
      && (sponsor.Some? ==> Without(sponsor.value, "_"))
      && (revision.Some? ==> terr.Some? || aud.Some? || sponsor.Some?)
      && (aud.Some? || sponsor.Some? || revision.Some?)
    }

    function Name(): string {
      lang + Prefixed('_', terr) + Prefixed('+', aud) + Prefixed('+', special) + Prefixed(',', sponsor)
      + Prefixed('_', revision)
    }
  }

  /** From `i` on there is `text`, and then the end or one of the characters. */
  ghost predicate Stands(s: string, i: nat, text: string, stops: string) {
    && i + |text| <= |s| && s[i..i + |text|] == text
    && (i + |text| < |s| ==> s[i + |text|] in stops)
  }

  lemma UptoEnd(s: string, i: nat, text: string, stops: string)
    requires Stands(s, i, text, stops) && Without(text, stops)
    ensures Upto(s, i, stops) == i + |text|
  {
    forall k | i <= k < i + |text| ensures s[k] !in stops {
      assert s[k] == s[i..i + |text|][k - i] && s[k] in text;
    }
    UptoIs(s, i, stops, i + |text|);
  }

  /** What the separator in front of a part leaves of the name at its place. */
  ghost predicate Cut(s: string, i: nat, sep: char, p: Option<string>, j: nat) {
    && i <= j <= |s| && (p.None? ==> i == j)
    && (p.Some? ==> i < j && s[i] == sep && s[i + 1..j] == p.value)
  }

  lemma CutsOut(s: string, i: nat, sep: char, p: Option<string>, j: nat)
    requires i <= j <= |s| && s[i..j] == Prefixed(sep, p)
    ensures Cut(s, i, sep, p, j)
  {
    if p.Some? {
      assert s[i..j][0] == sep && s[i..j][1..] == s[i + 1..j];
    }
  }

  lemma SixSlices(s: string, l: string, a: string, b: string, c: string, d: string, e: string)
    requires s == l + a + b + c + d + e
    ensures
      var p0 := |l|;
      var p1 := p0 + |a|;
      var p2 := p1 + |b|;
      var p3 := p2 + |c|;
      var p4 := p3 + |d|;
      && |s| == p4 + |e| && s[..p0] == l && s[p0..p1] == a && s[p1..p2] == b && s[p2..p3] == c && s[p3..p4] == d
      && s[p4..|s|] == e
  {}

  /** Where the parts of a name are. */
  datatype Marks = Marks(p0: nat, p1: nat, p2: nat, p3: nat, p4: nat)

  ghost predicate Marked(s: string, n: CenName, m: Marks) {
    && m.p0 <= |s| && s[..m.p0] == n.lang
    && Cut(s, m.p0, '_', n.terr, m.p1) && Cut(s, m.p1, '+', n.aud, m.p2) && Cut(s, m.p2, '+', n.special, m.p3)
    && Cut(s, m.p3, ',', n.sponsor, m.p4) && Cut(s, m.p4, '_', n.revision, |s|)
  }

  lemma CenMarks(n: CenName) returns (m: Marks)
    ensures Marked(n.Name(), n, m) == true
  {
    var s, t, a, x, y := n.Name(), Prefixed('_', n.terr), Prefixed('+', n.aud), Prefixed('+', n.special),
      Prefixed(',', n.sponsor);
    SixSlices(s, n.lang, t, a, x, y, Prefixed('_', n.revision));
    m := Marks(|n.lang|, |n.lang| + |t|, |n.lang| + |t| + |a|, |n.lang| + |t| + |a| + |x|,
      |n.lang| + |t| + |a| + |x| + |y|);
    CutsOut(s, m.p0, '_', n.terr, m.p1);
    CutsOut(s, m.p1, '+', n.aud, m.p2);
    CutsOut(s, m.p2, '+', n.special, m.p3);
    CutsOut(s, m.p3, ',', n.sponsor, m.p4);
    CutsOut(s, m.p4, '_', n.revision, |s|);
  }

  lemma RunTo(s: string, i: nat, text: string, stops: string, j: nat)
    requires i <= j <= |s| && s[i..j] == text && Without(text, stops) && (j < |s| ==> s[j] in stops)
    ensures Upto(s, i, stops) == j
  {
    UptoEnd(s, i, text, stops);
  }

  function At2(p: Option<string>, i: nat): Option<nat> {
    if p.Some? then Some(i) else None
  }

  lemma CenHead(s: string, n: CenName, m: Marks)
    requires n.Proper() && Marked(s, n, m)
    ensures HeadOf(s) == Head(At2(n.terr, m.p0), None, m.p1, Undecided)
  {
    assert s[0..m.p0] == n.lang;
    RunTo(s, 0, n.lang, "_@+,", m.p0);
    if n.terr.Some? {
      RunTo(s, m.p0 + 1, n.terr.value, ".@+,_", m.p1);
    }
  }

  lemma CenMiddle(s: string, n: CenName, m: Marks)
    requires n.Proper() && Marked(s, n, m)
    ensures
      MiddleOf(s, m.p1, Undecided)
      == Middle(At2(n.aud, m.p1), m.p2, if n.aud.Some? then Cen else Undecided)
  {
    if n.aud.Some? {
      RunTo(s, m.p1 + 1, n.aud.value, "+,_", m.p2);
    }
  }

  lemma CenTail(s: string, n: CenName, m: Marks, syntax: Syntax)
    requires n.Proper() && Marked(s, n, m) && syntax == if n.aud.Some? then Cen else Undecided
    ensures TailOf(s, m.p2, syntax) == Tail(At2(n.special, m.p2), At2(n.sponsor, m.p3), At2(n.revision, m.p4), Cen)
  {
    if n.special.Some? {
      RunTo(s, m.p2 + 1, n.special.value, ",_", m.p3);
    }
    if n.sponsor.Some? {
      RunTo(s, m.p3 + 1, n.sponsor.value, "_", m.p4);
    }
  }

  /** A name in CEN syntax is cut into the pieces that it was joined from. */
  lemma SplitCen(n: CenName)
    requires n.Proper()
    ensures
      PartsOf(n.Name())
      == Parts(n.lang, n.terr, None, None, n.aud, n.special, n.sponsor, n.revision)
      && CutsOf(n.Name()).syntax == Cen
  {
    var s := n.Name();
    var m := CenMarks(n);
    CenHead(s, n, m);
    CenMiddle(s, n, m);
    CenTail(s, n, m, if n.aud.Some? then Cen else Undecided);
    assert CutsOf(s) == Cuts(
      At2(n.terr, m.p0), None, At2(n.aud, m.p1), At2(n.special, m.p2), At2(n.sponsor, m.p3), At2(n.revision, m.p4),
      Cen);
    CenPieces(s, n, m);
  }

  lemma PieceIs(s: string, i: nat, sep: char, p: Option<string>, j: nat)
    requires Cut(s, i, sep, p, j)
    ensures Piece(s, At2(p, i), j) == p && First(At2(p, i), j) == i
  {}

  lemma CenPieces(s: string, n: CenName, m: Marks)
    requires Marked(s, n, m)
    requires CutsOf(s) == Cuts(
      At2(n.terr, m.p0), None, At2(n.aud, m.p1), At2(n.special, m.p2), At2(n.sponsor, m.p3), At2(n.revision, m.p4), Cen)
    ensures PartsOf(s) == Parts(n.lang, n.terr, None, None, n.aud, n.special, n.sponsor, n.revision)
  {
    PieceIs(s, m.p0, '_', n.terr, m.p1);
    PieceIs(s, m.p1, '+', n.aud, m.p2);
    PieceIs(s, m.p2, '+', n.special, m.p3);
    PieceIs(s, m.p3, ',', n.sponsor, m.p4);
    PieceIs(s, m.p4, '_', n.revision, |s|);
    assert StartsOf(CutsOf(s), |s|) == Starts(m.p0, m.p1, m.p1, m.p2, m.p3, m.p4);
  }

  lemma FourSlices(s: string, l: string, a: string, b: string, c: string)
    requires s == l + a + b + c
    ensures
      var p0 := |l|;
      var p1 := p0 + |a|;
      var p2 := p1 + |b|;
      |s| == p2 + |c| && s[..p0] == l && s[p0..p1] == a && s[p1..p2] == b && s[p2..|s|] == c
  {}

  ghost predicate MarkedXpg(s: string, n: Xpg4, p0: nat, p1: nat, p2: nat) {
    && p0 <= |s| && s[..p0] == n.lang
    && Cut(s, p0, '_', n.terr, p1) && Cut(s, p1, '.', n.cs, p2) && Cut(s, p2, '@', n.mod, |s|)
  }

  lemma XpgMarks(n: Xpg4) returns (p0: nat, p1: nat, p2: nat)
    ensures MarkedXpg(n.Name(), n, p0, p1, p2) == true
  {
    var s, t, c := n.Name(), Prefixed('_', n.terr), Prefixed('.', n.cs);
    FourSlices(s, n.lang, t, c, Prefixed('@', n.mod));
    p0, p1, p2 := |n.lang|, |n.lang| + |t|, |n.lang| + |t| + |c|;
    CutsOut(s, p0, '_', n.terr, p1);
    CutsOut(s, p1, '.', n.cs, p2);
    CutsOut(s, p2, '@', n.mod, |s|);
  }

  function SyntaxOf(n: Xpg4): Syntax {
    if n.cs.Some? || n.mod.Some? then Xpg else Undecided
  }

  lemma XpgIsCut(s: string, n: Xpg4, p0: nat, p1: nat, p2: nat)
    requires n.Proper() && MarkedXpg(s, n, p0, p1, p2)
    ensures CutsOf(s) == Cuts(At2(n.terr, p0), At2(n.cs, p1), At2(n.mod, p2), None, None, None, SyntaxOf(n))
  {
    assert s[0..p0] == n.lang;
    RunTo(s, 0, n.lang, "_@+,", p0);
    if n.terr.Some? {
      RunTo(s, p0 + 1, n.terr.value, ".@+,_", p1);
      if n.cs.Some? {
        RunTo(s, p1 + 1, n.cs.value, "@", p2);
      }
    }
    assert HeadOf(s) == Head(At2(n.terr, p0), At2(n.cs, p1), p2, if n.cs.Some? then Xpg else Undecided);
    assert n.mod.None? ==> p2 == |s|;
  }

  /** A name in XPG syntax is cut into the pieces that it was joined from. */
  lemma SplitXpg(n: Xpg4)
    requires n.Proper()
    ensures
      var p := PartsOf(n.Name());
      && p == Parts(n.lang, n.terr, n.cs, p.normalized, n.mod, None, None, None)
      && CutsOf(n.Name()).syntax == SyntaxOf(n)
      && (p.normalized.Some? <==>
           n.cs.Some? && n.cs.value != "" && (Normalize(n.cs.value) != n.cs.value || n.mod.Some?))
      && (p.normalized.Some? ==> p.normalized.value == Normalize(n.cs.value))
  {
    var s := n.Name();
    var p0, p1, p2 := XpgMarks(n);
    XpgIsCut(s, n, p0, p1, p2);
    PieceIs(s, p0, '_', n.terr, p1);
    PieceIs(s, p1, '.', n.cs, p2);
    PieceIs(s, p2, '@', n.mod, |s|);
    assert StartsOf(CutsOf(s), |s|) == Starts(p0, p1, p2, |s|, |s|, |s|);
    NormalizedIf(s);
  }

  /** Names without a modifier, and with a normalized codeset if they have one, are plain. */
  lemma PlainIf(n: Xpg4)
    requires n.Proper()
    ensures
      PlainName(n.Name())
      <==> n.mod.None?
           && (n.cs.Some? ==> n.terr != Some("") && n.cs != Some("") && Normalize(n.cs.value) == n.cs.value)
  {
    SplitXpg(n);
  }

  // ----- the order of the files

  lemma NotEmptyAlike(a: seq<Mask>, b: seq<Mask>)
    requires a != [] && forall x :: x in a <==> x in b
    ensures b != []
  {
    var y := a[0];
    assert y in a;
    assert y in b;
  }

  /** There is one way only to put masks into decreasing order. */
  lemma {:induction false} SameSorted(a: seq<Mask>, b: seq<Mask>)
    requires Decreasing(a) && Decreasing(b) && forall x :: x in a <==> x in b
    ensures a == b
    decreases |a|
  {
    if a != [] {
      NotEmptyAlike(a, b);
      SameHead(a, b);
      forall x ensures x in a[1..] <==> x in b[1..] {
        OtherThanFirst(a, x);
        OtherThanFirst(b, x);
      }
      SameSorted(a[1..], b[1..]);
    } else if b != [] {
      NotEmptyAlike(b, a);
    }
  }

  lemma SameHead(a: seq<Mask>, b: seq<Mask>)
    requires Decreasing(a) && Decreasing(b) && a != [] && b != [] && forall x :: x in a <==> x in b
    ensures a[0] == b[0]
  {
    assert a[0] in a && b[0] in b;
    var i :| 0 <= i < |b| && b[i] == a[0];
    var j :| 0 <= j < |a| && a[j] == b[0];
    Irreflexive(a[0], b[0]);
  }

  lemma Irreflexive(x: Mask, y: Mask)
    ensures !(x < y && y < x)
  {}

  lemma OtherThanFirst(a: seq<Mask>, x: Mask)
    requires Decreasing(a) && a != []
    ensures x in a[1..] <==> x in a && x != a[0]
  {
    if x in a[1..] {
      var k :| 0 <= k < |a| - 1 && a[1..][k] == x;
      assert a[k + 1] < a[0];
      Irreflexive(x, x);
    }
  }

  /** A set of parts comes before another exactly if, of the parts in which they differ, it has the one that is stripped
      off last: revision, sponsor, special, normalized codeset, codeset and territory go before audience and
      modifier. */
  lemma StrippedInOrder(a: Mask, b: Mask)
    ensures b < a <==>
      if Has(a, XPG_MODIFIER) != Has(b, XPG_MODIFIER) then Has(a, XPG_MODIFIER)
      else if Has(a, CEN_AUDIENCE) != Has(b, CEN_AUDIENCE) then Has(a, CEN_AUDIENCE)
      else if Has(a, TERRITORY) != Has(b, TERRITORY) then Has(a, TERRITORY)
      else if Has(a, XPG_CODESET) != Has(b, XPG_CODESET) then Has(a, XPG_CODESET)
      else if Has(a, XPG_NORM_CODESET) != Has(b, XPG_NORM_CODESET) then Has(a, XPG_NORM_CODESET)
      else if Has(a, CEN_SPECIAL) != Has(b, CEN_SPECIAL) then Has(a, CEN_SPECIAL)
      else if Has(a, CEN_SPONSOR) != Has(b, CEN_SPONSOR) then Has(a, CEN_SPONSOR)
      else Has(a, CEN_REVISION) && !Has(b, CEN_REVISION)
  {}

  /** The values of `f` for the masks. */
  function Images(f: Mask -> string, masks: seq<Mask>): (r: seq<string>)
    ensures |r| == |masks|
  {
    seq(|masks|, k requires 0 <= k < |masks| => f(masks[k]))
  }

  /** The names tried for a request of one directory, given the masks below its own. */
  lemma NamesTried(name: Mask -> string, q: Request, masks: seq<Mask>)
    requires |q.dirs| <= 1 && Below(q.mask, masks) == true
    requires forall m {:trigger NameOf(q.(mask := m))} :: name(m) == NameOf(q.(mask := m))
    ensures [NameOf(q)] + NamesOf(Successors(q)) == Images(name, [q.mask] + masks)
  {
    InheritedIs(q.mask, false);
    SameSorted(Inherited(q.mask, false), masks);
    WithMasksCount(q, masks);
    assert q.(mask := q.mask) == q;
    assert name(q.mask) == NameOf(q.(mask := q.mask));
    forall k | 0 <= k < |masks| ensures NamesOf(Successors(q))[k] == name(masks[k]) {
      NamesAt(q, k);
      assert name(masks[k]) == NameOf(q.(mask := masks[k]));
    }
    ImagesOf(name, q.mask, masks, NamesOf(Successors(q)));
  }

  lemma ImagesOf(f: Mask -> string, m: Mask, masks: seq<Mask>, rest: seq<string>)
    requires |rest| == |masks| && forall k :: 0 <= k < |masks| ==> rest[k] == f(masks[k])
    ensures [f(m)] + rest == Images(f, [m] + masks)
  {}

  /** The masks below `m` that a request with it inherits from, in order. */
  ghost predicate Below(m: Mask, masks: seq<Mask>) {
    Decreasing(masks) && forall x :: x in masks <==> Admissible(x, m) && x != m
  }

  lemma TwoParts()
    ensures Below(48, [32, 16, 0])
  {}

  lemma ThreeParts()
    ensures Below(56, [48, 40, 32, 16, 8, 0])
  {}

  lemma WithModifier()
    ensures Below(224, [160, 128, 96, 64, 32, 0])
  {}

  // ----- the files

  /** The file of a locale. */
  function FileOf(dir: string, locale: string, filename: string): string {
    dir + "/" + locale + "/" + filename
  }

  lemma FileIs(q: Request, dir: string, locale: string)
    requires q.dirs == [dir] && LocaleWith(q.mask, q.parts) == locale
    ensures NameOf(q) == FileOf(dir, locale, q.filename)
  {}

  function FilesOf(dir: string, locales: seq<string>, filename: string): (r: seq<string>)
    ensures |r| == |locales|
  {
    seq(|locales|, k requires 0 <= k < |locales| => FileOf(dir, locales[k], filename))
  }

  /** The files tried for a request are those of the locales, in their order. */
  ghost predicate TriedInOrder(q: Request, dir: string, locales: seq<string>) {
    [NameOf(q)] + NamesOf(Successors(q)) == FilesOf(dir, locales, q.filename)
  }

  /** The name with the parts of a mask, as a function without its body. */
  ghost predicate Gives(with: Mask -> string, p: Parts) {
    forall m {:trigger LocaleWith(m, p)} :: with(m) == LocaleWith(m, p)
  }

  lemma FileWith(with: Mask -> string, q: Request, dir: string, m: Mask)
    requires q.dirs == [dir] && Gives(with, q.parts)
    ensures NameOf(q.(mask := m)) == FileOf(dir, with(m), q.filename)
  {
    assert with(m) == LocaleWith(m, q.parts);
    FileIs(q.(mask := m), dir, with(m));
  }

  lemma SameFiles(name: Mask -> string, with: Mask -> string, all: seq<Mask>, dir: string, filename: string)
    requires forall k {:trigger all[k]} :: 0 <= k < |all| ==> name(all[k]) == FileOf(dir, with(all[k]), filename)
    ensures Images(name, all) == FilesOf(dir, Images(with, all), filename)
  {
    forall k | 0 <= k < |all| ensures Images(name, all)[k] == FilesOf(dir, Images(with, all), filename)[k] {
      assert name(all[k]) == FileOf(dir, with(all[k]), filename);
    }
  }

  lemma TriedFor(with: Mask -> string, q: Request, dir: string, masks: seq<Mask>, locales: seq<string>)
    requires q.dirs == [dir] && Gives(with, q.parts) == true && Below(q.mask, masks) == true
    requires locales == Images(with, [q.mask] + masks)
    ensures TriedInOrder(q, dir, locales) == true
  {
    var name := (m: Mask) => NameOf(q.(mask := m));
    NamesTried(name, q, masks);
    var all := [q.mask] + masks;
    forall k {:trigger all[k]} | 0 <= k < |all| ensures name(all[k]) == FileOf(dir, with(all[k]), q.filename) {
      FileWith(with, q, dir, all[k]);
    }
    SameFiles(name, with, all, dir, q.filename);
  }

  /** A locale with some of its parts; `mod` is a modifier with its separator, or nothing. */
  function Locale(lang: string, terr: Option<string>, cs: Option<string>, norm: Option<string>, mod: string): string {
    lang + Prefixed('_', terr) + Prefixed('.', cs) + Prefixed('.', norm) + mod
  }

  /** The parts that a mask has, without those of CEN syntax behind the modifier. */
  ghost predicate HasParts(m: Mask, terr: bool, cs: bool, norm: bool, mod: bool, aud: bool) {
    && Has(m, TERRITORY) == terr && Has(m, XPG_CODESET) == cs && Has(m, XPG_NORM_CODESET) == norm
    && Has(m, XPG_MODIFIER | CEN_AUDIENCE) == mod && Has(m, CEN_AUDIENCE) == aud
    && !Has(m, CEN_SPECIAL) && !Has(m, CEN_SPONSOR | CEN_REVISION)
  }

  lemma CodesetBits()
    ensures HasParts(0, false, false, false, false, false) && HasParts(16, false, true, false, false, false)
    ensures HasParts(32, true, false, false, false, false) && HasParts(48, true, true, false, false, false)
  {}

  lemma NormalizedBits()
    ensures HasParts(8, false, false, true, false, false) && HasParts(40, true, false, true, false, false)
    ensures HasParts(56, true, true, true, false, false)
  {}

  lemma ModifierBits()
    ensures HasParts(64, false, false, false, true, true) && HasParts(96, true, false, false, true, true)
    ensures HasParts(128, false, false, false, true, false) && HasParts(160, true, false, false, true, false)
    ensures HasParts(224, true, false, false, true, true)
  {}

  lemma WithParts(
    with: Mask -> string, m: Mask, p: Parts, terr: bool, cs: bool, norm: bool, mod: bool, aud: bool, locale: string)
    requires Gives(with, p) == true && HasParts(m, terr, cs, norm, mod, aud) == true
    requires locale == Locale(
      p.language, if terr then Some(Text(p.territory)) else None, if cs then Some(Text(p.codeset)) else None,
      if norm then Some(Text(p.normalized)) else None,
      if mod then [if aud then '+' else '@'] + Text(p.modifier) else "")
    ensures with(m) == locale
  {
    assert with(m) == LocaleWith(m, p);
  }

  function CodesetLocales(lang: string, terr: string, cs: string): seq<string> {
    [Locale(lang, Some(terr), Some(cs), None, ""), Locale(lang, Some(terr), None, None, ""),
      Locale(lang, None, Some(cs), None, ""), Locale(lang, None, None, None, "")]
  }

  lemma CodesetNames(with: Mask -> string, p: Parts, lang: string, terr: string, cs: string)
    requires Gives(with, p) == true && p.language == lang && p.territory == Some(terr) && p.codeset == Some(cs)
    ensures CodesetLocales(lang, terr, cs) == Images(with, [48, 32, 16, 0])
  {
    CodesetBits();
    var l := CodesetLocales(lang, terr, cs);
    WithParts(with, 48, p, true, true, false, false, false, l[0]);
    WithParts(with, 32, p, true, false, false, false, false, l[1]);
    WithParts(with, 16, p, false, true, false, false, false, l[2]);
    WithParts(with, 0, p, false, false, false, false, false, l[3]);
  }

  function NormalizedLocales(lang: string, terr: string, cs: string, norm: string): seq<string> {
    [Locale(lang, Some(terr), Some(cs), Some(norm), ""), Locale(lang, Some(terr), Some(cs), None, ""),
      Locale(lang, Some(terr), None, Some(norm), ""), Locale(lang, Some(terr), None, None, ""),
      Locale(lang, None, Some(cs), None, ""), Locale(lang, None, None, Some(norm), ""),
      Locale(lang, None, None, None, "")]
  }

  lemma NormalizedNames(with: Mask -> string, p: Parts, lang: string, terr: string, cs: string, norm: string)
    requires Gives(with, p) == true && p.language == lang && p.territory == Some(terr) && p.codeset == Some(cs)
      && p.normalized == Some(norm)
    ensures NormalizedLocales(lang, terr, cs, norm) == Images(with, [56, 48, 40, 32, 16, 8, 0])
  {
    CodesetBits();
    NormalizedBits();
    var l := NormalizedLocales(lang, terr, cs, norm);
    WithParts(with, 56, p, true, true, true, false, false, l[0]);
    WithParts(with, 48, p, true, true, false, false, false, l[1]);
    WithParts(with, 40, p, true, false, true, false, false, l[2]);
    WithParts(with, 32, p, true, false, false, false, false, l[3]);
    WithParts(with, 16, p, false, true, false, false, false, l[4]);
    WithParts(with, 8, p, false, false, true, false, false, l[5]);
    WithParts(with, 0, p, false, false, false, false, false, l[6]);
  }

  function ModifierLocales(lang: string, terr: string, mod: string): seq<string> {
    [Locale(lang, Some(terr), None, None, "+" + mod), Locale(lang, Some(terr), None, None, "@" + mod),
      Locale(lang, None, None, None, "@" + mod), Locale(lang, Some(terr), None, None, "+" + mod),
      Locale(lang, None, None, None, "+" + mod), Locale(lang, Some(terr), None, None, ""),
      Locale(lang, None, None, None, "")]
  }

  lemma ModifierNames(with: Mask -> string, p: Parts, lang: string, terr: string, mod: string)
    requires Gives(with, p) == true && p.language == lang && p.territory == Some(terr) && p.modifier == Some(mod)
    ensures ModifierLocales(lang, terr, mod) == Images(with, [224, 160, 128, 96, 64, 32, 0])
  {
    CodesetBits();
    ModifierBits();
    var l := ModifierLocales(lang, terr, mod);
    WithParts(with, 224, p, true, false, false, true, true, l[0]);
    WithParts(with, 160, p, true, false, false, true, false, l[1]);
    WithParts(with, 128, p, false, false, false, true, false, l[2]);
    WithParts(with, 96, p, true, false, false, true, true, l[3]);
    WithParts(with, 64, p, false, false, false, true, true, l[4]);
    WithParts(with, 32, p, true, false, false, false, false, l[5]);
    WithParts(with, 0, p, false, false, false, false, false, l[6]);
  }

  /** The request for all parts of such a name. */
  lemma RequestFor(n: Xpg4, dir: string, filename: string) returns (q: Request, with: Mask -> string)
    requires n.Proper() && n.terr.Some? && n.terr != Some("") && n.cs != Some("") && n.mod != Some("")
    requires n.cs.None? || n.mod.None?
    ensures q == Full([dir], n.Name(), filename) && q.dirs == [dir] && Gives(with, q.parts) == true
    ensures q.parts.language == n.lang && q.parts.territory == n.terr && q.parts.codeset == n.cs
    ensures q.parts.modifier == n.mod
    ensures q.mask
      == if n.cs.None? then (if n.mod.None? then 32 else 224) else if q.parts.normalized.None? then 48 else 56
    ensures q.parts.normalized
      == if n.cs.Some? && Normalize(n.cs.value) != n.cs.value then Some(Normalize(n.cs.value)) else None
  {
    SplitXpg(n);
    q := Full([dir], n.Name(), filename);
    with := (m: Mask) => LocaleWith(m, q.parts);
  }

  lemma TriedWith(
    with: Mask -> string, q: Request, dir: string, m: Mask, masks: seq<Mask>, all: seq<Mask>, locales: seq<string>)
    requires q.dirs == [dir] && q.mask == m && Gives(with, q.parts) == true && Below(m, masks) == true
    requires all == [m] + masks && locales == Images(with, all)
    ensures TriedInOrder(q, dir, locales) == true
  {
    TriedFor(with, q, dir, masks, locales);
  }

  lemma CodesetTried(with: Mask -> string, q: Request, dir: string, lang: string, terr: string, cs: string)
    requires q.dirs == [dir] && q.mask == 48 && Gives(with, q.parts) == true
    requires q.parts.language == lang && q.parts.territory == Some(terr) && q.parts.codeset == Some(cs)
    ensures TriedInOrder(q, dir, CodesetLocales(lang, terr, cs)) == true
  {
    CodesetNames(with, q.parts, lang, terr, cs);
    TwoParts();
    TriedWith(with, q, dir, 48, [32, 16, 0], [48, 32, 16, 0], CodesetLocales(lang, terr, cs));
  }

  /** A name with a territory and a normalized codeset: the codeset is left out before the territory. */
  lemma CodesetFiles(dir: string, lang: string, terr: string, cs: string, filename: string, n: Xpg4)
    requires n == Xpg4(lang, Some(terr), Some(cs), None) && n.Proper() && terr != "" && cs != "" && Normalize(cs) == cs
    ensures TriedInOrder(Full([dir], n.Name(), filename), dir, CodesetLocales(lang, terr, cs)) == true
  {
    var q, with := RequestFor(n, dir, filename);
    CodesetTried(with, q, dir, lang, terr, cs);
  }

  lemma NormalizedTried(
    with: Mask -> string, q: Request, dir: string, lang: string, terr: string, cs: string, norm: string)
    requires q.dirs == [dir] && q.mask == 56 && Gives(with, q.parts) == true
    requires q.parts.language == lang && q.parts.territory == Some(terr) && q.parts.codeset == Some(cs)
    requires q.parts.normalized == Some(norm)
    ensures TriedInOrder(q, dir, NormalizedLocales(lang, terr, cs, norm)) == true && Decided(q)
  {
    NormalizedNames(with, q.parts, lang, terr, cs, norm);
    ThreeParts();
    TriedWith(with, q, dir, 56, [48, 40, 32, 16, 8, 0], [56, 48, 40, 32, 16, 8, 0],
      NormalizedLocales(lang, terr, cs, norm));
  }

  /** A codeset that is not normalized is tried before its normalized form; the file with both is not looked for. */
  lemma NormalizedFiles(dir: string, lang: string, terr: string, cs: string, filename: string, n: Xpg4)
    requires n == Xpg4(lang, Some(terr), Some(cs), None) && n.Proper() && terr != "" && cs != "" && Normalize(cs) != cs
    ensures
      var q := Full([dir], n.Name(), filename);
      TriedInOrder(q, dir, NormalizedLocales(lang, terr, cs, Normalize(cs))) == true && Decided(q) == true
  {
    var q, with := RequestFor(n, dir, filename);
    NormalizedTried(with, q, dir, lang, terr, cs, Normalize(cs));
  }

  lemma ModifierTried(with: Mask -> string, q: Request, dir: string, lang: string, terr: string, mod: string)
    requires q.dirs == [dir] && q.mask == 224 && Gives(with, q.parts) == true
    requires q.parts.language == lang && q.parts.territory == Some(terr) && q.parts.modifier == Some(mod)
    ensures TriedInOrder(q, dir, ModifierLocales(lang, terr, mod)) == true
  {
    ModifierNames(with, q.parts, lang, terr, mod);
    WithModifier();
    TriedWith(with, q, dir, 224, [160, 128, 96, 64, 32, 0], [224, 160, 128, 96, 64, 32, 0],
      ModifierLocales(lang, terr, mod));
  }

  /** A modifier is tried with a plus sign first, as an audience would be, and with its own sign behind that. */
  lemma ModifierFiles(dir: string, lang: string, terr: string, mod: string, filename: string, n: Xpg4)
    requires n == Xpg4(lang, Some(terr), None, Some(mod)) && n.Proper() && terr != "" && mod != ""
    ensures TriedInOrder(Full([dir], n.Name(), filename), dir, ModifierLocales(lang, terr, mod)) == true
  {
    var q, with := RequestFor(n, dir, filename);
    ModifierTried(with, q, dir, lang, terr, mod);
  }
}
