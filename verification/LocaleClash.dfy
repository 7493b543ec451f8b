/** Two locale names can share a file name in the list; then the node of one answers for the other
    (intl/l10nflist.c:269-289). */
module LocaleClash {
  import opened LocaleDomain
  import opened LocaleExplode
  import opened LocaleFile
  import opened LocaleListing
  import opened LocaleMask
  import opened LocaleName
  import opened LocaleNormalized
  import opened LocaleRequest
  import opened LocaleSpelling
  import opened LocaleTwice
  import opened Options

  lemma {:induction false} UptoIs(s: string, i: nat, stops: string, e: nat)
    requires i <= e <= |s| && (forall k :: i <= k < e ==> s[k] !in stops) && (e < |s| ==> s[e] in stops)
    ensures Upto(s, i, stops) == e
    decreases e - i
  {
    if i < e {
      UptoIs(s, i + 1, stops, e);
    }
  }

  ghost predicate Without(s: string, stops: string) {
    forall c :: c in s ==> c !in stops
  }

  /** Pieces that splitting gives back. */
  ghost predicate Clean(lang: string, terr: string, cs: string) {
    lang != "" && Without(lang, "_@+,") && Without(terr, ".@+,_") && Without(cs, "@") && terr != "" && cs != ""
  }

  function XpgName(lang: string, terr: string, cs: string, mod: Option<string>): string {
    lang + "_" + terr + "." + cs + Prefixed('@', mod)
  }

  lemma XpgHead(s: string, a: nat, b: nat, e: nat)
    requires 0 < a < b < e <= |s| && s[a] == '_' && s[b] == '.' && (e < |s| ==> s[e] == '@')
    requires forall k :: 0 <= k < a ==> s[k] !in "_@+,"
    requires forall k :: a < k < b ==> s[k] !in ".@+,_"
    requires forall k :: b < k < e ==> s[k] !in "@"
    ensures HeadOf(s) == Head(Some(a), Some(b), e, Xpg)
  {
    UptoIs(s, 0, "_@+,", a);
    UptoIs(s, a + 1, ".@+,_", b);
    UptoIs(s, b + 1, "@", e);
  }

  lemma XpgCuts(lang: string, terr: string, cs: string, mod: Option<string>)
    requires Clean(lang, terr, cs)
    ensures
      var a, b := |lang|, |lang| + 1 + |terr|;
      CutsOf(XpgName(lang, terr, cs, mod))
      == Cuts(Some(a), Some(b), if mod.Some? then Some(b + 1 + |cs|) else None, None, None, None, Xpg)
  {
    var s := XpgName(lang, terr, cs, mod);
    var a, b := |lang|, |lang| + 1 + |terr|;
    var e := b + 1 + |cs|;
    assert forall k :: 0 <= k < a ==> s[k] == lang[k];
    assert forall k :: a < k < b ==> s[k] == terr[k - a - 1];
    assert forall k :: b < k < e ==> s[k] == cs[k - b - 1];
    XpgHead(s, a, b, e);
  }

  /** The parts are the pieces. */
  ghost predicate Pieces(p: Parts, lang: string, terr: string, cs: string, mod: Option<string>) {
    && p.language == lang && p.territory == Some(terr) && p.codeset == Some(cs) && p.modifier == mod
    && p.special.None? && p.sponsor.None? && p.revision.None?
    && p.normalized == if Normalize(cs) == cs && mod.None? then None else Some(Normalize(cs))
  }

  lemma Slices(lang: string, terr: string, cs: string, mod: string)
    ensures
      var s, a, b := lang + "_" + terr + "." + cs + mod, |lang|, |lang| + 1 + |terr|;
      && s[..a] == lang && s[a + 1..b] == terr && s[b + 1..b + 1 + |cs|] == cs && s[b + 1..] == cs + mod
      && (mod != "" ==> s[b + 2 + |cs|..] == mod[1..])
  {}

  lemma ModifierBack(s: string, before: string, m: string)
    requires s == before + (['@'] + m)
    ensures Piece(s, Some(|before|), |s|) == Some(m)
  {
    assert s[|before| + 1..|s|] == m;
  }

  lemma PiecesBack(s: string, c: Cuts, lang: string, terr: string, cs: string, mod: Option<string>)
    requires cs != "" && s == XpgName(lang, terr, cs, mod)
    requires c == Cuts(
      Some(|lang|), Some(|lang| + 1 + |terr|), if mod.Some? then Some(|lang| + 2 + |terr| + |cs|) else None,
      None, None, None, Xpg)
    ensures
      var p := PartsBy(s, c);
      && p.language == lang && p.territory == Some(terr) && p.codeset == Some(cs) && p.modifier == mod
      && p.special.None? && p.sponsor.None? && p.revision.None?
  {
    Slices(lang, terr, cs, Prefixed('@', mod));
    if mod.Some? {
      ModifierBack(s, lang + "_" + terr + "." + cs, mod.value);
    } else {
      assert cs + "" == cs;
    }
  }

  /** Splitting a name gives back the pieces it was joined from. */
  lemma SplitBack(lang: string, terr: string, cs: string, mod: Option<string>)
    requires Clean(lang, terr, cs)
    ensures Pieces(PartsOf(XpgName(lang, terr, cs, mod)), lang, terr, cs, mod)
  {
    XpgCuts(lang, terr, cs, mod);
    var s := XpgName(lang, terr, cs, mod);
    PiecesBack(s, CutsOf(s), lang, terr, cs, mod);
    NormalizedIf(s);
  }

  lemma Utf8()
    ensures Normalize("utf8") == "utf8"
  {
    var cs := "utf8";
    assert Alpha(cs[0]);
    assert cs[..3] == "utf" && "utf"[..2] == "ut" && "ut"[..1] == "u" && "u"[..0] == "";
    assert Kept("u") == "u" && Kept("ut") == "ut" && Kept("utf") == "utf";
  }

  /** A name with a normalized codeset and a modifier. */
  lemma EuroUtf8(s: string)
    requires s == "de_DE.utf8@euro"
    ensures PartsOf(s).codeset == Some("utf8") && PartsOf(s).normalized == Some("utf8")
  {
    var lang, terr, cs, modifier := "de", "DE", "utf8", "euro";
    Utf8();
    assert s == XpgName(lang, terr, cs, Some(modifier));
    SplitBack(lang, terr, cs, Some(modifier));
  }

  // ----- names with two forms

  /** Of the names made from such pieces these are the ones with a codeset that is not normalized or with a modifier
      (an empty modifier apart, with which a name cannot be spelled out). */
  lemma TwoFormsIf(lang: string, terr: string, cs: string, mod: Option<string>)
    requires Clean(lang, terr, cs)
    ensures TwoForms(XpgName(lang, terr, cs, mod)) <==> mod != Some("") && (Normalize(cs) != cs || mod.Some?)
  {
    SplitBack(lang, terr, cs, mod);
    XpgCuts(lang, terr, cs, mod);
  }

  /** One of them. */
  lemma GermanUtf8(s: string)
    requires s == "de_DE.UTF-8"
    ensures TwoForms(s)
  {
    var lang, terr, cs := "de", "DE", "UTF-8";
    assert s == XpgName(lang, terr, cs, None);
    NormalizeLow(cs);
    assert cs[0] in cs && Lower(cs[0]) != cs[0];
    TwoFormsIf(lang, terr, cs, None);
  }

  // ----- a name that is another one's full form

  /** The name with its normalized codeset behind the codeset. */
  function Twice(lang: string, terr: string, cs: string): string {
    XpgName(lang, terr, cs + "." + Normalize(cs), None)
  }

  /** The request that the spelling of that name stands for. */
  function Other(dirs: seq<string>, lang: string, terr: string, cs: string, filename: string): Request {
    Request(dirs, TERRITORY | XPG_CODESET, PartsOf(Twice(lang, terr, cs)), filename)
  }

  lemma TwiceClean(lang: string, terr: string, cs: string)
    requires Clean(lang, terr, cs)
    ensures Clean(lang, terr, cs + "." + Normalize(cs))
  {
    NoAt(cs);
  }

  lemma MaskOfPlain(lang: string, terr: string, cs: string)
    requires Clean(lang, terr, cs)
    ensures
      MaskOf(XpgName(lang, terr, cs, None))
      == TERRITORY | XPG_CODESET | Flag(Normalize(cs) != cs, XPG_NORM_CODESET)
  {
    SplitBack(lang, terr, cs, None);
    XpgCuts(lang, terr, cs, None);
    PlainBits(Normalize(cs) != cs);
  }

  lemma PlainBits(n: bool)
    ensures
      (Flag(true, TERRITORY) | Flag(true, XPG_CODESET) | Flag(n, XPG_NORM_CODESET)
      | Flag(false, XPG_MODIFIER | CEN_AUDIENCE) | Flag(false, CEN_SPECIAL) | Flag(false, CEN_SPONSOR)
      | Flag(false, CEN_REVISION))
      & !Flag(false, TERRITORY) & !Flag(false, XPG_CODESET) & !Flag(false, XPG_MODIFIER)
      == TERRITORY | XPG_CODESET | Flag(n, XPG_NORM_CODESET)
  {}

  lemma OnlyTwo(c: bv8)
    requires Dominated(c, TERRITORY | XPG_CODESET)
    ensures c & XPG_NORM_CODESET == 0 && c & (XPG_MODIFIER | CEN_AUDIENCE) == 0 && c & CEN_SPECIAL == 0
    ensures c & (CEN_SPONSOR | CEN_REVISION) == 0
  {}

  lemma TwoParts(c: Mask, p: Parts)
    requires Dominated(c, TERRITORY | XPG_CODESET)
    ensures
      LocaleWith(c, p)
      == p.language + Optional(Has(c, TERRITORY), '_', p.territory) + Optional(Has(c, XPG_CODESET), '.', p.codeset)
  {
    OnlyTwo(c);
  }

  /** With a longer codeset the name is either longer or lacks a part. */
  lemma NeverShort(p: Parts, terr: string, cs: string, more: string, c: Mask)
    requires p.territory == Some(terr) && p.codeset == Some(cs + more) && terr != "" && more != ""
    requires Dominated(c, TERRITORY | XPG_CODESET)
    ensures LocaleWith(c, p) != p.language + "_" + terr + "." + cs
  {
    TwoParts(c, p);
    var x, s := LocaleWith(c, p), p.language + "_" + terr + "." + cs;
    if !Has(c, TERRITORY) && Has(c, XPG_CODESET) {
      assert x[|p.language|] == '.' && s[|p.language|] == '_';
    }
  }

  lemma NotAsked(q: Request, terr: string, cs: string, more: string)
    requires q.parts.territory == Some(terr) && q.parts.codeset == Some(cs + more) && terr != "" && more != ""
    requires q.mask == TERRITORY | XPG_CODESET && |q.dirs| <= 1
    ensures !AsksFor(q, Spelled(q.dirs, q.parts.language + "_" + terr + "." + cs, q.filename))
  {
    var s := q.parts.language + "_" + terr + "." + cs;
    if AsksFor(q, Spelled(q.dirs, s, q.filename)) {
      var c := AskedBy(q, Spelled(q.dirs, s, q.filename));
      InheritedIs(q.mask, false);
      Itself(q.mask);
      NotNamed(q, c, terr, cs, more);
    }
  }

  lemma NotNamed(q: Request, c: Mask, terr: string, cs: string, more: string)
    requires q.parts.territory == Some(terr) && q.parts.codeset == Some(cs + more) && terr != "" && more != ""
    requires Dominated(c, TERRITORY | XPG_CODESET)
    ensures NameOf(q.(mask := c)) != Spelled(q.dirs, q.parts.language + "_" + terr + "." + cs, q.filename)
  {
    NeverShort(q.parts, terr, cs, more, c);
    Different(
      Directory(q.dirs), LocaleWith(c, q.parts), q.parts.language + "_" + terr + "." + cs, "/", q.filename);
  }

  lemma ThreeParts(p: Parts)
    ensures
      LocaleWith(TERRITORY | XPG_CODESET | XPG_NORM_CODESET, p)
      == p.language + Optional(true, '_', p.territory) + Optional(true, '.', p.codeset)
        + Optional(true, '.', p.normalized)
  {}

  /** The parts of the two names, and the names they give. */
  lemma BothNames(lang: string, terr: string, cs: string)
    requires Clean(lang, terr, cs) && Normalize(cs) != cs
    ensures
      var s, s2 := XpgName(lang, terr, cs, None), Twice(lang, terr, cs);
      && LocaleWith(MaskOf(s), PartsOf(s)) == s2 && LocaleWith(TERRITORY | XPG_CODESET, PartsOf(s2)) == s2
      && Pieces(PartsOf(s), lang, terr, cs, None) && CutsOf(s).syntax == Xpg
      && Pieces(PartsOf(s2), lang, terr, cs + "." + Normalize(cs), None) && CutsOf(s2).syntax == Xpg
  {
    var s, s2, n := XpgName(lang, terr, cs, None), Twice(lang, terr, cs), Normalize(cs);
    TwiceClean(lang, terr, cs);
    SplitBack(lang, terr, cs, None);
    XpgCuts(lang, terr, cs, None);
    SplitBack(lang, terr, cs + "." + n, None);
    XpgCuts(lang, terr, cs + "." + n, None);
    MaskOfPlain(lang, terr, cs);
    ThreeParts(PartsOf(s));
    TwoParts(TERRITORY | XPG_CODESET, PartsOf(s2));
    Spliced(lang, terr, cs, n);
  }

  lemma Spliced(lang: string, terr: string, cs: string, n: string)
    ensures lang + (['_'] + terr) + (['.'] + cs) + (['.'] + n) == lang + "_" + terr + "." + (cs + "." + n) + ""
    ensures lang + (['_'] + terr) + (['.'] + (cs + "." + n)) == lang + "_" + terr + "." + (cs + "." + n) + ""
    ensures lang + "_" + terr + "." + cs + "" == lang + "_" + terr + "." + cs
  {}

  /** A codeset that is not normalized: looking up the longer name leaves a node that has the file name of the
      shorter one in full, but does not lead to the shorter one as it is spelled. */
  lemma TakenByAnother(dirs: seq<string>, lang: string, terr: string, cs: string, filename: string)
    requires Clean(lang, terr, cs) && Normalize(cs) != cs && |dirs| <= 1
    ensures
      var s, s2, q := XpgName(lang, terr, cs, None), Twice(lang, terr, cs), Other(dirs, lang, terr, cs, filename);
      && NameOf(Full(dirs, s, filename)) == NameOf(q)
      && AsksFor(Full(dirs, s2, filename), NameOf(q))
      && !AsksFor(q, Spelled(dirs, s, filename)) && AsksFor(Full(dirs, s, filename), Spelled(dirs, s, filename))
  {
    var s, s2, q := XpgName(lang, terr, cs, None), Twice(lang, terr, cs), Other(dirs, lang, terr, cs, filename);
    BothNames(lang, terr, cs);
    SpellingAsked(Full(dirs, s, filename), s);
    SpellingAsked(Full(dirs, s2, filename), s2);
    Spliced(lang, terr, cs, "");
    Associative(cs, ".", Normalize(cs));
    NotAsked(q, terr, cs, "." + Normalize(cs));
  }

  lemma OtherTail(cs: string, c: string, n: string, norm: string)
    requires c == "" || c == ['.'] + (cs + "." + Normalize(cs))
    requires (n == "" || n == ['.'] + norm) && norm != cs
    ensures c + n != ['.'] + cs
  {
    if c == "" && n != "" {
      assert c + n == n;
      if n == ['.'] + cs {
        BehindDot(norm, cs);
      }
    }
  }

  /** Nor does looking up the longer name ask for the shorter one as it is spelled. */
  lemma NotAskedByOther(dirs: seq<string>, lang: string, terr: string, cs: string, filename: string)
    requires Clean(lang, terr, cs) && |dirs| <= 1
    ensures
      !AsksFor(Full(dirs, Twice(lang, terr, cs), filename), Spelled(dirs, XpgName(lang, terr, cs, None), filename))
  {
    var s, s2 := XpgName(lang, terr, cs, None), Twice(lang, terr, cs);
    var q, name := Full(dirs, s2, filename), Spelled(dirs, s, filename);
    if AsksFor(q, name) {
      var cs2 := cs + "." + Normalize(cs);
      TwiceClean(lang, terr, cs);
      SplitBack(lang, terr, cs2, None);
      XpgCuts(lang, terr, cs2, None);
      var c := AskedBy(q, name);
      TriedPossible(q, c);
      var t, cp, n, m := XpgSplit(c, q.parts);
      NotShortened(cs);
      OtherTail(cs, cp, n, Normalize(cs2));
      Dots(lang, terr, cs, t, cp, n);
      TwoNames(lang, terr, t, cp + n, cs);
      SpelledDifferent(q, c, s);
    }
  }

  lemma Dots(lang: string, terr: string, cs: string, t: string, c: string, n: string)
    ensures lang + (['_'] + terr) + (['.'] + cs) == XpgName(lang, terr, cs, None)
    ensures lang + t + c + n + "" == lang + t + (c + n)
  {}

  lemma SpelledDifferent(q: Request, c: Mask, s: string)
    requires LocaleWith(c, q.parts) != s
    ensures NameOf(q.(mask := c)) != Spelled(q.dirs, s, q.filename)
  {
    Different(Directory(q.dirs), LocaleWith(c, q.parts), s, "/", q.filename);
  }
}
