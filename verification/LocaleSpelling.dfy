/** The name as the user spelled it, among the files looked for (intl/explodename.c, intl/l10nflist.c). */
module LocaleSpelling {
  import opened LocaleExplode
  import opened LocaleFile
  import opened LocaleMask
  import opened LocaleName
  import opened LocaleRequest
  import opened Options

  /** The parts that make up the spelling: in XPG syntax neither the normalized codeset nor the audience. */
  function SpellMask(s: string): Mask {
    if CutsOf(s).syntax == Xpg then MaskOf(s) & (TERRITORY | XPG_CODESET | XPG_MODIFIER) else MaskOf(s)
  }

  /** In XPG syntax no part is empty; in CEN syntax there is no revision without a sponsor. */
  predicate Spellable(p: Parts, syntax: Syntax) {
    if syntax == Xpg then p.territory != Some("") && p.codeset != Some("") && p.modifier != Some("")
    else p.revision.Some? ==> p.sponsor.Some?
  }

  // ----- the bits

  lemma XpgBits(t: bool, c: bool, n: bool, d: bool)
    ensures
      var m := Flag(t, TERRITORY) | Flag(c, XPG_CODESET) | Flag(n, XPG_NORM_CODESET)
               | Flag(d, XPG_MODIFIER | CEN_AUDIENCE) | Flag(false, CEN_SPECIAL) | Flag(false, CEN_SPONSOR)
               | Flag(false, CEN_REVISION);
      var x := m & !Flag(false, TERRITORY) & !Flag(false, XPG_CODESET) & !Flag(false, XPG_MODIFIER)
               & (TERRITORY | XPG_CODESET | XPG_MODIFIER);
      && (x & TERRITORY != 0 <==> t) && (x & XPG_CODESET != 0 <==> c) && x & XPG_NORM_CODESET == 0
      && (x & (XPG_MODIFIER | CEN_AUDIENCE) != 0 <==> d) && x & CEN_AUDIENCE == 0 && x & CEN_SPECIAL == 0
      && x & (CEN_SPONSOR | CEN_REVISION) == 0
  {}

  lemma CenBits(t: bool, d: bool, a: bool, b: bool, r: bool)
    ensures
      var x := Flag(t, TERRITORY) | Flag(false, XPG_CODESET) | Flag(false, XPG_NORM_CODESET)
               | Flag(d, XPG_MODIFIER | CEN_AUDIENCE) | Flag(a, CEN_SPECIAL) | Flag(b, CEN_SPONSOR)
                 | Flag(r, CEN_REVISION);
      && (x & TERRITORY != 0 <==> t) && x & XPG_CODESET == 0 && x & XPG_NORM_CODESET == 0
      && (x & (XPG_MODIFIER | CEN_AUDIENCE) != 0 <==> d) && (x & CEN_AUDIENCE != 0 <==> d)
      && (x & CEN_SPECIAL != 0 <==> a) && (x & CEN_SPONSOR != 0 <==> b) && (x & CEN_REVISION != 0 <==> r)
      && (x & (CEN_SPONSOR | CEN_REVISION) != 0 <==> b || r)
  {}

  // ----- the spelling

  /** What the syntax says about the parts. */
  lemma PartsBySyntax(s: string)
    ensures
      var p, syntax := PartsOf(s), CutsOf(s).syntax;
      if syntax == Xpg then p.special.None? && p.sponsor.None? && p.revision.None?
      else p.codeset.None? && p.normalized.None?
  {}

  /** The flags of a mask, by the parts that there are. */
  ghost predicate Flags(m: Mask, p: Parts, syntax: Syntax) {
    && Has(m, TERRITORY) == p.territory.Some? && Has(m, XPG_CODESET) == p.codeset.Some? && !Has(m, XPG_NORM_CODESET)
    && Has(m, XPG_MODIFIER | CEN_AUDIENCE) == p.modifier.Some?
    && (p.modifier.Some? ==> Has(m, CEN_AUDIENCE) == (syntax != Xpg))
    && Has(m, CEN_SPECIAL) == p.special.Some? && Has(m, CEN_SPONSOR | CEN_REVISION) == p.sponsor.Some?
    && (p.sponsor.Some? ==> Has(m, CEN_SPONSOR) && Has(m, CEN_REVISION) == p.revision.Some?)
    && (p.sponsor.None? ==> p.revision.None?)
  }

  lemma FlagsOf(p: Parts, syntax: Syntax, m: Mask)
    requires Spellable(p, syntax)
    requires if syntax == Xpg then p.special.None? && p.sponsor.None? && p.revision.None?
             else p.codeset.None? && p.normalized.None?
    requires m == if syntax == Xpg then MaskBits(p, syntax) & (TERRITORY | XPG_CODESET | XPG_MODIFIER)
      else MaskBits(p, syntax)
    ensures Flags(m, p, syntax)
  {
    if syntax == Xpg {
      XpgBits(p.territory.Some?, p.codeset.Some?, p.normalized.Some?, p.modifier.Some?);
    } else {
      CenBits(p.territory.Some?, p.modifier.Some?, p.special.Some?, p.sponsor.Some?, p.revision.Some?);
    }
  }

  lemma SponsorAsJoined(p: Parts, m: Mask, syntax: Syntax)
    requires Flags(m, p, syntax)
    ensures SponsorPart(m, p) == Prefixed(',', p.sponsor) + Prefixed('_', p.revision)
  {}

  lemma NothingBetween(a: string, c: string, d: string, e: string, f: string)
    ensures a + "" + c + d + (e + f) == a + c + d + e + f
  {}

  lemma SameParts(p: Parts, syntax: Syntax, m: Mask)
    requires Flags(m, p, syntax)
    ensures LocaleWith(m, p) == Rejoined(p, syntax)
  {
    SponsorAsJoined(p, m, syntax);
    var sep := if syntax == Xpg then '@' else '+';
    assert Optional(Has(m, XPG_MODIFIER | CEN_AUDIENCE), if Has(m, CEN_AUDIENCE) then '+' else '@', p.modifier)
      == Prefixed(sep, p.modifier);
    NothingBetween(
      p.language + Prefixed('_', p.territory) + Prefixed('.', p.codeset), Prefixed(sep, p.modifier),
      Prefixed('+', p.special), Prefixed(',', p.sponsor), Prefixed('_', p.revision));
  }

  /** The name with the parts of its spelling is the name. */
  lemma SpelledOut(s: string)
    requires Spellable(PartsOf(s), CutsOf(s).syntax)
    ensures LocaleWith(SpellMask(s), PartsOf(s)) == s
  {
    PartsBySyntax(s);
    FlagsOf(PartsOf(s), CutsOf(s).syntax, SpellMask(s));
    SameParts(PartsOf(s), CutsOf(s).syntax, SpellMask(s));
    NothingLost(s);
  }

  lemma XpgAdmissible(m: bv8)
    ensures Admissible(m & (TERRITORY | XPG_CODESET | XPG_MODIFIER), m)
  {}

  /** Those parts are all of them, or among those that the name inherits from. */
  lemma SpellMaskIs(s: string)
    ensures SpellMask(s) == MaskOf(s) || SpellMask(s) in Inherited(MaskOf(s), false)
  {
    XpgAdmissible(MaskOf(s));
    InheritedIs(MaskOf(s), false);
  }

  // ----- names that are not spelled out

  lemma AnyBits(t: bool, c: bool, n: bool, d: bool, a: bool, b: bool, r: bool, te: bool, ce: bool, de: bool)
    ensures
      var m := (Flag(t, TERRITORY) | Flag(c, XPG_CODESET) | Flag(n, XPG_NORM_CODESET)
               | Flag(d, XPG_MODIFIER | CEN_AUDIENCE) | Flag(a, CEN_SPECIAL) | Flag(b, CEN_SPONSOR)
                 | Flag(r, CEN_REVISION))
               & !Flag(te, TERRITORY) & !Flag(ce, XPG_CODESET) & !Flag(de, XPG_MODIFIER);
      && (m & TERRITORY != 0 <==> t && !te) && (m & XPG_CODESET != 0 <==> c && !ce)
        && (m & XPG_NORM_CODESET != 0 <==> n)
      && (m & (XPG_MODIFIER | CEN_AUDIENCE) != 0 <==> d) && (m & XPG_MODIFIER != 0 <==> d && !de)
      && (m & CEN_SPECIAL != 0 <==> a) && (m & CEN_SPONSOR != 0 <==> b) && (m & CEN_REVISION != 0 <==> r)
  {}

  /** What a dominated mask can have. */
  ghost predicate Possible(c: Mask, p: Parts, syntax: Syntax) {
    && (Has(c, TERRITORY) ==> p.territory.Some? && !(syntax == Xpg && p.territory == Some("")))
    && (Has(c, XPG_CODESET) ==> p.codeset.Some? && !(syntax == Xpg && p.codeset == Some("")))
    && (Has(c, XPG_NORM_CODESET) ==> p.normalized.Some?)
    && (Has(c, XPG_MODIFIER | CEN_AUDIENCE) ==> p.modifier.Some?)
    && (Has(c, XPG_MODIFIER) ==> !(syntax == Xpg && p.modifier == Some("")))
    && (Has(c, CEN_SPECIAL) ==> p.special.Some?) && (Has(c, CEN_SPONSOR) ==> p.sponsor.Some?)
    && (Has(c, CEN_REVISION) ==> p.revision.Some?)
  }

  lemma NoFlag(x: bv8, a: bv8)
    ensures x & !Flag(false, a) == x
  {}

  lemma AllPossible(p: Parts, syntax: Syntax)
    ensures Possible(MaskBits(p, syntax), p, syntax)
  {
    var te, ce, de := p.territory == Some(""), p.codeset == Some(""), p.modifier == Some("");
    var xpg := syntax == Xpg;
    AnyBits(
      p.territory.Some?, p.codeset.Some?, p.normalized.Some?, p.modifier.Some?, p.special.Some?, p.sponsor.Some?,
      p.revision.Some?, xpg && te, xpg && ce, xpg && de);
    if !xpg {
      NoFlag(Present(p), TERRITORY);
      NoFlag(Present(p), XPG_CODESET);
      NoFlag(Present(p), XPG_MODIFIER);
    }
  }

  lemma DominatedPossible(c: Mask, p: Parts, syntax: Syntax)
    requires Dominated(c, MaskBits(p, syntax))
    ensures Possible(c, p, syntax)
  {
    var m := MaskBits(p, syntax);
    AllPossible(p, syntax);
    HasBelow(c, m, TERRITORY);
    HasBelow(c, m, XPG_CODESET);
    HasBelow(c, m, XPG_NORM_CODESET);
    HasBelow(c, m, XPG_MODIFIER | CEN_AUDIENCE);
    HasBelow(c, m, XPG_MODIFIER);
    HasBelow(c, m, CEN_SPECIAL);
    HasBelow(c, m, CEN_SPONSOR);
    HasBelow(c, m, CEN_REVISION);
  }

  /** Without a sponsor there is no comma before the revision. */
  lemma NoComma(s: string)
    requires CutsOf(s).spon.None? && CutsOf(s).rev.Some?
    ensures CutsOf(s).rev.value < |s| && forall k :: 0 <= k < CutsOf(s).rev.value ==> s[k] != ','
  {}

  // ----- each reason why

  /** The name up to sponsor and revision. */
  function HeadWith(m: Mask, p: Parts): string {
    p.language + Optional(Has(m, TERRITORY), '_', p.territory) + Optional(Has(m, XPG_CODESET), '.', p.codeset)
    + Optional(Has(m, XPG_NORM_CODESET), '.', p.normalized)
    + Optional(Has(m, XPG_MODIFIER | CEN_AUDIENCE), if Has(m, CEN_AUDIENCE) then '+' else '@', p.modifier)
    + Optional(Has(m, CEN_SPECIAL), '+', p.special)
  }

  function HeadJoined(p: Parts): string {
    p.language + Prefixed('_', p.territory) + Prefixed('.', p.codeset) + Prefixed('+', p.modifier)
    + Prefixed('+', p.special)
  }

  lemma PartsLost(there: bool, sep: char, sep2: char, part: Option<string>)
    requires there ==> part.Some?
    ensures |Optional(there, sep, part)| <= |Prefixed(sep2, part)|
  {}

  lemma HeadLost(c: Mask, p: Parts, syntax: Syntax)
    requires Possible(c, p, syntax) && p.normalized.None?
    ensures |HeadWith(c, p)| <= |HeadJoined(p)|
  {
    PartsLost(Has(c, TERRITORY), '_', '_', p.territory);
    PartsLost(Has(c, XPG_CODESET), '.', '.', p.codeset);
    PartsLost(
      Has(c, XPG_MODIFIER | CEN_AUDIENCE), if Has(c, CEN_AUDIENCE) then '+' else '@', '+', p.modifier);
    PartsLost(Has(c, CEN_SPECIAL), '+', '+', p.special);
  }

  lemma RevisionLength(s: string)
    requires CutsOf(s).rev.Some?
    ensures PartsOf(s).revision.Some? && |PartsOf(s).revision.value| == |s| - CutsOf(s).rev.value - 1
  {}

  /** The comma that a revision brings along is not in the name. */
  lemma CommaAdded(s: string, c: Mask)
    requires CutsOf(s).syntax != Xpg && Possible(c, PartsOf(s), CutsOf(s).syntax)
    requires PartsOf(s).revision.Some? && PartsOf(s).sponsor.None?
    ensures LocaleWith(c, PartsOf(s)) != s
  {
    var p := PartsOf(s);
    PartsBySyntax(s);
    NothingLost(s);
    NoComma(s);
    RevisionLength(s);
    HeadLost(c, p, CutsOf(s).syntax);
    EitherBit(c, CEN_SPONSOR, CEN_REVISION);
    var h := HeadWith(c, p);
    assert |s| == |HeadJoined(p)| + 1 + |p.revision.value|;
    if Has(c, CEN_REVISION) && |h| + 1 == |HeadJoined(p)| {
      assert LocaleWith(c, p)[|h|] == ',';
      assert s[|h|] != ',';
    }
  }

  /** In XPG syntax a codeset comes with a territory, and its normalized form is that of one that is not empty. */
  lemma XpgParts(s: string)
    requires CutsOf(s).syntax == Xpg
    ensures
      var p := PartsOf(s);
      && (p.codeset.Some? ==> p.territory.Some?)
      && (p.normalized.Some? ==>
           p.codeset.Some? && p.codeset.value != "" && p.normalized.value == Normalize(p.codeset.value))
  {}

  /** What a mask leaves of a name in XPG syntax. */
  ghost predicate XpgWith(x: string, p: Parts, t: string, c: string, n: string, m: string) {
    && x == p.language + t + c + n + m
    && (t == "" || (p.territory.Some? && t == ['_'] + p.territory.value))
    && (c == "" || (p.codeset.Some? && c == ['.'] + p.codeset.value))
    && (n == "" || (p.normalized.Some? && n == ['.'] + p.normalized.value))
    && (m == "" || (p.modifier.Some? && (m == ['+'] + p.modifier.value || m == ['@'] + p.modifier.value)))
  }

  lemma XpgSplit(c: Mask, p: Parts) returns (terr: string, cs: string, norm: string, mod: string)
    requires Possible(c, p, Xpg) && p.special.None? && p.sponsor.None? && p.revision.None?
    ensures XpgWith(LocaleWith(c, p), p, terr, cs, norm, mod)
    ensures terr != "" <==> Has(c, TERRITORY)
    ensures cs != "" <==> Has(c, XPG_CODESET)
    ensures norm != "" <==> Has(c, XPG_NORM_CODESET)
    ensures Has(c, CEN_AUDIENCE) ==> p.modifier.Some? && mod == ['+'] + p.modifier.value
    ensures mod != "" && !Has(c, CEN_AUDIENCE) ==> p.modifier.Some? && mod == ['@'] + p.modifier.value
    ensures mod != "" <==> Has(c, XPG_MODIFIER) || Has(c, CEN_AUDIENCE)
  {
    terr := Optional(Has(c, TERRITORY), '_', p.territory);
    cs := Optional(Has(c, XPG_CODESET), '.', p.codeset);
    norm := Optional(Has(c, XPG_NORM_CODESET), '.', p.normalized);
    mod := Optional(Has(c, XPG_MODIFIER | CEN_AUDIENCE), if Has(c, CEN_AUDIENCE) then '+' else '@', p.modifier);
    EitherBit(c, XPG_MODIFIER, CEN_AUDIENCE);
    EitherBit(c, CEN_SPONSOR, CEN_REVISION);
  }

  /** The underscore of an empty territory is missing. */
  lemma TerritoryMissing(p: Parts, x: string, s: string, c: string, n: string, m: string)
    requires XpgWith(x, p, "", c, n, m) && p.territory.Some? && s == Rejoined(p, Xpg)
    ensures x != s
  {
    assert s[|p.language|] == '_';
  }

  /** The dot of an empty codeset is missing. */
  lemma DotMissing(p: Parts, x: string, s: string, t: string, m: string)
    requires XpgWith(x, p, t, "", "", m) && p.territory.Some? && p.codeset.Some? && s == Rejoined(p, Xpg)
    ensures x != s
  {
    if t == "" {
      TerritoryMissing(p, x, s, "", "", m);
    } else {
      var k := |p.language| + |t|;
      assert s[k] == '.';
      if |x| > k {
        assert x[k] == m[0];
      }
    }
  }

  lemma {:induction false} KeptPlain(cs: string)
    ensures '@' !in Kept(cs)
  {
    if cs != "" {
      KeptPlain(cs[..|cs| - 1]);
    }
  }

  /** The at sign of an empty modifier is missing. */
  lemma AtMissing(p: Parts, x: string, s: string, t: string, c: string, n: string, m: string)
    requires XpgWith(x, p, t, c, n, m) && p.modifier == Some("") && s == Rejoined(p, Xpg)
    requires p.special.None? && p.sponsor.None? && p.revision.None?
    requires p.codeset.Some? ==> p.territory.Some?
    requires p.normalized.Some? ==> p.codeset.Some? && p.normalized.value == Normalize(p.codeset.value)
    requires m == "+" || (m == "" && (c == "" || n == ""))
    ensures x != s
  {
    assert s == p.language + Prefixed('_', p.territory) + Prefixed('.', p.codeset) + "@";
    assert s[|s| - 1] == '@';
    if m == "+" {
      assert x[|x| - 1] == '+';
    } else if n == "" {
      assert |x| < |s|;
    } else if t == "" {
      TerritoryMissing(p, x, s, c, n, m);
    } else {
      KeptPlain(p.codeset.value);
      assert x[|x| - 1] == n[|n| - 1];
    }
  }

  lemma AudienceBits(t: bool, c: bool, n: bool, a: bool, b: bool, r: bool, te: bool, ce: bool, de: bool)
    ensures
      (Flag(t, TERRITORY) | Flag(c, XPG_CODESET) | Flag(n, XPG_NORM_CODESET)
      | Flag(true, XPG_MODIFIER | CEN_AUDIENCE) | Flag(a, CEN_SPECIAL) | Flag(b, CEN_SPONSOR) | Flag(r, CEN_REVISION))
      & !Flag(te, TERRITORY) & !Flag(ce, XPG_CODESET) & !Flag(de, XPG_MODIFIER) & CEN_AUDIENCE != 0
  {}

  /** An empty modifier leaves the bit of the audience. */
  lemma AudienceStays(p: Parts)
    requires p.modifier.Some?
    ensures Has(MaskBits(p, Xpg), CEN_AUDIENCE)
  {
    AudienceBits(
      p.territory.Some?, p.codeset.Some?, p.normalized.Some?, p.special.Some?, p.sponsor.Some?, p.revision.Some?,
      p.territory == Some(""), p.codeset == Some(""), p.modifier == Some(""));
  }

  /** An empty part is not in any of the names. */
  lemma PartMissing(s: string, c: Mask)
    requires CutsOf(s).syntax == Xpg && !Spellable(PartsOf(s), Xpg)
    requires c == MaskOf(s) || c in Inherited(MaskOf(s), false)
    ensures LocaleWith(c, PartsOf(s)) != s
  {
    var p, x := PartsOf(s), LocaleWith(c, PartsOf(s));
    InheritedIs(MaskOf(s), false);
    Itself(MaskOf(s));
    DominatedPossible(c, p, Xpg);
    PartsBySyntax(s);
    XpgParts(s);
    NothingLost(s);
    var terr, cs, norm, mod := XpgSplit(c, p);
    if p.territory == Some("") {
      TerritoryMissing(p, x, s, cs, norm, mod);
    } else if p.codeset == Some("") {
      DotMissing(p, x, s, terr, mod);
    } else {
      AudienceStays(p);
      AtMissing(p, x, s, terr, cs, norm, mod);
    }
  }

  lemma Itself(m: bv8)
    ensures Dominated(m, m)
  {}

  /** A name that cannot be spelled out has its spelling nowhere among the names tried for it. */
  lemma NotSpelled(s: string, c: Mask)
    requires !Spellable(PartsOf(s), CutsOf(s).syntax) && (c == MaskOf(s) || c in Inherited(MaskOf(s), false))
    ensures LocaleWith(c, PartsOf(s)) != s
  {
    if CutsOf(s).syntax == Xpg {
      PartMissing(s, c);
    } else {
      InheritedIs(MaskOf(s), false);
      Itself(MaskOf(s));
      DominatedPossible(c, PartsOf(s), CutsOf(s).syntax);
      CommaAdded(s, c);
    }
  }
}
