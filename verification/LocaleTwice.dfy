/** The file that only the first lookup of a name tries: the node made for its full form leads to it, the node with
    its spelling, which every later lookup finds, does not (intl/finddomain.c:85-170, intl/l10nflist.c:333-361). */
module LocaleTwice {
  import opened LocaleDomain
  import opened LocaleExplode
  import opened LocaleFile
  import opened LocaleListing
  import opened LocaleMask
  import opened LocaleName
  import opened LocaleNormalized
  import opened LocaleRequest
  import opened LocaleSpelling

  /** The parts of that file: the modifier behind a plus sign, or the normalized codeset. */
  function OnlyFirst(p: Parts): Mask {
    if p.modifier.Some? then CEN_AUDIENCE else TERRITORY | XPG_NORM_CODESET
  }

  /** A name that can be spelled out but is not plain. */
  ghost predicate TwoForms(s: string) {
    Spellable(PartsOf(s), CutsOf(s).syntax) && !PlainName(s)
  }

  /** Its parts. */
  ghost predicate Unplain(p: Parts) {
    && Spellable(p, Xpg) && p.special.None? && p.sponsor.None? && p.revision.None?
    && (p.codeset.Some? ==> p.territory.Some?)
    && (p.normalized.Some? ==> p.codeset.Some? && '@' !in p.normalized.value)
    && (p.modifier.Some? || (p.normalized.Some? && p.normalized != p.codeset))
  }

  lemma UnplainParts(s: string)
    requires TwoForms(s)
    ensures CutsOf(s).syntax == Xpg && Unplain(PartsOf(s))
      && s == HeadOfFull(PartsOf(s)) + Prefixed('@', PartsOf(s).modifier)
  {
    var p := PartsOf(s);
    NormalizedIf(s);
    XpgParts(s);
    XpgFullName(s, p);
    PartsBySyntax(s);
    if p.codeset.Some? {
      NoAt(p.codeset.value);
    }
  }

  // ----- with a modifier

  lemma PlusIsNoAt(a: string, b: string, m: string)
    ensures a + (['+'] + m) != b + (['@'] + m)
  {
    if |a| == |b| {
      assert (a + (['+'] + m))[|a|] == '+' && (b + (['@'] + m))[|a|] == '@';
    }
  }

  lemma NotBehind(lang: string, rest: string, m: string)
    requires rest != "" ==> rest[0] != '+'
    ensures lang + rest != lang + (['+'] + m)
  {
    if rest != "" {
      assert (lang + rest)[|lang|] == rest[0] && (lang + (['+'] + m))[|lang|] == '+';
    }
  }

  lemma Tailed(lang: string, t: string, c: string, n: string, m: string)
    ensures lang + t + c + n + m == lang + (t + c + n + m)
  {}

  lemma ModifierFile(p: Parts)
    requires p.modifier.Some? && p.special.None?
    ensures LocaleWith(CEN_AUDIENCE, p) == p.language + (['+'] + p.modifier.value)
  {
    assert Has(CEN_AUDIENCE, CEN_AUDIENCE) && !Has(CEN_AUDIENCE, XPG_CODESET) && !Has(CEN_AUDIENCE, TERRITORY);
  }

  /** The mask of a node with the spelling has no audience. */
  lemma NoAudience(p: Parts, c: Mask, s: string)
    requires Unplain(p) && p.modifier.Some? && Possible(c, p, Xpg)
    requires s == HeadOfFull(p) + Prefixed('@', p.modifier) && LocaleWith(c, p) == s
    ensures !Has(c, CEN_AUDIENCE)
  {
    if Has(c, CEN_AUDIENCE) {
      var t, cs, n, m := XpgSplit(c, p);
      PlusIsNoAt(p.language + t + cs + n, HeadOfFull(p), p.modifier.value);
    }
  }

  /** Without the audience the name is not that of the file. */
  lemma NotModifierFile(p: Parts, c: Mask)
    requires Unplain(p) && p.modifier.Some? && Possible(c, p, Xpg) && !Has(c, CEN_AUDIENCE)
    ensures LocaleWith(c, p) != LocaleWith(CEN_AUDIENCE, p)
  {
    var t, cs, n, m := XpgSplit(c, p);
    ModifierFile(p);
    Tailed(p.language, t, cs, n, m);
    NotBehind(p.language, t + cs + n + m, p.modifier.value);
  }

  // ----- without a modifier

  lemma NormalizedFile(p: Parts)
    requires p.territory.Some? && p.normalized.Some?
    ensures
      LocaleWith(TERRITORY | XPG_NORM_CODESET, p)
      == p.language + (['_'] + p.territory.value) + (['.'] + p.normalized.value)
  {
    var m := TERRITORY | XPG_NORM_CODESET;
    assert Has(m, TERRITORY) && !Has(m, XPG_CODESET) && Has(m, XPG_NORM_CODESET) && !Has(m, CEN_SPECIAL);
    assert !Has(m, XPG_MODIFIER | CEN_AUDIENCE) && !Has(m, CEN_SPONSOR | CEN_REVISION);
  }

  /** A territory and at most one codeset behind the language: when two names are the same. */
  lemma TwoNames(lang: string, terr: string, t: string, c: string, d: string)
    requires t == "" || t == ['_'] + terr
    requires c == "" || c[0] == '.'
    ensures lang + t + c == lang + (['_'] + terr) + (['.'] + d) <==> t != "" && c == ['.'] + d
  {
    var x, y := lang + t + c, lang + (['_'] + terr) + (['.'] + d);
    assert y[|lang|] == '_';
    if t != "" {
      var k := |lang| + |t|;
      assert x[k..] == c && y[k..] == ['.'] + d;
    } else if c != "" {
      assert x[|lang|] == '.';
    }
  }

  lemma BehindDot(a: string, b: string)
    requires ['.'] + a == ['.'] + b
    ensures a == b
  {
    assert a == (['.'] + a)[1..] && b == (['.'] + b)[1..];
  }

  /** The mask of a node with the spelling has no normalized codeset. */
  lemma NoNormalized(p: Parts, c: Mask)
    requires Unplain(p) && p.modifier.None? && Possible(c, p, Xpg) && LocaleWith(c, p) == HeadOfFull(p)
    ensures !Has(c, XPG_NORM_CODESET)
  {
    if Has(c, XPG_NORM_CODESET) {
      var t, cs, n, m := XpgSplit(c, p);
      assert p.language + t + cs + n + m == p.language + t + (cs + n);
      TwoNames(p.language, p.territory.value, t, cs + n, p.codeset.value);
      if cs == "" {
        assert cs + n == n;
        BehindDot(p.normalized.value, p.codeset.value);
      }
    }
  }

  /** Without it the name is not that of the file. */
  lemma NotNormalizedFile(p: Parts, c: Mask)
    requires Unplain(p) && p.modifier.None? && Possible(c, p, Xpg) && !Has(c, XPG_NORM_CODESET)
    ensures LocaleWith(c, p) != LocaleWith(TERRITORY | XPG_NORM_CODESET, p)
  {
    var t, cs, n, m := XpgSplit(c, p);
    assert LocaleWith(c, p) == p.language + t + cs;
    NormalizedFile(p);
    TwoNames(p.language, p.territory.value, t, cs, p.normalized.value);
    if cs == ['.'] + p.normalized.value {
      BehindDot(p.normalized.value, p.codeset.value);
    }
  }

  // ----- both

  /** A name with both codesets is another. */
  lemma NotBothCodesets(p: Parts, c: Mask)
    requires Unplain(p) && Possible(c, p, Xpg) && Has(c, XPG_CODESET) && Has(c, XPG_NORM_CODESET)
    ensures LocaleWith(c, p) != LocaleWith(OnlyFirst(p), p)
  {
    var t, cs, n, m := XpgSplit(c, p);
    Tailed(p.language, t, cs, n, m);
    if p.modifier.Some? {
      ModifierFile(p);
      NotBehind(p.language, t + cs + n + m, p.modifier.value);
    } else {
      NormalizedFile(p);
      assert t + cs + n + m == t + (cs + n);
      TwoNames(p.language, p.territory.value, t, cs + n, p.normalized.value);
    }
  }

  lemma OnlyFirstBits(m: bv8)
    ensures m & CEN_AUDIENCE != 0 ==> Admissible(CEN_AUDIENCE, m)
    ensures m & XPG_MODIFIER != 0 ==> m != CEN_AUDIENCE
    ensures m & TERRITORY != 0 && m & XPG_NORM_CODESET != 0 ==> Admissible(TERRITORY | XPG_NORM_CODESET, m)
    ensures m & XPG_CODESET != 0 ==> m != TERRITORY | XPG_NORM_CODESET
  {}

  lemma OnlyFirstTried(q: Request)
    requires Unplain(q.parts) && q.mask == MaskBits(q.parts, Xpg)
    ensures Tried(q, OnlyFirst(q.parts)) && OnlyFirst(q.parts) != q.mask
  {
    FullFlagsOf(q.parts);
    OnlyFirstBits(q.mask);
    InheritedIs(q.mask, false);
  }

  lemma TriedPossible(q: Request, c: Mask)
    requires Tried(q, c) && q.mask == MaskBits(q.parts, Xpg)
    ensures Dominated(c, q.mask) && Possible(c, q.parts, Xpg)
  {
    InheritedIs(q.mask, false);
    Itself(q.mask);
    DominatedPossible(c, q.parts, Xpg);
  }

  lemma FlagBelow(b: bv8, c: bv8, f: bv8)
    requires b & !c == 0 && c & f == 0
    ensures b & f == 0
  {}

  /** A node with the spelling, whichever request it was made for, does not lead to the file. */
  lemma NotFromSpelling(q: Request, s: string, c: Mask, b: Mask)
    requires TwoForms(s) && q == Full(q.dirs, s, q.filename)
    requires Tried(q, c) && LocaleWith(c, q.parts) == s && Tried(q.(mask := c), b)
    ensures LocaleWith(b, q.parts) != LocaleWith(OnlyFirst(q.parts), q.parts)
  {
    var p := q.parts;
    UnplainParts(s);
    TriedPossible(q, c);
    InheritedIs(c, false);
    Itself(c);
    Below3(b, c, q.mask);
    DominatedPossible(b, p, Xpg);
    if p.modifier.Some? {
      NoAudience(p, c, s);
      FlagBelow(b, c, CEN_AUDIENCE);
      NotModifierFile(p, b);
    } else {
      assert s == HeadOfFull(p);
      NoNormalized(p, c);
      FlagBelow(b, c, XPG_NORM_CODESET);
      NotNormalizedFile(p, b);
    }
  }

  lemma Below3(b: bv8, c: bv8, m: bv8)
    requires b & !c == 0 && c & !m == 0
    ensures b & !m == 0
  {}

  /** Two names in the same directories are the same if the parts give the same. */
  lemma SameName(q: Request, c: Mask, x: string)
    ensures NameOf(q.(mask := c)) == Spelled(q.dirs, x, q.filename) <==> LocaleWith(c, q.parts) == x
  {
    if LocaleWith(c, q.parts) != x {
      Different(Directory(q.dirs), LocaleWith(c, q.parts), x, "/", q.filename);
    }
  }

  /** Among the requests for a name and what it inherits from: one is for the file, those with the spelling do not lead
      to it, and none for it is decided. */
  lemma TriedOnce(q: Request, s: string)
    requires TwoForms(s) && |q.dirs| <= 1 && q == Full(q.dirs, s, q.filename)
    ensures
      var file := NameOf(q.(mask := OnlyFirst(q.parts)));
      && AsksFor(q, file)
      && forall r :: r in [q] + Successors(q) ==>
           && (NameOf(r) == Spelled(q.dirs, s, q.filename) ==> !AsksFor(r, file))
           && (NameOf(r) == file ==> !Decided(r))
  {
    var file := NameOf(q.(mask := OnlyFirst(q.parts)));
    UnplainParts(s);
    OnlyFirstTried(q);
    AsksWith(q, OnlyFirst(q.parts));
    forall r | r in [q] + Successors(q)
      ensures NameOf(r) == Spelled(q.dirs, s, q.filename) ==> !AsksFor(r, file)
      ensures NameOf(r) == file ==> !Decided(r)
    {
      OneOfThem(q, r);
      if NameOf(r) == Spelled(q.dirs, s, q.filename) && AsksFor(r, file) {
        SpellingElsewhere(q, s, r.mask, file);
      }
      if NameOf(r) == file && Decided(r) {
        SameName(q, r.mask, LocaleWith(OnlyFirst(q.parts), q.parts));
        TriedPossible(q, r.mask);
        NotBothCodesets(q.parts, r.mask);
      }
    }
  }

  lemma OneOfThem(q: Request, r: Request)
    requires !Several(q) && r in [q] + Successors(q)
    ensures Tried(q, r.mask) && r == q.(mask := r.mask)
  {
    if r != q {
      InOneDirectory(q, r);
    }
  }

  lemma SpellingElsewhere(q: Request, s: string, c: Mask, file: string)
    requires TwoForms(s) && |q.dirs| <= 1 && q == Full(q.dirs, s, q.filename) && Tried(q, c)
    requires file == NameOf(q.(mask := OnlyFirst(q.parts)))
    requires NameOf(q.(mask := c)) == Spelled(q.dirs, s, q.filename)
    ensures !AsksFor(q.(mask := c), file)
  {
    if AsksFor(q.(mask := c), file) {
      var b := AskedBy(q.(mask := c), file);
      assert q.(mask := c).(mask := b) == q.(mask := b);
      SameName(q, c, s);
      SameName(q, b, LocaleWith(OnlyFirst(q.parts), q.parts));
      NotFromSpelling(q, s, c, b);
    }
  }

  // ----- the file for the language alone

  lemma NothingElse(t: bool, c: bool, n: bool, d: bool, x: bv8)
    requires
      var m := (Flag(t, TERRITORY) | Flag(c, XPG_CODESET) | Flag(n, XPG_NORM_CODESET)
               | Flag(d, XPG_MODIFIER | CEN_AUDIENCE) | Flag(false, CEN_SPECIAL) | Flag(false, CEN_SPONSOR)
               | Flag(false, CEN_REVISION))
               & !Flag(false, TERRITORY) & !Flag(false, XPG_CODESET) & !Flag(false, XPG_MODIFIER);
      x & !m == 0
    requires x & TERRITORY == 0 && x & XPG_CODESET == 0 && x & XPG_NORM_CODESET == 0 && x & XPG_MODIFIER == 0
    requires x & CEN_AUDIENCE == 0
    ensures x == 0
  {}

  lemma OnlyLanguage(p: Parts, c: Mask)
    requires Unplain(p) && Possible(c, p, Xpg) && Dominated(c, MaskBits(p, Xpg))
    ensures LocaleWith(c, p) == p.language <==> c == 0
  {
    var t, cs, n, m := XpgSplit(c, p);
    Tailed(p.language, t, cs, n, m);
    assert LocaleWith(0, p) == p.language;
    if LocaleWith(c, p) == p.language {
      assert |t + cs + n + m| == 0;
      NothingElse(p.territory.Some?, p.codeset.Some?, p.normalized.Some?, p.modifier.Some?, c);
    }
  }

  lemma LanguageFile(q: Request, c: Mask)
    requires Unplain(q.parts) && q.mask == MaskBits(q.parts, Xpg) && Tried(q, c)
    ensures NameOf(q.(mask := c)) == NameOf(q.(mask := 0)) <==> c == 0
  {
    TriedPossible(q, c);
    OnlyLanguage(q.parts, c);
    assert LocaleWith(0, q.parts) == q.parts.language;
    SameName(q, c, q.parts.language);
  }

  lemma ZeroBelow(c: bv8)
    ensures c != 0 ==> Admissible(0, c)
    ensures c != 0 ==> 0 < c
  {}

  /** What a node with the spelling leads to in the end is the file for the language alone. */
  lemma LanguageLast(q: Request, s: string, r: Request)
    requires TwoForms(s) && |q.dirs| <= 1 && q == Full(q.dirs, s, q.filename) && r in [q] + Successors(q)
    ensures NameOf(r) == NameOf(q.(mask := 0)) ==> !Decided(r)
    ensures NameOf(r) == Spelled(q.dirs, s, q.filename) ==> AsksFor(r, NameOf(q.(mask := 0)))
  {
    UnplainParts(s);
    OneOfThem(q, r);
    LanguageFile(q, r.mask);
    ZeroBelow(r.mask);
    if NameOf(r) == Spelled(q.dirs, s, q.filename) {
      InheritedIs(r.mask, false);
      AsksWith(r, 0);
      assert r.(mask := 0) == q.(mask := 0);
    }
  }

  lemma NotZero(p: Parts)
    ensures OnlyFirst(p) != 0
  {}

  /** The place of that file among what is tried: before the one for the language alone. */
  lemma SuccessorBefore(q: Request) returns (k: nat)
    requires Unplain(q.parts) && q.mask == MaskBits(q.parts, Xpg) && |q.dirs| <= 1
    ensures
      var names := NamesOf(Successors(q));
      && k < |names| && names[k] == NameOf(q.(mask := OnlyFirst(q.parts)))
      && forall j :: 0 <= j <= k ==> names[j] != NameOf(q.(mask := 0))
  {
    var masks := Inherited(q.mask, false);
    OnlyFirstTried(q);
    NotZero(q.parts);
    InheritedIs(q.mask, false);
    k :| 0 <= k < |masks| && masks[k] == OnlyFirst(q.parts);
    NamesAt(q, k);
    forall j | 0 <= j <= k ensures NamesOf(Successors(q))[j] != NameOf(q.(mask := 0)) {
      NamesAt(q, j);
      LaterIsLess(masks, j, k);
      LanguageFile(q, masks[j]);
    }
  }

  /** The file that only the first lookup tries comes before the one for the language alone. */
  lemma FileBeforeLanguage(q: Request, s: string) returns (i: nat)
    requires TwoForms(s) && |q.dirs| <= 1 && q == Full(q.dirs, s, q.filename)
    ensures
      var names := [NameOf(q)] + NamesOf(Successors(q));
      && i < |names| && names[i] == NameOf(q.(mask := OnlyFirst(q.parts)))
      && forall j :: 0 <= j <= i ==> names[j] != NameOf(q.(mask := 0))
  {
    UnplainParts(s);
    OnlyFirstTried(q);
    NotZero(q.parts);
    NotEmpty(q);
    LanguageFile(q, q.mask);
    assert q.(mask := q.mask) == q;
    var k := SuccessorBefore(q);
    OneBehind(NameOf(q), NamesOf(Successors(q)), k, NameOf(q.(mask := 0)));
    i := k + 1;
  }

  lemma OneBehind<T>(head: T, names: seq<T>, k: nat, other: T)
    requires head != other && k < |names| && forall j :: 0 <= j <= k ==> names[j] != other
    ensures ([head] + names)[k + 1] == names[k] && forall j :: 0 <= j <= k + 1 ==> ([head] + names)[j] != other
  {}

  lemma NotEmpty(q: Request)
    requires Tried(q, OnlyFirst(q.parts))
    ensures q.mask != 0
  {
    NotZero(q.parts);
    InheritedIs(q.mask, false);
    ZeroOnly(OnlyFirst(q.parts));
  }

  lemma ZeroOnly(c: bv8)
    ensures Dominated(c, 0) ==> c == 0
  {}

  lemma LaterIsLess(masks: seq<Mask>, j: nat, k: nat)
    requires Decreasing(masks) && j <= k < |masks| && masks[k] != 0
    ensures masks[j] != 0
  {}
}
