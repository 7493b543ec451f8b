/** When the parts of a name have a normalized codeset. It is meant for codesets that are not normalized, but the
    comparison takes in the modifier (intl/explodename.c:104-114). */
module LocaleNormalized {
  import opened LocaleDomain
  import opened LocaleExplode
  import opened LocaleFile
  import opened LocaleListing
  import opened LocaleMask
  import opened LocaleName
  import opened LocaleRequest
  import opened LocaleSpelling
  import opened Options

  /** What stands behind the dot of the codeset. */
  lemma CodesetAndRest(s: string)
    requires PartsOf(s).codeset.Some?
    ensures
      var p, cut := PartsOf(s), CutsOf(s).cs;
      && CutsOf(s).syntax == Xpg && cut.Some? && cut.value < |s|
      && s[cut.value + 1..] == p.codeset.value + Prefixed('@', p.modifier)
  {
    var c, x := CutsOf(s), StartsOf(CutsOf(s), |s|);
    CutsInOrder(s);
    PartsBySyntax(s);
    PieceSplits(s, c.mod, x.mod, x.spec, '@');
    assert s[c.cs.value + 1..] == s[c.cs.value + 1..x.mod] + s[x.mod..];
    assert s[x.spec..] == "";
  }

  lemma NeverBoth(cs: string, n: string, modifier: Option<string>)
    requires '@' !in n
    ensures cs + Prefixed('@', modifier) == n <==> cs == n && modifier.None?
  {
    if modifier.Some? {
      assert (cs + Prefixed('@', modifier))[|cs|] == '@';
    } else {
      assert cs + "" == cs;
    }
  }

  lemma NoAt(cs: string)
    ensures '@' !in Normalize(cs)
  {
    KeptPlain(cs);
  }

  // ----- normal forms

  ghost predicate LowAlnum(cs: string) {
    forall c :: c in cs ==> Alnum(c) && Lower(c) == c
  }

  lemma {:induction false} KeptLow(cs: string)
    ensures LowAlnum(Kept(cs))
    decreases |cs|
  {
    if cs != "" {
      KeptLow(cs[..|cs| - 1]);
    }
  }

  lemma {:induction false} KeptAll(cs: string)
    requires LowAlnum(cs)
    ensures Kept(cs) == cs
    decreases |cs|
  {
    if cs != "" {
      assert cs[|cs| - 1] in cs;
      KeptAll(cs[..|cs| - 1]);
    }
  }

  lemma NormalizeLow(cs: string)
    ensures LowAlnum(Normalize(cs))
  {
    KeptLow(cs);
  }

  lemma {:induction false} KeptJoined(a: string, b: string)
    ensures Kept(a + b) == Kept(a) + Kept(b)
    decreases |b|
  {
    if b == "" {
      assert a + b == a;
    } else {
      KeptJoined(a, b[..|b| - 1]);
      assert (a + b)[..|a + b| - 1] == a + b[..|b| - 1];
    }
  }

  lemma {:induction false} KeptAlpha(cs: string, k: nat)
    requires k < |cs| && Alpha(cs[k])
    ensures exists j :: 0 <= j < |Kept(cs)| && Alpha(Kept(cs)[j])
    decreases |cs|
  {
    var before := cs[..|cs| - 1];
    if k < |cs| - 1 {
      KeptAlpha(before, k);
      var j :| 0 <= j < |Kept(before)| && Alpha(Kept(before)[j]);
      assert Kept(cs)[j] == Kept(before)[j];
    } else {
      assert Kept(cs)[|Kept(before)|] == Lower(cs[k]);
    }
  }

  /** A normal form is its own. */
  lemma NormalForm(cs: string)
    ensures Normalize(Normalize(cs)) == Normalize(cs)
  {
    var n := Normalize(cs);
    NormalizeLow(cs);
    KeptAll(n);
    if k :| 0 <= k < |cs| && Alpha(cs[k]) {
      KeptAlpha(cs, k);
      assert n == Kept(cs);
    } else {
      assert Alpha(n[0]);
    }
  }

  /** A codeset with its normal form behind it is not normalized to the codeset. */
  lemma NotShortened(cs: string)
    requires cs != ""
    ensures Normalize(cs + "." + Normalize(cs)) != cs
  {
    var n := Normalize(cs);
    NormalizeLow(cs + "." + n);
    if LowAlnum(cs) {
      NormalizeLow(cs);
      KeptAll(cs);
      KeptAll(n);
      KeptJoined(cs + ".", n);
      KeptJoined(cs, ".");
      assert |Kept(cs + "." + n)| >= |cs| + |n|;
    }
  }

  // ----- the comparison

  /** There is a normalized codeset exactly if the codeset is not empty, and either not normalized or followed by a
      modifier; it is the normal form of the codeset. */
  lemma NormalizedIf(s: string)
    ensures
      var p := PartsOf(s);
      && (p.normalized.Some?
          <==> p.codeset.Some? && p.codeset.value != ""
               && (Normalize(p.codeset.value) != p.codeset.value || p.modifier.Some?))
      && (p.normalized.Some? ==> p.normalized.value == Normalize(p.codeset.value))
  {
    var p := PartsOf(s);
    if p.codeset.Some? {
      CodesetAndRest(s);
      NoAt(p.codeset.value);
      NeverBoth(p.codeset.value, Normalize(p.codeset.value), p.modifier);
    }
  }

  /** A codeset that is normalized already is taken for one that is not exactly if a modifier follows. */
  lemma TakenForOther(s: string)
    ensures
      var p := PartsOf(s);
      p.normalized.Some? && p.normalized == p.codeset
      <==> p.codeset.Some? && p.codeset.value != "" && Normalize(p.codeset.value) == p.codeset.value && p.modifier.Some?
  {
    NormalizedIf(s);
  }

  // ----- what follows from that

  lemma BothBits(s: string)
    requires PartsOf(s).normalized.Some?
    ensures Has(MaskOf(s), XPG_CODESET) && Has(MaskOf(s), XPG_NORM_CODESET)
  {
    NormalizedIf(s);
    PartsBySyntax(s);
    var p := PartsOf(s);
    AnyBits(
      p.territory.Some?, p.codeset.Some?, p.normalized.Some?, p.modifier.Some?, p.special.Some?, p.sponsor.Some?,
      p.revision.Some?, p.territory == Some(""), p.codeset == Some(""), p.modifier == Some(""));
  }

  /** The mask with the one codeset in place of the other. */
  function OtherCodeset(c: Mask): Mask {
    (c & !XPG_CODESET) | XPG_NORM_CODESET
  }

  lemma OtherBits(c: bv8, m: bv8)
    requires Admissible(c, m) && c & XPG_CODESET != 0 && m & XPG_CODESET != 0 && m & XPG_NORM_CODESET != 0
    ensures var d := OtherCodeset(c); Admissible(d, m) && d != c && d != m && c & XPG_NORM_CODESET == 0
  {}

  lemma OtherFlags(c: bv8)
    ensures
      var d := OtherCodeset(c);
      && d & XPG_CODESET == 0 && d & XPG_NORM_CODESET != 0 && d & TERRITORY == c & TERRITORY
      && d & (XPG_MODIFIER | CEN_AUDIENCE) == c & (XPG_MODIFIER | CEN_AUDIENCE) && d & CEN_AUDIENCE == c & CEN_AUDIENCE
      && d & CEN_SPECIAL == c & CEN_SPECIAL && d & (CEN_SPONSOR | CEN_REVISION) == c & (CEN_SPONSOR | CEN_REVISION)
      && d & CEN_SPONSOR == c & CEN_SPONSOR && d & CEN_REVISION == c & CEN_REVISION
  {}

  lemma SwapPart(head: string, cs: string)
    ensures head + (['.'] + cs) + "" == head + "" + (['.'] + cs)
  {}

  lemma OtherName(p: Parts, c: Mask)
    requires p.normalized == p.codeset && Has(c, XPG_CODESET) && !Has(c, XPG_NORM_CODESET)
    ensures LocaleWith(OtherCodeset(c), p) == LocaleWith(c, p)
  {
    OtherFlags(c);
    SwapPart(p.language + Optional(Has(c, TERRITORY), '_', p.territory), Text(p.codeset));
  }

  /** Then the name with all parts has the codeset twice and is not looked for at all, and every file with the
      codeset is asked for by two different masks. */
  lemma AskedTwice(q: Request, s: string, c: Mask)
    requires PartsOf(s).normalized.Some? && PartsOf(s).normalized == PartsOf(s).codeset
      && q == Full(q.dirs, s, q.filename)
    ensures Decided(q)
    ensures Tried(q, c) && Has(c, XPG_CODESET) && c != q.mask ==>
              && Tried(q, OtherCodeset(c)) && OtherCodeset(c) != c
              && NameOf(q.(mask := OtherCodeset(c))) == NameOf(q.(mask := c))
  {
    BothBits(s);
    if Tried(q, c) && Has(c, XPG_CODESET) && c != q.mask {
      InheritedIs(q.mask, false);
      OtherBits(c, q.mask);
      OtherName(q.parts, c);
    }
  }
}
