/** `_nl_explode_name` (intl/explodename.c:41-185) and `_nl_normalize_codeset` (intl/l10nflist.c:366-414), as
    they work on the characters of the name. */
module LocaleSplit {
  import opened LocaleExplode
  import opened LocaleMask
  import opened LocaleName
  import opened Options

  // ----- _nl_normalize_codeset

  lemma KeptNext(cs: string, k: nat)
    requires k < |cs|
    ensures Kept(cs[..k + 1]) == Kept(cs[..k]) + if Alnum(cs[k]) then [Lower(cs[k])] else ""
  {
    assert cs[..k + 1][..k] == cs[..k];
  }

  lemma {:induction false} KeptGrows(cs: string, k: nat)
    requires k <= |cs|
    ensures |Kept(cs[..k])| <= |Kept(cs)|
    decreases |cs| - k
  {
    if k < |cs| {
      KeptNext(cs, k);
      KeptGrows(cs, k + 1);
    } else {
      assert cs[..k] == cs;
    }
  }

  /** `len` and `only_digit`: how much room the normalized name takes. */
  method Measure(mem: array<char>, codeset: nat, nameLen: nat) returns (len: nat, onlyDigit: bool)
    requires codeset + nameLen <= mem.Length
    ensures
      var cs := mem[codeset..codeset + nameLen];
      len == |Kept(cs)| && onlyDigit == !exists k :: 0 <= k < |cs| && Alpha(cs[k])
  {
    ghost var cs := mem[codeset..codeset + nameLen];
    len, onlyDigit := 0, true;
    for cnt := 0 to nameLen
      invariant len == |Kept(cs[..cnt])| && onlyDigit == !exists k :: 0 <= k < cnt && Alpha(cs[k])
    {
      KeptNext(cs, cnt);
      if Alnum(mem[codeset + cnt]) {
        len := len + 1;
        if Alpha(mem[codeset + cnt]) {
          onlyDigit := false;
        }
      }
    }
    assert cs[..nameLen] == cs;
  }

  method Keep(mem: array<char>, codeset: nat, nameLen: nat, r: array<char>, start: nat, ghost cs: string)
    returns (wp: nat)
    requires codeset + nameLen <= mem.Length && cs == mem[codeset..codeset + nameLen] && mem != r
    requires start + |Kept(cs)| < r.Length
    modifies r
    ensures wp == start + |Kept(cs)| && r[start..wp] == Kept(cs) && r[..start] == old(r[..start])
  {
    wp := start;
    for cnt := 0 to nameLen
      invariant wp == start + |Kept(cs[..cnt])| < r.Length
      invariant forall k :: start <= k < wp ==> r[k] == Kept(cs[..cnt])[k - start]
      invariant forall k :: 0 <= k < start ==> r[k] == old(r[k])
    {
      KeptNext(cs, cnt);
      KeptGrows(cs, cnt + 1);
      if Alnum(mem[codeset + cnt]) {
        r[wp] := Lower(mem[codeset + cnt]);
        wp := wp + 1;
      }
    }
    assert cs[..nameLen] == cs;
  }

  /** The result fills the memory allocated for it. */
  method NormalizeCodeset(mem: array<char>, codeset: nat, nameLen: nat) returns (r: array<char>)
    requires codeset + nameLen <= mem.Length
    ensures fresh(r) && r[..] == Normalize(mem[codeset..codeset + nameLen]) + ['\0']
  {
    ghost var cs := mem[codeset..codeset + nameLen];
    var len, onlyDigit := Measure(mem, codeset, nameLen);
    r := new char[(if onlyDigit then 3 else 0) + len + 1];
    ghost var start := if onlyDigit then "iso" else "";
    var wp := 0;
    if onlyDigit {
      r[0], r[1], r[2] := 'i', 's', 'o';
      wp := 3;
    }
    wp := Keep(mem, codeset, nameLen, r, wp, cs);
    r[wp] := '\0';
    assert r[..] == start + Kept(cs) + ['\0'];
  }

  // ----- _nl_explode_name

  const UNCUT := Cuts(None, None, None, None, None, None, Undecided)

  /** The memory is the name up to its NUL, with NULs at the separators found, all before `cp`. */
  ghost predicate CutSoFar(mem: array<char>, s: string, cp: nat, c: Cuts)
    reads mem
  {
    && mem.Length == |s| + 1 && cp <= |s| && '\0' !in s
    && (forall k :: 0 <= k <= |s| ==> mem[k] == if IsCut(c, k) then '\0' else At(s, k))
    && (forall k :: cp <= k ==> !IsCut(c, k))
  }

  /** The scanning loops. */
  method SkipTo(mem: array<char>, cp: nat, stops: string, ghost s: string, ghost c: Cuts) returns (e: nat)
    requires CutSoFar(mem, s, cp, c)
    ensures e == Upto(s, cp, stops) && mem[e] == At(s, e)
  {
    e := cp;
    while mem[e] != '\0' && mem[e] !in stops
      invariant cp <= e <= |s| && Upto(s, cp, stops) == Upto(s, e, stops)
      decreases |s| - e
    {
      e := e + 1;
    }
  }

  /** A separator becomes the end of the part before it. */
  method Cut(mem: array<char>, cp: nat, ghost s: string, ghost c: Cuts, ghost d: Cuts)
    requires CutSoFar(mem, s, cp, c) && cp < |s|
    requires forall k :: IsCut(d, k) <==> IsCut(c, k) || k == cp
    modifies mem
    ensures CutSoFar(mem, s, cp + 1, d)
  {
    mem[cp] := '\0';
  }

  function HeadCuts(h: Head): Cuts {
    UNCUT.(terr := h.terr, cs := h.cs)
  }

  /** The normalized codeset, unless the rest of the name is just that. */
  method NormalizedCodeset(mem: array<char>, codeset: nat, cp: nat, ghost s: string, ghost c: Cuts)
    returns (normalized: Option<string>)
    requires CutSoFar(mem, s, codeset, c) && 0 < codeset <= cp <= |s|
    ensures normalized == Normalized(s, Some(codeset - 1), Some(s[codeset..cp]))
  {
    normalized := None;
    if codeset != cp && mem[codeset] != '\0' {
      var r := NormalizeCodeset(mem, codeset, cp - codeset);
      assert mem[codeset..cp] == s[codeset..cp];
      ghost var n := |s|;
      StringBetween(mem[..], codeset, n);
      assert mem[..][codeset..n] == s[codeset..];
      if StringAt(mem[..], codeset) != r[..r.Length - 1] {
        normalized := Some(r[..r.Length - 1]);
      }
    }
  }

  method Codeset(mem: array<char>, dot: nat, ghost s: string, ghost c: Cuts)
    returns (normalized: Option<string>, cp: nat)
    requires CutSoFar(mem, s, dot, c) && dot < |s| && c.cs.None?
    modifies mem
    ensures cp == Upto(s, dot + 1, "@") && mem[cp] == At(s, cp) && CutSoFar(mem, s, cp, c.(cs := Some(dot)))
    ensures normalized == Normalized(s, Some(dot), Some(s[dot + 1..cp]))
  {
    ghost var d := c.(cs := Some(dot));
    Cut(mem, dot, s, c, d);
    cp := SkipTo(mem, dot + 1, "@", s, d);
    normalized := NormalizedCodeset(mem, dot + 1, cp, s, d);
  }

  /** What the scan of a head leaves behind. */
  ghost predicate Scanned(
    mem: array<char>, s: string, h: Head,
    territory: Option<nat>, codeset: Option<nat>, normalized: Option<string>, cp: nat, syntax: Syntax)
    reads mem
  {
    && cp == h.cp && syntax == h.syntax && CutSoFar(mem, s, cp, HeadCuts(h))
    && territory == Pointer(h.terr) && codeset == Pointer(h.cs)
    && normalized == (if h.cs.Some? && h.cs.value < cp then Normalized(s, h.cs, Some(s[h.cs.value + 1..cp])) else None)
  }

  method Territory(mem: array<char>, i: nat, ghost s: string)
    returns (territory: Option<nat>, codeset: Option<nat>, normalized: Option<string>, cp: nat, syntax: Syntax)
    requires CutSoFar(mem, s, i, UNCUT) && i < |s|
    modifies mem
    ensures Scanned(mem, s, WithTerritory(s, i), territory, codeset, normalized, cp, syntax)
  {
    codeset, normalized, syntax := None, None, Undecided;
    ghost var c := UNCUT.(terr := Some(i));
    Cut(mem, i, s, UNCUT, c);
    territory := Some(i + 1);
    cp := SkipTo(mem, i + 1, ".@+,_", s, c);
    if mem[cp] == '.' {
      syntax := Xpg;
      codeset := Some(cp + 1);
      normalized, cp := Codeset(mem, cp, s, c);
    }
  }

  method LanguageAndTerritory(mem: array<char>, ghost s: string)
    returns (territory: Option<nat>, codeset: Option<nat>, normalized: Option<string>, cp: nat, syntax: Syntax)
    requires CutSoFar(mem, s, 0, UNCUT)
    modifies mem
    ensures Scanned(mem, s, HeadOf(s), territory, codeset, normalized, cp, syntax)
  {
    territory, codeset, normalized, syntax := None, None, None, Undecided;
    cp := SkipTo(mem, 0, "_@+,", s, UNCUT);
    if cp == 0 {
      cp := SkipTo(mem, 0, "", s, UNCUT);
    } else if mem[cp] == '_' {
      territory, codeset, normalized, cp, syntax := Territory(mem, cp, s);
    }
  }

  /** A modifier or audience, and the parts of the CEN syntax behind it. */
  method Modifier(mem: array<char>, start: nat, before: Syntax, ghost s: string, ghost c: Cuts)
    returns (modifier: Option<nat>, cp: nat, syntax: Syntax)
    requires CutSoFar(mem, s, start, c) && c.mod.None?
    modifies mem
    ensures
      var m := MiddleOf(s, start, before);
      modifier == Pointer(m.mod) && cp == m.cp && syntax == m.syntax && CutSoFar(mem, s, cp, c.(mod := m.mod))
  {
    modifier, cp, syntax := None, start, before;
    if mem[cp] == '@' || (syntax != Xpg && mem[cp] == '+') {
      syntax := if mem[cp] == '@' then Xpg else Cen;
      ghost var d := c.(mod := Some(start));
      Cut(mem, cp, s, c, d);
      cp := cp + 1;
      modifier := Some(cp);
      if syntax == Cen {
        cp := SkipTo(mem, cp, "+,_", s, d);
      }
    }
  }

  method Special(mem: array<char>, start: nat, ghost s: string, ghost c: Cuts)
    returns (special: Option<nat>, cp: nat)
    requires CutSoFar(mem, s, start, c) && c.spec.None?
    modifies mem
    ensures cp == (if At(s, start) == '+' then Upto(s, start + 1, ",_") else start)
    ensures special == (if At(s, start) == '+' then Some(start + 1) else None)
    ensures CutSoFar(mem, s, cp, if At(s, start) == '+' then c.(spec := Some(start)) else c)
  {
    special, cp := None, start;
    if mem[cp] == '+' {
      ghost var d := c.(spec := Some(start));
      Cut(mem, cp, s, c, d);
      special := Some(cp + 1);
      cp := SkipTo(mem, cp + 1, ",_", s, d);
    }
  }

  method Sponsor(mem: array<char>, start: nat, ghost s: string, ghost c: Cuts)
    returns (sponsor: Option<nat>, cp: nat)
    requires CutSoFar(mem, s, start, c) && c.spon.None?
    modifies mem
    ensures cp == (if At(s, start) == ',' then Upto(s, start + 1, "_") else start)
    ensures sponsor == (if At(s, start) == ',' then Some(start + 1) else None)
    ensures CutSoFar(mem, s, cp, if At(s, start) == ',' then c.(spon := Some(start)) else c)
  {
    sponsor, cp := None, start;
    if mem[cp] == ',' {
      ghost var d := c.(spon := Some(start));
      Cut(mem, cp, s, c, d);
      sponsor := Some(cp + 1);
      cp := SkipTo(mem, cp + 1, "_", s, d);
    }
  }

  method Revision(mem: array<char>, start: nat, ghost s: string, ghost c: Cuts)
    returns (revision: Option<nat>)
    requires CutSoFar(mem, s, start, c) && c.rev.None?
    modifies mem
    ensures revision == (if At(s, start) == '_' then Some(start + 1) else None)
    ensures CutSoFar(mem, s, |s|, if At(s, start) == '_' then c.(rev := Some(start)) else c)
  {
    revision := None;
    if mem[start] == '_' {
      Cut(mem, start, s, c, c.(rev := Some(start)));
      revision := Some(start + 1);
    }
  }

  function TailCuts(c: Cuts, t: Tail): Cuts {
    c.(spec := t.spec, spon := t.spon, rev := t.rev)
  }

  method CenParts(mem: array<char>, start: nat, before: Syntax, ghost s: string, ghost c: Cuts)
    returns (special: Option<nat>, sponsor: Option<nat>, revision: Option<nat>, syntax: Syntax)
    requires CutSoFar(mem, s, start, c) && c.spec.None? && c.spon.None? && c.rev.None?
    modifies mem
    ensures
      var t := TailOf(s, start, before);
      && special == Pointer(t.spec) && sponsor == Pointer(t.spon) && revision == Pointer(t.rev) && syntax == t.syntax
      && CutSoFar(mem, s, |s|, TailCuts(c, t))
  {
    special, sponsor, revision, syntax := None, None, None, before;
    if syntax != Xpg && mem[start] in "+,_" {
      syntax := Cen;
      var i, j;
      special, i := Special(mem, start, s, c);
      ghost var d := if At(s, start) == '+' then c.(spec := Some(start)) else c;
      sponsor, j := Sponsor(mem, i, s, d);
      revision := Revision(mem, j, s, if At(s, i) == ',' then d.(spon := Some(i)) else d);
    }
  }

  // ----- the whole of it

  /** The pointers that the function stores. */
  datatype Pointers = Pointers(
    territory: Option<nat>, codeset: Option<nat>, normalized: Option<string>,
    modifier: Option<nat>, special: Option<nat>, sponsor: Option<nat>, revision: Option<nat>)

  function Pointed(mem: string, p: Option<nat>): Option<string> {
    if p.Some? && p.value <= |mem| then Some(StringAt(mem, p.value)) else None
  }

  /** The strings at the pointers; the language is in front. */
  function Read(mem: string, x: Pointers): Parts {
    Parts(
      StringAt(mem, 0), Pointed(mem, x.territory), Pointed(mem, x.codeset), x.normalized,
      Pointed(mem, x.modifier), Pointed(mem, x.special), Pointed(mem, x.sponsor), Pointed(mem, x.revision))
  }

  predicate WithinName(x: Pointers, n: nat) {
    && (x.territory.Some? ==> x.territory.value <= n) && (x.codeset.Some? ==> x.codeset.value <= n)
    && (x.modifier.Some? ==> x.modifier.value <= n) && (x.special.Some? ==> x.special.value <= n)
    && (x.sponsor.Some? ==> x.sponsor.value <= n) && (x.revision.Some? ==> x.revision.value <= n)
  }

  lemma CodesetEnds(s: string)
    ensures
      var h, x := HeadOf(s), StartsOf(CutsOf(s), |s|);
      CutsOf(s).cs == h.cs && (h.cs.Some? ==> h.cs.value < h.cp == x.mod)
  {}

  lemma PointersOf(s: string, x: Pointers)
    requires '\0' !in s
    requires
      var c := CutsOf(s);
      && x.territory == Pointer(c.terr) && x.codeset == Pointer(c.cs) && x.modifier == Pointer(c.mod)
      && x.special == Pointer(c.spec) && x.sponsor == Pointer(c.spon) && x.revision == Pointer(c.rev)
      && x.normalized == PartsOf(s).normalized
    ensures Read(CutUp(s, CutsOf(s)), x) == PartsOf(s) && WithinName(x, |s|)
  {
    CutsInOrder(s);
    PointersLead(s, CutsOf(s));
  }

  lemma CutsBy(s: string, h: Head, m: Middle, t: Tail)
    requires h == HeadOf(s) && m == MiddleOf(s, h.cp, h.syntax) && t == TailOf(s, m.cp, m.syntax)
    ensures TailCuts(HeadCuts(h).(mod := m.mod), t).(syntax := t.syntax) == CutsOf(s)
  {}

  lemma SameCuts(mem: array<char>, s: string, c: Cuts, syntax: Syntax)
    requires CutSoFar(mem, s, |s|, c)
    ensures CutSoFar(mem, s, |s|, c.(syntax := syntax))
  {
    assert forall k :: IsCut(c.(syntax := syntax), k) <==> IsCut(c, k);
  }

  method Scan(name: array<char>, ghost s: string) returns (x: Pointers, syntax: Syntax)
    requires CutSoFar(name, s, 0, UNCUT)
    modifies name
    ensures CutSoFar(name, s, |s|, CutsOf(s)) && Read(CutUp(s, CutsOf(s)), x) == PartsOf(s)
    ensures syntax == CutsOf(s).syntax && WithinName(x, |s|)
  {
    var territory, codeset, normalized, cp, modifier, special, sponsor, revision;
    territory, codeset, normalized, cp, syntax := LanguageAndTerritory(name, s);
    ghost var h := HeadOf(s);
    CodesetEnds(s);
    assert normalized == PartsOf(s).normalized;
    modifier, cp, syntax := Modifier(name, cp, syntax, s, HeadCuts(h));
    ghost var m := MiddleOf(s, h.cp, h.syntax);
    ghost var c := HeadCuts(h).(mod := m.mod);
    special, sponsor, revision, syntax := CenParts(name, cp, syntax, s, c);
    ghost var t := TailOf(s, m.cp, m.syntax);
    CutsBy(s, h, m, t);
    SameCuts(name, s, TailCuts(c, t), syntax);
    x := Pointers(territory, codeset, normalized, modifier, special, sponsor, revision);
    PointersOf(s, x);
  }

  /** A part that is there but empty. */
  predicate Blank(name: array<char>, p: Option<nat>)
    requires p.Some? ==> p.value < name.Length
    reads name
  {
    p.Some? && name[p.value] == '\0'
  }

  lemma BlankIs(name: array<char>, p: Option<nat>)
    requires 0 < name.Length && name[name.Length - 1] == '\0' && (p.Some? ==> p.value < name.Length)
    ensures Blank(name, p) <==> Pointed(name[..name.Length - 1], p) == Some("")
  {
    if p.Some? && p.value < name.Length - 1 {
      assert name[..name.Length - 1][p.value] == name[p.value];
    }
  }

  ghost predicate SamePresent(x: Pointers, p: Parts) {
    && (x.territory.Some? <==> p.territory.Some?) && (x.codeset.Some? <==> p.codeset.Some?)
    && (x.normalized.Some? <==> p.normalized.Some?) && (x.modifier.Some? <==> p.modifier.Some?)
    && (x.special.Some? <==> p.special.Some?) && (x.sponsor.Some? <==> p.sponsor.Some?)
    && (x.revision.Some? <==> p.revision.Some?)
  }

  method PresentIn(x: Pointers, ghost p: Parts) returns (mask: Mask)
    requires SamePresent(x, p)
    ensures mask == Present(p)
  {
    mask := 0;
    if x.territory.Some? {
      mask := mask | TERRITORY;
    }
    if x.codeset.Some? {
      mask := mask | XPG_CODESET;
    }
    if x.normalized.Some? {
      mask := mask | XPG_NORM_CODESET;
    }
    if x.modifier.Some? {
      mask := mask | XPG_MODIFIER | CEN_AUDIENCE;
    }
    if x.special.Some? {
      mask := mask | CEN_SPECIAL;
    }
    if x.sponsor.Some? {
      mask := mask | CEN_SPONSOR;
    }
    if x.revision.Some? {
      mask := mask | CEN_REVISION;
    }
  }

  method WithoutBlank(name: array<char>, x: Pointers, present: Mask, ghost p: Parts) returns (mask: Mask)
    requires 0 < name.Length && WithinName(x, name.Length - 1)
    requires Blank(name, x.territory) <==> p.territory == Some("")
    requires Blank(name, x.codeset) <==> p.codeset == Some("")
    requires Blank(name, x.modifier) <==> p.modifier == Some("")
    ensures
      mask == present & !Flag(p.territory == Some(""), TERRITORY) & !Flag(p.codeset == Some(""), XPG_CODESET)
        & !Flag(p.modifier == Some(""), XPG_MODIFIER)
  {
    mask := present;
    if Blank(name, x.territory) {
      mask := mask & !TERRITORY;
    }
    if Blank(name, x.codeset) {
      mask := mask & !XPG_CODESET;
    }
    if Blank(name, x.modifier) {
      mask := mask & !XPG_MODIFIER;
    }
  }

  method MaskFor(name: array<char>, x: Pointers, syntax: Syntax, ghost p: Parts) returns (mask: Mask)
    requires 0 < name.Length && name[name.Length - 1] == '\0' && p == Read(name[..name.Length - 1], x)
    requires WithinName(x, name.Length - 1)
    ensures mask == MaskBits(p, syntax)
  {
    BlankIs(name, x.territory);
    BlankIs(name, x.codeset);
    BlankIs(name, x.modifier);
    mask := PresentIn(x, p);
    if syntax == Xpg {
      mask := WithoutBlank(name, x, mask, p);
    }
  }

  lemma Untouched(name: array<char>, s: string)
    requires 0 < name.Length && name[name.Length - 1] == '\0' && s == name[..name.Length - 1] && '\0' !in s
    ensures CutSoFar(name, s, 0, UNCUT)
  {}

  lemma AllCut(name: array<char>, s: string, c: Cuts)
    requires CutSoFar(name, s, |s|, c)
    ensures name[..|s|] == CutUp(s, c) && name[..] == CutUp(s, c) + ['\0']
  {}

  /** The name is cut up at its separators, the pointers lead to its parts and the mask says which they are. */
  method ExplodeName(name: array<char>) returns (x: Pointers, mask: Mask)
    requires 0 < name.Length && name[name.Length - 1] == '\0' && '\0' !in name[..name.Length - 1]
    modifies name
    ensures
      var s := old(name[..name.Length - 1]);
      && name[..] == CutUp(s, CutsOf(s)) + ['\0'] && Read(name[..name.Length - 1], x) == PartsOf(s)
      && mask == MaskOf(s)
  {
    ghost var s := name[..name.Length - 1];
    Untouched(name, s);
    var syntax;
    x, syntax := Scan(name, s);
    AllCut(name, s, CutsOf(s));
    mask := MaskFor(name, x, syntax, PartsOf(s));
  }
}
