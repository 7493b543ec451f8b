/** `_nl_explode_name` (intl/explodename.c:40-185): the name is cut up in place. */
module LocaleExplode {
  import opened LocaleMask
  import opened LocaleName
  import opened Options

  function Flag(present: bool, flag: Mask): Mask {
    if present then flag else 0
  }

  /** The bits of the parts that there are. */
  function Present(p: Parts): Mask {
    Flag(p.territory.Some?, TERRITORY) | Flag(p.codeset.Some?, XPG_CODESET)
    | Flag(p.normalized.Some?, XPG_NORM_CODESET) | Flag(p.modifier.Some?, XPG_MODIFIER | CEN_AUDIENCE)
    | Flag(p.special.Some?, CEN_SPECIAL) | Flag(p.sponsor.Some?, CEN_SPONSOR) | Flag(p.revision.Some?, CEN_REVISION)
  }

  /** In XPG syntax, parts that are empty do not count; the modifier loses one of its two bits. */
  function MaskBits(p: Parts, syntax: Syntax): Mask {
    if syntax != Xpg then Present(p)
    else
      Present(p) & !Flag(p.territory == Some(""), TERRITORY) & !Flag(p.codeset == Some(""), XPG_CODESET)
      & !Flag(p.modifier == Some(""), XPG_MODIFIER)
  }

  function MaskOf(s: string): Mask {
    MaskBits(PartsOf(s), CutsOf(s).syntax)
  }

  predicate IsCut(c: Cuts, k: int) {
    || (c.terr.Some? && c.terr.value == k) || (c.cs.Some? && c.cs.value == k) || (c.mod.Some? && c.mod.value == k)
    || (c.spec.Some? && c.spec.value == k) || (c.spon.Some? && c.spon.value == k) || (c.rev.Some? && c.rev.value == k)
  }

  /** The name with NULs in place of the separators. */
  function CutUp(s: string, c: Cuts): (r: string)
    ensures |r| == |s|
  {
    seq(|s|, k requires 0 <= k < |s| => if IsCut(c, k) then '\0' else s[k])
  }

  /** The C string at `p`. */
  function StringAt(mem: string, p: nat): string
    requires p <= |mem|
    decreases |mem| - p
  {
    if p == |mem| || mem[p] == '\0' then "" else [mem[p]] + StringAt(mem, p + 1)
  }

  lemma {:induction false} StringBetween(mem: string, p: nat, e: nat)
    requires p <= e <= |mem| && (e < |mem| ==> mem[e] == '\0') && forall k :: p <= k < e ==> mem[k] != '\0'
    ensures StringAt(mem, p) == mem[p..e]
    decreases e - p
  {
    if p < e {
      StringBetween(mem, p + 1, e);
    }
  }

  function Pointer(cut: Option<nat>): Option<nat> {
    if cut.None? then None else Some(cut.value + 1)
  }

  /** What the pointers lead to, in the name cut up, are the parts. */
  ghost predicate LeadTo(mem: string, ptr: Option<nat>, part: Option<string>) {
    match ptr
    case None => part.None?
    case Some(p) => p <= |mem| && part == Some(StringAt(mem, p))
  }

  lemma PieceLeads(s: string, c: Cuts, cut: Option<nat>, start: nat, next: nat, sep: char)
    requires Separates(s, cut, start, next, sep) && '\0' !in s
    requires Clear(s, c, start, next)
    ensures LeadTo(CutUp(s, c), Pointer(cut), Piece(s, cut, next))
  {
    if cut.Some? {
      var mem := CutUp(s, c);
      StringBetween(mem, start + 1, next);
      assert mem[start + 1..next] == s[start + 1..next];
    }
  }

  /** No separator strictly between two places, and one at the second unless it is the end. */
  ghost predicate Clear(s: string, c: Cuts, start: int, next: nat) {
    (next < |s| ==> IsCut(c, next)) && forall k :: start < k < next ==> !IsCut(c, k)
  }

  /** The cuts, by the starts of the parts. */
  lemma CutsAtStarts(s: string, c: Cuts, k: int)
    requires InOrder(s, c) && IsCut(c, k)
    ensures var x := StartsOf(c, |s|); k in {x.terr, x.cs, x.mod, x.spec, x.spon, x.rev}
  {}

  lemma StartsAreCuts(s: string, c: Cuts)
    requires InOrder(s, c)
    ensures
      var x := StartsOf(c, |s|);
      && (x.terr < |s| ==> IsCut(c, x.terr)) && (x.cs < |s| ==> IsCut(c, x.cs)) && (x.mod < |s| ==> IsCut(c, x.mod))
      && (x.spec < |s| ==> IsCut(c, x.spec)) && (x.spon < |s| ==> IsCut(c, x.spon)) && (x.rev < |s| ==> IsCut(c, x.rev))
  {}

  lemma AllClear(s: string, c: Cuts)
    requires InOrder(s, c)
    ensures
      var x := StartsOf(c, |s|);
      && Clear(s, c, -1, x.terr) && Clear(s, c, x.terr, x.cs) && Clear(s, c, x.cs, x.mod) && Clear(s, c, x.mod, x.spec)
      && Clear(s, c, x.spec, x.spon) && Clear(s, c, x.spon, x.rev) && Clear(s, c, x.rev, |s|)
  {
    var x := StartsOf(c, |s|);
    StartsAreCuts(s, c);
    forall k | IsCut(c, k) ensures k in {x.terr, x.cs, x.mod, x.spec, x.spon, x.rev} {
      CutsAtStarts(s, c, k);
    }
  }

  lemma LanguageLeads(s: string, c: Cuts, next: nat)
    requires Clear(s, c, -1, next) && next <= |s| && '\0' !in s
    ensures StringAt(CutUp(s, c), 0) == s[..next]
  {
    StringBetween(CutUp(s, c), 0, next);
    assert CutUp(s, c)[0..next] == s[..next];
  }

  lemma PointersLead(s: string, c: Cuts)
    requires InOrder(s, c) && '\0' !in s
    ensures
      var mem, p := CutUp(s, c), PartsBy(s, c);
      && StringAt(mem, 0) == p.language
      && LeadTo(mem, Pointer(c.terr), p.territory) && LeadTo(mem, Pointer(c.cs), p.codeset)
      && LeadTo(mem, Pointer(c.mod), p.modifier) && LeadTo(mem, Pointer(c.spec), p.special)
      && LeadTo(mem, Pointer(c.spon), p.sponsor) && LeadTo(mem, Pointer(c.rev), p.revision)
  {
    var x := StartsOf(c, |s|);
    AllClear(s, c);
    LanguageLeads(s, c, x.terr);
    PieceLeads(s, c, c.terr, x.terr, x.cs, '_');
    PieceLeads(s, c, c.cs, x.cs, x.mod, '.');
    PieceLeads(s, c, c.mod, x.mod, x.spec, if c.syntax == Xpg then '@' else '+');
    PieceLeads(s, c, c.spec, x.spec, x.spon, '+');
    PieceLeads(s, c, c.spon, x.spon, x.rev, ',');
    PieceLeads(s, c, c.rev, x.rev, |s|, '_');
  }
}
