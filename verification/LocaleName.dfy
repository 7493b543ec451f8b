/** Splitting a locale name into its parts (intl/explodename.c) and building file names from them
    (intl/l10nflist.c:185-267, 366-414). */
module LocaleName {
  import opened Options

  function At(s: string, i: nat): char {
    if i < |s| then s[i] else '\0'
  }

  /** The first place from `i` on with one of the characters, or the end. */
  function Upto(s: string, i: nat, stops: string): (e: nat)
    requires i <= |s|
    ensures i <= e <= |s| && (e < |s| ==> s[e] in stops)
    ensures forall k :: i <= k < e ==> s[k] !in stops
    decreases |s| - i
  {
    if i == |s| || s[i] in stops then i else Upto(s, i + 1, stops)
  }

  datatype Syntax = Undecided | Xpg | Cen

  /** The places of the separators in front of the parts. */
  datatype Cuts = Cuts(
    terr: Option<nat>, cs: Option<nat>, mod: Option<nat>, spec: Option<nat>, spon: Option<nat>, rev: Option<nat>,
    syntax: Syntax)

  // The steps of the scan: where it stands, and in which syntax.

  datatype Head = Head(terr: Option<nat>, cs: Option<nat>, cp: nat, syntax: Syntax)

  function HeadOf(s: string): (h: Head)
    ensures h.cp <= |s|
  {
    var i := Upto(s, 0, "_@+,");
    if i == 0 then Head(None, None, |s|, Undecided)
    else if At(s, i) != '_' then Head(None, None, i, Undecided)
    else WithTerritory(s, i)
  }

  function WithTerritory(s: string, i: nat): (h: Head)
    requires i < |s|
    ensures h.cp <= |s| && h.terr == Some(i) && i < h.cp
    ensures h.cs.Some? ==> i < h.cs.value < h.cp && s[h.cs.value] == '.'
  {
    var j := Upto(s, i + 1, ".@+,_");
    if At(s, j) != '.' then Head(Some(i), None, j, Undecided)
    else Head(Some(i), Some(j), Upto(s, j + 1, "@"), Xpg)
  }

  datatype Middle = Middle(mod: Option<nat>, cp: nat, syntax: Syntax)

  function MiddleOf(s: string, cp: nat, syntax: Syntax): (m: Middle)
    requires cp <= |s|
    ensures m.cp <= |s|
  {
    if At(s, cp) == '@' then Middle(Some(cp), cp + 1, Xpg)
    else if syntax != Xpg && At(s, cp) == '+' then Middle(Some(cp), Upto(s, cp + 1, "+,_"), Cen)
    else Middle(None, cp, syntax)
  }

  datatype Tail = Tail(spec: Option<nat>, spon: Option<nat>, rev: Option<nat>, syntax: Syntax)

  function TailOf(s: string, cp: nat, syntax: Syntax): Tail
    requires cp <= |s|
  {
    if syntax == Xpg || At(s, cp) !in "+,_" || cp == |s| then Tail(None, None, None, syntax)
    else
      var i := if At(s, cp) == '+' then Upto(s, cp + 1, ",_") else cp;
      var j := if At(s, i) == ',' then Upto(s, i + 1, "_") else i;
      Tail(
        if At(s, cp) == '+' then Some(cp) else None,
        if At(s, i) == ',' then Some(i) else None,
        if At(s, j) == '_' then Some(j) else None, Cen)
  }

  function CutsOf(s: string): Cuts {
    var h := HeadOf(s);
    var m := MiddleOf(s, h.cp, h.syntax);
    var t := TailOf(s, m.cp, m.syntax);
    Cuts(h.terr, h.cs, m.mod, t.spec, t.spon, t.rev, t.syntax)
  }

  // ----- the parts

  datatype Parts = Parts(
    language: string, territory: Option<string>, codeset: Option<string>, normalized: Option<string>,
    modifier: Option<string>, special: Option<string>, sponsor: Option<string>, revision: Option<string>)

  /** The nearest of the places, or the end. */
  function First(a: Option<nat>, otherwise: nat): nat {
    if a.Some? then a.value else otherwise
  }

  /** What is between a separator and the next. */
  function Piece(s: string, cut: Option<nat>, next: nat): Option<string> {
    if cut.None? then None else if cut.value < next <= |s| then Some(s[cut.value + 1..next]) else Some("")
  }

  predicate Alnum(c: char) {
    '0' <= c <= '9' || 'a' <= c <= 'z' || 'A' <= c <= 'Z'
  }

  predicate Alpha(c: char) {
    'a' <= c <= 'z' || 'A' <= c <= 'Z'
  }

  function Lower(c: char): char {
    if 'A' <= c <= 'Z' then (c as int - 'A' as int + 'a' as int) as char else c
  }

  /** Letters in lower case, and digits. */
  function Kept(cs: string): string {
    if cs == "" then "" else Kept(cs[..|cs| - 1]) + if Alnum(cs[|cs| - 1]) then [Lower(cs[|cs| - 1])] else ""
  }

  /** `_nl_normalize_codeset`. */
  function Normalize(cs: string): string {
    (if exists k :: 0 <= k < |cs| && Alpha(cs[k]) then "" else "iso") + Kept(cs)
  }

  /** Where each kind of part begins, with its separator, or what follows it. */
  datatype Starts = Starts(terr: nat, cs: nat, mod: nat, spec: nat, spon: nat, rev: nat)

  function StartsOf(c: Cuts, n: nat): Starts {
    var rev := First(c.rev, n);
    var spon := First(c.spon, rev);
    var spec := First(c.spec, spon);
    var mod := First(c.mod, spec);
    var cs := First(c.cs, mod);
    Starts(First(c.terr, cs), cs, mod, spec, spon, rev)
  }

  /** The normalized codeset, if it is not what stands in the name. (The comparison sees what follows the
      codeset as well.) */
  function Normalized(s: string, cut: Option<nat>, codeset: Option<string>): Option<string> {
    if codeset.None? || codeset.value == "" || cut.None? || cut.value >= |s| then None
    else if s[cut.value + 1..] == Normalize(codeset.value) then None
    else Some(Normalize(codeset.value))
  }

  function PartsOf(s: string): Parts {
    PartsBy(s, CutsOf(s))
  }

  function PartsBy(s: string, c: Cuts): Parts {
    var x := StartsOf(c, |s|);
    var codeset := Piece(s, c.cs, x.mod);
    Parts(
      if x.terr <= |s| then s[..x.terr] else s,
      Piece(s, c.terr, x.cs), codeset, Normalized(s, c.cs, codeset),
      Piece(s, c.mod, x.spec), Piece(s, c.spec, x.spon), Piece(s, c.spon, x.rev), Piece(s, c.rev, |s|))
  }

  function Prefixed(c: char, p: Option<string>): string {
    if p.None? then "" else [c] + p.value
  }

  /** The parts with their separators. */
  function Rejoined(p: Parts, syntax: Syntax): string {
    p.language + Prefixed('_', p.territory) + Prefixed('.', p.codeset)
    + Prefixed(if syntax == Xpg then '@' else '+', p.modifier)
    + Prefixed('+', p.special) + Prefixed(',', p.sponsor) + Prefixed('_', p.revision)
  }

  /** A separator is where it should be. */
  ghost predicate Separates(s: string, cut: Option<nat>, start: nat, next: nat, sep: char) {
    && start <= next <= |s|
    && (cut.None? ==> start == next)
    && (cut.Some? ==> cut.value == start < next && s[start] == sep)
  }

  ghost predicate InOrder(s: string, c: Cuts) {
    var x := StartsOf(c, |s|);
    && Separates(s, c.terr, x.terr, x.cs, '_') && Separates(s, c.cs, x.cs, x.mod, '.')
    && Separates(s, c.mod, x.mod, x.spec, if c.syntax == Xpg then '@' else '+')
    && Separates(s, c.spec, x.spec, x.spon, '+') && Separates(s, c.spon, x.spon, x.rev, ',')
    && Separates(s, c.rev, x.rev, |s|, '_')
  }

  lemma CutsInOrder(s: string)
    ensures InOrder(s, CutsOf(s))
  {}

  lemma PieceSplits(s: string, cut: Option<nat>, start: nat, next: nat, sep: char)
    requires Separates(s, cut, start, next, sep)
    ensures s[start..] == Prefixed(sep, Piece(s, cut, next)) + s[next..]
  {
    if cut.Some? {
      assert s[start..] == [s[start]] + s[start + 1..next] + s[next..];
    }
  }

  lemma CutInTwo(s: string, k: nat)
    requires k <= |s|
    ensures s[|s|..] == "" && s == s[..k] + s[k..]
  {}

  lemma JoinedBack(s: string, c: Cuts)
    requires InOrder(s, c)
    ensures Rejoined(PartsBy(s, c), c.syntax) == s
  {
    var x := StartsOf(c, |s|);
    var p := PartsBy(s, c);
    var sep := if c.syntax == Xpg then '@' else '+';
    PieceSplits(s, c.terr, x.terr, x.cs, '_');
    PieceSplits(s, c.cs, x.cs, x.mod, '.');
    PieceSplits(s, c.mod, x.mod, x.spec, sep);
    PieceSplits(s, c.spec, x.spec, x.spon, '+');
    PieceSplits(s, c.spon, x.spon, x.rev, ',');
    PieceSplits(s, c.rev, x.rev, |s|, '_');
    CutInTwo(s, x.terr);
    Assemble(
      s[..x.terr], Prefixed('_', p.territory), Prefixed('.', p.codeset), Prefixed(sep, p.modifier),
      Prefixed('+', p.special), Prefixed(',', p.sponsor), Prefixed('_', p.revision),
      s[x.terr..], s[x.cs..], s[x.mod..], s[x.spec..], s[x.spon..], s[x.rev..]);
  }

  /** Putting the parts together again gives the name. */
  lemma NothingLost(s: string)
    ensures Rejoined(PartsOf(s), CutsOf(s).syntax) == s
  {
    CutsInOrder(s);
    JoinedBack(s, CutsOf(s));
  }

  lemma Assemble(
    l: string, a: string, b: string, c: string, d: string, e: string, f: string,
    s0: string, s1: string, s2: string, s3: string, s4: string, s5: string)
    requires s0 == a + s1 && s1 == b + s2 && s2 == c + s3 && s3 == d + s4 && s4 == e + s5 && s5 == f
    ensures l + a + b + c + d + e + f == l + s0
  {
    assert l + a + b + c + d + e + f == l + (a + (b + (c + (d + (e + f)))));
  }
}
