/** Looking up a locale name: the files that are tried, and whether the name's own spelling is among them
    (intl/finddomain.c:85-190). */
module LocaleDomain {
  import opened LocaleExplode
  import opened LocaleFile
  import opened LocaleList
  import opened LocaleListing
  import opened LocaleMask
  import opened LocaleName
  import opened LocaleRequest
  import opened LocaleSpelling
  import opened LocaleSplit
  import opened Options
  import opened StringOrder

  /** The spelling as the name of a file. */
  function Spelled(dirs: seq<string>, s: string, filename: string): string {
    Directory(dirs) + s + "/" + filename
  }

  /** The request for all parts of a name. */
  function Full(dirs: seq<string>, s: string, filename: string): Request {
    Request(dirs, MaskOf(s), PartsOf(s), filename)
  }

  lemma Unspelled(dirs: seq<string>, s: string, filename: string, c: Mask)
    requires !Spellable(PartsOf(s), CutsOf(s).syntax) && (c == MaskOf(s) || c in Inherited(MaskOf(s), false))
    ensures NameOf(Request(dirs, c, PartsOf(s), filename)) != Spelled(dirs, s, filename)
  {
    NotSpelled(s, c);
    Different(Directory(dirs), LocaleWith(c, PartsOf(s)), s, "/", filename);
  }

  lemma Different(a: string, b: string, c: string, d: string, e: string)
    requires b != c
    ensures a + b + d + e != a + c + d + e
  {
    if |b| == |c| {
      var k :| 0 <= k < |b| && b[k] != c[k];
      assert (a + b + d + e)[|a| + k] == b[k] && (a + c + d + e)[|a| + k] == c[k];
    }
  }

  /** With one directory the spelling is asked for exactly if the name can be spelled out. */
  lemma SpellingAsked(q: Request, s: string)
    requires |q.dirs| <= 1 && q == Full(q.dirs, s, q.filename)
    ensures AsksFor(q, Spelled(q.dirs, s, q.filename)) <==> Spellable(PartsOf(s), CutsOf(s).syntax)
  {
    var name := Spelled(q.dirs, s, q.filename);
    if Spellable(PartsOf(s), CutsOf(s).syntax) {
      SpelledOut(s);
      SpellMaskIs(s);
      AsksWith(q, SpellMask(s));
    } else if AsksFor(q, name) {
      var c := AskedBy(q, name);
      Unspelled(q.dirs, s, q.filename, c);
    }
  }

  /** A node, or one of those before the NULL in its array, is for the file. */
  ghost predicate Reaches(n: Node, name: string)
    reads n
  {
    || n.filename == name
    || exists k :: 0 <= k < |n.successor| && LeadsTo(n.successor, k, name)
  }

  ghost predicate LeadsTo(l: seq<Node?>, k: nat, name: string)
    requires k < |l|
  {
    l[k] != null && l[k].filename == name && forall j :: 0 <= j < k ==> l[j] != null
  }

  lemma UpToNull(l: seq<Node?>, names: seq<string>, name: string)
    requires |names| < |l| && l[|names|] == null
    requires forall k :: 0 <= k < |names| ==> l[k] != null && l[k].filename == names[k]
    ensures (exists k :: 0 <= k < |l| && LeadsTo(l, k, name)) <==> name in names
  {
    if k :| 0 <= k < |names| && names[k] == name {
      assert LeadsTo(l, k, name);
    }
  }

  /** A node of the list reaches what it was asked for. */
  lemma ReachesAsked(l: L10nList, n: Node, name: string)
    requires l.Valid({}) && n in l.nodes
    ensures Reaches(n, name) <==> AsksFor(n.request, name)
  {
    ValidList(l);
    ValidNode(l, n);
    UpToNull(n.successor, NamesOf(Successors(n.request)), name);
  }

  lemma ReachesListed(l: L10nList, n: Node, name: string)
    requires l.Valid({}) && n in l.nodes && Reaches(n, name)
    ensures Listed(l.nodes, name)
  {
    ValidNode(l, n);
    if n.filename != name {
      var k :| 0 <= k < |n.successor| && LeadsTo(n.successor, k, name);
      assert n.successor[k] in l.nodes && n.successor[k].filename == name;
    }
  }

  lemma MaskSupplied(s: string)
    ensures Supplied(MaskOf(s), PartsOf(s))
  {
    AllPossible(PartsOf(s), CutsOf(s).syntax);
  }

  lemma SameDirs(argz: string, s: string)
    ensures DirsFor(argz, PartsOf(s).language) == DirsFor(argz, s)
  {}

  /** A name as a language without other parts. */
  function Whole(s: string): Parts {
    Parts(s, None, None, None, None, None, None, None)
  }

  lemma WholeName(dirs: seq<string>, s: string, filename: string)
    ensures NameOf(Request(dirs, 0, Whole(s), filename)) == Spelled(dirs, s, filename)
  {
    assert LocaleWith(0, Whole(s)) == s;
  }

  lemma OneDirectory(dirname: string, s: string)
    requires '\0' !in dirname
    ensures Closed(dirname + ['\0']) && DirsFor(dirname + ['\0'], s) == if Absolute(s) then [] else [dirname]
  {
    var argz := dirname + ['\0'];
    assert EndOf(argz, 0) == |dirname| by {
      assert argz[|dirname|] == '\0';
    }
    assert argz[0..|dirname|] == dirname && Entries(argz, |argz|) == [];
    assert Entries(argz, 0) == [dirname] + Entries(argz, |argz|);
  }

  /** The name has neither a codeset that is not normalized nor, in XPG syntax, a modifier. */
  predicate PlainName(s: string) {
    && Spellable(PartsOf(s), CutsOf(s).syntax)
    && (CutsOf(s).syntax == Xpg ==> PartsOf(s).normalized.None? && PartsOf(s).modifier.None?)
  }

  /** The full form of such a name, and of no other, is its spelling. */
  lemma FullIsSpelling(dirs: seq<string>, s: string, filename: string)
    ensures NameOf(Full(dirs, s, filename)) == Spelled(dirs, s, filename) <==> PlainName(s)
  {
    if !Spellable(PartsOf(s), CutsOf(s).syntax) {
      Unspelled(dirs, s, filename, MaskOf(s));
    } else if CutsOf(s).syntax != Xpg {
      SpelledOut(s);
    } else {
      XpgFull(s);
      if !PlainName(s) {
        Different(Directory(dirs), LocaleWith(MaskOf(s), PartsOf(s)), s, "/", filename);
      }
    }
  }

  lemma FullBits(t: bool, c: bool, n: bool, d: bool)
    ensures
      var x := (Flag(t, TERRITORY) | Flag(c, XPG_CODESET) | Flag(n, XPG_NORM_CODESET)
               | Flag(d, XPG_MODIFIER | CEN_AUDIENCE) | Flag(false, CEN_SPECIAL) | Flag(false, CEN_SPONSOR)
               | Flag(false, CEN_REVISION))
               & !Flag(false, TERRITORY) & !Flag(false, XPG_CODESET) & !Flag(false, XPG_MODIFIER);
      && (x & TERRITORY != 0 <==> t) && (x & XPG_CODESET != 0 <==> c) && (x & XPG_NORM_CODESET != 0 <==> n)
      && (x & XPG_MODIFIER != 0 <==> d) && (x & CEN_AUDIENCE != 0 <==> d)
  {}

  /** The flags of a name in XPG syntax that can be spelled out: one for each part that there is. */
  ghost predicate FullFlags(m: Mask, p: Parts) {
    && Has(m, TERRITORY) == p.territory.Some? && Has(m, XPG_CODESET) == p.codeset.Some?
    && Has(m, XPG_NORM_CODESET) == p.normalized.Some? && Has(m, XPG_MODIFIER) == p.modifier.Some?
    && Has(m, CEN_AUDIENCE) == p.modifier.Some?
  }

  lemma FullFlagsOf(p: Parts)
    requires Spellable(p, Xpg) && p.special.None? && p.sponsor.None? && p.revision.None?
    ensures FullFlags(MaskBits(p, Xpg), p)
  {
    FullBits(p.territory.Some?, p.codeset.Some?, p.normalized.Some?, p.modifier.Some?);
  }

  /** What stands before the normalized codeset. */
  function HeadOfFull(p: Parts): string {
    p.language + Prefixed('_', p.territory) + Prefixed('.', p.codeset)
  }

  lemma FullName(p: Parts, m: Mask)
    requires FullFlags(m, p) && Possible(m, p, Xpg) && p.special.None? && p.sponsor.None? && p.revision.None?
    ensures LocaleWith(m, p) == HeadOfFull(p) + Prefixed('.', p.normalized) + Prefixed('+', p.modifier)
  {
    var terr, cs, norm, mod := XpgSplit(m, p);
  }

  lemma XpgFullName(s: string, p: Parts)
    requires CutsOf(s).syntax == Xpg && Spellable(p, Xpg) && p == PartsOf(s)
    ensures LocaleWith(MaskOf(s), p) == HeadOfFull(p) + Prefixed('.', p.normalized) + Prefixed('+', p.modifier)
    ensures s == HeadOfFull(p) + Prefixed('@', p.modifier)
  {
    PartsBySyntax(s);
    NothingLost(s);
    FullFlagsOf(p);
    AllPossible(p, Xpg);
    FullName(p, MaskOf(s));
  }

  lemma AddsToName(head: string, normalized: Option<string>, modifier: Option<string>)
    ensures head + Prefixed('.', normalized) + Prefixed('+', modifier) == head + Prefixed('@', modifier)
            <==> normalized.None? && modifier.None?
  {
    var x, s := head + Prefixed('.', normalized) + Prefixed('+', modifier), head + Prefixed('@', modifier);
    if normalized.None? && modifier.Some? {
      assert x[|head|] == '+' && s[|head|] == '@';
    }
  }

  lemma XpgFull(s: string)
    requires CutsOf(s).syntax == Xpg && Spellable(PartsOf(s), Xpg)
    ensures LocaleWith(MaskOf(s), PartsOf(s)) == s <==> PartsOf(s).normalized.None? && PartsOf(s).modifier.None?
  {
    var p := PartsOf(s);
    XpgFullName(s, p);
    AddsToName(HeadOfFull(p), p.normalized, p.modifier);
  }

  function DirsOf(dirname: string, s: string): seq<string> {
    if Absolute(s) then [] else [dirname]
  }

  /** Whether a lookup tries the file with the name's own spelling: it has a node already, or the name can be spelled
      out and there is no node for its full form yet. */
  ghost predicate SpellingTried(nodes: seq<Node>, dirs: seq<string>, s: string, filename: string) {
    || Listed(nodes, Spelled(dirs, s, filename))
    || (Spellable(PartsOf(s), CutsOf(s).syntax) && !Listed(nodes, NameOf(Full(dirs, s, filename))))
  }

  /** What is new in a list for the full form of a name has its spelling only if that was asked for. */
  lemma AddedAsked(l: L10nList, before: seq<Node>, q: Request, name: string)
    requires l.Valid({}) && Extends(l.nodes, before, [q] + l.f.next(q))
    requires Listed(l.nodes, name) && !Listed(before, name)
    ensures AsksFor(q, name)
  {
    ValidList(l);
    var n :| n in l.nodes && n.filename == name;
    assert l.f.next(q) == Successors(q);
    assert n !in before;
    AsksForSuccessor(q, n.request);
  }

  /** The same on the listing: the name of the node, and the listing then. */
  function FindIn(l: Listing, dirs: seq<string>, s: string, filename: string): (string, Listing) {
    if Spelled(dirs, s, filename) in l then (Spelled(dirs, s, filename), l)
    else (NameOf(Full(dirs, s, filename)), Enter(l, Full(dirs, s, filename)))
  }

  lemma FoundIn(l: L10nList, n: Node)
    requires l.Valid({}) && n in l.nodes
    ensures n.filename in l.listing && l.listing[n.filename] == EntryOf(n.request)
  {
    assert l.f.entry(n.request) == EntryOf(n.request);
  }

  lemma NotIn(l: L10nList, name: string)
    requires l.Valid({}) && forall n :: n in l.nodes ==> n.filename != name
    ensures name !in l.listing
  {
    assert !Listed(l.nodes, name);
  }

  /** `_nl_find_domain` up to the loading of the file: which node is returned, and that the spelling of the name is
      among the files tried, and has a node from then on, exactly if it is to be tried. */
  method FindDomain(list: L10nList, dirname: string, locale: array<char>, domainname: string) returns (r: Node)
    requires list.Valid({}) && '\0' !in dirname
    requires 0 < locale.Length && locale[locale.Length - 1] == '\0' && '\0' !in locale[..locale.Length - 1]
    modifies list, locale
    ensures list.Valid({}) && Contains(list.nodes, old(list.nodes)) && r in list.nodes
    ensures
      var s := old(locale[..locale.Length - 1]);
      (r.filename, list.listing) == FindIn(old(list.listing), DirsOf(dirname, s), s, domainname)
    ensures
      var s := old(locale[..locale.Length - 1]);
      var dirs := DirsOf(dirname, s);
      && (Reaches(r, Spelled(dirs, s, domainname)) <==> SpellingTried(old(list.nodes), dirs, s, domainname))
      && (Listed(list.nodes, Spelled(dirs, s, domainname)) <==> SpellingTried(old(list.nodes), dirs, s, domainname))
      && r.filename
         == if Listed(old(list.nodes), Spelled(dirs, s, domainname)) then Spelled(dirs, s, domainname)
            else NameOf(Full(dirs, s, domainname))
  {
    ghost var s := locale[..locale.Length - 1];
    ghost var before := list.nodes;
    ghost var dirs := DirsOf(dirname, s);
    var dirlist := dirname + ['\0'];
    OneDirectory(dirname, s);
    SameDirs(dirlist, s);
    WholeName(dirs, s, domainname);
    var found := list.Make(dirlist, 0, Whole(locale[..locale.Length - 1]), domainname, false, {});
    if found != null {
      FoundIn(list, found);
      return found;
    }
    NotIn(list, Spelled(dirs, s, domainname));
    ghost var l := list.listing;
    var x, mask := ExplodeName(locale);
    MaskSupplied(s);
    r := list.Make(dirlist, mask, Read(locale[..locale.Length - 1], x), domainname, true, {});
    assert list.f.enter(l, Full(dirs, s, domainname)) == Enter(l, Full(dirs, s, domainname));
    Lookedup(list, before, r, dirs, s, domainname);
  }

  lemma Lookedup(l: L10nList, before: seq<Node>, r: Node, dirs: seq<string>, s: string, filename: string)
    requires l.Valid({}) && r in l.nodes && |dirs| <= 1 && !Listed(before, Spelled(dirs, s, filename))
    requires r in before ==> l.nodes == before && Listed(before, NameOf(Full(dirs, s, filename)))
    requires r !in before ==> r.request == Full(dirs, s, filename) && !Listed(before, NameOf(r.request))
    requires Extends(l.nodes, before, [Full(dirs, s, filename)] + l.f.next(Full(dirs, s, filename)))
    ensures Reaches(r, Spelled(dirs, s, filename)) <==> SpellingTried(before, dirs, s, filename)
    ensures Listed(l.nodes, Spelled(dirs, s, filename)) <==> SpellingTried(before, dirs, s, filename)
  {
    var name := Spelled(dirs, s, filename);
    if r !in before {
      ReachesAsked(l, r, name);
      SpellingAsked(r.request, s);
      if Listed(l.nodes, name) {
        AddedAsked(l, before, r.request, name);
      }
    }
    if Reaches(r, name) {
      ReachesListed(l, r, name);
    }
  }

  lemma OneNode(l: L10nList, a: Node, b: Node)
    requires l.Valid({}) && a in l.nodes && b in l.nodes
    ensures a == b <==> a.filename == b.filename
  {
    ValidList(l);
    if a != b {
      var i :| 0 <= i < |l.nodes| && l.nodes[i] == a;
      var j :| 0 <= j < |l.nodes| && l.nodes[j] == b;
      assert Strcmp(l.nodes[if i < j then i else j].filename, l.nodes[if i < j then j else i].filename) > 0;
    }
  }
}
