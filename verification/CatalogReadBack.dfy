/** A catalogue that is written is read back: what `_nl_load_domain` and `_nl_find_msg` make of a file in which the
    parts of a catalogue are stored (intl/loadmsgcat.c:973-1389, intl/dcigettext.c:708-829). */
module CatalogReadBack {
  import opened CatalogHash
  import opened CatalogImage
  import opened CatalogLoad
  import opened CatalogLookup
  import opened CatalogPasses
  import opened CatalogProbe
  import opened CatalogSysdep
  import opened CatalogTable
  import opened CatalogWritten
  import opened Options

  // ----- the order of the msgids

  /** `a` comes before `b`: at the first difference it ends or has the smaller byte. */
  ghost predicate Before(a: CString, b: CString) {
    exists k: nat ::
      k <= |a| && k < |b| && a[..k] == b[..k] && (k < |a| ==> a[k] < b[k])
  }

  lemma {:induction false} BeforeCompares(a: CString, b: CString, k: nat)
    requires k <= |a| && k < |b| && a[..k] == b[..k] && (k < |a| ==> a[k] < b[k])
    ensures Compare(a, b) < 0
    decreases k
  {
    if k > 0 {
      assert a[0] == a[..k][0] == b[..k][0] == b[0];
      assert a[1..][..k - 1] == a[..k][1..] == b[..k][1..] == b[1..][..k - 1];
      BeforeCompares(a[1..], b[1..], k - 1);
    }
  }

  ghost predicate InOrder(keys: seq<CString>) {
    forall i, j :: 0 <= i < j < |keys| ==> Before(keys[i], keys[j])
  }

  lemma OrderSorts(keys: seq<CString>)
    requires InOrder(keys)
    ensures StrictlySorted(keys)
  {
    forall i, j | 0 <= i < j < |keys| ensures Compare(keys[i], keys[j]) < 0 {
      assert Before(keys[i], keys[j]);
      var a, b := keys[i], keys[j];
      var k: nat :| k <= |a| && k < |b| && a[..k] == b[..k] && (k < |a| ==> a[k] < b[k]);
      BeforeCompares(a, b, k);
    }
  }

  // ----- catalogues that can be used

  /** The numbers fit, and strings end at their NUL. */
  predicate Proper(c: Catalogue) {
    && c.revision < TWO_TO_32 && (forall e :: 0 <= e < |c.entries| ==> 0 !in c.entries[e].msgid)
    && (forall i :: 0 <= i < |c.names| ==> 0 !in c.names[i])
    && forall i :: 0 <= i < |c.sys| ==> Fits(c.sys[i].0, |c.names|) && Fits(c.sys[i].1, |c.names|) && Ended(c.sys[i].0)
  }

  /** The string ends with its NUL. */
  predicate Ended(s: Sys) {
    s.end != [] && s.end[|s.end| - 1] == 0
  }

  /** The hash table leads to every msgid and has `room`; without one, the msgids are in order. */
  ghost predicate Searchable(c: Catalogue, room: nat) {
    if |c.table| > 2 then
      Prime(|c.table|) && TableFor(c.table, Hashes(CatalogWritten.Msgids(c.entries))) && Free(c.table) > room
    else InOrder(CatalogWritten.Msgids(c.entries))
  }

  function Major(c: Catalogue): nat {
    c.revision / 0x1_0000
  }

  function Minor(c: Catalogue): nat {
    c.revision % 0x1_0000
  }

  // ----- the static part

  lemma StringsSound(st: Strings, es: seq<Entry>)
    requires StringsFound(st, es) && st.origSysdep == []
    ensures st.Sound() && st.Keys() == CatalogWritten.Msgids(es)
  {
    forall e | 0 <= e < |es| ensures st.LengthCovers(e) && st.Keys()[e] == es[e].msgid {
      assert Stands(st, e, es[e]);
    }
  }

  lemma DomainSound(d: Domain, c: Catalogue, room: nat)
    requires Searchable(c, room) && d.strings.Sound() && d.strings.Keys() == CatalogWritten.Msgids(c.entries)
    requires d.strings.origSysdep == [] && d.hashSize == |c.table| && (d.hashTab.Some? <==> |c.table| > 2)
    requires d.hashTab.Some? ==> d.TableInPlace() && d.Slots() == c.table
    ensures d.Sound()
  {
    if d.hashTab.None? {
      OrderSorts(CatalogWritten.Msgids(c.entries));
    }
  }

  /** What the loader finds first: a domain that can be searched, with the entries in it. */
  ghost predicate Found(d: Domain, img: Image, c: Catalogue) {
    && d.Sound() && StringsFound(d.strings, c.entries) && d.strings.origSysdep == [] && d.strings.img == img
    && (d.hashTab.Some? <==> |c.table| > 2) && (d.hashTab.Some? ==> d.Slots() == c.table)
  }

  lemma BasicFound(file: seq<Byte>, bigEndian: bool, c: Catalogue, p: Places, room: nat)
    requires Written(file, bigEndian, c, p) == true && Proper(c) && Searchable(c, room) == true
    ensures |file| >= HEADER_SIZE
    ensures Found(Basic(ImageOf(file, bigEndian)), ImageOf(file, bigEndian), c) == true
  {
    HeaderFound(file, bigEndian, c, p);
    var d := Basic(ImageOf(file, bigEndian));
    EntriesFound(file, bigEndian, d.strings, c, p);
    StringsSound(d.strings, c.entries);
    if |c.table| > 2 {
      TableRead(file, bigEndian, c, p, room);
      SlotsFound(d, file, bigEndian, p.hashTable, c.table);
    }
    DomainSound(d, c, room);
  }

  lemma TableRead(file: seq<Byte>, bigEndian: bool, c: Catalogue, p: Places, room: nat)
    requires Written(file, bigEndian, c, p) && Searchable(c, room) && |c.table| > 2
    ensures Reads(file, bigEndian, p.hashTable, c.table) == true
  {
    PlacesFit(file, bigEndian, c, p);
    WordsFound(file, bigEndian, p.hashTable, c.table);
  }

  // ----- the system dependent part

  function ValuesFor(names: seq<CString>, valueOf: CString -> Option<CString>): (vals: Values)
    ensures |vals| == |names|
  {
    seq(|names|, i requires 0 <= i < |names| => valueOf(names[i]))
  }

  lemma NameFound(
    file: seq<Byte>, bigEndian: bool, names: seq<CString>, tab: nat, offsets: seq<nat>,
    valueOf: CString -> Option<CString>, i: nat)
    requires TableOfTexts(file, bigEndian, tab, Named(names), offsets, []) && |file| < TWO_TO_32
    requires i < |names| && 0 !in names[i]
    ensures
      var img := ImageOf(file, bigEndian);
      && OffsetAt(img, tab, i) + LengthAt(img, tab, i) <= |file|
      && NameEnds(img, tab, i) && ValueAt(img, tab, valueOf, i) == valueOf(names[i])
  {
    TextAt(file, bigEndian, tab, Named(names), offsets, [], i);
    var off, text := offsets[i], names[i] + [0];
    assert text + [] == text && Has(file, off, text);
    var mem := file[off..];
    assert mem[..|text|] == file[off..off + |text|] == text;
    assert file[off + |text| - 1] == file[off..off + |text|][|text| - 1] == 0;
    assert text == names[i] + [0] + [];
    Begun(mem, names[i], [], text);
  }

  lemma NamesFound(
    file: seq<Byte>, bigEndian: bool, names: seq<CString>, tab: nat, offsets: seq<nat>,
    valueOf: CString -> Option<CString>)
    requires TableOfTexts(file, bigEndian, tab, Named(names), offsets, []) && |file| < TWO_TO_32
    requires forall i :: 0 <= i < |names| ==> 0 !in names[i]
    ensures
      var img := ImageOf(file, bigEndian);
      && NamesInPlace(img, |names|, tab) && (forall i :: 0 <= i < |names| ==> NameEnds(img, tab, i))
      && ValuesOf(img, |names|, tab, valueOf) == ValuesFor(names, valueOf)
  {
    var img := ImageOf(file, bigEndian);
    TablesFit(file, bigEndian, tab, Named(names), offsets, []);
    forall i | 0 <= i < |names|
      ensures OffsetAt(img, tab, i) + LengthAt(img, tab, i) <= |file|
      ensures NameEnds(img, tab, i) && ValueAt(img, tab, valueOf, i) == valueOf(names[i])
    {
      NameFound(file, bigEndian, names, tab, offsets, valueOf, i);
    }
  }

  /** The string as the loader sees it. */
  function StrOf(file: seq<Byte>, s: Sys, statics: nat): Str {
    Str(SegsOf(s), if statics <= |file| then file[statics..] else [])
  }

  function StrsOf(file: seq<Byte>, ss: seq<Sys>, statics: seq<nat>): (r: seq<Str>)
    requires |statics| == |ss|
    ensures |r| == |ss|
  {
    seq(|ss|, i requires 0 <= i < |ss| => StrOf(file, ss[i], statics[i]))
  }

  /** The static text is where the memory begins. */
  lemma StaticsFound(file: seq<Byte>, bigEndian: bool, place: nat, s: Sys, statics: nat)
    requires HasSys(file, bigEndian, place, s, statics)
    ensures statics <= |file| && s.Static() <= file[statics..]
  {
    assert file[statics..][..|s.Static()|] == file[statics..statics + |s.Static()|];
  }

  lemma SysFound(file: seq<Byte>, bigEndian: bool, place: nat, s: Sys, statics: nat, refs: nat)
    requires HasSys(file, bigEndian, place, s, statics) && Fits(s, refs) && |file| < TWO_TO_32
    ensures Holds(ImageOf(file, bigEndian), place, StrOf(file, s, statics))
  {
    StaticsFound(file, bigEndian, place, s, statics);
    var ws := [statics] + s.Words();
    HasWord(file, bigEndian, place, ws, 0);
    assert ws[1..] == s.Words();
    HasParts(file, place, WordBytes(bigEndian, ws[0]), WordsBytes(bigEndian, ws[1..]));
    SegsFound(file, bigEndian, place + 4, s, refs);
    SegsProper(s, refs);
  }

  lemma SysTableFound(
    file: seq<Byte>, bigEndian: bool, tab: nat, ss: seq<Sys>, offsets: seq<nat>, statics: seq<nat>, refs: nat)
    requires TableOfSys(file, bigEndian, tab, ss, offsets, statics) && |file| < TWO_TO_32
    requires forall i :: 0 <= i < |ss| ==> Fits(ss[i], refs)
    ensures Tabled(ImageOf(file, bigEndian), tab, StrsOf(file, ss, statics)) == true
  {
    forall i | 0 <= i < |offsets| ensures offsets[i] < TWO_TO_32 {
      assert HasSys(file, bigEndian, offsets[i], ss[i], statics[i]);
    }
    WordsFound(file, bigEndian, tab, offsets);
    SysPlaced(file, bigEndian, tab, ss, offsets, statics, refs);
  }

  lemma SysPlaced(
    file: seq<Byte>, bigEndian: bool, tab: nat, ss: seq<Sys>, offsets: seq<nat>, statics: seq<nat>, refs: nat)
    requires |offsets| == |statics| == |ss| && Reads(file, bigEndian, tab, offsets) && |file| < TWO_TO_32
    requires forall i :: 0 <= i < |ss| ==> HasSys(file, bigEndian, offsets[i], ss[i], statics[i]) == true
    requires forall i :: 0 <= i < |ss| ==> Fits(ss[i], refs) == true
    ensures Tabled(ImageOf(file, bigEndian), tab, StrsOf(file, ss, statics)) == true
  {
    var img, strs := ImageOf(file, bigEndian), StrsOf(file, ss, statics);
    forall i {:trigger Place(img, tab, i)} | 0 <= i < |strs| ensures Holds(img, Place(img, tab, i), strs[i]) == true {
      assert Place(img, tab, i) == offsets[i];
      SysFound(file, bigEndian, offsets[i], ss[i], statics[i], refs);
    }
  }

  lemma SysMeans(file: seq<Byte>, bigEndian: bool, place: nat, s: Sys, statics: nat, vals: Values)
    requires HasSys(file, bigEndian, place, s, statics) && Fits(s, |vals|)
    ensures
      var str := StrOf(file, s, statics);
      str.Verdict(vals) == (if s.Available(vals) then Kept else Dropped)
      && (s.Available(vals) ==> str.Text(vals) == s.Meaning(vals))
  {
    StaticsFound(file, bigEndian, place, s, statics);
    SegsMean(s, |vals|, vals, file[statics..]);
  }

  // ----- what is in the catalogue

  predicate BothAvailable(p: (Sys, Sys), vals: Values) {
    p.0.Available(vals) && p.1.Available(vals)
  }

  /** The first `m` system dependent pairs, without those that refer to a segment without a value. */
  function KeptPairs(sys: seq<(Sys, Sys)>, vals: Values, m: nat): seq<(CString, seq<Byte>)>
    requires m <= |sys|
  {
    if m == 0 then []
    else
      KeptPairs(sys, vals, m - 1)
      + if BothAvailable(sys[m - 1], vals) then [PairOf(sys[m - 1], vals)] else []
  }

  /** The key, which ends at the first NUL, and the translation. */
  function PairOf(p: (Sys, Sys), vals: Values): (CString, seq<Byte>)
    requires BothAvailable(p, vals)
  {
    (CStr(p.0.Meaning(vals)), p.1.Meaning(vals))
  }

  function StaticPairs(es: seq<Entry>): (r: seq<(CString, seq<Byte>)>)
    ensures |r| == |es|
  {
    seq(|es|, i requires 0 <= i < |es| => (es[i].msgid, es[i].translation + [0]))
  }

  /** Everything that can be looked up, with what is found. */
  function Lookups(c: Catalogue, vals: Values): seq<(CString, seq<Byte>)> {
    StaticPairs(c.entries) + if Minor(c) == 0 then [] else KeptPairs(c.sys, vals, |c.sys|)
  }

  /** The keys of a domain, each with its translation. */
  ghost function PairsOf(st: Strings): (r: seq<(CString, seq<Byte>)>)
    requires st.InPlace()
    ensures |r| == st.Count()
  {
    seq(st.Count(), e requires 0 <= e < st.Count() && st.InPlace() => (st.Keys()[e], st.Translation(e)))
  }

  /** Exactly these pairs can be looked up, in this order. */
  ghost predicate Offers(d: Domain, pairs: seq<(CString, seq<Byte>)>) {
    d.Sound() && PairsOf(d.strings) == pairs
  }

  /** The loader's verdicts are those of the strings. */
  ghost predicate Verdicts(sys: seq<(Sys, Sys)>, vals: Values, origs: seq<Str>, transs: seq<Str>) {
    && |origs| == |transs| == |sys|
    && forall i {:trigger sys[i]} :: 0 <= i < |sys| ==>
      && origs[i].Verdict(vals) == (if sys[i].0.Available(vals) then Kept else Dropped)
      && transs[i].Verdict(vals) == (if sys[i].1.Available(vals) then Kept else Dropped)
      && (sys[i].0.Available(vals) ==> origs[i].Text(vals) == sys[i].0.Meaning(vals))
      && (sys[i].1.Available(vals) ==> transs[i].Text(vals) == sys[i].1.Meaning(vals))
  }

  /** What the pair `i` adds to both lists. */
  lemma KeptAlike(sys: seq<(Sys, Sys)>, vals: Values, origs: seq<Str>, transs: seq<Str>, i: nat)
    requires Verdicts(sys, vals, origs, transs) && i < |sys|
    ensures PairSize(origs[i], transs[i], vals).verdict.Kept? <==> BothAvailable(sys[i], vals)
    ensures BothAvailable(sys[i], vals) ==>
      && origs[i].Text(vals) == sys[i].0.Meaning(vals) && transs[i].Text(vals) == sys[i].1.Meaning(vals)
  {
    assert sys[i] == sys[i];
  }

  /** `ps` holds the pairs with the numbers `ks`. */
  ghost predicate Listed(ks: seq<nat>, ps: seq<(CString, seq<Byte>)>, sys: seq<(Sys, Sys)>, vals: Values) {
    |ks| == |ps| && forall k {:trigger ks[k]} :: 0 <= k < |ks| ==>
      ks[k] < |sys| && BothAvailable(sys[ks[k]], vals) == true && ps[k] == PairOf(sys[ks[k]], vals)
  }

  lemma ListMore(ks: seq<nat>, ps: seq<(CString, seq<Byte>)>, sys: seq<(Sys, Sys)>, vals: Values, i: nat)
    requires Listed(ks, ps, sys, vals) && i < |sys| && BothAvailable(sys[i], vals)
    ensures Listed(ks + [i], ps + [PairOf(sys[i], vals)], sys, vals) == true
  {}

  lemma {:induction false} KeptAgree(sys: seq<(Sys, Sys)>, vals: Values, zs: seq<Sized>, m: nat)
    requires m <= |sys| == |zs|
    requires forall i :: 0 <= i < |zs| ==> (zs[i].verdict.Kept? <==> BothAvailable(sys[i], vals) == true)
    ensures Listed(KeptBelow(zs, m), KeptPairs(sys, vals, m), sys, vals) == true
  {
    if m > 0 {
      KeptAgree(sys, vals, zs, m - 1);
      if zs[m - 1].verdict.Kept? {
        ListMore(KeptBelow(zs, m - 1), KeptPairs(sys, vals, m - 1), sys, vals, m - 1);
      }
    }
  }

  lemma KeptListed(sys: seq<(Sys, Sys)>, vals: Values, origs: seq<Str>, transs: seq<Str>)
    requires Verdicts(sys, vals, origs, transs) == true && |origs| == |transs| == |sys|
    ensures Listed(KeptBelow(Sizes(origs, transs, vals), |sys|), KeptPairs(sys, vals, |sys|), sys, vals) == true
  {
    var zs := Sizes(origs, transs, vals);
    forall i | 0 <= i < |zs| ensures zs[i].verdict.Kept? <==> BothAvailable(sys[i], vals) == true {
      KeptAlike(sys, vals, origs, transs, i);
    }
    KeptAgree(sys, vals, zs, |sys|);
  }

  lemma {:induction false} ZeroTerminates(mem: seq<Byte>)
    requires 0 in mem
    ensures Terminated(mem)
  {
    if mem[0] != 0 {
      ZeroTerminates(mem[1..]);
    }
  }

  lemma {:induction false} MeaningEnds(s: Sys, vals: Values)
    requires s.Available(vals) && Ended(s)
    ensures 0 in s.Meaning(vals)
    decreases |s.parts|
  {
    if s.parts == [] {
      assert s.end[|s.end| - 1] in s.end;
    } else {
      MeaningEnds(Sys(s.parts[1..], s.end), vals);
    }
  }

  lemma VerdictsFound(file: seq<Byte>, bigEndian: bool, c: Catalogue, p: Places, vals: Values)
    requires Written(file, bigEndian, c, p) && Proper(c) && |vals| == |c.names|
    ensures
      Verdicts(c.sys, vals, StrsOf(file, Firsts(c.sys), p.originalStatics),
        StrsOf(file, Seconds(c.sys), p.translationStatics)) == true
  {
    var origs, transs := Firsts(c.sys), Seconds(c.sys);
    forall i {:trigger c.sys[i]} | 0 <= i < |c.sys|
      ensures
        var str := StrOf(file, origs[i], p.originalStatics[i]);
        str.Verdict(vals) == (if c.sys[i].0.Available(vals) then Kept else Dropped)
        && (c.sys[i].0.Available(vals) ==> str.Text(vals) == c.sys[i].0.Meaning(vals))
      ensures
        var str := StrOf(file, transs[i], p.translationStatics[i]);
        str.Verdict(vals) == (if c.sys[i].1.Available(vals) then Kept else Dropped)
        && (c.sys[i].1.Available(vals) ==> str.Text(vals) == c.sys[i].1.Meaning(vals))
    {
      assert HasSys(file, bigEndian, p.sysOriginals[i], origs[i], p.originalStatics[i]);
      assert HasSys(file, bigEndian, p.sysTranslations[i], transs[i], p.translationStatics[i]);
      SysMeans(file, bigEndian, p.sysOriginals[i], c.sys[i].0, p.originalStatics[i], vals);
      SysMeans(file, bigEndian, p.sysTranslations[i], c.sys[i].1, p.translationStatics[i], vals);
    }
  }

  lemma NoneInvalid(sys: seq<(Sys, Sys)>, vals: Values, origs: seq<Str>, transs: seq<Str>)
    requires Verdicts(sys, vals, origs, transs)
    ensures AllValid(Sizes(origs, transs, vals))
  {
    forall i | 0 <= i < |sys| ensures !Sizes(origs, transs, vals)[i].verdict.Invalid? {
      assert sys[i] == sys[i];
    }
  }

  lemma KeptTerminate(sys: seq<(Sys, Sys)>, vals: Values, origs: seq<Str>, transs: seq<Str>)
    requires Verdicts(sys, vals, origs, transs) && forall i :: 0 <= i < |sys| ==> Ended(sys[i].0)
    ensures forall i :: 0 <= i < |origs| && origs[i].Verdict(vals).Kept? ==> Terminated(origs[i].Text(vals))
  {
    forall i | 0 <= i < |origs| && origs[i].Verdict(vals).Kept? ensures Terminated(origs[i].Text(vals)) {
      assert sys[i].0.Available(vals);
      MeaningEnds(sys[i].0, vals);
      ZeroTerminates(sys[i].0.Meaning(vals));
    }
  }

  lemma TablesFound(
    file: seq<Byte>, bigEndian: bool, c: Catalogue, p: Places, img: Image, origs: seq<Str>, transs: seq<Str>)
    requires Written(file, bigEndian, c, p) && Proper(c) && img == ImageOf(file, bigEndian)
    requires origs == StrsOf(file, Firsts(c.sys), p.originalStatics)
    requires transs == StrsOf(file, Seconds(c.sys), p.translationStatics)
    ensures Tabled(img, p.sysOriginalTable, origs) == true && Tabled(img, p.sysTranslationTable, transs) == true
  {
    var n := |c.names|;
    SysTableFound(file, bigEndian, p.sysOriginalTable, Firsts(c.sys), p.sysOriginals, p.originalStatics, n);
    SysTableFound(file, bigEndian, p.sysTranslationTable, Seconds(c.sys), p.sysTranslations, p.translationStatics, n);
  }

  lemma AllInPlace(
    img: Image, d: Domain, c: Catalogue, p: Places, vals: Values, origs: seq<Str>, transs: seq<Str>)
    requires |img.bytes| >= HEADER_SIZE && Found(d, img, c) && |c.table| > 2 && Free(c.table) > |c.sys|
    requires img.At(36) == |c.sys| && img.At(40) == p.sysOriginalTable && img.At(44) == p.sysTranslationTable
    requires Tabled(img, p.sysOriginalTable, origs) == true && Tabled(img, p.sysTranslationTable, transs) == true
    requires |origs| == |transs| == |c.sys|
    requires forall i :: 0 <= i < |origs| && origs[i].Verdict(vals).Kept? ==> Terminated(origs[i].Text(vals))
    ensures SysdepInPlace(img, d, vals, origs, transs) == true
  {}

  /** What the loader takes for granted. */
  lemma SysReady(
    file: seq<Byte>, bigEndian: bool, c: Catalogue, p: Places, vals: Values, img: Image, origs: seq<Str>,
    transs: seq<Str>)
    requires Written(file, bigEndian, c, p) == true && Proper(c) && |vals| == |c.names| && |c.table| > 2
    requires Searchable(c, |c.sys|) && img == ImageOf(file, bigEndian)
    requires origs == StrsOf(file, Firsts(c.sys), p.originalStatics)
    requires transs == StrsOf(file, Seconds(c.sys), p.translationStatics)
    ensures |img.bytes| >= HEADER_SIZE && Verdicts(c.sys, vals, origs, transs) == true
    ensures SysdepInPlace(img, Basic(img), vals, origs, transs) == true
  {
    BasicFound(file, bigEndian, c, p, |c.sys|);
    HeaderFound(file, bigEndian, c, p);
    VerdictsFound(file, bigEndian, c, p, vals);
    KeptTerminate(c.sys, vals, origs, transs);
    TablesFound(file, bigEndian, c, p, img, origs, transs);
    AllInPlace(img, Basic(img), c, p, vals, origs, transs);
  }

  lemma StaticOffered(d: Domain, img: Image, c: Catalogue)
    requires Found(d, img, c)
    ensures Offers(d, StaticPairs(c.entries))
  {
    forall e | 0 <= e < |c.entries| ensures PairsOf(d.strings)[e] == StaticPairs(c.entries)[e] {
      assert Stands(d.strings, e, c.entries[e]);
    }
  }

  lemma Joined<T>(got: seq<T>, a: seq<T>, b: seq<T>)
    requires |got| == |a| + |b| && (forall e :: 0 <= e < |a| ==> got[e] == a[e])
    requires forall k {:trigger b[k]} :: 0 <= k < |b| ==> got[|a| + k] == b[k]
    ensures got == a + b
  {
    forall e | |a| <= e < |got| ensures got[e] == (a + b)[e] {
      assert b[e - |a|] == (a + b)[e];
    }
  }

  /** The pairs that are added. */
  lemma {:induction false} PairsAdded(
    st': Strings, st: Strings, c: Catalogue, vals: Values, origs: seq<Str>, transs: seq<Str>, ks: seq<nat>,
    ps: seq<(CString, seq<Byte>)>)
    requires st.InPlace() && st'.InPlace() && StringsAdded(st', st, ks, origs, transs, vals)
      && st.Count() == st.nstrings
    requires Verdicts(c.sys, vals, origs, transs) == true && Listed(ks, ps, c.sys, vals)
    ensures PairsOf(st') == PairsOf(st) + ps
  {
    forall k {:trigger ps[k]} | 0 <= k < |ps| ensures PairsOf(st')[st.nstrings + k] == ps[k] {
      KeptAlike(c.sys, vals, origs, transs, ks[k]);
    }
    Joined(PairsOf(st'), PairsOf(st), ps);
  }

  lemma {:induction false} AllOffered(
    d: Domain, r: Domain, img: Image, c: Catalogue, vals: Values, origs: seq<Str>, transs: seq<Str>)
    requires Found(d, img, c) && r.Sound() && Verdicts(c.sys, vals, origs, transs) == true
    requires |origs| == |transs| == |c.sys|
    requires Extends(r, d, KeptBelow(Sizes(origs, transs, vals), |origs|), origs, transs, vals)
    ensures Offers(r, StaticPairs(c.entries) + KeptPairs(c.sys, vals, |c.sys|)) == true
  {
    var ks, ps := KeptBelow(Sizes(origs, transs, vals), |origs|), KeptPairs(c.sys, vals, |c.sys|);
    StaticOffered(d, img, c);
    KeptListed(c.sys, vals, origs, transs);
    PairsAdded(r.strings, d.strings, c, vals, origs, transs, ks, ps);
  }

  // ----- the loader

  lemma MagicRead(w: Word, swap: bool)
    requires W(swap, w) as nat == 0x950412de
    ensures w == if swap then MAGIC_SWAPPED else MAGIC
  {
    assert W(swap, w) == MAGIC;
    assert SwapWord(SwapWord(w)) == w;
    assert SwapWord(MAGIC) == MAGIC_SWAPPED;
  }

  lemma OrderTold(host: bool, file: seq<Byte>, swap: bool)
    requires |file| >= HEADER_SIZE && Native(host, file, 0) == if swap then MAGIC_SWAPPED else MAGIC
    ensures ByteOrder(host, file) == Some(host != swap)
  {
    assert MAGIC != MAGIC_SWAPPED;
  }

  lemma NumberTold(host: bool, file: seq<Byte>, swap: bool, n: nat, word: Word)
    requires |file| >= HEADER_SIZE && word == Native(host, file, 0) && W(swap, word) as nat == n && n == 0x950412de
    ensures ByteOrder(host, file) == Some(host != swap)
  {
    MagicRead(word, swap);
    OrderTold(host, file, swap);
  }

  lemma WordRead(host: bool, file: seq<Byte>, bigEndian: bool, n: nat)
    requires |file| >= HEADER_SIZE && Stored(file, bigEndian, 0) == n
    ensures W(host != bigEndian, Native(host, file, 0)) as nat == n
  {
    ReadsNumber(host, file, bigEndian, 0);
  }

  /** A machine of either byte order recognises the file. */
  lemma OrderFound(host: bool, file: seq<Byte>, bigEndian: bool, n: nat)
    requires |file| >= HEADER_SIZE && Stored(file, bigEndian, 0) == n && n == 0x950412de
    ensures ByteOrder(host, file) == Some(bigEndian)
  {
    WordRead(host, file, bigEndian, n);
    NumberTold(host, file, host != bigEndian, n, Native(host, file, 0));
  }

  /** The loader's numbers for a file in which a catalogue is written. */
  ghost predicate Headed(img: Image, c: Catalogue, p: Places) {
    && |img.bytes| >= HEADER_SIZE && img.At(4) == c.revision && img.At(20) == |c.table| && img.At(36) == |c.sys|
    && img.At(28) == |c.names| && img.At(32) == p.segmentTable
  }

  /** The file can be loaded, and if it has system dependent strings, none of their references is out of range. */
  lemma Ready(
    file: seq<Byte>, bigEndian: bool, c: Catalogue, p: Places, valueOf: CString -> Option<CString>, img: Image,
    vals: Values, origs: seq<Str>, transs: seq<Str>)
    requires Written(file, bigEndian, c, p) == true && Proper(c)
    requires Searchable(c, if Minor(c) == 0 then 0 else |c.sys|) == true
    requires img == ImageOf(file, bigEndian) && vals == ValuesFor(c.names, valueOf)
    requires origs == StrsOf(file, Firsts(c.sys), p.originalStatics)
    requires transs == StrsOf(file, Seconds(c.sys), p.translationStatics)
    ensures Headed(img, c, p) && NamesInPlace(img, |c.names|, p.segmentTable)
    ensures ValuesOf(img, |c.names|, p.segmentTable, valueOf) == vals && Found(Basic(img), img, c) == true
    ensures HasSysdep(img) ==>
      && Loadable(img, valueOf, origs, transs) == true && SysdepValid(img, valueOf, origs, transs) == true
      && Verdicts(c.sys, vals, origs, transs) == true
  {
    HeaderFound(file, bigEndian, c, p);
    BasicFound(file, bigEndian, c, p, if Minor(c) == 0 then 0 else |c.sys|);
    NamesFound(file, bigEndian, c.names, p.segmentTable, p.names, valueOf);
    if HasSysdep(img) {
      SysReady(file, bigEndian, c, p, vals, img, origs, transs);
      NoneInvalid(c.sys, vals, origs, transs);
    }
  }

  /** A file in which a catalogue is written is loaded as that catalogue, exactly if its major revision is at most 1 and
      it has a hash table or no minor revision. */
  method LoadWritten(
    host: bool, file: seq<Byte>, w: nat, valueOf: CString -> Option<CString>, ghost bigEndian: bool,
    ghost c: Catalogue, ghost p: Places)
    returns (r: Option<Domain>)
    requires w >= 32 && Written(file, bigEndian, c, p) && Proper(c)
      && Searchable(c, if Minor(c) == 0 then 0 else |c.sys|)
    ensures r.Some? <==> Major(c) <= 1 && (Minor(c) == 0 || |c.table| > 2)
    ensures r.Some? ==> Offers(r.value, Lookups(c, ValuesFor(c.names, valueOf))) == true
  {
    ghost var img, vals := ImageOf(file, bigEndian), ValuesFor(c.names, valueOf);
    ghost var origs := StrsOf(file, Firsts(c.sys), p.originalStatics);
    ghost var transs := StrsOf(file, Seconds(c.sys), p.translationStatics);
    HeaderFound(file, bigEndian, c, p);
    OrderFound(host, file, bigEndian, 0x950412de);
    Ready(file, bigEndian, c, p, valueOf, img, vals, origs, transs);
    r := LoadReady(host, file, w, valueOf, bigEndian, c, p, img, vals, origs, transs);
  }

  lemma SysOffered(
    img: Image, r: Domain, c: Catalogue, p: Places, vals: Values, origs: seq<Str>, transs: seq<Str>)
    requires Headed(img, c, p) && HasSysdep(img) && Found(Basic(img), img, c) && r.Sound()
    requires Verdicts(c.sys, vals, origs, transs)
    requires Extends(r, Basic(img), KeptBelow(Sizes(origs, transs, vals), |origs|), origs, transs, vals)
    ensures Offers(r, Lookups(c, vals)) == true
  {
    AllOffered(Basic(img), r, img, c, vals, origs, transs);
  }

  lemma PlainOffered(img: Image, c: Catalogue, p: Places, vals: Values)
    requires Headed(img, c, p) && !HasSysdep(img) && Major(c) <= 1 && (Minor(c) == 0 || |c.table| > 2)
    requires Found(Basic(img), img, c)
    ensures Offers(Basic(img), Lookups(c, vals)) == true
  {
    StaticOffered(Basic(img), img, c);
    assert c.sys == [] ==> KeptPairs(c.sys, vals, 0) == [];
    assert Lookups(c, vals) == StaticPairs(c.entries);
  }

  method LoadReady(
    host: bool, file: seq<Byte>, w: nat, valueOf: CString -> Option<CString>, ghost bigEndian: bool,
    ghost c: Catalogue, ghost p: Places, ghost img: Image, ghost vals: Values, ghost origs: seq<Str>,
    ghost transs: seq<Str>)
    returns (r: Option<Domain>)
    requires w >= 32 && ByteOrder(host, file) == Some(bigEndian) && img == ImageOf(file, bigEndian)
    requires Headed(img, c, p) && NamesInPlace(img, |c.names|, p.segmentTable)
    requires ValuesOf(img, |c.names|, p.segmentTable, valueOf) == vals && Found(Basic(img), img, c) == true
    requires HasSysdep(img) ==>
      && Loadable(img, valueOf, origs, transs) == true && SysdepValid(img, valueOf, origs, transs) == true
      && Verdicts(c.sys, vals, origs, transs) == true
    ensures r.Some? <==> Major(c) <= 1 && (Minor(c) == 0 || |c.table| > 2)
    ensures r.Some? ==> Offers(r.value, Lookups(c, vals)) == true
  {
    r := LoadDomain(host, file, w, valueOf, origs, transs);
    if r.Some? {
      if HasSysdep(img) {
        SysOffered(img, r.value, c, p, vals, origs, transs);
      } else {
        PlainOffered(img, c, p, vals);
      }
    }
  }

  /** A string that is looked up in a written catalogue is found exactly if it is in it, with a translation it has
      there. */
  method FindWritten(
    host: bool, file: seq<Byte>, w: nat, valueOf: CString -> Option<CString>, msgid: CString, ghost bigEndian: bool,
    ghost c: Catalogue, ghost p: Places)
    returns (result: Option<seq<Byte>>)
    requires w >= 32 && Written(file, bigEndian, c, p) && Proper(c)
      && Searchable(c, if Minor(c) == 0 then 0 else |c.sys|)
    requires Major(c) <= 1 && (Minor(c) == 0 || |c.table| > 2)
    ensures
      var pairs := Lookups(c, ValuesFor(c.names, valueOf));
      if result.Some? then (msgid, result.value) in pairs else forall pr <- pairs :: pr.0 != msgid
  {
    ghost var pairs := Lookups(c, ValuesFor(c.names, valueOf));
    var r := LoadWritten(host, file, w, valueOf, bigEndian, c, p);
    var act, translation := FindMsg(r.value, w, msgid);
    if act.None? {
      forall e | 0 <= e < |pairs| ensures pairs[e].0 != msgid {
        assert pairs[e].0 == r.value.strings.Keys()[e];
      }
      return None;
    }
    assert pairs[act.value] == (msgid, translation);
    return Some(translation);
  }
}
