/** `_nl_load_domain` (intl/loadmsgcat.c:973-1389) without the input of the file: from the bytes of a
    catalogue to the tables that are searched. */
module CatalogLoad {
  import opened CatalogFill
  import opened CatalogHash
  import opened CatalogImage
  import opened CatalogLookup
  import opened CatalogPasses
  import opened CatalogProbe
  import opened CatalogSysdep
  import opened CatalogTable
  import opened Options

  /** The byte order of a catalogue, told from its magic number by a machine of the given order. */
  function ByteOrder(host: bool, file: seq<Byte>): Option<bool> {
    if |file| < HEADER_SIZE then None
    else if Native(host, file, 0) == MAGIC then Some(host)
    else if Native(host, file, 0) == MAGIC_SWAPPED then Some(!host)
    else None
  }

  /** A file written in the other byte order is recognised as such. */
  lemma OrderSwapped(host: bool, a: seq<Byte>, b: seq<Byte>, words: set<nat>)
    requires Swapped(a, b, words) && 0 in words && ByteOrder(host, a).Some?
    ensures ByteOrder(host, b) == Some(!ByteOrder(host, a).value)
  {
    SwapReversesBytes(a[0], a[1], a[2], a[3]);
    SwapReversesBytes(a[3], a[2], a[1], a[0]);
    assert SwapWord(MAGIC) == MAGIC_SWAPPED && SwapWord(MAGIC_SWAPPED) == MAGIC;
  }

  /** The static part of a catalogue, as its header describes it. */
  function StaticStrings(img: Image): Strings
    requires |img.bytes| >= HEADER_SIZE
  {
    Strings(img, img.At(8), img.At(12), img.At(16), [], [])
  }

  function Basic(img: Image): Domain
    requires |img.bytes| >= HEADER_SIZE
  {
    Domain(StaticStrings(img), img.At(20), if img.At(20) > 2 then Some(InFile(img.At(24))) else None)
  }

  // ----- the system dependent segments

  /** The names of the segments are in place. */
  ghost predicate NamesInPlace(img: Image, n: nat, tab: nat) {
    tab + 8 * n <= |img.bytes| && forall i :: 0 <= i < n ==>
      OffsetAt(img, tab, i) + LengthAt(img, tab, i) <= |img.bytes|
  }

  predicate NameEnds(img: Image, tab: nat, i: nat)
    requires OffsetAt(img, tab, i) + LengthAt(img, tab, i) <= |img.bytes|
  {
    var len, off := LengthAt(img, tab, i), OffsetAt(img, tab, i);
    len > 0 && img.bytes[off + len - 1] == 0
  }

  function ValueAt(img: Image, tab: nat, valueOf: CString -> Option<CString>, i: nat): Option<CString>
    requires OffsetAt(img, tab, i) + LengthAt(img, tab, i) <= |img.bytes|
  {
    valueOf(CStr(img.bytes[OffsetAt(img, tab, i)..]))
  }

  function ValuesOf(img: Image, n: nat, tab: nat, valueOf: CString -> Option<CString>): (vals: Values)
    requires NamesInPlace(img, n, tab)
    ensures |vals| == n
  {
    seq(n, i requires 0 <= i < n => ValueAt(img, tab, valueOf, i))
  }

  method SegmentValue(img: Image, tab: nat, valueOf: CString -> Option<CString>, i: nat)
    returns (ok: bool, val: Option<CString>)
    requires OffsetAt(img, tab, i) + LengthAt(img, tab, i) <= |img.bytes|
    ensures ok <==> NameEnds(img, tab, i)
    ensures val == ValueAt(img, tab, valueOf, i)
  {
    var name, namelen := OffsetAt(img, tab, i), LengthAt(img, tab, i);
    ok := namelen > 0 && img.bytes[name + namelen - 1] == 0;
    val := valueOf(CStr(img.bytes[name..]));
  }

  method SegmentValues(img: Image, n: nat, tab: nat, valueOf: CString -> Option<CString>)
    returns (ok: bool, vals: Values)
    requires NamesInPlace(img, n, tab)
    ensures ok <==> forall i :: 0 <= i < n ==> NameEnds(img, tab, i)
    ensures ok ==> vals == ValuesOf(img, n, tab, valueOf)
  {
    vals := [];
    var i: nat := 0;
    while i < n
      invariant i <= n && |vals| == i
      invariant forall k :: 0 <= k < i ==> NameEnds(img, tab, k)
      invariant vals == ValuesOf(img, n, tab, valueOf)[..i]
    {
      var val;
      ok, val := SegmentValue(img, tab, valueOf, i);
      if !ok {
        return;
      }
      vals := vals + [val];
      i := i + 1;
    }
    ok := true;
  }

  // ----- the augmented hash table

  lemma HashesOfMore(keys: seq<CString>, s: CString)
    ensures Hashes(keys + [s]) == Hashes(keys) + [Hash(s)]
  {}

  method CopyTable(d: Domain) returns (inmemHashTab: array<nat>)
    requires d.TableInPlace() && d.hashTab.Some?
    ensures fresh(inmemHashTab) && inmemHashTab[..] == d.Slots()
  {
    inmemHashTab := new nat[d.hashSize];
    var i: nat := 0;
    while i < d.hashSize
      invariant i <= d.hashSize && inmemHashTab[..i] == d.Slots()[..i]
    {
      inmemHashTab[i] := d.Slot(i);
      i := i + 1;
    }
  }

  /** Copies the file's table and adds the system dependent strings to it. */
  method Augment(d: Domain, w: nat, msgids: seq<CString>, ghost keys: seq<CString>) returns (inmemHashTab: array<nat>)
    requires w >= 32 && d.TableInPlace() && d.hashTab.Some? && Prime(d.hashSize)
    requires d.strings.nstrings == |keys| && TableFor(d.Slots(), Hashes(keys)) && Free(d.Slots()) > |msgids|
    ensures fresh(inmemHashTab) && inmemHashTab.Length == d.hashSize
    ensures TableFor(inmemHashTab[..], Hashes(keys + msgids)) && Free(inmemHashTab[..]) > 0
  {
    inmemHashTab := CopyTable(d);
    ghost var all := keys;
    var i: nat := 0;
    while i < |msgids|
      invariant i <= |msgids| && all == keys + msgids[..i] && fresh(inmemHashTab)
      invariant TableFor(inmemHashTab[..], Hashes(all)) && Free(inmemHashTab[..]) > |msgids| - i
    {
      var hashVal := HashString(w, msgids[i]);
      HashesOfMore(all, msgids[i]);
      Insert(inmemHashTab, hashVal, 1 + d.strings.nstrings + i, Hashes(all));
      all := all + [msgids[i]];
      i := i + 1;
    }
    assert all == keys + msgids;
  }

  // ----- the strings in memory

  /** What a descriptor leads to. */
  function DescOf(sd: StringDesc, file: seq<Byte>, mem: seq<Byte>): Desc
    requires sd.pointer.off <= if sd.pointer.ToFile? then |file| else |mem|
  {
    Desc(sd.length, if sd.pointer.ToFile? then file[sd.pointer.off..] else mem[sd.pointer.off..])
  }

  /** The memory from the pointer on begins with exactly `text`. */
  ghost predicate Begins(d: Desc, text: seq<Byte>) {
    d.length == |text| <= |d.text| && d.text[..d.length] == text
  }

  /** The strings with the indices `ks` are in place. */
  ghost predicate AllBegin(ds: seq<Desc>, ks: seq<nat>, ss: seq<Str>, vals: Values) {
    |ds| == |ks| && forall k :: 0 <= k < |ks| ==> ks[k] < |ss| && Begins(ds[k], ss[ks[k]].Text(vals))
  }

  lemma LeadsToBegins(sd: StringDesc, file: seq<Byte>, mem: seq<Byte>, text: seq<Byte>)
    requires LeadsTo(sd, file, mem, text)
    ensures Begins(DescOf(sd, file, mem), text)
  {
    var target := if sd.pointer.ToFile? then file else mem;
    assert target[sd.pointer.off..][..sd.length] == target[sd.pointer.off..sd.pointer.off + sd.length];
  }

  method Descriptors(
    sds: seq<StringDesc>, file: seq<Byte>, mem: seq<Byte>, ghost ks: seq<nat>, ghost ss: seq<Str>, ghost vals: Values)
    returns (ds: seq<Desc>)
    requires AllLead(sds, ks, ss, vals, file, mem)
    ensures AllBegin(ds, ks, ss, vals)
  {
    ds := seq(
      |sds|, k requires 0 <= k < |sds|
        && LeadsTo(sds[k], file, mem, ss[ks[k]].Text(vals)) => DescOf(sds[k], file, mem));
    forall k | 0 <= k < |ks| ensures Begins(ds[k], ss[ks[k]].Text(vals)) {
      LeadsToBegins(sds[k], file, mem, ss[ks[k]].Text(vals));
    }
  }

  // ----- the catalogue with its system dependent strings

  function Msgids(ds: seq<Desc>): (ms: seq<CString>)
    ensures |ms| == |ds|
  {
    seq(|ds|, k requires 0 <= k < |ds| => CStr(ds[k].text))
  }

  lemma TextTerminates(d: Desc, text: seq<Byte>)
    requires Begins(d, text) && Terminated(text)
    ensures Terminated(d.text) && CStr(d.text) == CStr(text) && d.length > |CStr(d.text)|
  {
    var n := |CStr(text)|;
    assert d.text[..n + 1] == d.text[..d.length][..n + 1] == text[..n + 1];
    CStrPrefix(text, d.text);
  }

  /** The strings `st'` are those of `st` with others, from the pairs `ks`, behind them. */
  ghost predicate Grown(st: Strings, st': Strings, ks: seq<nat>, origs: seq<Str>, transs: seq<Str>, vals: Values) {
    && st.Sound() && st.origSysdep == []
    && st' == st.(origSysdep := st'.origSysdep, transSysdep := st'.transSysdep)
    && AllBegin(st'.origSysdep, ks, origs, vals) && AllBegin(st'.transSysdep, ks, transs, vals)
    && forall k :: 0 <= k < |ks| ==> Terminated(origs[ks[k]].Text(vals))
  }

  lemma GrownInPlace(st: Strings, st': Strings, ks: seq<nat>, origs: seq<Str>, transs: seq<Str>, vals: Values)
    requires Grown(st, st', ks, origs, transs, vals)
    ensures st'.InPlace()
  {
    assert forall k :: 0 <= k < |ks| ==> Begins(st'.transSysdep[k], transs[ks[k]].Text(vals));
  }

  lemma GrownSound(st: Strings, st': Strings, ks: seq<nat>, origs: seq<Str>, transs: seq<Str>, vals: Values)
    requires Grown(st, st', ks, origs, transs, vals)
    ensures st'.Sound()
  {
    GrownInPlace(st, st', ks, origs, transs, vals);
    forall e | 0 <= e < st'.Count() ensures st'.LengthCovers(e) {
      if e < st.nstrings {
        StaticCovered(st, st', e);
      } else {
        TextTerminates(st'.origSysdep[e - st.nstrings], origs[ks[e - st.nstrings]].Text(vals));
      }
    }
  }

  lemma GrownKeys(st: Strings, st': Strings, ks: seq<nat>, origs: seq<Str>, transs: seq<Str>, vals: Values)
    requires Grown(st, st', ks, origs, transs, vals) && st'.InPlace()
    ensures st'.Keys() == st.Keys() + Msgids(st'.origSysdep)
  {
    forall e | 0 <= e < st.nstrings ensures st'.Keys()[e] == st.Keys()[e] {
      StaticCovered(st, st', e);
    }
  }

  lemma StaticCovered(st: Strings, st': Strings, e: nat)
    requires st.Sound() && st'.InPlace() && e < st.nstrings
    requires st'.img == st.img && st'.nstrings == st.nstrings && st'.origTab == st.origTab
      && st'.transTab == st.transTab
    ensures st'.LengthCovers(e) && st'.Keys()[e] == st.Keys()[e]
  {
    assert st.LengthCovers(e) && st'.KeyText(e) == st.KeyText(e);
  }

  /** The strings `st'` are those of `st` with the pairs `ks` behind them. */
  ghost predicate StringsAdded(st': Strings, st: Strings, ks: seq<nat>, origs: seq<Str>, transs: seq<Str>, vals: Values)
    requires st.InPlace() && st'.InPlace()
  {
    && st'.nstrings == st.nstrings && st'.Count() == st.nstrings + |ks|
    && (forall e :: 0 <= e < st.nstrings ==>
        st'.Keys()[e] == st.Keys()[e] && st'.Translation(e) == st.Translation(e))
    && forall k :: 0 <= k < |ks| ==>
      && ks[k] < |origs| && ks[k] < |transs|
      && st'.Keys()[st.nstrings + k] == CStr(origs[ks[k]].Text(vals))
      && st'.Translation(st.nstrings + k) == transs[ks[k]].Text(vals)
  }

  ghost predicate Extends(r: Domain, d: Domain, ks: seq<nat>, origs: seq<Str>, transs: seq<Str>, vals: Values)
    requires d.Sound() && r.Sound()
  {
    StringsAdded(r.strings, d.strings, ks, origs, transs, vals)
  }

  /** A table over all the keys makes the whole sound. */
  lemma TableExtended(d: Domain, st': Strings, t: seq<nat>)
    requires st'.Sound() && |t| == d.hashSize && Prime(|t|) && TableFor(t, Hashes(st'.Keys())) && Free(t) > 0
    ensures Domain(st', d.hashSize, Some(InMemory(t))).Sound()
  {
    assert Domain(st', d.hashSize, Some(InMemory(t))).Slots() == t;
  }

  lemma StringsAreAdded(st: Strings, st': Strings, ks: seq<nat>, origs: seq<Str>, transs: seq<Str>, vals: Values)
    requires Grown(st, st', ks, origs, transs, vals) && st'.InPlace()
    ensures StringsAdded(st', st, ks, origs, transs, vals)
  {
    forall e | 0 <= e < st.nstrings ensures st'.Keys()[e] == st.Keys()[e] && st'.Translation(e) == st.Translation(e) {
      StaticKept(st, st', e);
    }
    forall k | 0 <= k < |ks|
      ensures st'.Keys()[st.nstrings + k] == CStr(origs[ks[k]].Text(vals))
      ensures st'.Translation(st.nstrings + k) == transs[ks[k]].Text(vals)
    {
      SysdepAdded(st', k, origs[ks[k]].Text(vals), transs[ks[k]].Text(vals));
    }
  }

  lemma StaticKept(st: Strings, st': Strings, e: nat)
    requires st.InPlace() && st'.InPlace() && e < st.nstrings
    requires st'.img == st.img && st'.nstrings == st.nstrings && st'.origTab == st.origTab
      && st'.transTab == st.transTab
    ensures st'.Keys()[e] == st.Keys()[e] && st'.Translation(e) == st.Translation(e)
  {
    assert st'.KeyText(e) == st.KeyText(e);
  }

  lemma SysdepAdded(st: Strings, k: nat, orig: seq<Byte>, trans: seq<Byte>)
    requires st.InPlace() && k < |st.origSysdep|
    requires Begins(st.origSysdep[k], orig) && Terminated(orig) && Begins(st.transSysdep[k], trans)
    ensures st.Keys()[st.nstrings + k] == CStr(orig) && st.Translation(st.nstrings + k) == trans
  {
    TextTerminates(st.origSysdep[k], orig);
  }

  /** What the file's system dependent part must be for the loader to read it safely: everything in
      place, every original closed by a NUL, and more empty slots in the table than strings to add. */
  ghost predicate SysdepInPlace(img: Image, d: Domain, vals: Values, origs: seq<Str>, transs: seq<Str>)
    requires |img.bytes| >= HEADER_SIZE
  {
    && d.Sound() && d.hashTab.Some? && d.strings.img == img && d.strings.origSysdep == []
    && |origs| == |transs| == img.At(36)
    && Tabled(img, img.At(40), origs) && Tabled(img, img.At(44), transs)
    && (forall i :: 0 <= i < |origs| && origs[i].Verdict(vals).Kept? ==> Terminated(origs[i].Text(vals)))
    && Free(d.Slots()) > |origs|
  }

  /** The memory for the strings that are kept, filled. */
  method Expansion(
    img: Image, d: Domain, w: nat, vals: Values, n: nat, memneed: nat, ghost origs: seq<Str>, ghost transs: seq<Str>)
    returns (r: Domain)
    requires |img.bytes| >= HEADER_SIZE && SysdepInPlace(img, d, vals, origs, transs) && w >= 32
    requires
      var zs := Sizes(origs, transs, vals);
      AllValid(zs) && n == |KeptBelow(zs, |zs|)| && memneed == MemNeed(d.hashSize, n, NeedBelow(zs, |zs|))
    ensures r.Sound() && Extends(r, d, KeptBelow(Sizes(origs, transs, vals), |origs|), origs, transs, vals)
  {
    ghost var zs := Sizes(origs, transs, vals);
    ghost var ks := KeptBelow(zs, |zs|);
    // The block begins with the two tables and the hash table.
    var mem := new Byte[memneed];
    var inmemOrig := new StringDesc[n](_ => StringDesc(0, ToFile(0)));
    var inmemTrans := new StringDesc[n](_ => StringDesc(0, ToFile(0)));
    var base := n * SIZEOF_DESC + n * SIZEOF_DESC + d.hashSize * SIZEOF_WORD;
    var k, pos := SecondPass(
      img, img.At(36), img.At(40), img.At(44), vals, mem, base, inmemOrig, inmemTrans, origs, transs, zs);
    assert k == n && pos == memneed;
    var ds0 := Descriptors(inmemOrig[..], img.bytes, mem[..], ks, origs, vals);
    var ds1 := Descriptors(inmemTrans[..], img.bytes, mem[..], ks, transs, vals);
    KeptCount(zs, |zs|);
    var t := Augment(d, w, Msgids(ds0), d.strings.Keys());
    KeptAreKept(zs, |zs|);
    forall k | 0 <= k < |ks| ensures Terminated(origs[ks[k]].Text(vals)) {
      assert ks[k] in ks && zs[ks[k]] == PairSize(origs[ks[k]], transs[ks[k]], vals);
    }
    ghost var st' := d.strings.(origSysdep := ds0, transSysdep := ds1);
    GrownSound(d.strings, st', ks, origs, transs, vals);
    GrownKeys(d.strings, st', ks, origs, transs, vals);
    TableExtended(d, st', t[..]);
    StringsAreAdded(d.strings, st', ks, origs, transs, vals);
    r := Domain(d.strings.(origSysdep := ds0, transSysdep := ds1), d.hashSize, Some(InMemory(t[..])));
  }

  lemma {:induction false} KeptCount(zs: seq<Sized>, m: nat)
    requires m <= |zs|
    ensures |KeptBelow(zs, m)| <= m
  {
    if m > 0 {
      KeptCount(zs, m - 1);
    }
  }

  // ----- the whole

  function Major(img: Image): nat
    requires |img.bytes| >= HEADER_SIZE
  {
    img.At(4) / 0x1_0000
  }

  function Minor(img: Image): nat
    requires |img.bytes| >= HEADER_SIZE
  {
    img.At(4) % 0x1_0000
  }

  /** A file with system dependent strings that is not rejected before they are looked at. */
  predicate HasSysdep(img: Image)
    requires |img.bytes| >= HEADER_SIZE
  {
    Major(img) <= 1 && Minor(img) != 0 && img.At(20) > 2 && img.At(36) > 0
  }

  /** The segments have proper names, and no reference looked at is out of range. */
  ghost predicate SysdepValid(img: Image, valueOf: CString -> Option<CString>, origs: seq<Str>, transs: seq<Str>)
    requires |img.bytes| >= HEADER_SIZE && NamesInPlace(img, img.At(28), img.At(32)) && |origs| == |transs|
  {
    && (forall i :: 0 <= i < img.At(28) ==> NameEnds(img, img.At(32), i))
    && AllValid(Sizes(origs, transs, ValuesOf(img, img.At(28), img.At(32), valueOf)))
  }

  /** What the loader takes for granted about the system dependent part. */
  ghost predicate Loadable(img: Image, valueOf: CString -> Option<CString>, origs: seq<Str>, transs: seq<Str>)
    requires |img.bytes| >= HEADER_SIZE
  {
    HasSysdep(img) ==>
      && NamesInPlace(img, img.At(28), img.At(32))
      && SysdepInPlace(img, Basic(img), ValuesOf(img, img.At(28), img.At(32), valueOf), origs, transs)
  }

  method LoadSysdep(
      img: Image, w: nat, valueOf: CString -> Option<CString>, ghost origs: seq<Str>, ghost transs: seq<Str>)
    returns (r: Option<Domain>)
    requires |img.bytes| >= HEADER_SIZE && HasSysdep(img) && Loadable(img, valueOf, origs, transs) && w >= 32
    ensures r.Some? <==> SysdepValid(img, valueOf, origs, transs)
    ensures r.Some? ==>
      var vals := ValuesOf(img, img.At(28), img.At(32), valueOf);
      && r.value.Sound()
      && Extends(r.value, Basic(img), KeptBelow(Sizes(origs, transs, vals), |origs|), origs, transs, vals)
  {
    var ok, vals := SegmentValues(img, img.At(28), img.At(32), valueOf);
    if !ok {
      return None;
    }
    var d := Basic(img);
    var valid, n, memneed := FirstPass(img, img.At(36), img.At(40), img.At(44), vals, d.hashSize, origs, transs);
    if !valid {
      return None;
    }
    if n > 0 {
      var x := Expansion(img, d, w, vals, n, memneed, origs, transs);
      return Some(x);
    }
    return Some(d);
  }

  /** `_nl_load_domain` for a file that could be read. */
  method LoadDomain(
      host: bool, file: seq<Byte>, w: nat, valueOf: CString -> Option<CString>,
      ghost origs: seq<Str>, ghost transs: seq<Str>)
    returns (r: Option<Domain>)
    requires w >= 32
    requires ByteOrder(host, file).Some? ==>
      Loadable(ImageOf(file, ByteOrder(host, file).value), valueOf, origs, transs)
    ensures ByteOrder(host, file).None? ==> r.None?
    ensures ByteOrder(host, file).Some? ==>
      var img := ImageOf(file, ByteOrder(host, file).value);
      if HasSysdep(img) then
        && (r.Some? <==> SysdepValid(img, valueOf, origs, transs))
        && (r.Some? ==>
            var vals := ValuesOf(img, img.At(28), img.At(32), valueOf);
            && r.value.Sound()
            && Extends(r.value, Basic(img), KeptBelow(Sizes(origs, transs, vals), |origs|), origs, transs, vals))
      else if Major(img) > 1 || (Minor(img) != 0 && img.At(20) <= 2) then r.None?
      else r == Some(Basic(img))
  {
    var order := ByteOrder(host, file);
    if order.None? {
      return None;
    }
    var img := ImageOf(file, order.value);
    var revision := img.At(4);
    if revision / 0x1_0000 > 1 {
      return None;
    }
    if revision % 0x1_0000 == 0 {
      return Some(Basic(img));
    }
    if Basic(img).hashTab.None? {
      return None;
    }
    if img.At(36) > 0 {
      r := LoadSysdep(img, w, valueOf, origs, transs);
    } else {
      r := Some(Basic(img));
    }
  }
}
