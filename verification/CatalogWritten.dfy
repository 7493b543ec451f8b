/** Catalogues as they are written: the bytes of a file, struct by struct in the order of intl/gmo.h, and what is found
    in a file that holds them. */
module CatalogWritten {
  import opened CatalogHash
  import opened CatalogImage
  import opened CatalogLoad
  import opened CatalogLookup
  import opened CatalogSysdep
  import opened Options

  // ----- words

  /** The byte with the value `n`. */
  function ByteOf(n: nat): Byte {
    if n == 0 then 0 else ByteOf(n - 1) + 1
  }

  function WordBytes(bigEndian: bool, v: nat): (b: seq<Byte>)
    ensures |b| == 4
  {
    var b0, b1 := ByteOf(v % 0x100), ByteOf(v / 0x100 % 0x100);
    var b2, b3 := ByteOf(v / 0x1_0000 % 0x100), ByteOf(v / 0x100_0000 % 0x100);
    if bigEndian then [b3, b2, b1, b0] else [b0, b1, b2, b3]
  }

  function WordsBytes(bigEndian: bool, vs: seq<nat>): (b: seq<Byte>)
    ensures |b| == 4 * |vs|
  {
    if vs == [] then [] else WordBytes(bigEndian, vs[0]) + WordsBytes(bigEndian, vs[1..])
  }

  /** The file has these bytes at `off`. */
  predicate Has(file: seq<Byte>, off: nat, bytes: seq<Byte>) {
    off + |bytes| <= |file| && file[off..off + |bytes|] == bytes
  }

  lemma HasParts(file: seq<Byte>, off: nat, a: seq<Byte>, b: seq<Byte>)
    requires Has(file, off, a + b)
    ensures Has(file, off, a) && Has(file, off + |a|, b)
  {
    var s := file[off..off + |a + b|];
    assert file[off..off + |a|] == s[..|a|] == a;
    assert file[off + |a|..off + |a| + |b|] == s[|a|..] == b;
  }

  lemma Digits(v: nat)
    requires v < 0x1_0000_0000
    ensures
      v == v % 0x100 + 0x100 * (v / 0x100 % 0x100) + 0x1_0000 * (v / 0x1_0000 % 0x100)
      + 0x100_0000 * (v / 0x100_0000 % 0x100)
  {}

  lemma NextByte(b: Byte)
    requires b as nat < 255
    ensures (b + 1) as nat == b as nat + 1
  {
    assert b != 255;
  }

  lemma {:induction false} ByteBack(v: nat)
    requires v < 0x100
    ensures ByteOf(v) as nat == v
  {
    if v > 0 {
      ByteBack(v - 1);
      NextByte(ByteOf(v - 1));
    }
  }

  /** A byte for each digit. */
  lemma DigitBytes(bigEndian: bool, v: nat)
    ensures
      var b := WordBytes(bigEndian, v);
      var l := if bigEndian then [b[3], b[2], b[1], b[0]] else b;
      && l[0] as nat == v % 0x100 && l[1] as nat == v / 0x100 % 0x100
      && l[2] as nat == v / 0x1_0000 % 0x100 && l[3] as nat == v / 0x100_0000 % 0x100
  {
    ByteBack(v % 0x100);
    ByteBack(v / 0x100 % 0x100);
    ByteBack(v / 0x1_0000 % 0x100);
    ByteBack(v / 0x100_0000 % 0x100);
  }

  lemma NumberIs(a: Byte, b: Byte, c: Byte, d: Byte, v: nat)
    requires v < 0x1_0000_0000 && a as nat == v % 0x100 && b as nat == v / 0x100 % 0x100
    requires c as nat == v / 0x1_0000 % 0x100 && d as nat == v / 0x100_0000 % 0x100
    ensures Number(a, b, c, d) == v
  {
    Digits(v);
  }

  lemma HasFirst(file: seq<Byte>, bigEndian: bool, off: nat, v: nat)
    requires Has(file, off, WordBytes(bigEndian, v)) && v < TWO_TO_32
    ensures Stored(file, bigEndian, off) == v
  {
    var b := WordBytes(bigEndian, v);
    forall k {:trigger b[k]} | 0 <= k < 4 ensures file[off + k] == b[k] {
      assert file[off..off + 4][k] == b[k];
    }
    DigitBytes(bigEndian, v);
    assert b[0] == file[off] && b[1] == file[off + 1] && b[2] == file[off + 2] && b[3] == file[off + 3];
    if bigEndian {
      NumberIs(b[3], b[2], b[1], b[0], v);
    } else {
      NumberIs(b[0], b[1], b[2], b[3], v);
    }
  }

  /** The k-th word written from `off` on is the number stored there. */
  lemma {:induction false} HasWord(file: seq<Byte>, bigEndian: bool, off: nat, vs: seq<nat>, k: nat)
    requires Has(file, off, WordsBytes(bigEndian, vs)) && k < |vs| && vs[k] < TWO_TO_32
    ensures off + 4 * k + 4 <= |file| && Stored(file, bigEndian, off + 4 * k) == vs[k]
    decreases k
  {
    HasParts(file, off, WordBytes(bigEndian, vs[0]), WordsBytes(bigEndian, vs[1..]));
    if k == 0 {
      HasFirst(file, bigEndian, off, vs[0]);
    } else {
      HasWord(file, bigEndian, off + 4, vs[1..], k - 1);
    }
  }

  // ----- what is written

  /** A message: its msgid, the plural form of it if it has one, and the translation. */
  datatype Entry = Entry(msgid: CString, plural: Option<CString>, translation: seq<Byte>) {
    function Original(): seq<Byte> {
      msgid + if plural.None? then [] else [0] + plural.value
    }
  }

  /** Static text with the number of the segment behind it. */
  datatype Part = Part(text: seq<Byte>, ref: nat)

  /** A system dependent string. */
  datatype Sys = Sys(parts: seq<Part>, end: seq<Byte>) {
    function Static(): seq<Byte>
      decreases |parts|
    {
      if parts == [] then end else parts[0].text + Sys(parts[1..], end).Static()
    }

    function Words(): seq<nat>
      decreases |parts|
    {
      if parts == [] then [|end|, 0xFFFF_FFFF]
      else [|parts[0].text|, parts[0].ref] + Sys(parts[1..], end).Words()
    }

    /** All segments have values. */
    predicate Available(vals: seq<Option<CString>>)
      decreases |parts|
    {
      parts == [] || (parts[0].ref < |vals| && vals[parts[0].ref].Some? && Sys(parts[1..], end).Available(vals))
    }

    /** The text with the values of the segments in place. */
    function Meaning(vals: seq<Option<CString>>): seq<Byte>
      requires Available(vals)
      decreases |parts|
    {
      if parts == [] then end else parts[0].text + vals[parts[0].ref].value + Sys(parts[1..], end).Meaning(vals)
    }
  }

  datatype Catalogue = Catalogue(
    revision: nat, entries: seq<Entry>, table: seq<nat>, names: seq<CString>, sys: seq<(Sys, Sys)>)

  /** Where the parts of a catalogue are in a file. */
  datatype Places = Places(
    originalTable: nat, translationTable: nat, hashTable: nat, segmentTable: nat, sysOriginalTable: nat,
    sysTranslationTable: nat, originals: seq<nat>, translations: seq<nat>, names: seq<nat>,
    sysOriginals: seq<nat>, sysTranslations: seq<nat>, originalStatics: seq<nat>, translationStatics: seq<nat>)

  /** `struct mo_file_header`. */
  function Header(c: Catalogue, p: Places): seq<nat> {
    [0x950412de, c.revision, |c.entries|, p.originalTable, p.translationTable, |c.table|, p.hashTable,
      |c.names|, p.segmentTable, |c.sys|, p.sysOriginalTable, p.sysTranslationTable]
  }

  /** A table of `struct string_desc`: length and offset. */
  function Descs(lengths: seq<nat>, offsets: seq<nat>): seq<nat>
    requires |lengths| == |offsets|
  {
    if lengths == [] then [] else [lengths[0], offsets[0]] + Descs(lengths[1..], offsets[1..])
  }

  function Lengths(texts: seq<seq<Byte>>): (r: seq<nat>)
    ensures |r| == |texts|
  {
    seq(|texts|, i requires 0 <= i < |texts| => |texts[i]|)
  }

  function Originals(es: seq<Entry>): (r: seq<seq<Byte>>)
    ensures |r| == |es|
  {
    seq(|es|, i requires 0 <= i < |es| => es[i].Original())
  }

  function Translations(es: seq<Entry>): (r: seq<seq<Byte>>)
    ensures |r| == |es|
  {
    seq(|es|, i requires 0 <= i < |es| => es[i].translation)
  }

  function Msgids(es: seq<Entry>): (r: seq<CString>)
    ensures |r| == |es|
  {
    seq(|es|, i requires 0 <= i < |es| => es[i].msgid)
  }

  /** The names of the segments, whose lengths include the NUL. */
  function Named(names: seq<CString>): (r: seq<seq<Byte>>)
    ensures |r| == |names|
  {
    seq(|names|, i requires 0 <= i < |names| => names[i] + [0])
  }

  /** The texts are where the table says, with `behind` behind each. */
  ghost predicate TableOfTexts(
    file: seq<Byte>, bigEndian: bool, tab: nat, texts: seq<seq<Byte>>, offsets: seq<nat>, behind: seq<Byte>)
  {
    && |offsets| == |texts| && Has(file, tab, WordsBytes(bigEndian, Descs(Lengths(texts), offsets)))
    && forall i :: 0 <= i < |texts| ==> Has(file, offsets[i], texts[i] + behind)
  }

  /** `struct sysdep_string`: the place of the static text, and the segments. */
  ghost predicate HasSys(file: seq<Byte>, bigEndian: bool, place: nat, s: Sys, statics: nat) {
    && Has(file, place, WordsBytes(bigEndian, [statics] + s.Words()))
    && Has(file, statics, s.Static())
  }

  ghost predicate TableOfSys(
    file: seq<Byte>, bigEndian: bool, tab: nat, ss: seq<Sys>, offsets: seq<nat>, statics: seq<nat>)
  {
    && |offsets| == |statics| == |ss| && Has(file, tab, WordsBytes(bigEndian, offsets))
    && forall i :: 0 <= i < |ss| ==> HasSys(file, bigEndian, offsets[i], ss[i], statics[i])
  }

  function Firsts(ps: seq<(Sys, Sys)>): (r: seq<Sys>)
    ensures |r| == |ps|
  {
    seq(|ps|, i requires 0 <= i < |ps| => ps[i].0)
  }

  function Seconds(ps: seq<(Sys, Sys)>): (r: seq<Sys>)
    ensures |r| == |ps|
  {
    seq(|ps|, i requires 0 <= i < |ps| => ps[i].1)
  }

  /** The file holds the catalogue at these places. */
  ghost predicate Written(file: seq<Byte>, bigEndian: bool, c: Catalogue, p: Places) {
    && |file| < TWO_TO_32
    && Has(file, 0, WordsBytes(bigEndian, Header(c, p)))
    && TableOfTexts(file, bigEndian, p.originalTable, Originals(c.entries), p.originals, [0])
    && TableOfTexts(file, bigEndian, p.translationTable, Translations(c.entries), p.translations, [0])
    && Has(file, p.hashTable, WordsBytes(bigEndian, c.table))
    && TableOfTexts(file, bigEndian, p.segmentTable, Named(c.names), p.names, [])
    && TableOfSys(file, bigEndian, p.sysOriginalTable, Firsts(c.sys), p.sysOriginals, p.originalStatics)
    && TableOfSys(file, bigEndian, p.sysTranslationTable, Seconds(c.sys), p.sysTranslations, p.translationStatics)
  }

  // ----- what is found

  lemma {:induction false} DescWords(lengths: seq<nat>, offsets: seq<nat>, i: nat)
    requires |lengths| == |offsets| && i < |lengths|
    ensures |Descs(lengths, offsets)| == 2 * |lengths|
    ensures Descs(lengths, offsets)[2 * i] == lengths[i] && Descs(lengths, offsets)[2 * i + 1] == offsets[i]
  {
    if i > 0 {
      DescWords(lengths[1..], offsets[1..], i - 1);
    } else if |lengths| > 1 {
      DescWords(lengths[1..], offsets[1..], 0);
    }
  }

  lemma DescAt(file: seq<Byte>, bigEndian: bool, tab: nat, ws: seq<nat>, i: nat)
    requires Has(file, tab, WordsBytes(bigEndian, ws)) && 2 * i + 1 < |ws|
    requires ws[2 * i] < TWO_TO_32 && ws[2 * i + 1] < TWO_TO_32
    ensures LengthAt(ImageOf(file, bigEndian), tab, i) == ws[2 * i]
    ensures OffsetAt(ImageOf(file, bigEndian), tab, i) == ws[2 * i + 1]
  {
    HasWord(file, bigEndian, tab, ws, 2 * i);
    HasWord(file, bigEndian, tab, ws, 2 * i + 1);
    DescIs(file, bigEndian, tab, i, ws[2 * i], ws[2 * i + 1]);
  }

  lemma DescIs(file: seq<Byte>, bigEndian: bool, tab: nat, i: nat, length: nat, offset: nat)
    requires tab + 8 * i + 8 <= |file|
    requires Stored(file, bigEndian, tab + 8 * i) == length && Stored(file, bigEndian, tab + 8 * i + 4) == offset
    ensures LengthAt(ImageOf(file, bigEndian), tab, i) == length
    ensures OffsetAt(ImageOf(file, bigEndian), tab, i) == offset
  {
    assert ImageOf(file, bigEndian).at(tab + 8 * i) == length;
    assert ImageOf(file, bigEndian).at(tab + 8 * i + 4) == offset;
  }

  /** The table gives the lengths and places of the texts. */
  lemma TextAt(
    file: seq<Byte>, bigEndian: bool, tab: nat, texts: seq<seq<Byte>>, offsets: seq<nat>, behind: seq<Byte>, i: nat)
    requires TableOfTexts(file, bigEndian, tab, texts, offsets, behind) && |file| < TWO_TO_32 && i < |texts|
    ensures tab + 8 * |texts| <= |file| && Has(file, offsets[i], texts[i] + behind) == true
    ensures LengthAt(ImageOf(file, bigEndian), tab, i) == |texts[i]|
    ensures OffsetAt(ImageOf(file, bigEndian), tab, i) == offsets[i]
  {
    var lengths := Lengths(texts);
    DescWords(lengths, offsets, i);
    assert Has(file, offsets[i], texts[i] + behind);
    DescAt(file, bigEndian, tab, Descs(lengths, offsets), i);
  }

  lemma HasText(file: seq<Byte>, off: nat, text: seq<Byte>)
    requires Has(file, off, text + [0])
    ensures off + |text| + 1 <= |file| && file[off..][..|text| + 1] == text + [0]
    ensures file[off..off + |text| + 1] == text + [0]
  {
    assert file[off..][..|text| + 1] == file[off..off + |text| + 1];
  }

  lemma {:induction false} CStrOf(s: CString, tail: seq<Byte>)
    requires 0 !in s
    ensures CStr(s + [0] + tail) == s && Terminated(s + [0] + tail)
  {
    var mem := s + [0] + tail;
    if s != [] {
      CStrOf(s[1..], tail);
      assert mem[1..] == s[1..] + [0] + tail;
      assert [s[0]] + s[1..] == s;
    }
  }

  /** The numbers stored from `off` on. */
  ghost predicate Reads(file: seq<Byte>, bigEndian: bool, off: nat, vs: seq<nat>) {
    && off + 4 * |vs| <= |file|
    && forall k {:trigger vs[k]} :: 0 <= k < |vs| ==> Stored(file, bigEndian, off + 4 * k) == vs[k]
  }

  lemma WordsFound(file: seq<Byte>, bigEndian: bool, off: nat, vs: seq<nat>)
    requires Has(file, off, WordsBytes(bigEndian, vs)) && forall k :: 0 <= k < |vs| ==> vs[k] < TWO_TO_32
    ensures Reads(file, bigEndian, off, vs) == true
  {
    forall k {:trigger vs[k]} | 0 <= k < |vs| ensures Stored(file, bigEndian, off + 4 * k) == vs[k] {
      HasWord(file, bigEndian, off, vs, k);
    }
  }

  // ----- system dependent strings

  function SegsOf(s: Sys): (segs: seq<Seg>)
    ensures |segs| == |s.parts| + 1
    decreases |s.parts|
  {
    if s.parts == [] then [Seg(|s.end|, SEGMENTS_END)]
    else [Seg(|s.parts[0].text|, s.parts[0].ref)] + SegsOf(Sys(s.parts[1..], s.end))
  }

  /** The numbers fit in words, and no reference is the end marker. */
  predicate Fits(s: Sys, refs: nat) {
    && refs < SEGMENTS_END && |s.end| < TWO_TO_32
    && forall i :: 0 <= i < |s.parts| ==> s.parts[i].ref < refs && |s.parts[i].text| < TWO_TO_32
  }

  lemma FitsRest(s: Sys, refs: nat)
    requires Fits(s, refs) && s.parts != []
    ensures Fits(Sys(s.parts[1..], s.end), refs)
  {
    assert forall i :: 0 <= i < |s.parts[1..]| ==> s.parts[1..][i] == s.parts[i + 1];
  }

  lemma {:induction false} SegsFound(file: seq<Byte>, bigEndian: bool, off: nat, s: Sys, refs: nat)
    requires Has(file, off, WordsBytes(bigEndian, s.Words())) && Fits(s, refs)
    ensures SegsAt(ImageOf(file, bigEndian), off) == SegsOf(s)
    decreases |s.parts|
  {
    var img, ws := ImageOf(file, bigEndian), s.Words();
    HasWord(file, bigEndian, off, ws, 0);
    HasWord(file, bigEndian, off, ws, 1);
    assert img.At(off) == ws[0] && img.At(off + 4) == ws[1];
    if s.parts != [] {
      var rest := Sys(s.parts[1..], s.end);
      FitsRest(s, refs);
      assert ws[1..][1..] == rest.Words();
      HasParts(file, off, WordBytes(bigEndian, ws[0]), WordsBytes(bigEndian, ws[1..]));
      HasParts(file, off + 4, WordBytes(bigEndian, ws[1]), WordsBytes(bigEndian, ws[1..][1..]));
      SegsFound(file, bigEndian, off + 8, rest, refs);
    }
  }

  lemma {:induction false} SegsProper(s: Sys, refs: nat)
    requires Fits(s, refs)
    ensures Closed(SegsOf(s)) && StaticSize(SegsOf(s)) == |s.Static()|
    decreases |s.parts|
  {
    if s.parts != [] {
      FitsRest(s, refs);
      SegsProper(Sys(s.parts[1..], s.end), refs);
    }
  }

  /** The verdict and the text of a string that is written. */
  lemma {:induction false} SegsMean(s: Sys, refs: nat, vals: Values, statics: seq<Byte>)
    requires Fits(s, refs) && |vals| == refs && s.Static() <= statics
    ensures Judge(SegsOf(s), vals) == if s.Available(vals) then Kept else Dropped
    ensures s.Available(vals) ==> Expand(SegsOf(s), vals, statics) == s.Meaning(vals)
    decreases |s.parts|
  {
    if s.parts != [] {
      var rest, n := Sys(s.parts[1..], s.end), |s.parts[0].text|;
      FitsRest(s, refs);
      assert statics[..n] == s.Static()[..n] == s.parts[0].text;
      assert statics[n..][..|rest.Static()|] == statics[..|s.Static()|][n..] == rest.Static();
      SegsMean(rest, refs, vals, statics[n..]);
    }
  }

  // ----- the static part

  lemma PlacesFit(file: seq<Byte>, bigEndian: bool, c: Catalogue, p: Places)
    requires Written(file, bigEndian, c, p)
    ensures |c.entries| < TWO_TO_32 && |c.names| < TWO_TO_32 && |c.sys| < TWO_TO_32 && |c.table| < TWO_TO_32
    ensures p.originalTable < TWO_TO_32 && p.translationTable < TWO_TO_32 && p.hashTable < TWO_TO_32
    ensures p.segmentTable < TWO_TO_32 && p.sysOriginalTable < TWO_TO_32 && p.sysTranslationTable < TWO_TO_32
  {
    TablesFit(file, bigEndian, p.originalTable, Originals(c.entries), p.originals, [0]);
    TablesFit(file, bigEndian, p.segmentTable, Named(c.names), p.names, []);
  }

  lemma HeaderFits(c: Catalogue, p: Places, k: nat)
    requires |c.entries| < TWO_TO_32 && |c.names| < TWO_TO_32 && |c.sys| < TWO_TO_32 && |c.table| < TWO_TO_32
    requires p.originalTable < TWO_TO_32 && p.translationTable < TWO_TO_32 && p.hashTable < TWO_TO_32
    requires p.segmentTable < TWO_TO_32 && p.sysOriginalTable < TWO_TO_32 && p.sysTranslationTable < TWO_TO_32
    requires c.revision < TWO_TO_32 && k < 12
    ensures Header(c, p)[k] < TWO_TO_32
  {}

  lemma TwelveWords(file: seq<Byte>, bigEndian: bool, hs: seq<nat>)
    requires Reads(file, bigEndian, 0, hs) && |hs| == 12
    ensures |file| >= HEADER_SIZE
    ensures
      var img := ImageOf(file, bigEndian);
      && img.At(0) == hs[0] && img.At(4) == hs[1] && img.At(8) == hs[2] && img.At(12) == hs[3] && img.At(16) == hs[4]
      && img.At(20) == hs[5] && img.At(24) == hs[6] && img.At(28) == hs[7] && img.At(32) == hs[8]
      && img.At(36) == hs[9] && img.At(40) == hs[10] && img.At(44) == hs[11]
  {}

  /** The loader finds the header. */
  lemma HeaderFound(file: seq<Byte>, bigEndian: bool, c: Catalogue, p: Places)
    requires Written(file, bigEndian, c, p) && c.revision < TWO_TO_32
    ensures |file| >= HEADER_SIZE
    ensures
      var img := ImageOf(file, bigEndian);
      && img.At(0) == 0x950412de && img.At(4) == c.revision && img.At(20) == |c.table|
      && img.At(28) == |c.names| && img.At(32) == p.segmentTable && img.At(36) == |c.sys|
      && img.At(40) == p.sysOriginalTable && img.At(44) == p.sysTranslationTable
      && Basic(img) == Domain(
          Strings(img, |c.entries|, p.originalTable, p.translationTable, [], []), |c.table|,
          if |c.table| > 2 then Some(InFile(p.hashTable)) else None)
  {
    PlacesFit(file, bigEndian, c, p);
    var hs := Header(c, p);
    forall k | 0 <= k < |hs| ensures hs[k] < TWO_TO_32 {
      HeaderFits(c, p, k);
    }
    WordsFound(file, bigEndian, 0, hs);
    TwelveWords(file, bigEndian, hs);
  }

  /** The two tables of the static strings, found in an image. */
  ghost predicate StringsFound(st: Strings, es: seq<Entry>) {
    st.nstrings == |es| && st.InPlace() && forall e :: 0 <= e < |es| ==> Stands(st, e, es[e])
  }

  ghost predicate Stands(st: Strings, e: nat, en: Entry)
    requires st.InPlace()
  {
    e < st.Count() && st.LengthCovers(e) && st.Keys()[e] == en.msgid && st.Translation(e) == en.translation + [0]
  }

  lemma Begun(mem: seq<Byte>, msgid: CString, tail: seq<Byte>, whole: seq<Byte>)
    requires 0 !in msgid && whole == msgid + [0] + tail && |mem| >= |whole| && mem[..|whole|] == whole
    ensures CStr(mem) == msgid && Terminated(mem)
  {
    CStrOf(msgid, tail);
    var n := |msgid| + 1;
    assert mem[..n] == mem[..|whole|][..n] == whole[..n];
    CStrPrefix(whole, mem);
  }

  lemma OriginalText(en: Entry, tail: seq<Byte>)
    requires tail == match en.plural case None => [] case Some(text) => text + [0]
    ensures en.Original() + [0] == en.msgid + [0] + tail
  {
    match en.plural
    case None => assert en.Original() == en.msgid;
    case Some(text) => assert (en.msgid + ([0] + text)) + [0] == en.msgid + [0] + (text + [0]);
  }

  /** A msgid begins its original. */
  lemma KeyOf(mem: seq<Byte>, en: Entry, whole: seq<Byte>)
    requires 0 !in en.msgid && whole == en.Original() + [0] && |mem| >= |whole| && mem[..|whole|] == whole
    ensures CStr(mem) == en.msgid && Terminated(mem) && |en.msgid| < |whole|
  {
    var tail := match en.plural case None => [] case Some(text) => text + [0];
    OriginalText(en, tail);
    Begun(mem, en.msgid, tail, whole);
  }

  /** The strings of an entry are in place. */
  ghost predicate EntryInPlace(st: Strings, e: nat, en: Entry) {
    var img := st.img;
    && OffsetAt(img, st.origTab, e) <= |img.bytes| && LengthAt(img, st.origTab, e) >= |en.msgid|
    && CStr(From(img, st.origTab, e)) == en.msgid && Terminated(From(img, st.origTab, e))
    && OffsetAt(img, st.transTab, e) + LengthAt(img, st.transTab, e) + 1 <= |img.bytes|
    && WithNul(img, st.transTab, e) == en.translation + [0]
  }

  lemma OriginalFound(file: seq<Byte>, bigEndian: bool, es: seq<Entry>, tab: nat, offsets: seq<nat>, e: nat)
    requires TableOfTexts(file, bigEndian, tab, Originals(es), offsets, [0]) && |file| < TWO_TO_32
    requires e < |es| && 0 !in es[e].msgid
    ensures
      var img := ImageOf(file, bigEndian);
      && OffsetAt(img, tab, e) <= |file| && LengthAt(img, tab, e) >= |es[e].msgid|
      && CStr(From(img, tab, e)) == es[e].msgid && Terminated(From(img, tab, e))
  {
    TextAt(file, bigEndian, tab, Originals(es), offsets, [0], e);
    HasText(file, offsets[e], es[e].Original());
    KeyOf(file[offsets[e]..], es[e], es[e].Original() + [0]);
  }

  lemma TranslationFound(file: seq<Byte>, bigEndian: bool, es: seq<Entry>, tab: nat, offsets: seq<nat>, e: nat)
    requires TableOfTexts(file, bigEndian, tab, Translations(es), offsets, [0]) && |file| < TWO_TO_32 && e < |es|
    ensures
      var img := ImageOf(file, bigEndian);
      && OffsetAt(img, tab, e) + LengthAt(img, tab, e) + 1 <= |file|
      && WithNul(img, tab, e) == es[e].translation + [0]
  {
    TextAt(file, bigEndian, tab, Translations(es), offsets, [0], e);
    HasText(file, offsets[e], es[e].translation);
  }

  lemma EntryFound(file: seq<Byte>, bigEndian: bool, st: Strings, c: Catalogue, p: Places, e: nat)
    requires Written(file, bigEndian, c, p) && e < |c.entries| && 0 !in c.entries[e].msgid
    requires st == Strings(ImageOf(file, bigEndian), |c.entries|, p.originalTable, p.translationTable, [], [])
    ensures EntryInPlace(st, e, c.entries[e]) == true
  {
    OriginalFound(file, bigEndian, c.entries, p.originalTable, p.originals, e);
    TranslationFound(file, bigEndian, c.entries, p.translationTable, p.translations, e);
  }

  lemma StringsInPlace(st: Strings, es: seq<Entry>)
    requires st.nstrings == |es| && st.origSysdep == st.transSysdep == []
    requires st.origTab + 8 * |es| <= |st.img.bytes| && st.transTab + 8 * |es| <= |st.img.bytes|
    requires forall e {:trigger es[e]} :: 0 <= e < |es| ==> EntryInPlace(st, e, es[e]) == true
    ensures StringsFound(st, es)
  {
    forall e | 0 <= e < |es|
      ensures OffsetAt(st.img, st.origTab, e) <= |st.img.bytes|
      ensures OffsetAt(st.img, st.transTab, e) + LengthAt(st.img, st.transTab, e) + 1 <= |st.img.bytes|
    {
      assert EntryInPlace(st, e, es[e]);
    }
    assert st.InPlace();
    forall e | 0 <= e < |es| ensures Stands(st, e, es[e]) {
      assert EntryInPlace(st, e, es[e]);
      assert st.KeyText(e) == From(st.img, st.origTab, e) && st.Translation(e) == WithNul(st.img, st.transTab, e);
      assert st.Keys()[e] == CStr(st.KeyText(e));
    }
  }

  lemma EntriesFound(file: seq<Byte>, bigEndian: bool, st: Strings, c: Catalogue, p: Places)
    requires Written(file, bigEndian, c, p) == true && forall e :: 0 <= e < |c.entries| ==> 0 !in c.entries[e].msgid
    requires st == Strings(ImageOf(file, bigEndian), |c.entries|, p.originalTable, p.translationTable, [], [])
    ensures StringsFound(st, c.entries) == true
  {
    TablesFit(file, bigEndian, p.originalTable, Originals(c.entries), p.originals, [0]);
    TablesFit(file, bigEndian, p.translationTable, Translations(c.entries), p.translations, [0]);
    forall e {:trigger c.entries[e]} | 0 <= e < |c.entries| ensures EntryInPlace(st, e, c.entries[e]) == true {
      EntryFound(file, bigEndian, st, c, p, e);
    }
    StringsInPlace(st, c.entries);
  }

  lemma TablesFit(
    file: seq<Byte>, bigEndian: bool, tab: nat, texts: seq<seq<Byte>>, offsets: seq<nat>, behind: seq<Byte>)
    requires TableOfTexts(file, bigEndian, tab, texts, offsets, behind) && |file| < TWO_TO_32
    ensures tab + 8 * |texts| <= |file|
  {
    if texts != [] {
      TextAt(file, bigEndian, tab, texts, offsets, behind, 0);
    }
  }

  lemma SlotsFound(d: Domain, file: seq<Byte>, bigEndian: bool, off: nat, table: seq<nat>)
    requires Reads(file, bigEndian, off, table) && d.strings.img == ImageOf(file, bigEndian)
    requires d.hashSize == |table| > 2 && d.hashTab == Some(InFile(off))
    ensures d.TableInPlace() && d.Slots() == table
  {
    assert d.TableInPlace();
    forall k | 0 <= k < |table| ensures d.Slots()[k] == table[k] {
      assert d.Slot(k) == Stored(file, bigEndian, off + 4 * k);
    }
  }
}
