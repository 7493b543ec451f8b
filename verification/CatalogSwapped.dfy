/** A catalogue stored with the bytes of all its words in the opposite order is the same catalogue
    (the `must_swap` flags of intl/gettextP.h and intl/loadmsgcat.c:966-990). */
module CatalogSwapped {
  import opened CatalogHash
  import opened CatalogImage
  import opened CatalogLoad
  import opened CatalogLookup
  import opened CatalogTable
  import opened Options

  /** `words` holds the places of all the words of the header and of a table of `n` entries. */
  ghost predicate CoversHeader(words: set<nat>) {
    forall k :: 0 <= k < 12 ==> WordAt(0, k) in words
  }

  ghost predicate CoversTable(words: set<nat>, tab: nat, n: nat) {
    forall i :: 0 <= i < n ==> EntryAt(tab, i) in words && EntryAt(tab, i) + 4 in words
  }

  /** The place of an entry of a table of `struct string_desc`. */
  function EntryAt(tab: nat, i: nat): nat {
    tab + 8 * i
  }

  /** The place of an entry of a table of words. */
  function WordAt(tab: nat, i: nat): nat {
    tab + 4 * i
  }

  ghost predicate CoversHash(words: set<nat>, tab: nat, n: nat) {
    forall i :: 0 <= i < n ==> WordAt(tab, i) in words
  }

  /** The bytes from `lo` up to `hi` belong to no word. */
  ghost predicate Free(words: set<nat>, lo: nat, hi: nat) {
    forall k :: lo <= k < hi ==> Outside(k, words)
  }

  /** `words` are the words of the catalogue in `img`, and its strings lie outside them. */
  ghost predicate WordsOf(img: Image, words: set<nat>)
    requires |img.bytes| >= HEADER_SIZE && Basic(img).strings.InPlace()
  {
    var d := Basic(img);
    var st := d.strings;
    && CoversHeader(words)
    && CoversTable(words, st.origTab, st.nstrings) && CoversTable(words, st.transTab, st.nstrings)
    && (d.hashTab.Some? ==> CoversHash(words, d.hashTab.value.off, d.hashSize))
    && (forall e :: 0 <= e < st.nstrings ==>
        Free(words, OffsetAt(img, st.origTab, e), OffsetAt(img, st.origTab, e) + |CStr(From(img, st.origTab, e))| + 1))
    && forall e :: 0 <= e < st.nstrings ==>
        Free(words, OffsetAt(img, st.transTab, e), OffsetAt(img, st.transTab, e) + LengthAt(img, st.transTab, e) + 1)
  }

  /** Two images whose words have the same values, and whose other bytes are the same. */
  ghost predicate SameWords(a: Image, b: Image, words: set<nat>) {
    && Swapped(a.bytes, b.bytes, words)
    && forall o {:trigger o in words} :: o in words ==> a.at(o) == b.at(o)
  }

  lemma SameEntry(a: Image, b: Image, words: set<nat>, tab: nat, n: nat, i: nat)
    requires SameWords(a, b, words) && CoversTable(words, tab, n) && i < n
    ensures LengthAt(a, tab, i) == LengthAt(b, tab, i) && OffsetAt(a, tab, i) == OffsetAt(b, tab, i)
  {
    assert EntryAt(tab, i) in words;
  }

  lemma SameHeader(a: Image, b: Image, words: set<nat>, k: nat)
    requires SameWords(a, b, words) && CoversHeader(words) && k < 12
    ensures a.at(4 * k) == b.at(4 * k)
  {
    assert WordAt(0, k) in words;
  }

  lemma SameBasic(a: Image, b: Image, words: set<nat>)
    requires SameWords(a, b, words) && CoversHeader(words) && |a.bytes| >= HEADER_SIZE
    ensures |b.bytes| == |a.bytes|
    ensures Basic(b) == Basic(a).(strings := Basic(a).strings.(img := b))
  {
    forall k | 0 <= k < 12 ensures a.at(4 * k) == b.at(4 * k) {
      SameHeader(a, b, words, k);
    }
    assert a.at(4 * 2) == b.at(4 * 2) && a.at(4 * 3) == b.at(4 * 3) && a.at(4 * 4) == b.at(4 * 4);
    assert a.at(4 * 5) == b.at(4 * 5) && a.at(4 * 6) == b.at(4 * 6);
  }

  lemma SameBytes(a: seq<Byte>, b: seq<Byte>, words: set<nat>, lo: nat, hi: nat)
    requires Swapped(a, b, words) && Free(words, lo, hi) && lo <= hi <= |a|
    ensures |b| == |a| && a[lo..hi] == b[lo..hi]
  {
    assert forall k :: lo <= k < hi ==> Outside(k, words) && a[k] == b[k];
  }

  lemma SameKey(a: Image, b: Image, words: set<nat>, st: Strings, st': Strings, e: nat)
    requires st.Sound() && st.img == a && st' == st.(img := b) && st.origSysdep == [] && e < st.nstrings
    requires SameWords(a, b, words) && CoversTable(words, st.origTab, st.nstrings)
    requires Free(words, OffsetAt(a, st.origTab, e), OffsetAt(a, st.origTab, e) + |CStr(From(a, st.origTab, e))| + 1)
    ensures OffsetAt(b, st.origTab, e) <= |b.bytes|
    ensures CStr(From(b, st.origTab, e)) == CStr(From(a, st.origTab, e)) && Terminated(From(b, st.origTab, e))
  {
    SameEntry(a, b, words, st.origTab, st.nstrings, e);
    assert st.LengthCovers(e);
    SwappedString(a.bytes, b.bytes, words, OffsetAt(a, st.origTab, e));
  }

  lemma SameTranslation(a: Image, b: Image, words: set<nat>, tab: nat, n: nat, e: nat)
    requires SameWords(a, b, words) && CoversTable(words, tab, n) && e < n
    requires OffsetAt(a, tab, e) + LengthAt(a, tab, e) + 1 <= |a.bytes|
    requires Free(words, OffsetAt(a, tab, e), OffsetAt(a, tab, e) + LengthAt(a, tab, e) + 1)
    ensures OffsetAt(b, tab, e) + LengthAt(b, tab, e) + 1 <= |b.bytes| && WithNul(b, tab, e) == WithNul(a, tab, e)
  {
    SameEntry(a, b, words, tab, n, e);
    SameBytes(a.bytes, b.bytes, words, OffsetAt(a, tab, e), OffsetAt(a, tab, e) + LengthAt(a, tab, e) + 1);
  }

  lemma SameStrings(a: Image, b: Image, words: set<nat>)
    requires |a.bytes| >= HEADER_SIZE && Basic(a).strings.Sound() && SameWords(a, b, words) && WordsOf(a, words)
    ensures |b.bytes| == |a.bytes| && Basic(b).strings.Sound()
    ensures Basic(b).strings.Keys() == Basic(a).strings.Keys()
    ensures forall e :: 0 <= e < Basic(a).strings.Count() ==>
      e < Basic(b).strings.Count() && Basic(b).strings.Translation(e) == Basic(a).strings.Translation(e)
  {
    SameBasic(a, b, words);
    var st, st' := Basic(a).strings, Basic(b).strings;
    forall e | 0 <= e < st.nstrings
      ensures OffsetAt(b, st.origTab, e) <= |b.bytes|
      ensures CStr(From(b, st.origTab, e)) == CStr(From(a, st.origTab, e)) && Terminated(From(b, st.origTab, e))
      ensures LengthAt(b, st.origTab, e) == LengthAt(a, st.origTab, e)
    {
      SameKey(a, b, words, st, st', e);
      SameEntry(a, b, words, st.origTab, st.nstrings, e);
    }
    forall e | 0 <= e < st.nstrings
      ensures OffsetAt(b, st.transTab, e) + LengthAt(b, st.transTab, e) + 1 <= |b.bytes|
      ensures WithNul(b, st.transTab, e) == WithNul(a, st.transTab, e)
    {
      SameTranslation(a, b, words, st.transTab, st.nstrings, e);
    }
    assert st'.InPlace();
    forall e | 0 <= e < st.nstrings ensures st'.LengthCovers(e) && st'.Keys()[e] == st.Keys()[e] {
      assert st.LengthCovers(e);
    }
  }

  lemma SameSlots(d: Domain, d': Domain, words: set<nat>)
    requires d.TableInPlace() && d'.TableInPlace() && d.hashTab.Some? && d.hashTab.value.InFile?
    requires d'.hashSize == d.hashSize && d'.hashTab == d.hashTab
    requires SameWords(d.strings.img, d'.strings.img, words) && CoversHash(words, d.hashTab.value.off, d.hashSize)
    ensures d'.Slots() == d.Slots()
  {
    forall k | 0 <= k < d.hashSize ensures d'.Slot(k) == d.Slot(k) {
      assert WordAt(d.hashTab.value.off, k) in words;
    }
  }

  /** The catalogues are sound alike, with the same keys, translations and slots. */
  ghost predicate Alike(d: Domain, d': Domain) {
    && d.Sound() && d'.Sound() && d'.strings.Keys() == d.strings.Keys()
    && (d.hashTab.Some? <==> d'.hashTab.Some?) && (d.hashTab.Some? ==> d'.Slots() == d.Slots())
    && forall e :: 0 <= e < |d.strings.Keys()| ==> d'.strings.Translation(e) == d.strings.Translation(e)
  }

  lemma SameTable(a: Image, b: Image, words: set<nat>)
    requires |a.bytes| >= HEADER_SIZE && Basic(a).Sound() && SameWords(a, b, words) && WordsOf(a, words)
    ensures |b.bytes| == |a.bytes| && Alike(Basic(a), Basic(b))
  {
    SameBasic(a, b, words);
    SameStrings(a, b, words);
    if Basic(a).hashTab.Some? {
      SameSlots(Basic(a), Basic(b), words);
    }
  }

  /** Looked up in both, a message has the same index and translation. */
  method FindInAlike(d: Domain, d': Domain, w: nat, msgid: CString)
    returns (r: (Option<nat>, seq<Byte>), r': (Option<nat>, seq<Byte>))
    requires w >= 32 && Alike(d, d')
    ensures r == r' && Answers(d.strings.Keys(), msgid, r.0)
  {
    var act, res := FindMsg(d, w, msgid);
    var act', res' := FindMsg(d', w, msgid);
    if d.hashTab.None? {
      SortedDistinct(d.strings.Keys());
      AnswersAgree(d.strings.Keys(), msgid, act, act');
    }
    r, r' := (act, res), (act', res');
  }

  lemma SwappedImages(a: seq<Byte>, b: seq<Byte>, bigEndian: bool, words: set<nat>)
    requires Swapped(a, b, words)
    ensures SameWords(ImageOf(a, bigEndian), ImageOf(b, !bigEndian), words)
  {
    forall o | o in words ensures ImageOf(a, bigEndian).at(o) == ImageOf(b, !bigEndian).at(o) {
      SwappedWord(a, b, bigEndian, words, o);
    }
  }

  /** The same for two files, one with its words in the opposite byte order. */
  method FindInSwapped(host: bool, a: seq<Byte>, b: seq<Byte>, w: nat, msgid: CString, ghost words: set<nat>)
    returns (r: (Option<nat>, seq<Byte>), r': (Option<nat>, seq<Byte>))
    requires w >= 32 && ByteOrder(host, a).Some? && Swapped(a, b, words)
    requires
      var img := ImageOf(a, ByteOrder(host, a).value);
      Basic(img).Sound() && WordsOf(img, words)
    ensures ByteOrder(host, b).Some? && r == r'
  {
    assert WordAt(0, 0) in words;
    OrderSwapped(host, a, b, words);
    var imgA, imgB := ImageOf(a, ByteOrder(host, a).value), ImageOf(b, ByteOrder(host, b).value);
    SwappedImages(a, b, ByteOrder(host, a).value, words);
    SameTable(imgA, imgB, words);
    r, r' := FindInAlike(Basic(imgA), Basic(imgB), w, msgid);
  }

  lemma SortedDistinct(keys: seq<CString>)
    requires StrictlySorted(keys)
    ensures forall i, j :: 0 <= i < j < |keys| ==> keys[i] != keys[j]
  {
    forall i, j | 0 <= i < j < |keys| ensures keys[i] != keys[j] {
      assert Compare(keys[i], keys[j]) < 0;
    }
  }
}
