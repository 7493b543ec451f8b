/** `_nl_find_msg` (intl/dcigettext.c:708-829): the search of a loaded catalogue, by its hash table or
    by bisection. */
module CatalogLookup {
  import opened CatalogHash
  import opened CatalogImage
  import opened CatalogProbe
  import opened CatalogTable
  import opened Options

  /** `strcmp`: negative, zero or positive, by the first difference of unsigned bytes. */
  function Compare(a: CString, b: CString): (c: int)
    ensures c == 0 <==> a == b
  {
    if a == [] then (if b == [] then 0 else -1)
    else if b == [] then 1
    else if a[0] != b[0] then (if a[0] < b[0] then -1 else 1)
    else
      assert a == [a[0]] + a[1..] && b == [b[0]] + b[1..];
      Compare(a[1..], b[1..])
  }

  lemma {:induction false} CompareTransitive(a: CString, b: CString, c: CString)
    requires Compare(a, b) < 0 && Compare(b, c) < 0
    ensures Compare(a, c) < 0
  {
    if a != [] && b != [] && c != [] && a[0] == b[0] == c[0] {
      CompareTransitive(a[1..], b[1..], c[1..]);
    }
  }

  lemma {:induction false} CompareReversed(a: CString, b: CString)
    ensures Compare(a, b) < 0 <==> Compare(b, a) > 0
  {
    if a != [] && b != [] && a[0] == b[0] {
      CompareReversed(a[1..], b[1..]);
    }
  }

  function Hashes(keys: seq<CString>): (hs: seq<nat>)
    ensures |hs| == |keys|
  {
    seq(|keys|, e requires 0 <= e < |keys| => Hash(keys[e]))
  }

  ghost predicate StrictlySorted(keys: seq<CString>) {
    forall i, j :: 0 <= i < j < |keys| ==> Compare(keys[i], keys[j]) < 0
  }

  /** `struct sysdep_string_desc`; `text` is the memory from the pointer on. */
  datatype Desc = Desc(length: nat, text: seq<Byte>)

  /** The memory from the `e`-th string of a table on. */
  function From(img: Image, tab: nat, e: nat): seq<Byte>
    requires OffsetAt(img, tab, e) <= |img.bytes|
  {
    img.bytes[OffsetAt(img, tab, e)..]
  }

  /** The string itself, with the NUL behind it. */
  function WithNul(img: Image, tab: nat, e: nat): seq<Byte>
    requires OffsetAt(img, tab, e) + LengthAt(img, tab, e) + 1 <= |img.bytes|
  {
    img.bytes[OffsetAt(img, tab, e)..OffsetAt(img, tab, e) + LengthAt(img, tab, e) + 1]
  }

  /** The strings of a `struct loaded_domain`; the tables of the file are places in its image. */
  datatype Strings = Strings(
    img: Image, nstrings: nat, origTab: nat, transTab: nat, origSysdep: seq<Desc>, transSysdep: seq<Desc>)
  {
    function Count(): nat {
      nstrings + |origSysdep|
    }

    /** The tables, and the strings they point to, are where the file has memory for them. */
    ghost predicate InPlace() {
      && origTab + 8 * nstrings <= |img.bytes| && transTab + 8 * nstrings <= |img.bytes|
      && |transSysdep| == |origSysdep|
      && (forall e :: 0 <= e < nstrings ==> OffsetAt(img, origTab, e) <= |img.bytes|)
      && (forall e :: 0 <= e < nstrings ==>
          OffsetAt(img, transTab, e) + LengthAt(img, transTab, e) + 1 <= |img.bytes|)
      && forall e :: 0 <= e < |origSysdep| ==> transSysdep[e].length <= |transSysdep[e].text|
    }

    function KeyText(e: nat): seq<Byte>
      requires InPlace() && e < Count()
    {
      if e < nstrings then From(img, origTab, e) else origSysdep[e - nstrings].text
    }

    function Keys(): (ks: seq<CString>)
      requires InPlace()
      ensures |ks| == Count()
    {
      seq(Count(), e requires 0 <= e < Count() => CStr(KeyText(e)))
    }

    /** The length given for a key covers it. (It may be more: an entry with a plural form goes on
        behind its first NUL.) */
    ghost predicate LengthCovers(e: nat)
      requires InPlace() && e < Count()
    {
      && Terminated(KeyText(e))
      && if e < nstrings then LengthAt(img, origTab, e) >= |CStr(KeyText(e))|
         else origSysdep[e - nstrings].length > |CStr(KeyText(e))|
    }

    ghost predicate Sound() {
      InPlace() && forall e :: 0 <= e < Count() ==> LengthCovers(e)
    }

    /** The translation with index `e`, with its last NUL. */
    function Translation(e: nat): seq<Byte>
      requires InPlace() && e < Count()
    {
      if e < nstrings then WithNul(img, transTab, e)
      else transSysdep[e - nstrings].text[..transSysdep[e - nstrings].length]
    }

    method CompareAt(act: nat, msgid: CString) returns (cmpVal: int)
      requires InPlace() && act < nstrings
      ensures cmpVal == Compare(msgid, Keys()[act])
    {
      assert Keys()[act] == CStr(KeyText(act));
      var offset := OffsetAt(img, origTab, act);
      cmpVal := Compare(msgid, CStr(img.bytes[offset..]));
    }

    /** The comparison made at a slot of the hash table; for a sound catalogue, one of keys. */
    method Matches(nstr: nat, msgid: CString) returns (hit: bool)
      requires Sound() && nstr < Count()
      ensures hit <==> Keys()[nstr] == msgid
    {
      assert LengthCovers(nstr);
      if nstr < nstrings {
        hit := LengthAt(img, origTab, nstr) >= |msgid| && Compare(msgid, CStr(KeyText(nstr))) == 0;
      } else {
        hit := origSysdep[nstr - nstrings].length > |msgid| && Compare(msgid, CStr(KeyText(nstr))) == 0;
      }
    }
  }

  /** The file's own table, or one built in memory, in the machine's byte order. */
  datatype HashTab = InFile(off: nat) | InMemory(words: seq<nat>)

  /** `struct loaded_domain`. */
  datatype Domain = Domain(strings: Strings, hashSize: nat, hashTab: Option<HashTab>) {
    ghost predicate TableInPlace() {
      hashTab.Some? ==>
        && hashSize > 2
        && match hashTab.value
           case InFile(off) => off + 4 * hashSize <= |strings.img.bytes|
           case InMemory(words) => |words| == hashSize
    }

    function Slot(idx: nat): nat
      requires TableInPlace() && hashTab.Some? && idx < hashSize
    {
      match hashTab.value
      case InFile(off) => strings.img.At(off + 4 * idx)
      case InMemory(words) => words[idx]
    }

    function Slots(): (t: seq<nat>)
      requires TableInPlace() && hashTab.Some?
      ensures |t| == hashSize
    {
      seq(hashSize, k requires 0 <= k < hashSize => Slot(k))
    }

    method ReadSlot(idx: nat) returns (nstr: nat)
      requires TableInPlace() && hashTab.Some? && idx < hashSize
      ensures nstr == Slots()[idx]
    {
      nstr := Slot(idx);
    }

    /** What the searches take for granted about the file. */
    ghost predicate Sound() {
      && strings.Sound() && TableInPlace()
      && if hashTab.Some? then Prime(hashSize) && TableFor(Slots(), Hashes(strings.Keys())) && Free(Slots()) > 0
         else strings.origSysdep == [] && StrictlySorted(strings.Keys())
    }
  }

  /** The slots and keys of a domain. */
  ghost predicate ReadFrom(d: Domain, t: seq<nat>, keys: seq<CString>) {
    d.TableInPlace() && d.hashTab.Some? && t == d.Slots() && d.strings.Sound() && keys == d.strings.Keys()
  }

  method SlotAt(d: Domain, idx: nat, ghost t: seq<nat>, ghost keys: seq<CString>) returns (nstr: nat)
    requires ReadFrom(d, t, keys) && idx < |t|
    ensures nstr == t[idx]
  {
    nstr := d.ReadSlot(idx);
  }

  method KeyMatches(d: Domain, nstr: nat, msgid: CString, ghost t: seq<nat>, ghost keys: seq<CString>)
    returns (hit: bool)
    requires ReadFrom(d, t, keys) && nstr < |keys|
    ensures hit <==> keys[nstr] == msgid
  {
    hit := d.strings.Matches(nstr, msgid);
  }

  /** The probing loop, which meets an empty slot in the end. */
  method ProbeFrom(
    d: Domain, start: nat, incr: nat, msgid: CString, ghost hashVal: nat, ghost t: seq<nat>, ghost keys: seq<CString>,
    ghost hs: seq<nat>)
    returns (act: Option<nat>)
    requires ReadFrom(d, t, keys) == true && |t| == d.hashSize > 2 && !Occupied(t, hashVal, |t|)
    requires TableFor(t, hs) && HashedAs(keys, hs, msgid, hashVal)
    requires start == hashVal % |t| && incr == IncrOf(|t|, hashVal)
    ensures act == HashSearch(t, keys, msgid, hashVal, 0) && Answers(keys, msgid, act)
  {
    var idx := start;
    ghost var k: nat := 0;
    ghost var whole := HashSearch(t, keys, msgid, hashVal, k);
    while true
      invariant 0 <= idx == ProbeFor(|t|, hashVal, k) && k < |t| && Missed(t, keys, msgid, hashVal, k)
      invariant whole == HashSearch(t, keys, msgid, hashVal, k)
      decreases |t| - k
    {
      var nstr := SlotAt(d, idx, t, keys);
      if nstr == 0 {
        NotInserted(t, keys, hs, msgid, hashVal, k);
        return None;
      }
      nstr := nstr - 1;
      var hit := KeyMatches(d, nstr, msgid, t, keys);
      if hit {
        return Some(nstr);
      }
      MissedAgain(t, keys, msgid, hashVal, k);
      if idx >= d.hashSize - incr {
        idx := idx - (d.hashSize - incr);
      } else {
        idx := idx + incr;
      }
      k := k + 1;
    }
  }

  /** The search with the hash table, for a string with the hash value `hashVal`. */
  method SearchTable(
    d: Domain, hashVal: nat, msgid: CString, ghost t: seq<nat>, ghost keys: seq<CString>, ghost hs: seq<nat>)
    returns (act: Option<nat>)
    requires d.TableInPlace() && d.hashTab.Some? && t == d.Slots() && Prime(|t|) && Free(t) > 0
    requires d.strings.Sound() && keys == d.strings.Keys() && TableFor(t, hs) && HashedAs(keys, hs, msgid, hashVal)
    ensures act == HashSearch(t, keys, msgid, hashVal, 0) && Answers(keys, msgid, act)
  {
    ProbingEnds(t, hashVal);
    var idx := hashVal % d.hashSize;
    var incr := 1 + hashVal % (d.hashSize - 2);
    act := ProbeFrom(d, idx, incr, msgid, hashVal, t, keys, hs);
  }

  method FindByHash(d: Domain, w: nat, msgid: CString) returns (act: Option<nat>)
    requires d.Sound() && d.hashTab.Some? && w >= 32
    ensures act == HashSearch(d.Slots(), d.strings.Keys(), msgid, Hash(msgid), 0)
    ensures Answers(d.strings.Keys(), msgid, act)
  {
    var hashVal := HashString(w, msgid);
    ghost var keys := d.strings.Keys();
    act := SearchTable(d, hashVal, msgid, d.Slots(), keys, Hashes(keys));
  }

  lemma AllBelow(keys: seq<CString>, act: nat, msgid: CString)
    requires StrictlySorted(keys) && act < |keys| && Compare(msgid, keys[act]) > 0
    ensures forall e :: 0 <= e <= act ==> Compare(keys[e], msgid) < 0
  {
    CompareReversed(keys[act], msgid);
    forall e | 0 <= e < act ensures Compare(keys[e], msgid) < 0 {
      CompareTransitive(keys[e], keys[act], msgid);
    }
  }

  lemma AllAbove(keys: seq<CString>, act: nat, msgid: CString)
    requires StrictlySorted(keys) && act < |keys| && Compare(msgid, keys[act]) < 0
    ensures forall e :: act <= e < |keys| ==> Compare(msgid, keys[e]) < 0
  {
    forall e | act < e < |keys| ensures Compare(msgid, keys[e]) < 0 {
      CompareTransitive(msgid, keys[act], keys[e]);
    }
  }

  method FindByBisection(st: Strings, msgid: CString) returns (r: Option<nat>)
    requires st.InPlace() && st.origSysdep == [] && StrictlySorted(st.Keys())
    ensures Answers(st.Keys(), msgid, r)
  {
    ghost var keys := st.Keys();
    var bottom: nat, top: nat := 0, st.nstrings;
    while bottom < top
      invariant bottom <= top <= |keys|
      invariant forall e :: 0 <= e < bottom ==> Compare(keys[e], msgid) < 0
      invariant forall e :: top <= e < |keys| ==> Compare(msgid, keys[e]) < 0
    {
      var act := (bottom + top) / 2;
      var cmpVal := st.CompareAt(act, msgid);
      if cmpVal < 0 {
        AllAbove(keys, act, msgid);
        top := act;
      } else if cmpVal > 0 {
        AllBelow(keys, act, msgid);
        bottom := act + 1;
      } else {
        return Some(act);
      }
    }
    return None;
  }

  /** The index of a message and its translation, if the catalogue has it. */
  method FindMsg(d: Domain, w: nat, msgid: CString) returns (act: Option<nat>, result: seq<Byte>)
    requires d.Sound() && w >= 32
    ensures Answers(d.strings.Keys(), msgid, act)
    ensures d.hashTab.Some? ==> act == HashSearch(d.Slots(), d.strings.Keys(), msgid, Hash(msgid), 0)
    ensures result == if act.Some? then d.strings.Translation(act.value) else []
  {
    if d.hashTab.Some? {
      act := FindByHash(d, w, msgid);
    } else {
      act := FindByBisection(d.strings, msgid);
    }
    result := if act.Some? then d.strings.Translation(act.value) else [];
  }

  /** With distinct keys there is only one answer, so both ways of searching give the same. */
  lemma AnswersAgree(keys: seq<CString>, s: CString, r: Option<nat>, q: Option<nat>)
    requires forall i, j :: 0 <= i < j < |keys| ==> keys[i] != keys[j]
    requires Answers(keys, s, r) && Answers(keys, s, q)
    ensures r == q
  {}

  /** A sorted catalogue is searched alike with its hash table and without it. */
  method FindBothWays(d: Domain, w: nat, msgid: CString) returns (byHash: Option<nat>, byBisection: Option<nat>)
    requires d.Sound() && d.hashTab.Some? && d.strings.origSysdep == [] && StrictlySorted(d.strings.Keys()) && w >= 32
    ensures byHash == byBisection && Answers(d.strings.Keys(), msgid, byHash)
  {
    byHash := FindByHash(d, w, msgid);
    byBisection := FindByBisection(d.strings, msgid);
    AnswersAgree(d.strings.Keys(), msgid, byHash, byBisection);
  }
}
