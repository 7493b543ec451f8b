/** A file for every catalogue: header, tables, hash table, strings, one after the other in the order of intl/gmo.h. */
module CatalogEncode {
  import opened CatalogHash
  import opened CatalogReadBack
  import opened CatalogWritten
  import opened Options

  // ----- pieces one after the other

  function Flat(texts: seq<seq<Byte>>): seq<Byte> {
    if texts == [] then [] else texts[0] + Flat(texts[1..])
  }

  /** Where pieces of these lengths begin. */
  function Starts(base: nat, lengths: seq<nat>): (r: seq<nat>)
    ensures |r| == |lengths|
    decreases |lengths|
  {
    if lengths == [] then [] else [base] + Starts(base + lengths[0], lengths[1..])
  }

  lemma {:induction false} FlatHas(file: seq<Byte>, base: nat, texts: seq<seq<Byte>>, lengths: seq<nat>, i: nat)
    requires Has(file, base, Flat(texts)) && i < |texts| == |lengths|
    requires forall k :: 0 <= k < |texts| ==> |texts[k]| == lengths[k]
    ensures Has(file, Starts(base, lengths)[i], texts[i])
    decreases i
  {
    HasParts(file, base, texts[0], Flat(texts[1..]));
    if i > 0 {
      assert forall k :: 0 <= k < |texts[1..]| ==> |texts[1..][k]| == lengths[1..][k];
      FlatHas(file, base + lengths[0], texts[1..], lengths[1..], i - 1);
    }
  }

  // ----- the blocks of a file

  function WithNuls(texts: seq<seq<Byte>>): (r: seq<seq<Byte>>)
    ensures |r| == |texts|
  {
    seq(|texts|, i requires 0 <= i < |texts| => texts[i] + [0])
  }

  function Statics(ss: seq<Sys>): (r: seq<seq<Byte>>)
    ensures |r| == |ss|
  {
    seq(|ss|, i requires 0 <= i < |ss| => ss[i].Static())
  }

  function Structs(bigEndian: bool, ss: seq<Sys>, statics: seq<nat>): (r: seq<seq<Byte>>)
    requires |statics| == |ss|
    ensures |r| == |ss|
  {
    seq(|ss|, i requires 0 <= i < |ss| => WordsBytes(bigEndian, [statics[i]] + ss[i].Words()))
  }

  function StructLengths(ss: seq<Sys>): (r: seq<nat>)
    ensures |r| == |ss|
  {
    seq(|ss|, i requires 0 <= i < |ss| => 4 + 4 * |ss[i].Words()|)
  }

  function Sum(ns: seq<nat>): nat {
    if ns == [] then 0 else ns[0] + Sum(ns[1..])
  }

  lemma {:induction false} FlatLength(texts: seq<seq<Byte>>, lengths: seq<nat>)
    requires |texts| == |lengths| && forall k :: 0 <= k < |texts| ==> |texts[k]| == lengths[k]
    ensures |Flat(texts)| == Sum(lengths)
  {
    if texts != [] {
      assert forall k :: 0 <= k < |texts[1..]| ==> |texts[1..][k]| == lengths[1..][k];
      FlatLength(texts[1..], lengths[1..]);
    }
  }

  /** How long the blocks are. */
  function BlockLengths(c: Catalogue): seq<nat> {
    [48, 8 * |c.entries|, 8 * |c.entries|, 4 * |c.table|, 8 * |c.names|, 4 * |c.sys|, 4 * |c.sys|,
      Sum(Lengths(WithNuls(Originals(c.entries)))), Sum(Lengths(WithNuls(Translations(c.entries)))),
      Sum(Lengths(Named(c.names))), Sum(StructLengths(Firsts(c.sys))), Sum(StructLengths(Seconds(c.sys))),
      Sum(Lengths(Statics(Firsts(c.sys)))), Sum(Lengths(Statics(Seconds(c.sys))))]
  }

  function PlacesOf(c: Catalogue, at: seq<nat>): Places
    requires |at| == 14
  {
    Places(at[1], at[2], at[3], at[4], at[5], at[6],
      Starts(at[7], Lengths(WithNuls(Originals(c.entries)))), Starts(at[8], Lengths(WithNuls(Translations(c.entries)))),
      Starts(at[9], Lengths(Named(c.names))), Starts(at[10], StructLengths(Firsts(c.sys))),
      Starts(at[11], StructLengths(Seconds(c.sys))), Starts(at[12], Lengths(Statics(Firsts(c.sys)))),
      Starts(at[13], Lengths(Statics(Seconds(c.sys)))))
  }

  function Blocks(bigEndian: bool, c: Catalogue, p: Places): seq<seq<Byte>>
    requires |p.originals| == |p.translations| == |c.entries| && |p.names| == |c.names|
    requires |p.sysOriginals| == |p.sysTranslations| == |p.originalStatics| == |p.translationStatics| == |c.sys|
  {
    [WordsBytes(bigEndian, Header(c, p)), WordsBytes(bigEndian, Descs(Lengths(Originals(c.entries)), p.originals)),
      WordsBytes(bigEndian, Descs(Lengths(Translations(c.entries)), p.translations)), WordsBytes(bigEndian, c.table),
      WordsBytes(bigEndian, Descs(Lengths(Named(c.names)), p.names)), WordsBytes(bigEndian, p.sysOriginals),
      WordsBytes(bigEndian, p.sysTranslations), Flat(WithNuls(Originals(c.entries))),
      Flat(WithNuls(Translations(c.entries))), Flat(Named(c.names)),
      Flat(Structs(bigEndian, Firsts(c.sys), p.originalStatics)),
      Flat(Structs(bigEndian, Seconds(c.sys), p.translationStatics)), Flat(Statics(Firsts(c.sys))),
      Flat(Statics(Seconds(c.sys)))]
  }

  function Layout(c: Catalogue): Places {
    PlacesOf(c, Starts(0, BlockLengths(c)))
  }

  /** The file. */
  function Encode(c: Catalogue, bigEndian: bool): seq<Byte> {
    Flat(Blocks(bigEndian, c, Layout(c)))
  }

  // ----- the file holds the catalogue

  lemma {:induction false} DescsLength(lengths: seq<nat>, offsets: seq<nat>)
    requires |lengths| == |offsets|
    ensures |Descs(lengths, offsets)| == 2 * |lengths|
  {
    if lengths != [] {
      DescsLength(lengths[1..], offsets[1..]);
    }
  }

  lemma TextSizes(bigEndian: bool, c: Catalogue, p: Places)
    requires |p.originalStatics| == |p.translationStatics| == |c.sys|
    ensures |Flat(WithNuls(Originals(c.entries)))| == Sum(Lengths(WithNuls(Originals(c.entries))))
    ensures |Flat(WithNuls(Translations(c.entries)))| == Sum(Lengths(WithNuls(Translations(c.entries))))
    ensures |Flat(Named(c.names))| == Sum(Lengths(Named(c.names)))
    ensures |Flat(Structs(bigEndian, Firsts(c.sys), p.originalStatics))| == Sum(StructLengths(Firsts(c.sys)))
    ensures |Flat(Structs(bigEndian, Seconds(c.sys), p.translationStatics))| == Sum(StructLengths(Seconds(c.sys)))
    ensures |Flat(Statics(Firsts(c.sys)))| == Sum(Lengths(Statics(Firsts(c.sys))))
    ensures |Flat(Statics(Seconds(c.sys)))| == Sum(Lengths(Statics(Seconds(c.sys))))
  {
    FlatLength(WithNuls(Originals(c.entries)), Lengths(WithNuls(Originals(c.entries))));
    FlatLength(WithNuls(Translations(c.entries)), Lengths(WithNuls(Translations(c.entries))));
    FlatLength(Named(c.names), Lengths(Named(c.names)));
    FlatLength(Structs(bigEndian, Firsts(c.sys), p.originalStatics), StructLengths(Firsts(c.sys)));
    FlatLength(Structs(bigEndian, Seconds(c.sys), p.translationStatics), StructLengths(Seconds(c.sys)));
    FlatLength(Statics(Firsts(c.sys)), Lengths(Statics(Firsts(c.sys))));
    FlatLength(Statics(Seconds(c.sys)), Lengths(Statics(Seconds(c.sys))));
  }

  /** The places given for the parts, of which there are as many as there are parts. */
  ghost predicate Fitting(c: Catalogue, p: Places) {
    && |p.originals| == |p.translations| == |c.entries| && |p.names| == |c.names|
    && |p.sysOriginals| == |p.sysTranslations| == |p.originalStatics| == |p.translationStatics| == |c.sys|
  }

  lemma BlockSizes(bigEndian: bool, c: Catalogue, p: Places, blocks: seq<seq<Byte>>, lengths: seq<nat>)
    requires Fitting(c, p) && blocks == Blocks(bigEndian, c, p) && lengths == BlockLengths(c)
    ensures |blocks| == |lengths| == 14 && forall k :: 0 <= k < 14 ==> |blocks[k]| == lengths[k]
  {
    DescsLength(Lengths(Originals(c.entries)), p.originals);
    DescsLength(Lengths(Translations(c.entries)), p.translations);
    DescsLength(Lengths(Named(c.names)), p.names);
    TextSizes(bigEndian, c, p);
    assert |blocks[0]| == 48;
  }

  lemma TextsWritten(
    file: seq<Byte>, bigEndian: bool, tab: nat, texts: seq<seq<Byte>>, whole: seq<seq<Byte>>, base: nat,
    offsets: seq<nat>, behind: seq<Byte>)
    requires |whole| == |texts| && forall i :: 0 <= i < |texts| ==> whole[i] == texts[i] + behind
    requires offsets == Starts(base, Lengths(whole)) && Has(file, base, Flat(whole))
    requires Has(file, tab, WordsBytes(bigEndian, Descs(Lengths(texts), offsets)))
    ensures TableOfTexts(file, bigEndian, tab, texts, offsets, behind) == true
  {
    forall i | 0 <= i < |texts| ensures Has(file, offsets[i], texts[i] + behind) {
      FlatHas(file, base, whole, Lengths(whole), i);
    }
  }

  lemma SysWritten(
    file: seq<Byte>, bigEndian: bool, tab: nat, ss: seq<Sys>, base: nat, offsets: seq<nat>, base': nat,
    statics: seq<nat>)
    requires offsets == Starts(base, StructLengths(ss)) && statics == Starts(base', Lengths(Statics(ss)))
    requires Has(file, base, Flat(Structs(bigEndian, ss, statics))) && Has(file, base', Flat(Statics(ss)))
    requires Has(file, tab, WordsBytes(bigEndian, offsets))
    ensures TableOfSys(file, bigEndian, tab, ss, offsets, statics) == true
  {
    forall i | 0 <= i < |ss| ensures HasSys(file, bigEndian, offsets[i], ss[i], statics[i]) {
      FlatHas(file, base, Structs(bigEndian, ss, statics), StructLengths(ss), i);
      FlatHas(file, base', Statics(ss), Lengths(Statics(ss)), i);
    }
  }

  /** Every block is at its place. */
  ghost predicate Placed(file: seq<Byte>, blocks: seq<seq<Byte>>, at: seq<nat>) {
    |blocks| == |at| == 14 && forall k :: 0 <= k < 14 ==> Has(file, at[k], blocks[k]) == true
  }

  lemma BlocksPlaced(blocks: seq<seq<Byte>>, lengths: seq<nat>)
    requires |blocks| == |lengths| == 14 && forall k :: 0 <= k < 14 ==> |blocks[k]| == lengths[k]
    ensures Placed(Flat(blocks), blocks, Starts(0, lengths)) == true
  {
    var file := Flat(blocks);
    assert file[0..0 + |file|] == file;
    forall k | 0 <= k < 14 ensures Has(file, Starts(0, lengths)[k], blocks[k]) {
      FlatHas(file, 0, blocks, lengths, k);
    }
  }

  lemma PlacedWritten(file: seq<Byte>, bigEndian: bool, c: Catalogue, p: Places, at: seq<nat>)
    requires |at| == 14 && at[0] == 0 && p == PlacesOf(c, at) && |file| < TWO_TO_32
    requires Placed(file, Blocks(bigEndian, c, p), at)
    ensures Written(file, bigEndian, c, p)
  {
    var os, ts := Originals(c.entries), Translations(c.entries);
    TextsWritten(file, bigEndian, at[1], os, WithNuls(os), at[7], p.originals, [0]);
    TextsWritten(file, bigEndian, at[2], ts, WithNuls(ts), at[8], p.translations, [0]);
    TextsWritten(file, bigEndian, at[4], Named(c.names), Named(c.names), at[9], p.names, []);
    SysWritten(file, bigEndian, at[5], Firsts(c.sys), at[10], p.sysOriginals, at[12], p.originalStatics);
    SysWritten(file, bigEndian, at[6], Seconds(c.sys), at[11], p.sysTranslations, at[13], p.translationStatics);
  }

  /** The encoded file holds the catalogue. */
  lemma EncodeWritten(c: Catalogue, bigEndian: bool)
    requires |Encode(c, bigEndian)| < TWO_TO_32
    ensures Written(Encode(c, bigEndian), bigEndian, c, Layout(c))
  {
    var p, lengths := Layout(c), BlockLengths(c);
    var blocks := Blocks(bigEndian, c, p);
    BlockSizes(bigEndian, c, p, blocks, lengths);
    BlocksPlaced(blocks, lengths);
    PlacedWritten(Encode(c, bigEndian), bigEndian, c, p, Starts(0, lengths));
  }

  /** Encoded, loaded on a machine of any byte order and searched: every msgid of a proper catalogue has its
      translation, and no other string has any. */
  method FindEncoded(
    host: bool, bigEndian: bool, c: Catalogue, w: nat, valueOf: CString -> Option<CString>, msgid: CString)
    returns (result: Option<seq<Byte>>)
    requires w >= 32 && |Encode(c, bigEndian)| < TWO_TO_32
    requires Proper(c) && Searchable(c, if Minor(c) == 0 then 0 else |c.sys|)
    requires Major(c) <= 1 && (Minor(c) == 0 || |c.table| > 2)
    ensures
      var pairs := Lookups(c, ValuesFor(c.names, valueOf));
      if result.Some? then (msgid, result.value) in pairs else forall pr <- pairs :: pr.0 != msgid
  {
    EncodeWritten(c, bigEndian);
    result := FindWritten(host, Encode(c, bigEndian), w, valueOf, msgid, bigEndian, c, Layout(c));
  }
}
