/** A message catalogue as it lies in memory: the words of its image in either byte order, and the
    tables and strings found through them (intl/gmo.h, intl/gettextP.h). */
module CatalogImage {
  import opened CatalogHash

  type Word = bv32

  /** SWAP. */
  function SwapWord(i: Word): Word {
    (i << 24) | ((i & 0xff00) << 8) | ((i >> 8) & 0xff00) | (i >> 24)
  }

  /** W. */
  function W(flag: bool, data: Word): Word {
    if flag then SwapWord(data) else data
  }

  function WordOf(a: Byte, b: Byte, c: Byte, d: Byte): Word {
    ((d as Word) << 24) | ((c as Word) << 16) | ((b as Word) << 8) | (a as Word)
  }

  lemma SwapReversesBytes(a: Byte, b: Byte, c: Byte, d: Byte)
    ensures SwapWord(WordOf(a, b, c, d)) == WordOf(d, c, b, a)
  {}

  function Number(a: Byte, b: Byte, c: Byte, d: Byte): (v: nat)
    ensures v < TWO_TO_32
  {
    (a as nat) + 0x100 * (b as nat) + 0x1_0000 * (c as nat) + 0x100_0000 * (d as nat)
  }

  lemma Assembled(w: Word, a: Byte, b: Byte, c: Byte, d: Byte)
    requires w == ((d as Word) << 24) | ((c as Word) << 16) | ((b as Word) << 8) | (a as Word)
    ensures w as nat == (a as nat) + 0x100 * (b as nat) + 0x1_0000 * (c as nat) + 0x100_0000 * (d as nat)
  {}

  lemma WordIsNumber(a: Byte, b: Byte, c: Byte, d: Byte)
    ensures WordOf(a, b, c, d) as nat == Number(a, b, c, d)
  {
    Assembled(WordOf(a, b, c, d), a, b, c, d);
  }

  /** A word as a machine of either byte order reads it. */
  function Native(bigEndian: bool, img: seq<Byte>, off: nat): Word
    requires off + 4 <= |img|
  {
    if bigEndian then WordOf(img[off + 3], img[off + 2], img[off + 1], img[off])
    else WordOf(img[off], img[off + 1], img[off + 2], img[off + 3])
  }

  /** The C string at the beginning of `mem`. */
  function CStr(mem: seq<Byte>): (s: CString)
    ensures |s| <= |mem| && s == mem[..|s|] && 0 !in s && (|s| < |mem| ==> mem[|s|] == 0)
  {
    if mem == [] || mem[0] == 0 then [] else [mem[0]] + CStr(mem[1..])
  }

  /** A stretch of memory that begins with a whole C string. */
  predicate Terminated(mem: seq<Byte>) {
    |CStr(mem)| < |mem|
  }

  lemma {:induction false} CStrPrefix(mem: seq<Byte>, other: seq<Byte>)
    requires Terminated(mem) && |CStr(mem)| < |other| && other[..|CStr(mem)| + 1] == mem[..|CStr(mem)| + 1]
    ensures CStr(other) == CStr(mem) && Terminated(other)
  {
    var n := |CStr(mem)|;
    assert mem[0] == mem[..n + 1][0] == other[..n + 1][0] == other[0];
    if mem[0] != 0 {
      assert other[1..][..n] == other[..n + 1][1..];
      assert mem[1..][..n] == mem[..n + 1][1..];
      CStrPrefix(mem[1..], other[1..]);
    }
  }

  const MAGIC: Word := 0x950412de
  const MAGIC_SWAPPED: Word := 0xde120495
  const HEADER_SIZE: nat := 48

  /** The number stored at `off`, for either order of the bytes in the words of the file. */
  function Stored(bytes: seq<Byte>, bigEndian: bool, off: nat): (v: nat)
    ensures v < TWO_TO_32
  {
    if off + 4 > |bytes| then 0
    else if bigEndian then Number(bytes[off + 3], bytes[off + 2], bytes[off + 1], bytes[off])
    else Number(bytes[off], bytes[off + 1], bytes[off + 2], bytes[off + 3])
  }

  /** A file as its reader sees it: the bytes, and what W yields at each place. */
  datatype Image = Image(bytes: seq<Byte>, at: nat -> nat) {
    function At(off: nat): nat
      requires off + 4 <= |bytes|
    {
      at(off)
    }
  }

  function ImageOf(bytes: seq<Byte>, bigEndian: bool): Image {
    Image(bytes, off => Stored(bytes, bigEndian, off))
  }

  /** The two members of the `i`-th `struct string_desc` of the table at `tab`. */
  function LengthAt(img: Image, tab: nat, i: nat): nat {
    if tab + 8 * i + 8 <= |img.bytes| then img.At(tab + 8 * i) else 0
  }

  function OffsetAt(img: Image, tab: nat, i: nat): nat {
    if tab + 8 * i + 8 <= |img.bytes| then img.At(tab + 8 * i + 4) else 0
  }

  /** What `W (must_swap, word)` yields on a machine of either byte order: the number stored. */
  lemma ReadsNumber(host: bool, bytes: seq<Byte>, bigEndian: bool, off: nat)
    requires off + 4 <= |bytes|
    ensures W(host != bigEndian, Native(host, bytes, off)) as nat == ImageOf(bytes, bigEndian).At(off)
  {
    var a, b, c, d := bytes[off], bytes[off + 1], bytes[off + 2], bytes[off + 3];
    SwapReversesBytes(a, b, c, d);
    SwapReversesBytes(d, c, b, a);
    WordIsNumber(a, b, c, d);
    WordIsNumber(d, c, b, a);
  }

  /** `b` is `a` with the bytes of every word at a place in `words` in the opposite order. */
  ghost predicate Swapped(a: seq<Byte>, b: seq<Byte>, words: set<nat>) {
    && |a| == |b|
    && (forall o :: o in words ==>
        o + 4 <= |a| && b[o] == a[o + 3] && b[o + 1] == a[o + 2] && b[o + 2] == a[o + 1] && b[o + 3] == a[o])
    && forall k :: 0 <= k < |a| && Outside(k, words) ==> a[k] == b[k]
  }

  /** Byte `k` belongs to none of the words. */
  ghost predicate Outside(k: int, words: set<nat>) {
    forall o :: o in words ==> !(o <= k < o + 4)
  }

  /** Every word has the same value in both files, each read in its own order. */
  lemma SwappedWord(a: seq<Byte>, b: seq<Byte>, bigEndian: bool, words: set<nat>, o: nat)
    requires Swapped(a, b, words) && o in words
    ensures ImageOf(a, bigEndian).at(o) == ImageOf(b, !bigEndian).at(o)
  {}

  /** So has every string that shares no byte with the words. */
  lemma SwappedString(a: seq<Byte>, b: seq<Byte>, words: set<nat>, off: nat)
    requires Swapped(a, b, words) && off <= |a| && Terminated(a[off..])
    requires forall k :: off <= k <= off + |CStr(a[off..])| ==> Outside(k, words)
    ensures off <= |b| && CStr(b[off..]) == CStr(a[off..]) && Terminated(b[off..])
  {
    var n := |CStr(a[off..])|;
    assert forall k :: off <= k < off + n + 1 ==> a[k] == b[k];
    assert b[off..][..n + 1] == a[off..][..n + 1];
    CStrPrefix(a[off..], b[off..]);
  }
}
