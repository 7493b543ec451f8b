/** The two passes over the system dependent strings of a catalogue (intl/loadmsgcat.c:1086-1315). */
module CatalogPasses {
  import opened CatalogHash
  import opened CatalogImage
  import opened CatalogSysdep

  /** What the first pass finds out about a pair: the verdict and, if it is kept, the memory needed.
      The translation is only looked at if the original is kept. */
  datatype Sized = Sized(verdict: Verdict, need: nat)

  function PairSize(orig: Str, trans: Str, vals: Values): Sized {
    if !orig.Verdict(vals).Kept? then Sized(orig.Verdict(vals), 0)
    else if !trans.Verdict(vals).Kept? then Sized(trans.Verdict(vals), 0)
    else Sized(Kept, orig.Need(vals) + trans.Need(vals))
  }

  function Sizes(origs: seq<Str>, transs: seq<Str>, vals: Values): (zs: seq<Sized>)
    requires |origs| == |transs|
    ensures |zs| == |origs|
  {
    seq(|origs|, i requires 0 <= i < |origs| => PairSize(origs[i], transs[i], vals))
  }

  /** The pairs that are kept among the first `m`, in order. */
  function KeptBelow(zs: seq<Sized>, m: nat): seq<nat>
    requires m <= |zs|
  {
    if m == 0 then [] else KeptBelow(zs, m - 1) + if zs[m - 1].verdict.Kept? then [m - 1] else []
  }

  function NeedBelow(zs: seq<Sized>, m: nat): nat
    requires m <= |zs|
  {
    if m == 0 then 0 else NeedBelow(zs, m - 1) + if zs[m - 1].verdict.Kept? then zs[m - 1].need else 0
  }

  lemma {:induction false} KeptAreKept(zs: seq<Sized>, m: nat)
    requires m <= |zs|
    ensures forall k <- KeptBelow(zs, m) :: k < m && zs[k].verdict.Kept?
  {
    if m > 0 {
      KeptAreKept(zs, m - 1);
    }
  }

  lemma {:induction false} TotalsGrow(zs: seq<Sized>, i: nat, m: nat)
    requires i <= m <= |zs|
    ensures |KeptBelow(zs, i)| <= |KeptBelow(zs, m)| && NeedBelow(zs, i) <= NeedBelow(zs, m)
    decreases m
  {
    if i < m {
      TotalsGrow(zs, i, m - 1);
    }
  }

  /** No reference that is looked at is out of range. */
  ghost predicate AllValid(zs: seq<Sized>) {
    forall i :: 0 <= i < |zs| ==> !zs[i].verdict.Invalid?
  }

  /** The place that entry `i` of a table gives. */
  function Place(img: Image, tab: nat, i: nat): nat {
    if tab + 4 * i + 4 <= |img.bytes| then img.At(tab + 4 * i) else 0
  }

  /** The table at `tab` gives the places of the strings `ss`. */
  ghost predicate Tabled(img: Image, tab: nat, ss: seq<Str>) {
    && tab + 4 * |ss| <= |img.bytes|
    && forall i {:trigger Place(img, tab, i)} :: 0 <= i < |ss| ==> Holds(img, Place(img, tab, i), ss[i])
  }

  /** `sysdep_string`. */
  method Locate(img: Image, tab: nat, ghost ss: seq<Str>, i: nat) returns (so: nat)
    requires Tabled(img, tab, ss) && i < |ss|
    ensures Holds(img, so, ss[i])
  {
    so := img.At(tab + 4 * i);
    assert so == Place(img, tab, i);
  }

  /** The memory for `n` kept pairs: descriptors, hash table and strings. */
  function MemNeed(hashSize: nat, n: nat, strings: nat): nat {
    hashSize * SIZEOF_WORD + strings + 2 * n * SIZEOF_DESC
  }

  /** The first pass over one string. */
  method MeasureAt(img: Image, tab: nat, vals: Values, ghost ss: seq<Str>, i: nat) returns (verdict: Verdict, need: nat)
    requires Tabled(img, tab, ss) && i < |ss|
    ensures verdict == ss[i].Verdict(vals) && (verdict.Kept? ==> need == ss[i].Need(vals))
  {
    var so := Locate(img, tab, ss, i);
    verdict, need := Measure(img, so, vals, ss[i]);
  }

  /** The first pass over one pair. */
  method MeasurePair(
      img: Image, origTab: nat, transTab: nat, vals: Values, ghost origs: seq<Str>, ghost transs: seq<Str>, i: nat)
    returns (z: Sized)
    requires Tabled(img, origTab, origs) && Tabled(img, transTab, transs) && i < |origs| == |transs|
    ensures z == PairSize(origs[i], transs[i], vals)
  {
    var needs: seq<nat> := [];
    var j := 0;
    while j < 2
      invariant 0 <= j <= 2 && |needs| == j
      invariant j > 0 ==> origs[i].Verdict(vals).Kept? && needs[0] == origs[i].Need(vals)
      invariant j > 1 ==> transs[i].Verdict(vals).Kept? && needs[1] == transs[i].Need(vals)
    {
      var verdict, need := MeasureAt(
        img, if j == 0 then origTab else transTab, vals, if j == 0 then origs else transs, i);
      if !verdict.Kept? {
        return Sized(verdict, 0);
      }
      needs := needs + [need];
      j := j + 1;
    }
    z := Sized(Kept, needs[0] + needs[1]);
  }

  /** The first pass: whether the catalogue is valid, how many pairs it keeps, and the memory needed. */
  method FirstPass(
      img: Image, count: nat, origTab: nat, transTab: nat, vals: Values, hashSize: nat,
      ghost origs: seq<Str>, ghost transs: seq<Str>)
    returns (ok: bool, n: nat, memneed: nat)
    requires Tabled(img, origTab, origs) && Tabled(img, transTab, transs) && count == |origs| == |transs|
    ensures
      var zs := Sizes(origs, transs, vals);
      && (ok <==> AllValid(zs))
      && (ok ==> n == |KeptBelow(zs, count)| && memneed == MemNeed(hashSize, n, NeedBelow(zs, count)))
  {
    ghost var zs := Sizes(origs, transs, vals);
    n := 0;
    memneed := hashSize * SIZEOF_WORD;
    var i := 0;
    while i < count
      invariant 0 <= i <= count
      invariant n == |KeptBelow(zs, i)| && memneed == hashSize * SIZEOF_WORD + NeedBelow(zs, i)
      invariant forall k :: 0 <= k < i ==> !zs[k].verdict.Invalid?
    {
      var z := MeasurePair(img, origTab, transTab, vals, origs, transs, i);
      assert z == zs[i];
      if z.verdict.Invalid? {
        return false, 0, 0;
      }
      if z.verdict.Kept? {
        n := n + 1;
        memneed := memneed + z.need;
      }
      i := i + 1;
    }
    ok, memneed := true, memneed + 2 * n * SIZEOF_DESC;
  }

  /** The second pass's own decision about a string. */
  method RecheckAt(img: Image, tab: nat, vals: Values, ghost ss: seq<Str>, i: nat) returns (valid: bool)
    requires Tabled(img, tab, ss) && i < |ss| && !ss[i].Verdict(vals).Invalid?
    ensures valid <==> ss[i].Verdict(vals).Kept?
  {
    var so := Locate(img, tab, ss, i);
    valid := Recheck(img, so, vals, ss[i]);
  }

  /** The second pass's own decision about a pair. */
  method RecheckPair(
      img: Image, origTab: nat, transTab: nat, vals: Values, ghost origs: seq<Str>, ghost transs: seq<Str>, i: nat)
    returns (valid: bool)
    requires Tabled(img, origTab, origs) && Tabled(img, transTab, transs) && i < |origs| == |transs|
    requires !PairSize(origs[i], transs[i], vals).verdict.Invalid?
    ensures valid <==> PairSize(origs[i], transs[i], vals).verdict.Kept?
  {
    var j := 0;
    while j < 2
      invariant 0 <= j <= 2
      invariant j > 0 ==> origs[i].Verdict(vals).Kept?
      invariant j > 1 ==> transs[i].Verdict(vals).Kept?
    {
      valid := RecheckAt(img, if j == 0 then origTab else transTab, vals, if j == 0 then origs else transs, i);
      if !valid {
        return;
      }
      j := j + 1;
    }
    valid := true;
  }

  // ----- filling the memory

  /** Where a string is: in the file's image, or in the memory being filled. */
  datatype Pointer = ToFile(off: nat) | ToMemory(off: nat)

  /** `struct sysdep_string_desc`. */
  datatype StringDesc = StringDesc(length: nat, pointer: Pointer)

  /** The descriptor leads to exactly `text`, given the image and the memory filled so far. */
  ghost predicate LeadsTo(d: StringDesc, file: seq<Byte>, filled: seq<Byte>, text: seq<Byte>) {
    var target := if d.pointer.ToFile? then file else filled;
    && d.length == |text| && d.pointer.off + d.length <= |target|
    && target[d.pointer.off..d.pointer.off + d.length] == text
  }

  lemma StillLeads(d: StringDesc, file: seq<Byte>, filled: seq<Byte>, text: seq<Byte>, more: seq<Byte>)
    requires LeadsTo(d, file, filled, text) && |filled| <= |more| && more[..|filled|] == filled
    ensures LeadsTo(d, file, more, text)
  {
    if d.pointer.ToMemory? {
      var i, j := d.pointer.off, d.pointer.off + d.length;
      assert forall k :: i <= k < j ==> more[k] == more[..|filled|][k];
    }
  }

  /** A string with a single static segment is left in the file. */
  lemma SingleSegment(img: Image, so: nat, s: Str, vals: Values, filled: seq<Byte>)
    requires Holds(img, so, s) && s.segs[0].sysdepref == SEGMENTS_END
    ensures LeadsTo(StringDesc(s.segs[0].segsize, ToFile(img.At(so))), img.bytes, filled, s.Text(vals))
  {
    var off, n := img.At(so), s.segs[0].segsize;
    assert img.bytes[off..][..n] == img.bytes[off..off + n];
  }

  /** Puts one string in its place. */
  method FillString(img: Image, tab: nat, vals: Values, mem: array<Byte>, pos: nat, ghost ss: seq<Str>, i: nat)
    returns (d: StringDesc, end: nat)
    requires Tabled(img, tab, ss) && i < |ss| && ss[i].Verdict(vals).Kept?
    requires pos + ss[i].Need(vals) <= mem.Length
    modifies mem
    ensures end == pos + ss[i].Need(vals) && mem[..pos] == old(mem[..pos])
    ensures LeadsTo(d, img.bytes, mem[..end], ss[i].Text(vals))
  {
    ghost var s := ss[i];
    var so := Locate(img, tab, ss, i);
    var segsize, sysdepref := ReadSeg(img, so, so + 4, s, 0);
    if sysdepref == SEGMENTS_END {
      end := pos;
      d := StringDesc(segsize, ToFile(img.At(so)));
      SingleSegment(img, so, s, vals, mem[..end]);
    } else {
      ExpandSize(s.segs, vals, s.statics);
      end := Concatenate(img, so, vals, mem, pos, s);
      d := StringDesc(end - pos, ToMemory(pos));
      assert mem[..end][pos..end] == mem[pos..end];
    }
  }

  /** The descriptors lead to the strings of `ss` with the indices `ks`. */
  ghost predicate AllLead(
    ds: seq<StringDesc>, ks: seq<nat>, ss: seq<Str>, vals: Values, file: seq<Byte>, filled: seq<Byte>)
  {
    && |ds| == |ks|
    && forall k :: 0 <= k < |ks| ==> ks[k] < |ss| && LeadsTo(ds[k], file, filled, ss[ks[k]].Text(vals))
  }

  lemma OneMoreLeads(
    ds: seq<StringDesc>, ks: seq<nat>, ss: seq<Str>, vals: Values, file: seq<Byte>, filled: seq<Byte>,
    d: StringDesc, i: nat, more: seq<Byte>)
    requires AllLead(ds, ks, ss, vals, file, filled) && |filled| <= |more| && more[..|filled|] == filled
    requires i < |ss| && LeadsTo(d, file, more, ss[i].Text(vals))
    ensures AllLead(ds + [d], ks + [i], ss, vals, file, more)
  {
    forall k | 0 <= k < |ks| ensures LeadsTo(ds[k], file, more, ss[ks[k]].Text(vals)) {
      StillLeads(ds[k], file, filled, ss[ks[k]].Text(vals), more);
    }
  }
}
