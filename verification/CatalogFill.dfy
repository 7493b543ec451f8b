/** The second pass over the system dependent strings (intl/loadmsgcat.c:1202-1315): it keeps the same
    pairs as the first and fills the memory measured by it exactly. */
module CatalogFill {
  import opened CatalogHash
  import opened CatalogImage
  import opened CatalogSysdep
  import opened CatalogPasses

  /** Puts both strings of a pair in their places. */
  method FillPair(
      img: Image, origTab: nat, transTab: nat, vals: Values, mem: array<Byte>, pos: nat,
      ghost origs: seq<Str>, ghost transs: seq<Str>, i: nat)
    returns (d0: StringDesc, d1: StringDesc, end: nat)
    requires Tabled(img, origTab, origs) && Tabled(img, transTab, transs) && i < |origs| == |transs|
    requires PairSize(origs[i], transs[i], vals).verdict.Kept?
    requires pos + PairSize(origs[i], transs[i], vals).need <= mem.Length
    modifies mem
    ensures end == pos + PairSize(origs[i], transs[i], vals).need && mem[..pos] == old(mem[..pos])
    ensures LeadsTo(d0, img.bytes, mem[..end], origs[i].Text(vals))
    ensures LeadsTo(d1, img.bytes, mem[..end], transs[i].Text(vals))
  {
    d0, end := FillString(img, origTab, vals, mem, pos, origs, i);
    ghost var filled, from := mem[..end], end;
    d1, end := FillString(img, transTab, vals, mem, end, transs, i);
    ghost var more := mem[..end];
    assert more[..|filled|] == mem[..from] == filled;
    assert filled[..pos] == mem[..from][..pos] == mem[..pos];
    StillLeads(d0, img.bytes, filled, origs[i].Text(vals), more);
  }

  /** The tables of the first `k` kept pairs, and the memory below `pos`, are filled. */
  ghost predicate Filled(
    ds: seq<StringDesc>, k: nat, ks: seq<nat>, ss: seq<Str>, vals: Values, file: seq<Byte>, filled: seq<Byte>)
  {
    k == |ks| && k <= |ds| && AllLead(ds[..k], ks, ss, vals, file, filled)
  }

  lemma FilledMore(
    ds: seq<StringDesc>, k: nat, ks: seq<nat>, ss: seq<Str>, vals: Values, file: seq<Byte>, filled: seq<Byte>,
    d: StringDesc, i: nat, more: seq<Byte>)
    requires Filled(ds, k, ks, ss, vals, file, filled) && k < |ds|
    requires |filled| <= |more| && more[..|filled|] == filled
    requires i < |ss| && LeadsTo(d, file, more, ss[i].Text(vals))
    ensures Filled(ds[k := d], k + 1, ks + [i], ss, vals, file, more)
  {
    OneMoreLeads(ds[..k], ks, ss, vals, file, filled, d, i, more);
    assert ds[k := d][..k + 1] == ds[..k] + [d];
  }

  /** Room for one more pair, in the tables and in the memory. */
  lemma RoomForPair(zs: seq<Sized>, i: nat)
    requires i < |zs| && zs[i].verdict.Kept?
    ensures KeptBelow(zs, i + 1) == KeptBelow(zs, i) + [i]
    ensures |KeptBelow(zs, i)| < |KeptBelow(zs, |zs|)|
    ensures NeedBelow(zs, i + 1) == NeedBelow(zs, i) + zs[i].need <= NeedBelow(zs, |zs|)
  {
    TotalsGrow(zs, i + 1, |zs|);
  }

  /** The parts of the allocated block do not overlap. */
  predicate Apart(mem: array<Byte>, inmemOrig: array<StringDesc>, inmemTrans: array<StringDesc>) {
    inmemOrig != inmemTrans && mem as object != inmemOrig as object && mem as object != inmemTrans as object
  }

  /** Fills the `k`-th entries of both tables with a pair that is kept. */
  method FillEntry(
      img: Image, origTab: nat, transTab: nat, vals: Values, mem: array<Byte>, pos: nat,
      inmemOrig: array<StringDesc>, inmemTrans: array<StringDesc>, k: nat,
      ghost origs: seq<Str>, ghost transs: seq<Str>, i: nat, ghost ks: seq<nat>)
    returns (end: nat)
    requires Tabled(img, origTab, origs) && Tabled(img, transTab, transs) && i < |origs| == |transs|
    requires PairSize(origs[i], transs[i], vals).verdict.Kept?
    requires pos + PairSize(origs[i], transs[i], vals).need <= mem.Length
    requires Apart(mem, inmemOrig, inmemTrans) && k < inmemOrig.Length == inmemTrans.Length
    requires Filled(inmemOrig[..], k, ks, origs, vals, img.bytes, mem[..pos])
    requires Filled(inmemTrans[..], k, ks, transs, vals, img.bytes, mem[..pos])
    modifies mem, inmemOrig, inmemTrans
    ensures end == pos + PairSize(origs[i], transs[i], vals).need
    ensures Filled(inmemOrig[..], k + 1, ks + [i], origs, vals, img.bytes, mem[..end])
    ensures Filled(inmemTrans[..], k + 1, ks + [i], transs, vals, img.bytes, mem[..end])
  {
    ghost var filled, ds0, ds1 := mem[..pos], inmemOrig[..], inmemTrans[..];
    var d0, d1;
    d0, d1, end := FillPair(img, origTab, transTab, vals, mem, pos, origs, transs, i);
    ghost var more := mem[..end];
    assert more[..|filled|] == mem[..pos] == filled;
    assert inmemOrig[..] == ds0 && inmemTrans[..] == ds1;
    FilledMore(ds0, k, ks, origs, vals, img.bytes, filled, d0, i, more);
    FilledMore(ds1, k, ks, transs, vals, img.bytes, filled, d1, i, more);
    inmemOrig[k] := d0;
    inmemTrans[k] := d1;
    assert inmemOrig[..] == ds0[k := d0] && inmemTrans[..] == ds1[k := d1];
  }

  method SecondPass(
      img: Image, count: nat, origTab: nat, transTab: nat, vals: Values,
      mem: array<Byte>, base: nat, inmemOrig: array<StringDesc>, inmemTrans: array<StringDesc>,
      ghost origs: seq<Str>, ghost transs: seq<Str>, ghost zs: seq<Sized>)
    returns (k: nat, pos: nat)
    requires Tabled(img, origTab, origs) && Tabled(img, transTab, transs) && count == |origs| == |transs|
    requires zs == Sizes(origs, transs, vals) && AllValid(zs) && Apart(mem, inmemOrig, inmemTrans)
    requires inmemOrig.Length == inmemTrans.Length == |KeptBelow(zs, count)|
    requires mem.Length == base + NeedBelow(zs, count)
    modifies mem, inmemOrig, inmemTrans
    ensures k == inmemOrig.Length && pos == mem.Length
    ensures AllLead(inmemOrig[..], KeptBelow(zs, count), origs, vals, img.bytes, mem[..])
    ensures AllLead(inmemTrans[..], KeptBelow(zs, count), transs, vals, img.bytes, mem[..])
  {
    k, pos := 0, base;
    var i: nat := 0;
    while i < count
      invariant i <= count && pos == base + NeedBelow(zs, i) <= mem.Length
      invariant Filled(inmemOrig[..], k, KeptBelow(zs, i), origs, vals, img.bytes, mem[..pos])
      invariant Filled(inmemTrans[..], k, KeptBelow(zs, i), transs, vals, img.bytes, mem[..pos])
    {
      assert zs[i] == PairSize(origs[i], transs[i], vals);
      var valid := RecheckPair(img, origTab, transTab, vals, origs, transs, i);
      if valid {
        RoomForPair(zs, i);
        pos := FillEntry(
          img, origTab, transTab, vals, mem, pos, inmemOrig, inmemTrans, k, origs, transs, i, KeptBelow(zs, i));
        k := k + 1;
      }
      i := i + 1;
    }
    assert mem[..pos] == mem[..] && inmemOrig[..k] == inmemOrig[..] && inmemTrans[..k] == inmemTrans[..];
  }
}
