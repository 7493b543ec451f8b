/** The hash table of a message catalogue: what it means, how `_nl_find_msg` searches it and how
    `_nl_load_domain` adds the system dependent strings to it. A slot holds 0, or one more than the
    index of a key. Everything here depends on the keys' hash values only. */
module CatalogTable {
  import opened CatalogProbe
  import opened Options

  /** The step for a hash value. */
  function IncrOf(size: nat, h: nat): (r: nat)
    requires size > 2
    ensures 0 < r < size
  {
    1 + h % (size - 2)
  }

  /** The slot probed in the `k`-th place. */
  function ProbeFor(size: nat, h: nat, k: nat): (r: nat)
    requires size > 2
    ensures r < size
  {
    Probe(size, h % size, IncrOf(size, h), k)
  }

  lemma DivMod(h: nat, d: nat)
    requires d > 0
    ensures h == h % d + h / d * d
  {}

  lemma AddTurns(v: nat, w: nat, d: nat)
    ensures (v + w) * d == v * d + w * d
  {}

  /** The probes, apart from the turns around the table: from the hash value in steps of one more than its remainder by
      size - 2. */
  lemma ProbedAt(size: nat, h: nat, k: nat) returns (turns: nat)
    requires size > 2
    ensures ProbeFor(size, h, k) + turns * size == h + k * (1 + h % (size - 2))
  {
    var incr, start := 1 + h % (size - 2), h % size;
    ProbeIsLinear(size, start, incr, k);
    DivMod(h, size);
    AddTurns(Wraps(size, start, incr, k), h / size, size);
    turns := Wraps(size, start, incr, k) + h / size;
  }

  /** No empty slot among the first `k` probes. */
  ghost predicate Occupied(t: seq<nat>, h: nat, k: nat)
    requires |t| > 2
  {
    forall j: nat :: j < k ==> t[ProbeFor(|t|, h, j)] != 0
  }

  /** The entry `e` is reached, by probing for `h`, before any empty slot. */
  ghost predicate Reaches(t: seq<nat>, h: nat, e: nat)
    requires |t| > 2
  {
    exists k: nat :: t[ProbeFor(|t|, h, k)] == e + 1 && Occupied(t, h, k)
  }

  /** `t` is a double-hashed table over keys with the hash values `hs`. */
  ghost predicate TableFor(t: seq<nat>, hs: seq<nat>) {
    && |t| > 2
    && (forall i :: 0 <= i < |t| ==> t[i] <= |hs|)
    && forall e {:trigger Reaches(t, hs[e], e)} :: 0 <= e < |hs| ==> Reaches(t, hs[e], e)
  }

  /** The number of empty slots. */
  function Free(t: seq<nat>): (n: nat)
    ensures n > 0 <==> exists i :: 0 <= i < |t| && t[i] == 0
  {
    if t == [] then 0
    else
      assert t == [t[0]] + t[1..];
      Free(t[1..]) + if t[0] == 0 then 1 else 0
  }

  lemma {:induction false} FreeUpdate(t: seq<nat>, i: nat, v: nat)
    requires i < |t| && t[i] == 0 && v != 0
    ensures Free(t[i := v]) == Free(t) - 1
  {
    if i == 0 {
      assert t[i := v][1..] == t[1..];
    } else {
      FreeUpdate(t[1..], i - 1, v);
      assert t[i := v][1..] == t[1..][i - 1 := v];
    }
  }

  /** With an empty slot anywhere, probing comes to an empty slot within `size` probes. */
  lemma ProbingEnds(t: seq<nat>, h: nat)
    requires Prime(|t|) && |t| > 2 && Free(t) > 0
    ensures !Occupied(t, h, |t|)
  {
    var i :| 0 <= i < |t| && t[i] == 0;
    var k := EverySlotVisited(|t|, h % |t|, IncrOf(|t|, h), i);
    assert t[ProbeFor(|t|, h, k)] == 0;
  }

  /** What a search returns, described without the probing: an entry with the key, if there is one. */
  ghost predicate Answers<T>(keys: seq<T>, s: T, r: Option<nat>) {
    match r
    case Some(e) => e < |keys| && keys[e] == s
    case None => s !in keys
  }

  /** Equal keys have equal hash values. */
  ghost predicate HashedAs<T>(keys: seq<T>, hs: seq<nat>, s: T, h: nat) {
    |hs| == |keys| && forall e :: 0 <= e < |keys| && keys[e] == s ==> hs[e] == h
  }

  /** The first `k` probes find entries, all with other keys. */
  ghost predicate Missed<T>(t: seq<nat>, keys: seq<T>, s: T, h: nat, k: nat)
    requires |t| > 2 && forall i :: 0 <= i < |t| ==> t[i] <= |keys|
  {
    forall j: nat :: j < k ==> t[ProbeFor(|t|, h, j)] != 0 && keys[t[ProbeFor(|t|, h, j)] - 1] != s
  }

  lemma MissedAgain<T>(t: seq<nat>, keys: seq<T>, s: T, h: nat, k: nat)
    requires |t| > 2 && (forall i :: 0 <= i < |t| ==> t[i] <= |keys|) && Missed(t, keys, s, h, k)
    requires t[ProbeFor(|t|, h, k)] != 0 && keys[t[ProbeFor(|t|, h, k)] - 1] != s
    ensures Missed(t, keys, s, h, k + 1) && Occupied(t, h, k + 1)
  {}

  /** An empty slot before any match means that the key is not there. */
  lemma NotInserted<T>(t: seq<nat>, keys: seq<T>, hs: seq<nat>, s: T, h: nat, k: nat)
    requires TableFor(t, hs) && HashedAs(keys, hs, s, h)
    requires t[ProbeFor(|t|, h, k)] == 0 && Missed(t, keys, s, h, k)
    ensures s !in keys
  {
    forall e | 0 <= e < |keys| ensures keys[e] != s {
      assert Reaches(t, hs[e], e);
    }
  }

  /** The first entry with the key among the `k`-th and later probes, if no empty slot comes first. */
  function HashSearch<T(==)>(t: seq<nat>, keys: seq<T>, s: T, h: nat, k: nat): Option<nat>
    requires |t| > 2 && forall i :: 0 <= i < |t| ==> t[i] <= |keys|
    decreases |t| - k
  {
    var v := t[ProbeFor(|t|, h, k)];
    if k >= |t| || v == 0 then None
    else if keys[v - 1] == s then Some(v - 1)
    else HashSearch(t, keys, s, h, k + 1)
  }

  /** Filling an empty slot hides no entry. */
  lemma StillReached(t: seq<nat>, h: nat, e: nat, i: nat, v: nat)
    requires |t| > 2 && i < |t| && t[i] == 0 && v != 0 && Reaches(t, h, e)
    ensures Reaches(t[i := v], h, e)
  {
    var k: nat :| t[ProbeFor(|t|, h, k)] == e + 1 && Occupied(t, h, k);
    assert Occupied(t[i := v], h, k);
    assert t[i := v][ProbeFor(|t|, h, k)] == e + 1;
  }

  lemma Inserted(t: seq<nat>, hs: seq<nat>, h: nat, k: nat, i: nat)
    requires TableFor(t, hs) && i == ProbeFor(|t|, h, k) && t[i] == 0 && Occupied(t, h, k)
    ensures TableFor(t[i := |hs| + 1], hs + [h])
  {
    var t', hs' := t[i := |hs| + 1], hs + [h];
    forall e | 0 <= e < |hs'| ensures Reaches(t', hs'[e], e) {
      if e < |hs| {
        assert hs'[e] == hs[e];
        StillReached(t, hs[e], e, i, |hs| + 1);
      } else {
        assert t'[ProbeFor(|t'|, h, k)] == e + 1;
        assert Occupied(t', h, k);
      }
    }
  }

  /** Adds the key with index `|hs|`: the loop of intl/loadmsgcat.c:1325-1342. */
  method Insert(inmemHashTab: array<nat>, hashVal: nat, value: nat, ghost hs: seq<nat>)
    requires TableFor(inmemHashTab[..], hs) && Prime(inmemHashTab.Length) && Free(inmemHashTab[..]) > 0
    requires value == 1 + |hs|
    modifies inmemHashTab
    ensures TableFor(inmemHashTab[..], hs + [hashVal])
    ensures Free(inmemHashTab[..]) == old(Free(inmemHashTab[..])) - 1
  {
    var hashSize := inmemHashTab.Length;
    ghost var t := inmemHashTab[..];
    ProbingEnds(t, hashVal);
    var idx := hashVal % hashSize;
    var incr := 1 + hashVal % (hashSize - 2);
    ghost var k: nat := 0;
    while inmemHashTab[idx] != 0
      invariant 0 <= idx == ProbeFor(hashSize, hashVal, k) && k < hashSize
      invariant Occupied(t, hashVal, k)
      decreases hashSize - k
    {
      if idx >= hashSize - incr {
        idx := idx - (hashSize - incr);
      } else {
        idx := idx + incr;
      }
      k := k + 1;
      assert Occupied(t, hashVal, k);
    }
    inmemHashTab[idx] := value;
    Inserted(t, hs, hashVal, k, idx);
    FreeUpdate(t, idx, value);
    assert inmemHashTab[..] == t[idx := value];
  }
}
