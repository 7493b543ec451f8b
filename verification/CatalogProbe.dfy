/** The double hashing of intl/dcigettext.c:746-785 and intl/loadmsgcat.c:1324-1343: a table of prime
    size is visited slot by slot, in steps that depend on the key. */
module CatalogProbe {

  ghost predicate Prime(p: nat) {
    p > 1 && forall d, e :: 1 < d < p && 1 < e < p ==> d * e != p
  }

  lemma {:induction false} Division(p: nat, a: nat) returns (q: nat, r: nat)
    requires a > 0
    ensures p == q * a + r && r < a
  {
    if p < a {
      q, r := 0, p;
    } else {
      var q' ;
      q', r := Division(p - a, a);
      q := q' + 1;
      assert q * a == q' * a + a;
    }
  }

  lemma Regroup(p: int, a: int, k: int, m: int, q: int, r: int)
    requires p == q * a + r && k * a == m * p
    ensures k * r == (k - q * m) * p
  {
    calc {
      k * r;
      k * (p - q * a);
      k * p - k * (q * a);
      { assert k * (q * a) == q * (k * a); }
      k * p - q * (m * p);
      { assert q * (m * p) == (q * m) * p; }
      k * p - (q * m) * p;
      (k - q * m) * p;
    }
  }

  lemma Sign(x: int, p: int)
    requires p > 0
    ensures x >= 1 ==> x * p >= p
    ensures x <= -1 ==> x * p <= -p
  {}

  lemma NoDivisor(p: nat, a: nat, q: nat)
    requires Prime(p) && 1 < a < p
    ensures p != q * a
  {
    if p == q * a {
      Sign(q, a);
    }
  }

  /** A product of two positive numbers below a prime is no multiple of it. */
  lemma {:induction false} NotAMultiple(p: nat, a: nat, k: nat, m: int)
    requires Prime(p) && 0 < a < p && 0 < k < p
    ensures k * a != m * p
    decreases a
  {
    if a == 1 {
      Sign(m, p);
    } else if k * a == m * p {
      var q, r := Division(p, a);
      NoDivisor(p, a, q);
      Regroup(p, a, k, m, q, r);
      NotAMultiple(p, r, k, k - q * m);
    }
  }

  /** The step the loops take, without ever forming a number above the table's size. */
  function Next(size: nat, incr: nat, idx: nat): (r: nat)
    requires 0 < incr < size && idx < size
    ensures r < size
  {
    if idx >= size - incr then idx - (size - incr) else idx + incr
  }

  /** The slot of the `k`-th probe. */
  function Probe(size: nat, start: nat, incr: nat, k: nat): (r: nat)
    requires 0 < incr < size && start < size
    ensures r < size
  {
    if k == 0 then start else Next(size, incr, Probe(size, start, incr, k - 1))
  }

  /** How many times the probes have wrapped around. */
  function Wraps(size: nat, start: nat, incr: nat, k: nat): nat
    requires 0 < incr < size && start < size
  {
    if k == 0 then 0
    else Wraps(size, start, incr, k - 1) + if Probe(size, start, incr, k - 1) >= size - incr then 1 else 0
  }

  lemma {:induction false} ProbeIsLinear(size: nat, start: nat, incr: nat, k: nat)
    requires 0 < incr < size && start < size
    ensures Probe(size, start, incr, k) + Wraps(size, start, incr, k) * size == start + k * incr
  {
    if k > 0 {
      ProbeIsLinear(size, start, incr, k - 1);
      Distribute(k - 1, incr);
      Distribute(Wraps(size, start, incr, k - 1), size);
    }
  }

  lemma Distribute(k: nat, x: nat)
    ensures (k + 1) * x == k * x + x
  {}

  /** The first `size` probes hit different slots. */
  lemma ProbesDiffer(size: nat, start: nat, incr: nat, j: nat, k: nat)
    requires Prime(size) && 0 < incr < size && start < size && j < k < size
    ensures Probe(size, start, incr, j) != Probe(size, start, incr, k)
  {
    if Probe(size, start, incr, j) == Probe(size, start, incr, k) {
      ProbeIsLinear(size, start, incr, j);
      ProbeIsLinear(size, start, incr, k);
      var v, w := Wraps(size, start, incr, j), Wraps(size, start, incr, k);
      assert (k - j) * incr == (w - v) * size by {
        assert (k - j) * incr == k * incr - j * incr;
        assert (w - v) * size == w * size - v * size;
      }
      NotAMultiple(size, incr, k - j, w - v);
    }
  }

  function Slots(n: nat): (r: set<nat>)
    ensures |r| == n && forall i: nat :: i in r <==> i < n
  {
    if n == 0 then {} else Slots(n - 1) + {n - 1}
  }

  function Visited(size: nat, start: nat, incr: nat, n: nat): (r: set<nat>)
    requires 0 < incr < size && start < size
  {
    if n == 0 then {} else Visited(size, start, incr, n - 1) + {Probe(size, start, incr, n - 1)}
  }

  lemma {:induction false} VisitedBy(size: nat, start: nat, incr: nat, n: nat, s: nat) returns (k: nat)
    requires 0 < incr < size && start < size && s in Visited(size, start, incr, n)
    ensures k < n && Probe(size, start, incr, k) == s
  {
    k := n - 1;
    if Probe(size, start, incr, n - 1) != s {
      k := VisitedBy(size, start, incr, n - 1, s);
    }
  }

  lemma {:induction false} VisitedCount(size: nat, start: nat, incr: nat, n: nat)
    requires Prime(size) && 0 < incr < size && start < size && n <= size
    ensures |Visited(size, start, incr, n)| == n && Visited(size, start, incr, n) <= Slots(size)
  {
    if n > 0 {
      VisitedCount(size, start, incr, n - 1);
      var s := Probe(size, start, incr, n - 1);
      if s in Visited(size, start, incr, n - 1) {
        var k := VisitedBy(size, start, incr, n - 1, s);
        ProbesDiffer(size, start, incr, k, n - 1);
      }
    }
  }

  lemma SubsetOfSameSize(a: set<nat>, b: set<nat>)
    requires a <= b && |a| == |b|
    ensures a == b
  {
    assert b == a + (b - a);
    assert |b| == |a| + |b - a|;
  }

  /** Every slot is visited within `size` probes. */
  lemma EverySlotVisited(size: nat, start: nat, incr: nat, slot: nat) returns (k: nat)
    requires Prime(size) && 0 < incr < size && start < size && slot < size
    ensures k < size && Probe(size, start, incr, k) == slot
  {
    VisitedCount(size, start, incr, size);
    SubsetOfSameSize(Visited(size, start, incr, size), Slots(size));
    k := VisitedBy(size, start, incr, size, slot);
  }
}
