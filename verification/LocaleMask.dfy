/** The masks of locale name parts (intl/loadinfo.h:50-63), the count of their bits and the masks that a
    mask inherits from (intl/l10nflist.c:152-165, 333-341). */
module LocaleMask {
  import opened Bits

  type Mask = bv8

  const CEN_REVISION: Mask := 1
  const CEN_SPONSOR: Mask := 2
  const CEN_SPECIAL: Mask := 4
  const XPG_NORM_CODESET: Mask := 8
  const XPG_CODESET: Mask := 16
  const TERRITORY: Mask := 32
  const CEN_AUDIENCE: Mask := 64
  const XPG_MODIFIER: Mask := 128

  const CEN_SPECIFIC: Mask := 0x47
  const XPG_SPECIFIC: Mask := 0x98

  predicate Has(m: Mask, flag: Mask) {
    m & flag != 0
  }

  // ----- pop

  function Pop(mask: Mask): bv16 {
    var x := mask as bv16;
    var x1 := ((x & !0x5555) >> 1) + (x & 0x5555);
    var x2 := ((x1 & !0x3333) >> 2) + (x1 & 0x3333);
    var x3 := ((x2 >> 4) + x2) & 0x0f0f;
    ((x3 >> 8) + x3) & 0xff
  }

  /** The mask without its lowest bit. */
  function Rest(m: Mask): (r: Mask)
    requires m != 0
    ensures r < m
  {
    m & (m - 1)
  }

  /** `pop` counts the bits: taking one away takes one off the count. */
  lemma PopCounts(x: Mask)
    ensures x == 0 ==> Pop(x) == 0
    ensures x != 0 ==> Pop(x) == Pop(Rest(x)) + 1
    ensures Pop(x) <= 8
  {}

  lemma Successor(x: bv16)
    requires x <= 8
    ensures (x + 1) as nat == x as nat + 1
  {}

  function BitCount(x: Mask): nat {
    Pop(x) as nat
  }

  lemma BitCounts(x: Mask)
    ensures x == 0 ==> BitCount(x) == 0
    ensures x != 0 ==> BitCount(x) == BitCount(Rest(x)) + 1
  {
    PopCounts(x);
    if x != 0 {
      PopCounts(Rest(x));
      Successor(Pop(Rest(x)));
    }
  }

  // ----- dominated masks

  predicate Dominated(c: Mask, m: Mask) {
    c & !m == 0
  }

  /** The condition on a mask to inherit from. */
  predicate Admissible(c: Mask, m: Mask) {
    && Dominated(c, m)
    && (c & CEN_SPECIFIC == 0 || c & XPG_SPECIFIC == 0)
    && (c & XPG_CODESET == 0 || c & XPG_NORM_CODESET == 0)
  }

  /** The admissible masks from `c` down to 0. */
  function From(m: Mask, c: Mask): seq<Mask>
    decreases c
  {
    (if Admissible(c, m) then [c] else []) + if c == 0 then [] else From(m, c - 1)
  }

  /** The masks a node inherits from: below its own, or from its own on if it stands for several
      directories. */
  function Inherited(m: Mask, several: bool): seq<Mask> {
    if several then From(m, m) else if m == 0 then [] else From(m, m - 1)
  }

  ghost predicate Decreasing(l: seq<Mask>) {
    forall j, k :: 0 <= j < k < |l| ==> l[k] < l[j]
  }

  lemma {:induction false} FromIs(m: Mask, c: Mask)
    ensures Decreasing(From(m, c)) && forall x :: x in From(m, c) <==> x <= c && Admissible(x, m)
    decreases c
  {
    if c == 0 {
      forall x ensures x in From(m, c) <==> x <= c && Admissible(x, m) {
        Steps(x, c);
      }
    } else {
      FromIs(m, c - 1);
      Prepended(m, c, From(m, c - 1));
    }
  }

  lemma Prepended(m: Mask, c: Mask, rest: seq<Mask>)
    requires c != 0 && Decreasing(rest) && forall x :: x in rest <==> x <= c - 1 && Admissible(x, m)
    ensures
      var l := (if Admissible(c, m) then [c] else []) + rest;
      Decreasing(l) && forall x :: x in l <==> x <= c && Admissible(x, m)
  {
    var l := (if Admissible(c, m) then [c] else []) + rest;
    forall x ensures x in l <==> x <= c && Admissible(x, m) {
      Steps(x, c);
    }
    forall j, k | 0 <= j < k < |l| ensures l[k] < l[j] {
      if Admissible(c, m) && j == 0 {
        assert l[k] == rest[k - 1] && rest[k - 1] in rest;
        Between(l[k], c);
      }
    }
  }

  lemma Between(x: bv8, c: bv8)
    requires c != 0 && x <= c - 1
    ensures x < c
  {}

  /** Exactly the admissible masks, in decreasing order. */
  lemma InheritedIs(m: Mask, several: bool)
    ensures Decreasing(Inherited(m, several))
    ensures forall x :: x in Inherited(m, several) <==> Admissible(x, m) && (several || x != m)
  {
    if several {
      FromIs(m, m);
      forall x ensures Admissible(x, m) ==> x <= m {
        DominatedBelow(x, m);
      }
    } else if m != 0 {
      FromIs(m, m - 1);
      forall x ensures Admissible(x, m) && x != m ==> x <= m - 1 {
        DominatedBelow(x, m);
      }
    } else {
      forall x ensures Admissible(x, m) ==> x == m {
        DominatedBelow(x, m);
      }
    }
  }

  lemma Below(x: bv8, m: bv8)
    ensures x & !m == 0 ==> x <= m
    ensures x & !m == 0 && x != m ==> m != 0 && x <= m - 1
  {}

  lemma DominatedBelow(x: Mask, m: Mask)
    ensures Dominated(x, m) ==> x <= m
    ensures Dominated(x, m) && x != m ==> m != 0 && x <= m - 1
  {
    Below(x, m);
  }

  /** The order of masks next to each other. */
  lemma Steps(x: bv8, c: bv8)
    ensures c != 0 ==> (x <= c <==> x == c || x <= c - 1)
    ensures c != 0 ==> c - 1 < c
    ensures c == 0 ==> (x <= c <==> x == c)
  {}

  // ----- how many there are

  /** All dominated masks. */
  function All(m: Mask): (l: seq<Mask>)
    decreases m
  {
    if m == 0 then [0] else All(Rest(m)) + With(All(Rest(m)), m & !Rest(m))
  }

  /** The masks of `l` with the bits of `b`. */
  function With(l: seq<Mask>, b: Mask): (r: seq<Mask>)
    ensures |r| == |l|
  {
    seq(|l|, k requires 0 <= k < |l| => l[k] | b)
  }

  lemma {:induction false} AllCount(m: Mask)
    ensures |All(m)| == Pow2(BitCount(m))
    decreases m
  {
    BitCounts(m);
    if m != 0 {
      AllCount(Rest(m));
    }
  }

  lemma LowestBit(c: bv8, m: bv8, r: bv8, b: bv8)
    requires m != 0 && c & !m == 0 && r == m & (m - 1) && b == m & !r
    ensures c & !r == 0 || ((c & r) & !r == 0 && c == (c & r) | b)
  {}

  lemma WithBits(l: seq<Mask>, b: Mask, x: Mask, c: Mask)
    requires x in l && c == x | b
    ensures c in With(l, b)
  {
    var k :| 0 <= k < |l| && l[k] == x;
    assert With(l, b)[k] == c;
  }

  /** A dominated mask has the lowest bit or is dominated without it. */
  lemma TakeLowest(m: Mask, c: Mask) returns (x: Mask)
    requires Dominated(c, m) && m != 0
    ensures Dominated(x, Rest(m)) && (c == x || c == x | (m & !Rest(m)))
  {
    LowestBit(c, m, Rest(m), m & !Rest(m));
    x := if Dominated(c, Rest(m)) then c else c & Rest(m);
  }

  lemma InAll(m: Mask, x: Mask, c: Mask)
    requires m != 0 && x in All(Rest(m)) && (c == x || c == x | (m & !Rest(m)))
    ensures c in All(m)
  {
    if c != x {
      WithBits(All(Rest(m)), m & !Rest(m), x, c);
    }
  }

  lemma {:induction false} AllOfThem(m: Mask, c: Mask)
    requires Dominated(c, m)
    ensures c in All(m)
    decreases m
  {
    if m == 0 {
      assert c == 0;
    } else {
      var x := TakeLowest(m, c);
      AllOfThem(Rest(m), x);
      InAll(m, x, c);
    }
  }

  function Elements(l: seq<Mask>): set<Mask> {
    set x | x in l
  }

  lemma {:induction false} ElementCount(l: seq<Mask>)
    ensures |Elements(l)| <= |l|
    ensures Decreasing(l) ==> |Elements(l)| == |l|
  {
    if l != [] {
      var rest := l[1..];
      ElementCount(rest);
      assert Elements(l) == Elements(rest) + {l[0]};
      if Decreasing(l) {
        assert forall k :: 0 <= k < |rest| ==> rest[k] == l[k + 1];
        assert l[0] !in rest;
      }
    }
  }

  lemma SubsetCount(a: set<Mask>, b: set<Mask>)
    requires a <= b
    ensures |a| <= |b|
  {
    assert b == a + (b - a);
    assert |b| == |a| + |b - a|;
  }

  /** There are never more masks to inherit from than `1 << pop (mask)`. */
  lemma InheritedFit(m: Mask, several: bool)
    ensures |Inherited(m, several)| <= Pow2(BitCount(m))
  {
    var l := Inherited(m, several);
    InheritedIs(m, several);
    AllCount(m);
    ElementCount(l);
    ElementCount(All(m));
    forall x | x in Elements(l) ensures x in Elements(All(m)) {
      AllOfThem(m, x);
    }
    SubsetCount(Elements(l), Elements(All(m)));
  }
}
