/** Bitwise operators on numbers of any size. */
module Bits {

  function Pow2(n: nat): (r: nat)
    ensures r >= 1
  {
    if n == 0 then 1 else 2 * Pow2(n - 1)
  }

  function Xor(a: nat, b: nat): nat
    decreases a + b
  {
    if a == 0 && b == 0 then 0 else 2 * Xor(a / 2, b / 2) + if a % 2 != b % 2 then 1 else 0
  }

  function And(a: nat, b: nat): nat
    decreases a + b
  {
    if a == 0 && b == 0 then 0 else 2 * And(a / 2, b / 2) + if a % 2 == b % 2 == 1 then 1 else 0
  }

  /** The `k` lowest bits, and the others. */
  function Low(a: nat, k: nat): nat {
    if k == 0 then 0 else 2 * Low(a / 2, k - 1) + a % 2
  }

  function High(a: nat, k: nat): nat {
    if k == 0 then a else High(a / 2, k - 1)
  }

  lemma Doubled(h: nat, p: nat)
    ensures h * (2 * p) == 2 * (h * p)
  {}

  lemma {:induction false} LowAndHigh(a: nat, k: nat)
    ensures a == High(a, k) * Pow2(k) + Low(a, k) && Low(a, k) < Pow2(k)
  {
    if k > 0 {
      LowAndHigh(a / 2, k - 1);
      Doubled(High(a / 2, k - 1), Pow2(k - 1));
    }
  }

  lemma Halves(a: nat, b: nat)
    ensures Xor(a, b) / 2 == Xor(a / 2, b / 2) && Xor(a, b) % 2 == if a % 2 != b % 2 then 1 else 0
    ensures And(a, b) / 2 == And(a / 2, b / 2) && And(a, b) % 2 == if a % 2 == b % 2 == 1 then 1 else 0
  {}

  lemma LowHalf(a: nat, k: nat)
    requires k > 0
    ensures Low(a, k) / 2 == Low(a / 2, k - 1) && Low(a, k) % 2 == a % 2
  {}

  /** The operators work separately on the low and the high bits. */
  lemma {:induction false} XorSplit(a: nat, b: nat, k: nat)
    ensures Low(Xor(a, b), k) == Xor(Low(a, k), Low(b, k))
    ensures High(Xor(a, b), k) == Xor(High(a, k), High(b, k))
  {
    if k > 0 {
      Halves(a, b);
      LowHalf(a, k);
      LowHalf(b, k);
      XorSplit(a / 2, b / 2, k - 1);
      Halves(Low(a, k), Low(b, k));
    }
  }

  lemma {:induction false} AndSplit(a: nat, b: nat, k: nat)
    ensures Low(And(a, b), k) == And(Low(a, k), Low(b, k))
    ensures High(And(a, b), k) == And(High(a, k), High(b, k))
  {
    if k > 0 {
      Halves(a, b);
      LowHalf(a, k);
      LowHalf(b, k);
      AndSplit(a / 2, b / 2, k - 1);
      Halves(Low(a, k), Low(b, k));
    }
  }

  lemma {:induction false} XorSelf(a: nat)
    ensures Xor(a, a) == 0
  {
    if a > 0 {
      XorSelf(a / 2);
    }
  }

  lemma {:induction false} XorZero(a: nat)
    ensures Xor(a, 0) == a
  {
    if a > 0 {
      XorZero(a / 2);
    }
  }

  lemma {:induction false} AndZero(a: nat)
    ensures And(a, 0) == 0
  {
    if a > 0 {
      AndZero(a / 2);
    }
  }

  lemma NibbleMask(a: nat)
    requires a < 16
    ensures And(a, 15) == a
  {
    assert And(a / 16, 0) == 0 by { AndZero(a / 16); }
    assert And(a / 8, 1) == a / 8 % 2;
    assert And(a / 4, 3) == a / 4;
    assert And(a / 2, 7) == a / 2;
  }

  lemma {:induction false} LowTwice(a: nat, w: nat, k: nat)
    requires k <= w
    ensures Low(Low(a, w), k) == Low(a, k)
  {
    if k > 0 {
      LowHalf(a, w);
      LowTwice(a / 2, w - 1, k - 1);
    }
  }
}
