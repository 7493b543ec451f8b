/** The saturating sizes of intl/xsize.h: SIZE_MAX stands for everything too large. */
module PrintfSize {

  const SIZE_MAX: nat := 0xFFFF_FFFF_FFFF_FFFF

  type size = n: nat | n <= SIZE_MAX

  function Min(a: nat, b: nat): nat {
    if a <= b then a else b
  }

  /** `xsum`: the addition wraps around, which shows in a sum below its first operand. */
  function Xsum(size1: size, size2: size): size {
    var sum := (size1 + size2) % (SIZE_MAX + 1);
    if sum >= size1 then sum else SIZE_MAX
  }

  /** `xmax`. */
  function Xmax(size1: nat, size2: nat): nat {
    if size1 >= size2 then size1 else size2
  }

  /** `xtimes`. */
  function Xtimes(n: size, elsize: size): size
    requires elsize > 0
  {
    if n <= SIZE_MAX / elsize then TimesFits(n, elsize); n * elsize else SIZE_MAX
  }

  lemma TimesFits(n: nat, e: nat)
    requires e > 0
    ensures n <= SIZE_MAX / e <==> n * e <= SIZE_MAX
  {
    var q := SIZE_MAX / e;
    assert q * e <= SIZE_MAX < (q + 1) * e;
    if n <= q {
      assert n * e <= q * e;
    } else {
      assert n * e >= (q + 1) * e;
    }
  }

  /** Both operations are the exact ones cut off at SIZE_MAX. */
  lemma XsumSaturates(a: size, b: size)
    ensures Xsum(a, b) == Min(a + b, SIZE_MAX)
  {
    if a + b > SIZE_MAX {
      assert (a + b) % (SIZE_MAX + 1) == a + b - (SIZE_MAX + 1);
    }
  }

  lemma XtimesSaturates(n: size, e: size)
    requires e > 0
    ensures Xtimes(n, e) == Min(n * e, SIZE_MAX)
  {
    TimesFits(n, e);
  }

  // ----- decimal numbers

  predicate Digit(c: char) {
    '0' <= c <= '9'
  }

  predicate Digits(s: string) {
    forall k :: 0 <= k < |s| ==> Digit(s[k])
  }

  function Decimal(s: string): nat
    requires Digits(s)
  {
    if s == [] then 0 else 10 * Decimal(s[..|s| - 1]) + (s[|s| - 1] as nat - '0' as nat)
  }

  /** One step of the loop that reads a number. */
  function AddDigit(n: size, c: char): size
    requires Digit(c)
  {
    Xsum(Xtimes(n, 10), c as nat - '0' as nat)
  }

  lemma AddDigitSaturates(m: nat, c: char)
    requires Digit(c)
    ensures AddDigit(Min(m, SIZE_MAX), c) == Min(10 * m + (c as nat - '0' as nat), SIZE_MAX)
  {
    XtimesSaturates(Min(m, SIZE_MAX), 10);
    XsumSaturates(Xtimes(Min(m, SIZE_MAX), 10), c as nat - '0' as nat);
  }
}
