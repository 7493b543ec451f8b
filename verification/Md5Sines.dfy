/** The constants of RFC 1321, section 3.4: T[i] is the integer part of 4294967296 times abs(sin(i)), i in radians. */
module Md5Sines {
  import opened Md5Spec

  function Factorial(n: nat): (r: nat)
    ensures r > 0
  {
    if n == 0 then 1 else n * Factorial(n - 1)
  }

  function Power(x: real, n: nat): real {
    if n == 0 then 1.0 else x * Power(x, n - 1)
  }

  function Sign(n: nat): real {
    if n % 2 == 0 then 1.0 else -1.0
  }

  /** The first `n` terms of the series of sine and cosine. */
  function SinSum(x: real, n: nat): real {
    if n == 0 then 0.0 else SinSum(x, n - 1) + Sign(n - 1) * Power(x, 2 * n - 1) / Factorial(2 * n - 1) as real
  }

  function CosSum(x: real, n: nat): real {
    if n == 0 then 0.0 else CosSum(x, n - 1) + Sign(n - 1) * Power(x, 2 * n - 2) / Factorial(2 * n - 2) as real
  }

  /** The terms of the series alternate and become smaller, so that an even number of them is below the sum and an odd
      number above. */
  ghost predicate Bracketed(sin: real -> real, cos: real -> real, x: real, n: nat) {
    && SinSum(x, 2 * n) <= sin(x) <= SinSum(x, 2 * n + 1)
    && CosSum(x, 2 * n) <= cos(x) <= CosSum(x, 2 * n + 1)
  }

  ghost predicate Adds(sin: real -> real, cos: real -> real, x: real, y: real) {
    && sin(x + y) == sin(x) * cos(y) + cos(x) * sin(y)
    && cos(x + y) == cos(x) * cos(y) - sin(x) * sin(y)
  }

  ghost predicate OnCircle(sin: real -> real, cos: real -> real, x: real) {
    sin(x) * sin(x) + cos(x) * cos(x) == 1.0
  }

  /** Sine and cosine: on the unit circle, with the laws of addition, and given by their series between 0 and 1. */
  ghost predicate AreSineAndCosine(sin: real -> real, cos: real -> real) {
    && (forall x :: OnCircle(sin, cos, x))
    && (forall x, y :: Adds(sin, cos, x, y))
    && (forall x, n: nat :: 0.0 <= x <= 1.0 ==> Bracketed(sin, cos, x, n))
  }

  // ----- sines in fixed point

  /** Numbers in units of 1 / ONE. */
  const ONE: int := 1000000000000000000000000000000000

  datatype Point = Point(s: int, c: int)

  const FIRST := Point(841470984807896506652502321630298, 540302305868139717400936607442976)

  lemma {:induction false} PowerOfOne(n: nat)
    ensures Power(1.0, n) == 1.0
  {
    if n > 0 {
      PowerOfOne(n - 1);
    }
  }

  /** A sum as a fraction. */
  ghost predicate Fraction(v: real, num: int, den: nat) {
    den > 0 && v * den as real == num as real
  }

  lemma FractionNext(v: real, num: int, den: nat, m: nat, sign: int, v': real)
    requires Fraction(v, num, den) && m > 0 && v' == v + sign as real / (den * m) as real
    ensures Fraction(v', num * m + sign, den * m)
  {
    var d, e := den as real, m as real;
    assert (den * m) as real == d * e;
    assert v' * (d * e) == v * d * e + sign as real;
  }

  lemma FactorialNext(k: nat, den: nat)
    requires Factorial(k) == den
    ensures Factorial(k + 2) == den * ((k + 1) * (k + 2))
  {
    var f := Factorial(k + 1);
    assert f == (k + 1) * den;
    assert Factorial(k + 2) == (k + 2) * f;
  }

  function Parity(n: nat): int {
    if n % 2 == 0 then 1 else -1
  }

  /** The sum with the next term. */
  lemma SumNext(v: real, num: int, k: nat, den: nat, sign: int, v': real)
    requires Fraction(v, num, den) && Factorial(k) == den
    requires v' == v + sign as real / Factorial(k + 2) as real
    ensures
      var m := (k + 1) * (k + 2);
      Factorial(k + 2) == den * m && Fraction(v', num * m + sign, den * m)
  {
    var m := (k + 1) * (k + 2);
    FactorialNext(k, den);
    FractionNext(v, num, den, m, sign, v');
  }

  lemma TermOfOne(n: nat, k: nat)
    ensures Sign(n) * Power(1.0, k) / Factorial(k) as real == Parity(n) as real / Factorial(k) as real
  {
    PowerOfOne(k);
    assert Sign(n) * Power(1.0, k) == Parity(n) as real;
  }

  lemma SinNext(n: nat, num: int, den: nat)
    requires n >= 1 && Factorial(2 * n - 1) == den && Fraction(SinSum(1.0, n), num, den)
    ensures
      var m, sign := (2 * n) * (2 * n + 1), Parity(n);
      Factorial(2 * n + 1) == den * m && Fraction(SinSum(1.0, n + 1), num * m + sign, den * m)
  {
    TermOfOne(n, 2 * n + 1);
    SumNext(SinSum(1.0, n), num, 2 * n - 1, den, Parity(n), SinSum(1.0, n + 1));
  }

  lemma CosNext(n: nat, num: int, den: nat)
    requires n >= 1 && Factorial(2 * n - 2) == den && Fraction(CosSum(1.0, n), num, den)
    ensures
      var m, sign := (2 * n - 1) * (2 * n), Parity(n);
      Factorial(2 * n) == den * m && Fraction(CosSum(1.0, n + 1), num * m + sign, den * m)
  {
    TermOfOne(n, 2 * n);
    SumNext(CosSum(1.0, n), num, 2 * n - 2, den, Parity(n), CosSum(1.0, n + 1));
  }

  lemma SinAtOne()
    ensures FIRST.s as real - 1.0 <= SinSum(1.0, 16) * ONE as real
    ensures SinSum(1.0, 17) * ONE as real <= FIRST.s as real + 1.0
  {
    assert Fraction(SinSum(1.0, 1), 1, 1) by {
      PowerOfOne(1);
      PowerOfOne(0);
    }
    SinNext(1, 1, 1);
    SinNext(2, 5, 6);
    SinNext(3, 101, 120);
    SinNext(4, 4241, 5040);
    SinNext(5, 305353, 362880);
    SinNext(6, 33588829, 39916800);
    SinNext(7, 5239857325, 6227020800);
    SinNext(8, 1100370038249, 1307674368000);
    SinNext(9, 299300650403729, 355687428096000);
    SinNext(10, 102360822438075317, 121645100408832000);
    SinNext(11, 42991545423991633141, 51090942171709440000);
    SinNext(12, 21753721984539766369345, 25852016738884976640000);
    SinNext(13, 13052233190723859821607001, 15511210043330985984000000);
    SinNext(14, 9162667699888149594768114701, 10888869450418352160768000000);
    SinNext(15, 7440086172309177470951709137213, 8841761993739701954543616000000);
    SinNext(16, 6919280140247535047985089497608089, 8222838654177922817725562880000000);
  }

  lemma CosAtOne()
    ensures FIRST.c as real - 1.0 <= CosSum(1.0, 16) * ONE as real
    ensures CosSum(1.0, 17) * ONE as real <= FIRST.c as real + 1.0
  {
    assert Fraction(CosSum(1.0, 1), 1, 1) by {
      PowerOfOne(1);
      PowerOfOne(0);
    }
    CosNext(1, 1, 1);
    CosNext(2, 1, 2);
    CosNext(3, 13, 24);
    CosNext(4, 389, 720);
    CosNext(5, 21785, 40320);
    CosNext(6, 1960649, 3628800);
    CosNext(7, 258805669, 479001600);
    CosNext(8, 47102631757, 87178291200);
    CosNext(9, 11304631621681, 20922789888000);
    CosNext(10, 3459217276234385, 6402373705728000);
    CosNext(11, 1314502564969066301, 2432902008176640000);
    CosNext(12, 607300185015708631061, 1124000727777607680000);
    CosNext(13, 335229702128671164345673, 620448401733239439360000);
    CosNext(14, 217899306383636256824687449, 403291461126605635584000000);
    CosNext(15, 164731875626029010159463711445, 304888344611713860501504000000);
    CosNext(16, 143316731794645238838733428957149, 265252859812191058636308480000000);
  }

  // ----- errors

  /** The number is `n` units, up to `e` units. */
  ghost predicate Near(v: real, n: int, e: int) {
    -(e as real) <= v * ONE as real - n as real <= e as real
  }

  predicate Small(v: real) {
    -1.0 <= v <= 1.0
  }

  ghost predicate Within(v: real, m: int, e: int) {
    -(e as real) - 2.0 <= v * ONE as real - m as real / ONE as real <= e as real + 2.0
  }

  lemma Positive(a: real, b: real)
    requires a > 0.0 && b > 0.0
    ensures a * b > 0.0
  {}

  lemma NoSign(a: real, b: real)
    requires a >= 0.0 && b >= 0.0
    ensures a * b >= 0.0
  {}

  lemma Below(a: real, b: real, e: real)
    requires -1.0 <= a <= 1.0 && -e <= b <= e
    ensures -e <= a * b <= e
  {
    var c := if b >= 0.0 then b else -b;
    NoSign(1.0 - a, c);
    NoSign(1.0 + a, c);
    assert (1.0 - a) * c == c - a * c && (1.0 + a) * c == c + a * c;
    assert a * -b == -(a * b);
  }

  /** The error of a product with a number that is known up to one unit. */
  lemma ProductNear(v: real, n: int, e: int, w: real, m: int)
    requires Small(v) == true && Near(v, n, e) == true && Small(w) == true && Near(w, m, 1) == true && 0 <= e <= ONE
    ensures Within(v * w, n * m, e) == true
  {
    ProductOf(v, n as real, e as real, w, m as real, ONE as real);
    assert (n * m) as real == n as real * m as real;
  }

  lemma ProductOf(v: real, n: real, e: real, w: real, m: real, one: real)
    requires -1.0 <= v <= 1.0 && -1.0 <= w <= 1.0 && one > 0.0 && 0.0 <= e <= one
    requires -e <= v * one - n <= e && -1.0 <= w * one - m <= 1.0
    ensures -e - 2.0 <= v * w * one - n * m / one <= e + 2.0
  {
    var half := n / one / 2.0;
    HalfBelow(v, n, e, one, half);
    Below(w, v * one - n, e);
    Below(half, w * one - m, 1.0);
    Split(v, n, w, m, one, half);
  }

  lemma HalfBelow(v: real, n: real, e: real, one: real, half: real)
    requires -1.0 <= v <= 1.0 && one > 0.0 && 0.0 <= e <= one && -e <= v * one - n <= e && half == n / one / 2.0
    ensures n == 2.0 * half * one && -1.0 <= half <= 1.0
  {
    assert n == 2.0 * half * one;
    Below(v, one, one);
    assert (half - 1.0) * one == half * one - one && (-1.0 - half) * one == -one - half * one;
    if half > 1.0 {
      Positive(half - 1.0, one);
    } else if half < -1.0 {
      Positive(-1.0 - half, one);
    }
  }

  lemma Split(v: real, n: real, w: real, m: real, one: real, half: real)
    requires one > 0.0 && n == 2.0 * half * one
    ensures v * w * one - n * m / one == w * (v * one - n) + 2.0 * (half * (w * one - m))
  {
    assert n * m / one == 2.0 * half * m;
    assert w * n == 2.0 * half * (w * one);
  }

  function Error(n: nat): int
    requires n >= 1
  {
    if n == 1 then 1 else 2 * Error(n - 1) + 5
  }

  lemma {:induction false} ErrorsGrow(n: nat, m: nat)
    requires 1 <= n <= m
    ensures 1 <= Error(n) <= Error(m)
    decreases m
  {
    if n < m {
      ErrorsGrow(n, m - 1);
    } else if n > 1 {
      ErrorsGrow(n - 1, n - 1);
    }
  }

  lemma LastError()
    ensures Error(64) == 55340232221128654843 && Error(64) <= ONE
  {
    assert Error(8) == 763;
    assert Error(16) == 196603;
    assert Error(24) == 50331643;
    assert Error(32) == 12884901883;
    assert Error(40) == 3298534883323;
    assert Error(48) == 844424930131963;
    assert Error(56) == 216172782113783803;
  }

  lemma Sized(sin: real -> real, cos: real -> real, x: real)
    requires AreSineAndCosine(sin, cos)
    ensures Small(sin(x)) == true && Small(cos(x)) == true
  {
    assert OnCircle(sin, cos, x);
  }

  lemma Between(y: real, e: real, r: real)
    requires e > 0.0 && y * e == r && 0.0 <= r <= e
    ensures 0.0 <= y <= 1.0
  {
    assert -y * e == -(y * e) && (y - 1.0) * e == y * e - e;
    if y < 0.0 {
      Positive(-y, e);
    } else if y > 1.0 {
      Positive(y - 1.0, e);
    }
  }

  /** The integer quotient is the quotient up to one. */
  lemma Floored(n: int, d: int, x: real)
    requires d > 0 && x * d as real == n as real
    ensures x - 1.0 <= (n / d) as real <= x
  {
    var q, r, e := n / d, n % d, d as real;
    assert n == q * d + r;
    assert (q * d) as real == q as real * e;
    assert (x - q as real) * e == x * e - q as real * e;
    Between(x - q as real, e, r as real);
  }

  lemma FirstKnown(sin: real -> real, cos: real -> real)
    requires AreSineAndCosine(sin, cos)
    ensures Known(sin, cos, 1, FIRST)
  {
    FirstNear(sin, cos);
  }

  lemma FirstNear(sin: real -> real, cos: real -> real)
    requires AreSineAndCosine(sin, cos)
    ensures Near(sin(1.0), FIRST.s, 1) == true && Near(cos(1.0), FIRST.c, 1) == true
  {
    assert Bracketed(sin, cos, 1.0, 8);
    SinAtOne();
    CosAtOne();
  }

  /** A sum of two products, in units. */
  lemma SumNear(v: real, x: real, m: int, e: int, y: real, n: int)
    requires v == x + y && 0 <= e && Within(x, m, e) == true && Within(y, n, e) == true
    ensures Near(v, (m + n) / ONE, 2 * e + 5)
  {
    var one := ONE as real;
    var z := m as real / one + n as real / one;
    assert z * one == (m + n) as real;
    Floored(m + n, ONE, z);
  }

  ghost predicate Known(sin: real -> real, cos: real -> real, n: nat, p: Point) {
    n >= 1 && forall x {:trigger Near(sin(x), p.s, Error(n))} {:trigger Near(cos(x), p.c, Error(n))} ::
      x == n as real ==> Near(sin(x), p.s, Error(n)) && Near(cos(x), p.c, Error(n))
  }

  /** The two numbers times the two at the angle 1. */
  lemma Products(s: real, c: real, p: Point, e: int, s1: real, c1: real)
    requires Near(s, p.s, e) == true && Near(c, p.c, e) == true && Near(s1, FIRST.s, 1) == true
      && Near(c1, FIRST.c, 1) == true
    requires 0 <= e <= ONE && Small(s) == true && Small(c) == true && Small(s1) == true && Small(c1) == true
    ensures Within(s * c1, p.s * FIRST.c, e) == true && Within(c * s1, p.c * FIRST.s, e) == true
    ensures Within(c * c1, p.c * FIRST.c, e) == true && Within(s * s1, p.s * FIRST.s, e) == true
  {
    ProductNear(s, p.s, e, c1, FIRST.c);
    ProductNear(c, p.c, e, s1, FIRST.s);
    ProductNear(c, p.c, e, c1, FIRST.c);
    ProductNear(s, p.s, e, s1, FIRST.s);
  }

  lemma Negated(v: real, m: int, e: int)
    requires Within(v, m, e)
    ensures Within(-v, -m, e)
  {}

  ghost predicate Sum(v: real, a: real, b: real, c: real, d: real) {
    v == a * b + c * d
  }

  lemma SineTurned(v: real, s: real, c: real, p: Point, e: int, s1: real, c1: real)
    requires Sum(v, s, c1, c, s1) && 0 <= e
    requires Within(s * c1, p.s * FIRST.c, e) == true && Within(c * s1, p.c * FIRST.s, e) == true
    ensures Near(v, (p.s * FIRST.c + p.c * FIRST.s) / ONE, 2 * e + 5) == true
  {
    SumNear(v, s * c1, p.s * FIRST.c, e, c * s1, p.c * FIRST.s);
  }

  lemma CosineTurned(v: real, s: real, c: real, p: Point, e: int, s1: real, c1: real)
    requires Sum(v, c, c1, s, -s1) && 0 <= e
    requires Within(c * c1, p.c * FIRST.c, e) == true && Within(s * s1, p.s * FIRST.s, e) == true
    ensures Near(v, (p.c * FIRST.c - p.s * FIRST.s) / ONE, 2 * e + 5) == true
  {
    Negated(s * s1, p.s * FIRST.s, e);
    SumNear(v, c * c1, p.c * FIRST.c, e, -(s * s1), -(p.s * FIRST.s));
  }

  lemma Facts(sin: real -> real, cos: real -> real, x: real)
    requires AreSineAndCosine(sin, cos)
    ensures Sum(sin(x + 1.0), sin(x), cos(1.0), cos(x), sin(1.0)) == true
    ensures Sum(cos(x + 1.0), cos(x), cos(1.0), sin(x), -sin(1.0)) == true
  {
    assert Adds(sin, cos, x, 1.0);
  }

  lemma TurnedBy1(sin: real -> real, cos: real -> real, x: real, p: Point, e: int)
    requires AreSineAndCosine(sin, cos) == true && Near(sin(x), p.s, e) == true && Near(cos(x), p.c, e) == true
    requires 0 <= e <= ONE
    ensures Near(sin(x + 1.0), (p.s * FIRST.c + p.c * FIRST.s) / ONE, 2 * e + 5) == true
    ensures Near(cos(x + 1.0), (p.c * FIRST.c - p.s * FIRST.s) / ONE, 2 * e + 5) == true
  {
    var s, c, s1, c1 := sin(x), cos(x), sin(1.0), cos(1.0);
    FirstNear(sin, cos);
    Sized(sin, cos, x);
    Sized(sin, cos, 1.0);
    Facts(sin, cos, x);
    Products(s, c, p, e, s1, c1);
    SineTurned(sin(x + 1.0), s, c, p, e, s1, c1);
    CosineTurned(cos(x + 1.0), s, c, p, e, s1, c1);
  }

  lemma ErrorFits(n: nat)
    requires 1 <= n <= 64
    ensures 0 <= Error(n) <= ONE && (n < 64 ==> Error(n + 1) == 2 * Error(n) + 5)
  {
    ErrorsGrow(n, 64);
    LastError();
  }

  /** On to the next integer. */
  lemma Next(sin: real -> real, cos: real -> real, n: nat, p: Point, q: Point)
    requires AreSineAndCosine(sin, cos) == true && Known(sin, cos, n, p) && n < 64
    requires q == Point((p.s * FIRST.c + p.c * FIRST.s) / ONE, (p.c * FIRST.c - p.s * FIRST.s) / ONE)
    ensures Known(sin, cos, n + 1, q)
  {
    var x, e := n as real, Error(n);
    ErrorFits(n);
    assert Near(sin(x), p.s, e) && Near(cos(x), p.c, e);
    TurnedBy1(sin, cos, x, p, e);
    assert (n + 1) as real == x + 1.0;
  }

  // ----- the constants

  function Abs(x: real): real {
    if x < 0.0 then -x else x
  }

  /** `t` is T[n]. */
  ghost predicate SineConstant(sin: real -> real, n: nat, t: int) {
    t as real <= 4294967296.0 * Abs(sin(n as real)) < t as real + 1.0
  }

  ghost predicate SineRow(sin: real -> real, n: nat, row: Row) {
    && SineConstant(sin, n, row.t0 as int) && SineConstant(sin, n + 1, row.t1 as int)
    && SineConstant(sin, n + 2, row.t2 as int) && SineConstant(sin, n + 3, row.t3 as int)
  }

  /** The rows hold T[n], T[n + 1] and so on. */
  ghost predicate SineRows(sin: real -> real, n: nat, rows: RowList)
    decreases rows
  {
    match rows
    case End => true
    case Then(row, rest) => SineRow(sin, n, row) && SineRows(sin, n + 4, rest)
  }

  /** The margin leaves no doubt about the integer part. */
  predicate Clear(s: int, t: int) {
    var size := if s < 0 then -s else s;
    t * ONE <= 4294967296 * (size - 55340232221128654843) && 4294967296 * (size + 55340232221128654843) < (t + 1) * ONE
  }

  lemma Constant(sin: real -> real, cos: real -> real, n: nat, p: Point, u: int)
    requires AreSineAndCosine(sin, cos) && Known(sin, cos, n, p) && n <= 64 && Clear(p.s, u)
    ensures SineConstant(sin, n, u)
  {
    assert Near(sin(n as real), p.s, Error(n));
    ErrorsGrow(n, 64);
    LastError();
  }

  lemma Row1(sin: real -> real, cos: real -> real)
    requires AreSineAndCosine(sin, cos)
    ensures Known(sin, cos, 4, Point(-756802495307928251372639094511827, -653643620863611914639168183097746)) == true
    ensures SineRow(sin, 1, Row(0, 0, 1, 2, 3, 0xd76aa478, 0xe8c7b756, 0x242070db, 0xc1bdceee))
  {
    FirstKnown(sin, cos);
    Constant(sin, cos, 1, Point(841470984807896506652502321630298, 540302305868139717400936607442976), 3614090360);
    Next(sin, cos, 1, Point(841470984807896506652502321630298, 540302305868139717400936607442976),
      Point(909297426825681695396019865911742, -416146836547142386997568229500762));
    Constant(sin, cos, 2, Point(909297426825681695396019865911742, -416146836547142386997568229500762), 3905402710);
    Next(sin, cos, 2, Point(909297426825681695396019865911742, -416146836547142386997568229500762),
      Point(141120008059867222100744802808108, -989992496600445457271572794731258));
    Constant(sin, cos, 3, Point(141120008059867222100744802808108, -989992496600445457271572794731258), 606105819);
    Next(sin, cos, 3, Point(141120008059867222100744802808108, -989992496600445457271572794731258),
      Point(-756802495307928251372639094511827, -653643620863611914639168183097746));
    Constant(sin, cos, 4, Point(-756802495307928251372639094511827, -653643620863611914639168183097746), 3250441966);
  }

  lemma Row2(sin: real -> real, cos: real -> real)
    requires AreSineAndCosine(sin, cos)
    ensures Known(sin, cos, 8, Point(989358246623381777808123598245279, -145500033808613525868841381831193)) == true
    ensures SineRow(sin, 5, Row(0, 4, 5, 6, 7, 0xf57c0faf, 0x4787c62a, 0xa8304613, 0xfd469501))
  {
    Row1(sin, cos);
    Next(sin, cos, 4, Point(-756802495307928251372639094511827, -653643620863611914639168183097746),
      Point(-958924274663138468893154406155989, 283662185463226264466639171513557));
    Constant(sin, cos, 5, Point(-958924274663138468893154406155989, 283662185463226264466639171513557), 4118548399);
    Next(sin, cos, 5, Point(-958924274663138468893154406155989, 283662185463226264466639171513557),
      Point(-279415498198925872811555446611893, 960170286650366020545652297922918));
    Constant(sin, cos, 6, Point(-279415498198925872811555446611893, 960170286650366020545652297922918), 1200080426);
    Next(sin, cos, 6, Point(-279415498198925872811555446611893, 960170286650366020545652297922918),
      Point(656986598718789090396999091593629, 753902254343304638141197521719176));
    Constant(sin, cos, 7, Point(656986598718789090396999091593629, 753902254343304638141197521719176), 2821735955);
    Next(sin, cos, 7, Point(656986598718789090396999091593629, 753902254343304638141197521719176),
      Point(989358246623381777808123598245279, -145500033808613525868841381831193));
    Constant(sin, cos, 8, Point(989358246623381777808123598245279, -145500033808613525868841381831193), 4249261313);
  }

  lemma Row3(sin: real -> real, cos: real -> real)
    requires AreSineAndCosine(sin, cos)
    ensures Known(sin, cos, 12, Point(-536572918000434971665374228242395, 843853958732492104653955293173610)) == true
    ensures SineRow(sin, 9, Row(0, 8, 9, 10, 11, 0x698098d8, 0x8b44f7af, 0xffff5bb1, 0x895cd7be))
  {
    Row2(sin, cos);
    Next(sin, cos, 8, Point(989358246623381777808123598245279, -145500033808613525868841381831193),
      Point(412118485241756569756272566352430, -911130261884676988368294711181156));
    Constant(sin, cos, 9, Point(412118485241756569756272566352430, -911130261884676988368294711181156), 1770035416);
    Next(sin, cos, 9, Point(412118485241756569756272566352430, -911130261884676988368294711181156),
      Point(-544021110889369813404747661851372, -839071529076452452258863947824055));
    Constant(sin, cos, 10, Point(-544021110889369813404747661851372, -839071529076452452258863947824055), 2336552879);
    Next(sin, cos, 10, Point(-544021110889369813404747661851372, -839071529076452452258863947824055),
      Point(-999990206550703457051564899025510, 4425697988050785748355024723942));
    Constant(sin, cos, 11, Point(-999990206550703457051564899025510, 4425697988050785748355024723942), 4294925233);
    Next(sin, cos, 11, Point(-999990206550703457051564899025510, 4425697988050785748355024723942),
      Point(-536572918000434971665374228242395, 843853958732492104653955293173610));
    Constant(sin, cos, 12, Point(-536572918000434971665374228242395, 843853958732492104653955293173610), 2304563134);
  }

  lemma Row4(sin: real -> real, cos: real -> real)
    requires AreSineAndCosine(sin, cos)
    ensures Known(sin, cos, 16, Point(-287903316665065294784456248218613, -957659480323384641899637232651085)) == true
    ensures SineRow(sin, 13, Row(0, 12, 13, 14, 15, 0x6b901122, 0xfd987193, 0xa679438e, 0x49b40821))
  {
    Row3(sin, cos);
    Next(sin, cos, 12, Point(-536572918000434971665374228242395, 843853958732492104653955293173610),
      Point(420167036826640921868955035476876, 907446781450196213852686155474462));
    Constant(sin, cos, 13, Point(420167036826640921868955035476876, 907446781450196213852686155474462), 1804603682);
    Next(sin, cos, 13, Point(420167036826640921868955035476876, 907446781450196213852686155474462),
      Point(990607355694870307875354804014569, 136737218207833594248928876671736));
    Constant(sin, cos, 14, Point(990607355694870307875354804014569, 136737218207833594248928876671736), 4254626195);
    Next(sin, cos, 14, Point(990607355694870307875354804014569, 136737218207833594248928876671736),
      Point(650287840157116865829740270988858, -759687912858821273848146403633267));
    Constant(sin, cos, 15, Point(650287840157116865829740270988858, -759687912858821273848146403633267), 2792965006);
    Next(sin, cos, 15, Point(650287840157116865829740270988858, -759687912858821273848146403633267),
      Point(-287903316665065294784456248218613, -957659480323384641899637232651085));
    Constant(sin, cos, 16, Point(-287903316665065294784456248218613, -957659480323384641899637232651085), 1236535329);
  }

  lemma Sines1(sin: real -> real, cos: real -> real, rest: RowList)
    requires AreSineAndCosine(sin, cos) && SineRows(sin, 17, rest) == true
    ensures SineRows(sin, 1, Round1Rows(rest)) == true
  {
    var last := Then(Row(0, 12, 13, 14, 15, 0x6b901122, 0xfd987193, 0xa679438e, 0x49b40821), rest);
    var third := Then(Row(0, 8, 9, 10, 11, 0x698098d8, 0x8b44f7af, 0xffff5bb1, 0x895cd7be), last);
    var second := Then(Row(0, 4, 5, 6, 7, 0xf57c0faf, 0x4787c62a, 0xa8304613, 0xfd469501), third);
    Row1(sin, cos); Row2(sin, cos); Row3(sin, cos); Row4(sin, cos);
    assert SineRows(sin, 13, last);
    assert SineRows(sin, 9, third);
    assert SineRows(sin, 5, second);
  }

  lemma Row5(sin: real -> real, cos: real -> real)
    requires AreSineAndCosine(sin, cos)
    ensures Known(sin, cos, 20, Point(912945250727627654376099983845660, 408082061813391986062267860927635)) == true
    ensures SineRow(sin, 17, Row(1, 1, 6, 11, 0, 0xf61e2562, 0xc040b340, 0x265e5a51, 0xe9b6c7aa))
  {
    Row4(sin, cos);
    Next(sin, cos, 16, Point(-287903316665065294784456248218613, -957659480323384641899637232651085),
      Point(-961397491879556857261636944869137, -275163338051596922220342656551857));
    Constant(sin, cos, 17, Point(-961397491879556857261636944869137, -275163338051596922220342656551857), 4129170786);
    Next(sin, cos, 17, Point(-961397491879556857261636944869137, -275163338051596922220342656551857),
      Point(-750987246771676103750156084447099, 660316708244080144816100044790437));
    Constant(sin, cos, 18, Point(-750987246771676103750156084447099, 660316708244080144816100044790437), 3225465664);
    Next(sin, cos, 18, Point(-750987246771676103750156084447099, 660316708244080144816100044790437),
      Point(149877209662952329754239321238250, 988704618186669252898352856548135));
    Constant(sin, cos, 19, Point(149877209662952329754239321238250, 988704618186669252898352856548135), 643717713);
    Next(sin, cos, 19, Point(149877209662952329754239321238250, 988704618186669252898352856548135),
      Point(912945250727627654376099983845660, 408082061813391986062267860927635));
    Constant(sin, cos, 20, Point(912945250727627654376099983845660, 408082061813391986062267860927635), 3921069994);
  }

  lemma Row6(sin: real -> real, cos: real -> real)
    requires AreSineAndCosine(sin, cos)
    ensures Known(sin, cos, 24, Point(-905578362006623845135793358527768, 424179007336996975937050944759194)) == true
    ensures SineRow(sin, 21, Row(1, 5, 10, 15, 4, 0xd62f105d, 0x02441453, 0xd8a1e681, 0xe7d3fbc8))
  {
    Row5(sin, cos);
    Next(sin, cos, 20, Point(912945250727627654376099983845660, 408082061813391986062267860927635),
      Point(836655638536056031866480770245002, -547729260224268421384271132950968));
    Constant(sin, cos, 21, Point(836655638536056031866480770245002, -547729260224268421384271132950968), 3593408605);
    Next(sin, cos, 21, Point(836655638536056031866480770245002, -547729260224268421384271132950968),
      Point(-8851309290403875921690256815773, -999960826394637126454174739212667));
    Constant(sin, cos, 22, Point(-8851309290403875921690256815773, -999960826394637126454174739212667), 38016083);
    Next(sin, cos, 22, Point(-8851309290403875921690256815773, -999960826394637126454174739212667),
      Point(-846220404175170635241326271905573, -532833020333397555215757657164111));
    Constant(sin, cos, 23, Point(-846220404175170635241326271905573, -532833020333397555215757657164111), 3634488961);
    Next(sin, cos, 23, Point(-846220404175170635241326271905573, -532833020333397555215757657164111),
      Point(-905578362006623845135793358527768, 424179007336996975937050944759194));
    Constant(sin, cos, 24, Point(-905578362006623845135793358527768, 424179007336996975937050944759194), 3889429448);
  }

  lemma Row7(sin: real -> real, cos: real -> real)
    requires AreSineAndCosine(sin, cos)
    ensures Known(sin, cos, 28, Point(270905788307869019986343092778783, -962605866313566601975453057899276)) == true
    ensures SineRow(sin, 25, Row(1, 9, 14, 3, 8, 0x21e1cde6, 0xc33707d6, 0xf4d50d87, 0x455a14ed))
  {
    Row6(sin, cos);
    Next(sin, cos, 24, Point(-905578362006623845135793358527768, 424179007336996975937050944759194),
      Point(-132351750097773028902005093883603, 991202811863473598083294718815894));
    Constant(sin, cos, 25, Point(-132351750097773028902005093883603, 991202811863473598083294718815894), 568446438);
    Next(sin, cos, 25, Point(-132351750097773028902005093883603, 991202811863473598083294718815894),
      Point(762558450479602737515823293204538, 646919322328640342721383901888881));
    Constant(sin, cos, 26, Point(762558450479602737515823293204538, 646919322328640342721383901888881), 3275163606);
    Next(sin, cos, 26, Point(762558450479602737515823293204538, 646919322328640342721383901888881),
      Point(956375928404503013432340558329161, -292138808733836193371404835837620));
    Constant(sin, cos, 27, Point(956375928404503013432340558329161, -292138808733836193371404835837620), 4107603335);
    Next(sin, cos, 27, Point(956375928404503013432340558329161, -292138808733836193371404835837620),
      Point(270905788307869019986343092778783, -962605866313566601975453057899276));
    Constant(sin, cos, 28, Point(270905788307869019986343092778783, -962605866313566601975453057899276), 1163531501);
  }

  lemma Row8(sin: real -> real, cos: real -> real)
    requires AreSineAndCosine(sin, cos)
    ensures Known(sin, cos, 32, Point(551426681241690550661558166845690, 834223360506510272215526470870260)) == true
    ensures SineRow(sin, 29, Row(1, 13, 2, 7, 12, 0xa9e3e905, 0xfcefa3f8, 0x676f02d9, 0x8d2a4c8a))
  {
    Row7(sin, cos);
    Next(sin, cos, 28, Point(270905788307869019986343092778783, -962605866313566601975453057899276),
      Point(-663633884212967502151173340061082, -748057529689000351765191792255115));
    Constant(sin, cos, 29, Point(-663633884212967502151173340061082, -748057529689000351765191792255115), 2850285829);
    Next(sin, cos, 29, Point(-663633884212967502151173340061082, -748057529689000351765191792255115),
      Point(-988031624092861789987748907294423, 154251449887584050718662146614204));
    Constant(sin, cos, 30, Point(-988031624092861789987748907294423, 154251449887584050718662146614204), 4243563512);
    Next(sin, cos, 30, Point(-988031624092861789987748907294423, 154251449887584050718662146614204),
      Point(-404037645323065006048770899664223, 914742357804531278962435826150320));
    Constant(sin, cos, 31, Point(-404037645323065006048770899664223, 914742357804531278962435826150320), 1735328473);
    Next(sin, cos, 31, Point(-404037645323065006048770899664223, 914742357804531278962435826150320),
      Point(551426681241690550661558166845690, 834223360506510272215526470870260));
    Constant(sin, cos, 32, Point(551426681241690550661558166845690, 834223360506510272215526470870260), 2368359562);
  }

  lemma Sines2(sin: real -> real, cos: real -> real, rest: RowList)
    requires AreSineAndCosine(sin, cos) && SineRows(sin, 33, rest) == true
    ensures SineRows(sin, 17, Round2Rows(rest)) == true
  {
    var last := Then(Row(1, 13, 2, 7, 12, 0xa9e3e905, 0xfcefa3f8, 0x676f02d9, 0x8d2a4c8a), rest);
    var third := Then(Row(1, 9, 14, 3, 8, 0x21e1cde6, 0xc33707d6, 0xf4d50d87, 0x455a14ed), last);
    var second := Then(Row(1, 5, 10, 15, 4, 0xd62f105d, 0x02441453, 0xd8a1e681, 0xe7d3fbc8), third);
    Row5(sin, cos); Row6(sin, cos); Row7(sin, cos); Row8(sin, cos);
    assert SineRows(sin, 29, last);
    assert SineRows(sin, 25, third);
    assert SineRows(sin, 21, second);
  }

  lemma Row9(sin: real -> real, cos: real -> real)
    requires AreSineAndCosine(sin, cos)
    ensures Known(sin, cos, 36, Point(-991778853443115736835288968840772, -127963689627404681028327977914365)) == true
    ensures SineRow(sin, 33, Row(2, 5, 8, 11, 14, 0xfffa3942, 0x8771f681, 0x6d9d6122, 0xfde5380c))
  {
    Row8(sin, cos);
    Next(sin, cos, 32, Point(551426681241690550661558166845690, 834223360506510272215526470870260),
      Point(999911860107267145728084376707787, -13276747223059478915220031371006));
    Constant(sin, cos, 33, Point(999911860107267145728084376707787, -13276747223059478915220031371006), 4294588738);
    Next(sin, cos, 33, Point(999911860107267145728084376707787, -13276747223059478915220031371006),
      Point(529082686120023820832487134032082, -848570274784605186599972087712347));
    Constant(sin, cos, 34, Point(529082686120023820832487134032082, -848570274784605186599972087712347), 2272392833);
    Next(sin, cos, 34, Point(529082686120023820832487134032082, -848570274784605186599972087712347),
      Point(-428182669496151004406752891745923, -903692205091506759847304572083731));
    Constant(sin, cos, 35, Point(-428182669496151004406752891745923, -903692205091506759847304572083731), 1839030562);
    Next(sin, cos, 35, Point(-428182669496151004406752891745923, -903692205091506759847304572083731),
      Point(-991778853443115736835288968840772, -127963689627404681028327977914365));
    Constant(sin, cos, 36, Point(-991778853443115736835288968840772, -127963689627404681028327977914365), 4259657740);
  }

  lemma Row10(sin: real -> real, cos: real -> real)
    requires AreSineAndCosine(sin, cos)
    ensures Known(sin, cos, 40, Point(745113160479348786987709402636307, -666938061652261844384092781933667)) == true
    ensures SineRow(sin, 37, Row(2, 1, 4, 7, 10, 0xa4beea44, 0x4bdecfa9, 0xf6bb4b60, 0xbebfbc70))
  {
    Row9(sin, cos);
    Next(sin, cos, 36, Point(-991778853443115736835288968840772, -127963689627404681028327977914365),
      Point(-643538133356999460685670019080766, 765414051945343356491081292902477));
    Constant(sin, cos, 37, Point(-643538133356999460685670019080766, 765414051945343356491081292902477), 2763975236);
    Next(sin, cos, 37, Point(-643538133356999460685670019080766, 765414051945343356491081292902477),
      Point(296368578709385317392296649849003, 955073644047294857586536235405832));
    Constant(sin, cos, 38, Point(296368578709385317392296649849003, 955073644047294857586536235405832), 1272893353);
    Next(sin, cos, 38, Point(296368578709385317392296649849003, 955073644047294857586536235405832),
      Point(963795386284087753260664971765835, 266642932359937251526825794975620));
    Constant(sin, cos, 39, Point(963795386284087753260664971765835, 266642932359937251526825794975620), 4139469664);
    Next(sin, cos, 39, Point(963795386284087753260664971765835, 266642932359937251526825794975620),
      Point(745113160479348786987709402636307, -666938061652261844384092781933667));
    Constant(sin, cos, 40, Point(745113160479348786987709402636307, -666938061652261844384092781933667), 3200236656);
  }

  lemma Row11(sin: real -> real, cos: real -> real)
    requires AreSineAndCosine(sin, cos)
    ensures Known(sin, cos, 44, Point(17701925105413577807954053166615, 999843308647691220069009016637802)) == true
    ensures SineRow(sin, 41, Row(2, 13, 0, 3, 6, 0x289b7ec6, 0xeaa127fa, 0xd4ef3085, 0x04881d05))
  {
    Row10(sin, cos);
    Next(sin, cos, 40, Point(745113160479348786987709402636307, -666938061652261844384092781933667),
      Point(-158622668804708987103317011929680, -987339277523826458228825133414778));
    Constant(sin, cos, 41, Point(-158622668804708987103317011929680, -987339277523826458228825133414778), 681279174);
    Next(sin, cos, 41, Point(-158622668804708987103317011929680, -987339277523826458228825133414778),
      Point(-916521547915633785898989158069625, -399985314988351293954707337177181));
    Constant(sin, cos, 42, Point(-916521547915633785898989158069625, -399985314988351293954707337177181), 3936430074);
    Next(sin, cos, 42, Point(-916521547915633785898989158069625, -399985314988351293954707337177181),
      Point(-831774742628598288209578256291709, 555113301520625677044879441962563));
    Constant(sin, cos, 43, Point(-831774742628598288209578256291709, 555113301520625677044879441962563), 3572445317);
    Next(sin, cos, 43, Point(-831774742628598288209578256291709, 555113301520625677044879441962563),
      Point(17701925105413577807954053166615, 999843308647691220069009016637802));
    Constant(sin, cos, 44, Point(17701925105413577807954053166615, 999843308647691220069009016637802), 76029189);
  }

  lemma Row12(sin: real -> real, cos: real -> real)
    requires AreSineAndCosine(sin, cos)
    ensures Known(sin, cos, 48, Point(-768254661323666799044965664845849, -640144339469199731312941419393040)) == true
    ensures SineRow(sin, 45, Row(2, 9, 12, 15, 2, 0xd9d4d039, 0xe6db99e5, 0x1fa27cf8, 0xc4ac5665))
  {
    Row11(sin, cos);
    Next(sin, cos, 44, Point(17701925105413577807954053166615, 999843308647691220069009016637802),
      Point(850903524534118424862379677617993, 525321988817729696047464404823534));
    Constant(sin, cos, 45, Point(850903524534118424862379677617993, 525321988817729696047464404823534), 3654602809);
    Next(sin, cos, 45, Point(850903524534118424862379677617993, 525321988817729696047464404823534),
      Point(901788347648809185033293039222687, -432177944884778294952776524132744));
    Constant(sin, cos, 46, Point(901788347648809185033293039222687, -432177944884778294952776524132744), 3873151461);
    Next(sin, cos, 46, Point(901788347648809185033293039222687, -432177944884778294952776524132744),
      Point(123573122745224004061529348086403, -992335469150928718279752420344805));
    Constant(sin, cos, 47, Point(123573122745224004061529348086403, -992335469150928718279752420344805), 530742520);
    Next(sin, cos, 47, Point(123573122745224004061529348086403, -992335469150928718279752420344805),
      Point(-768254661323666799044965664845849, -640144339469199731312941419393040));
    Constant(sin, cos, 48, Point(-768254661323666799044965664845849, -640144339469199731312941419393040), 3299628645);
  }

  lemma Sines3(sin: real -> real, cos: real -> real, rest: RowList)
    requires AreSineAndCosine(sin, cos) && SineRows(sin, 49, rest) == true
    ensures SineRows(sin, 33, Round3Rows(rest)) == true
  {
    var last := Then(Row(2, 9, 12, 15, 2, 0xd9d4d039, 0xe6db99e5, 0x1fa27cf8, 0xc4ac5665), rest);
    var third := Then(Row(2, 13, 0, 3, 6, 0x289b7ec6, 0xeaa127fa, 0xd4ef3085, 0x04881d05), last);
    var second := Then(Row(2, 1, 4, 7, 10, 0xa4beea44, 0x4bdecfa9, 0xf6bb4b60, 0xbebfbc70), third);
    Row9(sin, cos); Row10(sin, cos); Row11(sin, cos); Row12(sin, cos);
    assert SineRows(sin, 45, last);
    assert SineRows(sin, 41, third);
    assert SineRows(sin, 37, second);
  }

  lemma Row13(sin: real -> real, cos: real -> real)
    requires AreSineAndCosine(sin, cos)
    ensures Known(sin, cos, 52, Point(986627592040485296587568934436678, -162990780795705481003329815425201)) == true
    ensures SineRow(sin, 49, Row(3, 0, 7, 14, 5, 0xf4292244, 0x432aff97, 0xab9423a7, 0xfc93a039))
  {
    Row12(sin, cos);
    Next(sin, cos, 48, Point(-768254661323666799044965664845849, -640144339469199731312941419393040),
      Point(-953752652759471818360423558587655, 300592543743637083687026000490543));
    Constant(sin, cos, 49, Point(-953752652759471818360423558587655, 300592543743637083687026000490543), 4096336452);
    Next(sin, cos, 49, Point(-953752652759471818360423558587655, 300592543743637083687026000490543),
      Point(-262374853703928785914393646912608, 964966028492113274068957058900959));
    Constant(sin, cos, 50, Point(-262374853703928785914393646912608, 964966028492113274068957058900959), 1126891415);
    Next(sin, cos, 50, Point(-262374853703928785914393646912608, 964966028492113274068957058900959),
      Point(670229175843374734494345074950625, 742154196813782539467377175736911));
    Constant(sin, cos, 51, Point(670229175843374734494345074950625, 742154196813782539467377175736911), 2878612391);
    Next(sin, cos, 51, Point(670229175843374734494345074950625, 742154196813782539467377175736911),
      Point(986627592040485296587568934436678, -162990780795705481003329815425201));
    Constant(sin, cos, 52, Point(986627592040485296587568934436678, -162990780795705481003329815425201), 4237533241);
  }

  lemma Row14(sin: real -> real, cos: real -> real)
    requires AreSineAndCosine(sin, cos)
    ensures Known(sin, cos, 56, Point(-521551002086911880187410021510566, 853220107722584113969681233914857)) == true
    ensures SineRow(sin, 53, Row(3, 12, 3, 10, 1, 0x655b59c3, 0x8f0ccc92, 0xffeff47d, 0x85845dd1))
  {
    Row13(sin, cos);
    Next(sin, cos, 52, Point(986627592040485296587568934436678, -162990780795705481003329815425201),
      Point(395925150181834181503386139263514, -918282786212118891199726323216413));
    Constant(sin, cos, 53, Point(395925150181834181503386139263514, -918282786212118891199726323216413), 1700485571);
    Next(sin, cos, 53, Point(395925150181834181503386139263514, -918282786212118891199726323216413),
      Point(-558789048851616245817871318965358, -829309832863150147727850042488115));
    Constant(sin, cos, 54, Point(-558789048851616245817871318965358, -829309832863150147727850042488115), 2399980690);
    Next(sin, cos, 54, Point(-558789048851616245817871318965358, -829309832863150147727850042488115),
      Point(-999755173358619836598631683243827, 22126756261955734563564262146625));
    Constant(sin, cos, 55, Point(-999755173358619836598631683243827, 22126756261955734563564262146625), 4293915773);
    Next(sin, cos, 55, Point(-999755173358619836598631683243827, 22126756261955734563564262146625),
      Point(-521551002086911880187410021510566, 853220107722584113969681233914857));
    Constant(sin, cos, 56, Point(-521551002086911880187410021510566, 853220107722584113969681233914857), 2240044497);
  }

  lemma Row15(sin: real -> real, cos: real -> real)
    requires AreSineAndCosine(sin, cos)
    ensures Known(sin, cos, 60, Point(-304810621102216705625649465478404, -952412980415156292693816595992865)) == true
    ensures SineRow(sin, 57, Row(3, 8, 15, 6, 13, 0x6fa87e4f, 0xfe2ce6e0, 0xa3014314, 0x4e0811a1))
  {
    Row14(sin, cos);
    Next(sin, cos, 56, Point(-521551002086911880187410021510566, 853220107722584113969681233914857),
      Point(436164755247824959080534793129213, 899866826969193786503000404657774));
    Constant(sin, cos, 57, Point(436164755247824959080534793129213, 899866826969193786503000404657774), 1873313359);
    Next(sin, cos, 57, Point(436164755247824959080534793129213, 899866826969193786503000404657774),
      Point(992872648084537118165088164425330, 119180135448819285435843610766956));
    Constant(sin, cos, 58, Point(992872648084537118165088164425330, 119180135448819285435843610766956), 4264355552);
    Next(sin, cos, 58, Point(992872648084537118165088164425330, 119180135448819285435843610766956),
      Point(636738007139137880771233492376784, -771080222975845229387435296376234));
    Constant(sin, cos, 59, Point(636738007139137880771233492376784, -771080222975845229387435296376234), 2734768916);
    Next(sin, cos, 59, Point(636738007139137880771233492376784, -771080222975845229387435296376234),
      Point(-304810621102216705625649465478404, -952412980415156292693816595992865));
    Constant(sin, cos, 60, Point(-304810621102216705625649465478404, -952412980415156292693816595992865), 1309151649);
  }

  lemma Row16(sin: real -> real, cos: real -> real)
    requires AreSineAndCosine(sin, cos)
    ensures Known(sin, cos, 64, Point(920026038196790683351536603777180, 391857230429550005161709858513094)) == true
    ensures SineRow(sin, 61, Row(3, 4, 11, 2, 9, 0xf7537e82, 0xbd3af235, 0x2ad7d2bb, 0xeb86d391))
  {
    Row15(sin, cos);
    Next(sin, cos, 60, Point(-304810621102216705625649465478404, -952412980415156292693816595992865),
      Point(-966117770008392947018287989480448, -258101635938267445701207347152736));
    Constant(sin, cos, 61, Point(-966117770008392947018287989480448, -258101635938267445701207347152736), 4149444226);
    Next(sin, cos, 61, Point(-966117770008392947018287989480448, -258101635938267445701207347152736),
      Point(-739180696649222867276016933755383, 673507162323586252887833405953886));
    Constant(sin, cos, 62, Point(-739180696649222867276016933755383, 673507162323586252887833405953886), 3174756917);
    Next(sin, cos, 62, Point(-739180696649222867276016933755383, 673507162323586252887833405953886),
      Point(167355700302806921527838370288704, 985896581582549697438635756053903));
    Constant(sin, cos, 63, Point(167355700302806921527838370288704, 985896581582549697438635756053903), 718787259);
    Next(sin, cos, 63, Point(167355700302806921527838370288704, 985896581582549697438635756053903),
      Point(920026038196790683351536603777180, 391857230429550005161709858513094));
    Constant(sin, cos, 64, Point(920026038196790683351536603777180, 391857230429550005161709858513094), 3951481745);
  }

  lemma Sines4(sin: real -> real, cos: real -> real, rest: RowList)
    requires AreSineAndCosine(sin, cos) && SineRows(sin, 65, rest) == true
    ensures SineRows(sin, 49, Round4Rows(rest)) == true
  {
    var last := Then(Row(3, 4, 11, 2, 9, 0xf7537e82, 0xbd3af235, 0x2ad7d2bb, 0xeb86d391), rest);
    var third := Then(Row(3, 8, 15, 6, 13, 0x6fa87e4f, 0xfe2ce6e0, 0xa3014314, 0x4e0811a1), last);
    var second := Then(Row(3, 12, 3, 10, 1, 0x655b59c3, 0x8f0ccc92, 0xffeff47d, 0x85845dd1), third);
    Row13(sin, cos); Row14(sin, cos); Row15(sin, cos); Row16(sin, cos);
    assert SineRows(sin, 61, last);
    assert SineRows(sin, 57, third);
    assert SineRows(sin, 53, second);
  }

  /** The constants of the 64 operations, in order, are those of the definition, whatever sine is taken to be. */
  lemma TableOfSines(sin: real -> real, cos: real -> real)
    requires AreSineAndCosine(sin, cos)
    ensures SineRows(sin, 1, Round1Rows(Round2Rows(Round3Rows(Round4Rows(End)))))
  {
    var rest3 := Round4Rows(End);
    var rest2 := Round3Rows(rest3);
    var rest1 := Round2Rows(rest2);
    Sines4(sin, cos, End);
    Sines3(sin, cos, rest3);
    Sines2(sin, cos, rest2);
    Sines1(sin, cos, rest1);
  }
}
