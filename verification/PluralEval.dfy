/** Evaluating a plural expression (intl/eval-plural.h) and choosing the plural variant it selects
    (`plural_lookup` of intl/dcigettext.c). */
module PluralEval {
  import opened PluralAutomaton
  import opened PluralLexer
  import opened PluralRoundTrip
  import opened PluralSyntax
  import opened PluralTables

  /** `DivisionByZero` stands for the SIGFPE that the division raises. */
  datatype Evaluation = Result(value: nat) | DivisionByZero

  function Truth(b: bool): nat { if b then 1 else 0 }

  /** A binary operator other than `&&` and `||`, in the wrapping arithmetic of
      `unsigned long int`. */
  function Apply(op: BinaryOp, l: nat, r: nat): Evaluation {
    match op
    case Mult => Result(l * r % ULONG_MODULUS)
    case Divide => if r == 0 then DivisionByZero else Result(l / r)
    case Module => if r == 0 then DivisionByZero else Result(l % r)
    case Plus => Result((l + r) % ULONG_MODULUS)
    case Minus => Result((l - r) % ULONG_MODULUS)
    case LessThan => Result(Truth(l < r))
    case GreaterThan => Result(Truth(l > r))
    case LessOrEqual => Result(Truth(l <= r))
    case GreaterOrEqual => Result(Truth(l >= r))
    case Equal => Result(Truth(l == r))
    case NotEqual => Result(Truth(l != r))
    case Land => Result(Truth(l != 0 && r != 0))
    case Lor => Result(Truth(l != 0 || r != 0))
  }

  /** `plural_eval`: `&&` and `||` evaluate their right operand only when it matters, `?:` only the
      chosen branch. */
  function PluralEval(e: Expr, n: nat): Evaluation {
    match e
    case Var => Result(n)
    case Num(k) => Result(k)
    case Lnot(a) =>
      (match PluralEval(a, n)
       case Result(v) => Result(Truth(v == 0))
       case DivisionByZero => DivisionByZero)
    case Qmop(c, x, y) =>
      (match PluralEval(c, n)
       case Result(v) => if v != 0 then PluralEval(x, n) else PluralEval(y, n)
       case DivisionByZero => DivisionByZero)
    case Binary(op, l, r) =>
      var left := PluralEval(l, n);
      if left.DivisionByZero? then DivisionByZero
      else if op == Lor && left.value != 0 then Result(1)
      else if op == Land && left.value == 0 then Result(0)
      else
        var right := PluralEval(r, n);
        if right.DivisionByZero? then DivisionByZero
        else Apply(op, left.value, right.value)
  }

  /** The same expression over the integers: no wrap-around, and every operand evaluated.
      `None` when some divisor is zero. */
  datatype Exact = Exactly(value: int) | Undefined

  predicate InRange(v: int) { 0 <= v < ULONG_MODULUS }

  function ExactApply(op: BinaryOp, l: int, r: int): Exact
    requires InRange(l) && InRange(r)
  {
    match op
    case Mult => Exactly(l * r)
    case Plus => Exactly(l + r)
    case Minus => Exactly(l - r)
    case Divide => if r == 0 then Undefined else Exactly(l / r)
    case Module => if r == 0 then Undefined else Exactly(l % r)
    case LessThan => Exactly(Truth(l < r))
    case GreaterThan => Exactly(Truth(r < l))
    case LessOrEqual => Exactly(1 - Truth(r < l))
    case GreaterOrEqual => Exactly(1 - Truth(l < r))
    case Equal => Exactly(Truth(l == r))
    case NotEqual => Exactly(1 - Truth(l == r))
    case Land => Exactly(Truth(l != 0) * Truth(r != 0))
    case Lor => Exactly(1 - Truth(l == 0) * Truth(r == 0))
  }

  /** Eager evaluation over the integers; undefined as soon as any part is, or leaves the range of
      `unsigned long int`. */
  function ExactEval(e: Expr, n: nat): (r: Exact)
    ensures r.Exactly? ==> InRange(r.value)
  {
    match e
    case Var => if InRange(n) then Exactly(n) else Undefined
    case Num(k) => if InRange(k) then Exactly(k) else Undefined
    case Lnot(a) =>
      var v := ExactEval(a, n);
      if v.Undefined? then Undefined else Exactly(1 - Truth(v.value != 0))
    case Qmop(c, x, y) =>
      var vc, vx, vy := ExactEval(c, n), ExactEval(x, n), ExactEval(y, n);
      if vc.Undefined? || vx.Undefined? || vy.Undefined? then Undefined
      else if vc.value == 0 then vy else vx
    case Binary(op, l, r) =>
      var vl, vr := ExactEval(l, n), ExactEval(r, n);
      if vl.Undefined? || vr.Undefined? then Undefined
      else
        var v := ExactApply(op, vl.value, vr.value);
        if v.Exactly? && InRange(v.value) then v else Undefined
  }

  lemma ApplyIsExact(op: BinaryOp, l: int, r: int)
    requires InRange(l) && InRange(r)
    requires ExactApply(op, l, r).Exactly? && InRange(ExactApply(op, l, r).value)
    ensures Apply(op, l, r) == Result(ExactApply(op, l, r).value)
  {
    if op == Land || op == Lor {
      assert Truth(l != 0) * Truth(r != 0) == Truth(l != 0 && r != 0);
      assert Truth(l == 0) * Truth(r == 0) == Truth(l == 0 && r == 0);
    }
  }

  /** Where eager evaluation over the integers is defined, short-circuit evaluation with
      wrap-around gives the same value. */
  lemma {:induction false} EvalIsExact(e: Expr, n: nat)
    requires ExactEval(e, n).Exactly?
    ensures PluralEval(e, n) == Result(ExactEval(e, n).value)
  {
    match e
    case Var =>
    case Num(_) =>
    case Lnot(a) => EvalIsExact(a, n);
    case Qmop(c, x, y) => EvalIsExact(c, n); EvalIsExact(x, n); EvalIsExact(y, n);
    case Binary(op, l, r) =>
      EvalIsExact(l, n);
      EvalIsExact(r, n);
      ApplyIsExact(op, ExactEval(l, n).value, ExactEval(r, n).value);
  }

  /** A printed and re-read expression evaluates as the original, for every n and including the
      divisions by zero. */
  lemma RoundTripEval(e: Expr, n: nat)
    requires NumbersFit(e) && Need(Bare(e), 1) < YYMAXDEPTH
    ensures Run(Base, Tokens(Print(e), 0)).Accepted?
    ensures PluralEval(Run(Base, Tokens(Print(e), 0)).exp, n) == PluralEval(e, n)
  {
    RoundTrip(e);
  }

  // ----- choosing a variant

  predicate NoNul(s: string) { forall i :: 0 <= i < |s| ==> s[i] != '\0' }

  /** The variants of a translation, each followed by its NUL. */
  function Joined(vs: seq<string>): string {
    if vs == [] then "" else vs[0] + "\0" + Joined(vs[1..])
  }

  /** Offset of variant `k` in `Joined(vs)`. */
  function Offset(vs: seq<string>, k: nat): nat
    requires k <= |vs|
  {
    if k == 0 then 0 else |vs[0]| + 1 + Offset(vs[1..], k - 1)
  }

  lemma {:induction false} OffsetSplits(vs: seq<string>, k: nat)
    requires k <= |vs|
    ensures Offset(vs, k) <= |Joined(vs)|
    ensures Joined(vs)[Offset(vs, k)..] == Joined(vs[k..])
    ensures Offset(vs, k) == |Joined(vs)| <==> k == |vs|
    ensures k < |vs| ==> Offset(vs, k + 1) == Offset(vs, k) + |vs[k]| + 1
  {
    if k == 0 {
      assert vs[0..] == vs;
      if |vs| > 0 {
        assert Offset(vs[1..], 0) == 0;
      }
    } else {
      var tail := vs[1..];
      OffsetSplits(tail, k - 1);
      assert Joined(vs)[|vs[0]| + 1..] == Joined(tail);
      var o := Offset(tail, k - 1);
      assert Joined(vs)[|vs[0]| + 1 + o..] == Joined(vs)[|vs[0]| + 1..][o..];
      assert tail[k - 1..] == vs[k..];
    }
  }

  /** `strchr (p, '\0')`. */
  method FindNul(s: string, p: nat) returns (q: nat)
    requires exists k :: p <= k < |s| && s[k] == '\0'
    ensures p <= q < |s| && s[q] == '\0' && forall k :: p <= k < q ==> s[k] != '\0'
  {
    q := p;
    ghost var k :| p <= k < |s| && s[k] == '\0';
    while s[q] != '\0'
      invariant p <= q <= k && forall i :: p <= i < q ==> s[i] != '\0'
      decreases k - q
    {
      q := q + 1;
    }
  }

  lemma NulAfterVariant(vs: seq<string>, k: nat)
    requires k < |vs| && forall v :: v in vs ==> NoNul(v)
    ensures
      var o, t := Offset(vs, k), Joined(vs);
      o + |vs[k]| < |t| && t[o + |vs[k]|] == '\0' && forall i :: o <= i < o + |vs[k]| ==> t[i] != '\0'
    ensures Joined(vs)[Offset(vs, k)..Offset(vs, k) + |vs[k]|] == vs[k]
  {
    OffsetSplits(vs, k);
    var o, t := Offset(vs, k), Joined(vs);
    var u := t[o..];
    assert u == vs[k] + "\0" + Joined(vs[k..][1..]);
    assert u[|vs[k]|] == '\0' && t[o + |vs[k]|] == u[|vs[k]|];
    assert vs[k] in vs;
    forall i | o <= i < o + |vs[k]| ensures t[i] != '\0' {
      assert t[i] == u[i - o] == vs[k][i - o];
    }
    assert u[..|vs[k]|] == vs[k];
  }

  /** `plural_lookup`: the offset of the variant the expression selects. An index that is not below
      `nplurals` counts as 0, and one beyond the variants present yields the first variant. */
  method PluralLookup(e: Expr, nplurals: nat, n: nat, ghost vs: seq<string>, translation: string)
    returns (p: nat)
    requires vs != [] && translation == Joined(vs) && forall v :: v in vs ==> NoNul(v)
    requires PluralEval(e, n).Result?
    ensures p <= |translation|
    ensures
      var v := PluralEval(e, n).value;
      var index := if v >= nplurals then 0 else v;
      p == if index < |vs| then Offset(vs, index) else 0
    ensures exists k :: 0 <= k < |vs| && p == Offset(vs, k) && vs[k] + "\0" <= translation[p..]
  {
    var index := PluralEval(e, n).value;
    if index >= nplurals {
      index := 0;
    }
    ghost var chosen := if index < |vs| then index else 0;
    OffsetSplits(vs, chosen);
    assert vs[chosen..][0] == vs[chosen];
    p := 0;
    var i := index;
    while i > 0
      invariant 0 <= i <= index && index - i <= |vs| && p == Offset(vs, index - i)
      invariant i < index ==> index - i < |vs|
    {
      ghost var k := index - i;
      i := i - 1;
      OffsetSplits(vs, k);
      NulAfterVariant(vs, k);
      p := FindNul(translation, p);
      p := p + 1;
      OffsetSplits(vs, k + 1);
      if p >= |translation| {
        OffsetSplits(vs, 0);
        assert vs[0..][0] == vs[0];
        return 0;
      }
    }
  }
}
