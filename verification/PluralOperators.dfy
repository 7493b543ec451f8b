/** What the operators of a plural specification mean, from the text to the value: `n`, an operator as it is spelled,
    and a number (intl/plural.y, intl/eval-plural.h). */
module PluralOperators {
  import opened PluralAutomaton
  import opened E = PluralEval
  import opened PluralParser
  import opened PluralRoundTrip
  import opened PluralSyntax
  import opened PluralText

  const WIDTH := 0x1_0000_0000_0000_0000

  /** The comparisons and connectives, as they are spelled. */
  predicate Holds(o: string, n: nat, k: nat) {
    match o
    case "<" => n < k
    case ">" => n > k
    case "<=" => n <= k
    case ">=" => n >= k
    case "==" => n == k
    case "!=" => n != k
    case "&&" => n > 0 && k > 0
    case _ => n > 0 || k > 0
  }

  /** What C says about `n o k` for `unsigned long int`; a division by zero is not defined. */
  function Meaning(o: string, n: nat, k: nat): Evaluation
    requires n < WIDTH && k < WIDTH
  {
    match o
    case "+" => Result((n + k) % WIDTH)
    case "-" => Result(if n >= k then n - k else n - k + WIDTH)
    case "*" => Result(n * k % WIDTH)
    case "/" => if k == 0 then DivisionByZero else Result(n / k)
    case "%" => if k == 0 then DivisionByZero else Result(n % k)
    case _ => Result(if Holds(o, n, k) then 1 else 0)
  }

  const OPERATORS := {"+", "-", "*", "/", "%", "<", ">", "<=", ">=", "==", "!=", "&&", "||"}

  /** The operator that is spelled so. */
  function Spelled(o: string): (op: BinaryOp)
    requires o in OPERATORS
    ensures OpText(op) == o
  {
    if o == "+" then Plus else if o == "-" then Minus else if o == "*" then Mult else if o == "/" then Divide
    else if o == "%" then Module else if o == "<" then LessThan else if o == ">" then GreaterThan
    else if o == "<=" then LessOrEqual else if o == ">=" then GreaterOrEqual else if o == "==" then Equal
    else if o == "!=" then NotEqual else if o == "&&" then Land else Lor
  }

  /** The pieces of a text of three tokens. */
  lemma ThreeTokens(l: seq<Piece>, a: Piece, b: Piece, c: Piece, text: string)
    requires l == [a, b, c]
    requires text == a.blanks + TokenText(a.tok) + (b.blanks + TokenText(b.tok) + (c.blanks + TokenText(c.tok)))
    ensures TokensOf(l) == [a.tok, b.tok, c.tok] && Written(l) == text
  {
    var m := l[1..];
    var n := m[1..];
    assert m == [b, c] && n == [c] && n[1..] == [];
    assert Written(n) == c.blanks + TokenText(c.tok) + "" == c.blanks + TokenText(c.tok);
    assert TokensOf(n) == [c.tok] && TokensOf(m) == [b.tok] + [c.tok] && TokensOf(l) == [a.tok] + ([b.tok] + [c.tok]);
  }

  lemma Derived(op: BinaryOp, k: nat)
    ensures var e := Binary(op, Var, Num(k)); Yield(Bare(e)) == [N, TokenOf(op), Number(k)] && Need(Bare(e), 1) == 4
  {
    var t := TokenOf(op);
    var bare := TBin(TVar, t, TNum(k));
    assert Minimal(Var, OpLevel(t)) == TVar && Minimal(Num(k), OpLevel(t) + 1) == TNum(k);
    assert Bare(Binary(op, Var, Num(k))) == bare;
    assert Onto(TNum(k), []) == [Number(k)] && [t] + [Number(k)] == [t, Number(k)];
    assert Yield(bare) == Onto(TVar, [t, Number(k)]) == [N] + [t, Number(k)];
    assert Need(TVar, 1) == 2 && Need(TNum(k), 3) == 4;
  }

  lemma Applied(op: BinaryOp, n: nat, k: nat)
    requires n < WIDTH && k < WIDTH
    ensures E.PluralEval(Binary(op, Var, Num(k)), n) == Meaning(OpText(op), n, k)
  {
    if op == Minus && n < k {
      assert n - k == (n - k + WIDTH) + (-1) * WIDTH;
    }
  }

  /** Whatever the blanks before the three tokens and before the terminator, and whatever follows that: the parser
      succeeds, and for every `n` the expression has the value that C gives it. */
  method ParseOperator(
    input: string, o: string, k: nat, n: nat, b0: string, b1: string, b2: string, b3: string, tail: string)
    returns (yyresult: int, res: Expr)
    requires o in OPERATORS && k < WIDTH && n < WIDTH
    requires AllBlank(b0) && AllBlank(b1) && AllBlank(b2) && AllBlank(b3) && Terminates(tail)
    requires input == b0 + "n" + (b1 + o + (b2 + DecimalText(k))) + (b3 + tail)
    ensures yyresult == 0 && E.PluralEval(res, n) == Meaning(o, n, k)
  {
    ghost var op := Spelled(o);
    ghost var l := [Piece(b0, N), Piece(b1, TokenOf(op)), Piece(b2, Number(k))];
    Derived(op, k);
    ThreeTokens(l, l[0], l[1], l[2], b0 + "n" + (b1 + o + (b2 + DecimalText(k))));
    Applied(op, n, k);
    RoundTripWritten(Binary(op, Var, Num(k)), l, b3, tail);
    var cp;
    yyresult, res, cp := YyParse(input, 0);
  }
}
