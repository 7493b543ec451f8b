/** Printing plural expressions with as few parentheses as possible, reading them back, and
    evaluating them (intl/eval-plural.h). */
module PluralRoundTrip {
  import opened PluralSyntax
  import opened PluralTables
  import opened PluralAutomaton
  import opened PluralLexer
  import opened PluralParser
  import opened PluralText

  /** The derivation of `e` that puts parentheses only around operands that bind too loosely. */
  function Bare(e: Expr): (t: Tree)
    ensures Conforms(t) && Derivation(t) && Ast(t) == e
    decreases e, 0
  {
    match e
    case Var => TVar
    case Num(n) => TNum(n)
    case Lnot(a) => TNot(Minimal(a, NOT_LEVEL))
    case Binary(op, l, r) =>
      var t := TokenOf(op);
      TBin(Minimal(l, OpLevel(t)), t, Minimal(r, OpLevel(t) + 1))
    case Qmop(c, x, y) => TCond(Minimal(c, 2), Minimal(x, 1), Minimal(y, 1))
  }

  function Minimal(e: Expr, lvl: nat): (t: Tree)
    requires lvl <= PRIMARY_LEVEL
    ensures Conforms(t) && Derivation(t) && Ast(t) == e && Level(t) >= lvl
    decreases e, 1
  {
    if Level(Bare(e)) >= lvl then Bare(e) else TParen(Bare(e))
  }

  /** The operator tokens of `t` are ones the scanner produces. */
  predicate Lexical(t: Tree) {
    match t
    case TVar => true
    case TNum(n) => n < ULONG_MODULUS
    case TParen(u) => Lexical(u)
    case TNot(u) => Lexical(u)
    case TBin(l, op, r) => IsBinaryToken(op) && op == TokenOf(OpOf(op)) && Lexical(l) && Lexical(r)
    case TCond(c, x, y) => Lexical(c) && Lexical(x) && Lexical(y)
  }

  function Count(t: Tree): nat {
    match t
    case TVar => 1
    case TNum(_) => 1
    case TParen(u) => Count(u) + 2
    case TNot(u) => Count(u) + 1
    case TBin(l, _, r) => Count(l) + Count(r) + 1
    case TCond(c, x, y) => Count(c) + Count(x) + Count(y) + 2
  }

  lemma OntoLength(t: Tree, rest: seq<Token>)
    ensures |Onto(t, rest)| == Count(t) + |rest|
  {}

  lemma {:induction false} BareIsSmallest(t: Tree)
    requires Conforms(t) && Lexical(t) && Derivation(t)
    ensures Count(t) >= Count(Bare(Ast(t))) + (if t.TParen? then 2 else 0)
    ensures t.TParen? || Level(t) == Level(Bare(Ast(t)))
    decreases t, 0
  {
    match t
    case TVar =>
    case TNum(_) =>
    case TParen(u) => BareIsSmallest(u);
    case TNot(u) => OperandIsSmallest(u, NOT_LEVEL);
    case TBin(l, op, r) =>
      OperandIsSmallest(l, OpLevel(op));
      OperandIsSmallest(r, OpLevel(op) + 1);
      assert Bare(Ast(t)) == TBin(Minimal(Ast(l), OpLevel(op)), op, Minimal(Ast(r), OpLevel(op) + 1));
    case TCond(c, x, y) =>
      LevelBounds(x);
      LevelBounds(y);
      OperandIsSmallest(c, 2);
      OperandIsSmallest(x, 1);
      OperandIsSmallest(y, 1);
      assert Bare(Ast(t)) == TCond(Minimal(Ast(c), 2), Minimal(Ast(x), 1), Minimal(Ast(y), 1));
  }

  lemma {:induction false} OperandIsSmallest(t: Tree, lvl: nat)
    requires Conforms(t) && Lexical(t) && Derivation(t) && lvl <= PRIMARY_LEVEL && Level(t) >= lvl
    ensures Count(t) >= Count(Minimal(Ast(t), lvl))
    decreases t, 1
  {
    BareIsSmallest(t);
  }

  /** No other way of writing `e` that the parser reads back as `e` has fewer tokens. */
  lemma MinimalIsSmallest(t: Tree)
    requires Conforms(t) && Lexical(t) && Derivation(t)
    ensures |Yield(t)| >= |Yield(Minimal(Ast(t), 1))|
  {
    BareIsSmallest(t);
    LevelBounds(Bare(Ast(t)));
    OntoLength(t, []);
    OntoLength(Minimal(Ast(t), 1), []);
  }

  lemma {:induction false} OntoAlternates(t: Tree, rest: seq<Token>)
    requires Derivation(t) && Lexical(t) && Alternates(rest)
    requires rest != [] ==> !Starter(rest[0])
    ensures Alternates(Onto(t, rest)) && Onto(t, rest) != [] && Starter(Onto(t, rest)[0])
  {
    match t
    case TVar => AlternatesCons(N, rest);
    case TNum(n) => AlternatesCons(Number(n), rest);
    case TParen(u) =>
      AlternatesCons(RParen, rest);
      OntoAlternates(u, [RParen] + rest);
      AlternatesCons(LParen, Onto(u, [RParen] + rest));
    case TNot(u) =>
      OntoAlternates(u, rest);
      AlternatesCons(Bang, Onto(u, rest));
    case TBin(l, op, r) =>
      OntoAlternates(r, rest);
      AlternatesCons(op, Onto(r, rest));
      OntoAlternates(l, [op] + Onto(r, rest));
    case TCond(c, x, y) =>
      OntoAlternates(y, rest);
      AlternatesCons(Colon, Onto(y, rest));
      OntoAlternates(x, [Colon] + Onto(y, rest));
      AlternatesCons(Quest, Onto(x, [Colon] + Onto(y, rest)));
      OntoAlternates(c, [Quest] + Onto(x, [Colon] + Onto(y, rest)));
  }

  predicate NumbersFit(e: Expr) {
    match e
    case Var => true
    case Num(n) => n < ULONG_MODULUS
    case Lnot(a) => NumbersFit(a)
    case Binary(_, l, r) => NumbersFit(l) && NumbersFit(r)
    case Qmop(c, x, y) => NumbersFit(c) && NumbersFit(x) && NumbersFit(y)
  }

  lemma {:induction false} BareLexical(e: Expr)
    requires NumbersFit(e)
    ensures Lexical(Bare(e))
    decreases e, 0
  {
    match e
    case Var =>
    case Num(_) =>
    case Lnot(a) => MinimalLexical(a, NOT_LEVEL);
    case Binary(op, l, r) =>
      MinimalLexical(l, OpLevel(TokenOf(op)));
      MinimalLexical(r, OpLevel(TokenOf(op)) + 1);
    case Qmop(c, x, y) => MinimalLexical(c, 2); MinimalLexical(x, 1); MinimalLexical(y, 1);
  }

  lemma {:induction false} MinimalLexical(e: Expr, lvl: nat)
    requires NumbersFit(e) && lvl <= PRIMARY_LEVEL
    ensures Lexical(Minimal(e, lvl))
    decreases e, 1
  {
    BareLexical(e);
  }

  function Print(e: Expr): string {
    Text(Yield(Bare(e)))
  }

  /** Printing with as few parentheses as possible, then scanning and parsing, gives back the same
      expression, unless it nests so deeply that the stack limit is reached. */
  lemma RoundTrip(e: Expr)
    requires NumbersFit(e)
    ensures Run(Base, Tokens(Print(e), 0)) ==
      if Need(Bare(e), 1) >= YYMAXDEPTH then Overflowed else Accepted(e)
  {
    BareLexical(e);
    OntoAlternates(Bare(e), []);
    LexText(Print(e), Yield(Bare(e)), "");
    RunConforming(Bare(e));
  }

  /** The same with blanks and a terminator, and anything behind that. */
  lemma RoundTripWritten(e: Expr, l: seq<Piece>, b: string, tail: string)
    requires NumbersFit(e) && TokensOf(l) == Yield(Bare(e)) && Apart(l) && AllBlank(b) && Terminates(tail)
    ensures Run(Base, Tokens(Written(l) + (b + tail), 0)) ==
      if Need(Bare(e), 1) >= YYMAXDEPTH then Overflowed else Accepted(e)
  {
    LexWritten(l, b, tail);
    RunConforming(Bare(e));
  }

  /** The same statement about the parser itself. */
  method ParsePrinted(e: Expr, l: seq<Piece>, b: string, tail: string) returns (yyresult: int, res: Expr)
    requires NumbersFit(e) && TokensOf(l) == Yield(Bare(e)) && Apart(l) && AllBlank(b) && Terminates(tail)
    ensures Need(Bare(e), 1) < YYMAXDEPTH ==> yyresult == 0 && res == e
    ensures Need(Bare(e), 1) >= YYMAXDEPTH ==> yyresult == 2
  {
    var cp;
    yyresult, res, cp := YyParse(Written(l) + (b + tail), 0);
    RoundTripWritten(e, l, b, tail);
  }
}
