/** Plural-form expressions: the trees of intl/plural-exp.h, the terminals of the grammar in
    intl/plural.y, the derivations that grammar allows, and the derivations that its precedence
    declarations select. */
module PluralSyntax {

  /** `unsigned long int` on an LP64 platform. */
  const ULONG_MODULUS: nat := 0x1_0000_0000_0000_0000

  datatype BinaryOp =
    | Mult | Divide | Module | Plus | Minus
    | LessThan | GreaterThan | LessOrEqual | GreaterOrEqual
    | Equal | NotEqual | Land | Lor

  /** `struct expression`; the constructor fixes `nargs`. */
  datatype Expr =
    | Var
    | Num(num: nat)
    | Lnot(arg: Expr)
    | Binary(op: BinaryOp, left: Expr, right: Expr)
    | Qmop(cond: Expr, tbranch: Expr, fbranch: Expr)

  /** Terminals; `Bad` is the lexer's YYERRCODE. */
  datatype Token =
    | Quest | Colon | Bar | Amp | Bang | LParen | RParen | N
    | EquOp(op: BinaryOp) | CmpOp(op: BinaryOp) | AddOp(op: BinaryOp) | MulOp(op: BinaryOp)
    | Number(num: nat)
    | Bad

  /** Position of a token in the precedence list, loosest first; 0 when it is no infix operator. */
  function OpLevel(t: Token): nat {
    match t
    case Quest => 1
    case Bar => 2
    case Amp => 3
    case EquOp(_) => 4
    case CmpOp(_) => 5
    case AddOp(_) => 6
    case MulOp(_) => 7
    case _ => 0
  }

  const NOT_LEVEL: nat := 8
  const PRIMARY_LEVEL: nat := 9

  predicate IsBinaryToken(t: Token) {
    2 <= OpLevel(t) <= 7
  }

  function OpOf(t: Token): BinaryOp
    requires IsBinaryToken(t)
  {
    match t
    case Bar => Lor
    case Amp => Land
    case EquOp(op) => op
    case CmpOp(op) => op
    case AddOp(op) => op
    case MulOp(op) => op
  }

  /** A derivation of the nonterminal `exp`, one constructor per production (the six binary
      productions share one, told apart by their operator token). */
  datatype Tree =
    | TVar
    | TNum(num: nat)
    | TParen(inner: Tree)
    | TNot(arg: Tree)
    | TBin(left: Tree, op: Token, right: Tree)
    | TCond(cond: Tree, tbranch: Tree, fbranch: Tree)

  /** The tree uses only productions of the grammar; nothing is said about precedence. */
  predicate Derivation(t: Tree) {
    match t
    case TVar => true
    case TNum(_) => true
    case TParen(u) => Derivation(u)
    case TNot(u) => Derivation(u)
    case TBin(l, op, r) => IsBinaryToken(op) && Derivation(l) && Derivation(r)
    case TCond(c, x, y) => Derivation(c) && Derivation(x) && Derivation(y)
  }

  /** The token string that the derivation `t` derives, followed by `rest`. */
  function Onto(t: Tree, rest: seq<Token>): seq<Token> {
    match t
    case TVar => [N] + rest
    case TNum(n) => [Number(n)] + rest
    case TParen(u) => [LParen] + Onto(u, [RParen] + rest)
    case TNot(u) => [Bang] + Onto(u, rest)
    case TBin(l, op, r) => Onto(l, [op] + Onto(r, rest))
    case TCond(c, x, y) => Onto(c, [Quest] + Onto(x, [Colon] + Onto(y, rest)))
  }

  function Yield(t: Tree): seq<Token> {
    Onto(t, [])
  }

  /** The expression the semantic actions build for a derivation. */
  function Ast(t: Tree): Expr
    requires Derivation(t)
  {
    match t
    case TVar => Var
    case TNum(n) => Num(n)
    case TParen(u) => Ast(u)
    case TNot(u) => Lnot(Ast(u))
    case TBin(l, op, r) => Binary(OpOf(op), Ast(l), Ast(r))
    case TCond(c, x, y) => Qmop(Ast(c), Ast(x), Ast(y))
  }

  function Level(t: Tree): nat {
    match t
    case TVar => PRIMARY_LEVEL
    case TNum(_) => PRIMARY_LEVEL
    case TParen(_) => PRIMARY_LEVEL
    case TNot(_) => NOT_LEVEL
    case TBin(_, op, _) => OpLevel(op)
    case TCond(_, _, _) => 1
  }

  /** The derivations that `%left`, `%right` and the preference for shifting select: binary
      operators group to the left, `?:` to the right, and an operand never binds more loosely
      than its operator. */
  predicate Conforms(t: Tree) {
    match t
    case TVar => true
    case TNum(_) => true
    case TParen(u) => Conforms(u)
    case TNot(u) => Conforms(u) && Level(u) >= NOT_LEVEL
    case TBin(l, op, r) =>
      && IsBinaryToken(op)
      && Conforms(l) && Level(l) >= OpLevel(op)
      && Conforms(r) && Level(r) > OpLevel(op)
    case TCond(c, x, y) =>
      && Conforms(c) && Level(c) > 1
      && Conforms(x)
      && Conforms(y)
  }

  lemma LevelBounds(t: Tree)
    requires Conforms(t)
    ensures 1 <= Level(t) <= PRIMARY_LEVEL
  {}

  lemma ConformsDerives(t: Tree)
    requires Conforms(t)
    ensures Derivation(t)
  {}

  // ----- every derivable token string has a conforming derivation

  function Size(t: Tree): nat {
    match t
    case TVar => 1
    case TNum(_) => 1
    case TParen(u) => 1 + Size(u)
    case TNot(u) => 1 + Size(u)
    case TBin(l, _, r) => 1 + Size(l) + Size(r)
    case TCond(c, x, y) => 1 + Size(c) + Size(x) + Size(y)
  }

  function Min(a: nat, b: nat): nat { if a <= b then a else b }

  /** Regroups `c ? x : y` for conforming parts. */
  function JoinCond(c: Tree, x: Tree, y: Tree): (t: Tree)
    requires Conforms(c) && Conforms(x) && Conforms(y)
    ensures Conforms(t) && Level(t) == 1 && Size(t) == 1 + Size(c) + Size(x) + Size(y)
    decreases c
  {
    LevelBounds(c);
    if Level(c) > 1 then TCond(c, x, y)
    else TCond(c.cond, c.tbranch, JoinCond(c.fbranch, x, y))
  }

  /** Regroups `l op r` for conforming operands. */
  function JoinBin(l: Tree, op: Token, r: Tree): (t: Tree)
    requires Conforms(l) && Conforms(r) && IsBinaryToken(op)
    ensures Conforms(t) && Level(t) >= Min(Level(l), Min(OpLevel(op), Level(r)))
    ensures Size(t) == Size(l) + 1 + Size(r)
    decreases Size(l) + Size(r), Size(r)
  {
    LevelBounds(l);
    LevelBounds(r);
    if Level(r) <= OpLevel(op) then
      if r.TCond? then JoinCond(JoinBin(l, op, r.cond), r.tbranch, r.fbranch)
      else JoinBin(JoinBin(l, op, r.left), r.op, r.right)
    else if Level(l) >= OpLevel(op) then TBin(l, op, r)
    else if l.TCond? then TCond(l.cond, l.tbranch, JoinBin(l.fbranch, op, r))
    else TBin(l.left, l.op, JoinBin(l.right, op, r))
  }

  /** Regroups `! u` for a conforming operand. */
  function JoinNot(u: Tree): (t: Tree)
    requires Conforms(u)
    ensures Conforms(t) && Level(t) >= Min(NOT_LEVEL, Level(u))
  {
    LevelBounds(u);
    if Level(u) >= NOT_LEVEL then TNot(u)
    else if u.TCond? then TCond(JoinNot(u.cond), u.tbranch, u.fbranch)
    else TBin(JoinNot(u.left), u.op, u.right)
  }

  /** The conforming derivation chosen for the token string of an arbitrary derivation. */
  function Regroup(t: Tree): (u: Tree)
    requires Derivation(t)
    ensures Conforms(u)
  {
    match t
    case TVar => t
    case TNum(_) => t
    case TParen(v) => TParen(Regroup(v))
    case TNot(v) => JoinNot(Regroup(v))
    case TBin(l, op, r) => JoinBin(Regroup(l), op, Regroup(r))
    case TCond(c, x, y) => JoinCond(Regroup(c), Regroup(x), Regroup(y))
  }

  lemma {:induction false} JoinCondOnto(c: Tree, x: Tree, y: Tree, rest: seq<Token>)
    requires Conforms(c) && Conforms(x) && Conforms(y)
    ensures Onto(JoinCond(c, x, y), rest) == Onto(c, [Quest] + Onto(x, [Colon] + Onto(y, rest)))
    decreases c
  {
    LevelBounds(c);
    if Level(c) > 1 {
      assert JoinCond(c, x, y) == TCond(c, x, y);
    } else {
      var f := JoinCond(c.fbranch, x, y);
      JoinCondOnto(c.fbranch, x, y, rest);
      assert JoinCond(c, x, y) == TCond(c.cond, c.tbranch, f);
    }
  }

  lemma {:induction false} JoinBinOnto(l: Tree, op: Token, r: Tree, rest: seq<Token>)
    requires Conforms(l) && Conforms(r) && IsBinaryToken(op)
    ensures Onto(JoinBin(l, op, r), rest) == Onto(l, [op] + Onto(r, rest))
    decreases Size(l) + Size(r), Size(r)
  {
    LevelBounds(l);
    LevelBounds(r);
    if Level(r) <= OpLevel(op) {
      if r.TCond? {
        var c := JoinBin(l, op, r.cond);
        JoinBinOnto(l, op, r.cond, [Quest] + Onto(r.tbranch, [Colon] + Onto(r.fbranch, rest)));
        JoinCondOnto(c, r.tbranch, r.fbranch, rest);
        assert JoinBin(l, op, r) == JoinCond(c, r.tbranch, r.fbranch);
      } else {
        var l' := JoinBin(l, op, r.left);
        JoinBinOnto(l, op, r.left, [r.op] + Onto(r.right, rest));
        JoinBinOnto(l', r.op, r.right, rest);
        assert JoinBin(l, op, r) == JoinBin(l', r.op, r.right);
      }
    } else if Level(l) >= OpLevel(op) {
      assert JoinBin(l, op, r) == TBin(l, op, r);
    } else if l.TCond? {
      JoinBinOnto(l.fbranch, op, r, rest);
      assert JoinBin(l, op, r) == TCond(l.cond, l.tbranch, JoinBin(l.fbranch, op, r));
    } else {
      JoinBinOnto(l.right, op, r, rest);
      assert JoinBin(l, op, r) == TBin(l.left, l.op, JoinBin(l.right, op, r));
    }
  }

  lemma {:induction false} JoinNotOnto(u: Tree, rest: seq<Token>)
    requires Conforms(u)
    ensures Onto(JoinNot(u), rest) == [Bang] + Onto(u, rest)
  {
    LevelBounds(u);
    if Level(u) < NOT_LEVEL {
      if u.TCond? {
        JoinNotOnto(u.cond, [Quest] + Onto(u.tbranch, [Colon] + Onto(u.fbranch, rest)));
      } else {
        JoinNotOnto(u.left, [u.op] + Onto(u.right, rest));
      }
    }
  }

  lemma {:induction false} RegroupOnto(t: Tree, rest: seq<Token>)
    requires Derivation(t)
    ensures Onto(Regroup(t), rest) == Onto(t, rest)
  {
    match t
    case TVar =>
    case TNum(_) =>
    case TParen(v) => RegroupOnto(v, [RParen] + rest);
    case TNot(v) => RegroupOnto(v, rest); JoinNotOnto(Regroup(v), rest);
    case TBin(l, op, r) =>
      RegroupOnto(r, rest);
      RegroupOnto(l, [op] + Onto(r, rest));
      JoinBinOnto(Regroup(l), op, Regroup(r), rest);
    case TCond(c, x, y) =>
      RegroupOnto(y, rest);
      RegroupOnto(x, [Colon] + Onto(y, rest));
      RegroupOnto(c, [Quest] + Onto(x, [Colon] + Onto(y, rest)));
      JoinCondOnto(Regroup(c), Regroup(x), Regroup(y), rest);
  }

  /** Precedence only regroups, it never rejects: every derivable token string also has a
      conforming derivation. */
  lemma RegroupYield(t: Tree)
    requires Derivation(t)
    ensures Conforms(Regroup(t)) && Yield(Regroup(t)) == Yield(t)
  {
    RegroupOnto(t, []);
  }
}
