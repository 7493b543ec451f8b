/** What the LALR(1) automaton of intl/plural.c does with a whole token string, and the proof that
    it accepts exactly the derivable strings and builds the expression of the conforming
    derivation. */
module PluralAutomaton {
  import opened PluralSyntax
  import opened PluralTables

  /** YYSTYPE. */
  datatype Value = VNone | VNum(num: nat) | VOp(op: BinaryOp) | VExp(exp: Expr)

  /** The state stack and the value stack, which the driver keeps at the same height. `Base` is
      state 0 with its unused value slot. */
  datatype Stack = Base | Push(below: Stack, state: int, value: Value)

  function Top(st: Stack): int { if st.Base? then 0 else st.state }

  function Depth(st: Stack): nat { if st.Base? then 1 else 1 + Depth(st.below) }

  /** Token numbers after YYTRANSLATE. */
  function Symbol(t: Token): int {
    match t
    case Bad => 1
    case Quest => 3
    case Bar => 4
    case Amp => 5
    case EquOp(_) => 6
    case CmpOp(_) => 7
    case AddOp(_) => 8
    case MulOp(_) => 9
    case Bang => 10
    case Number(_) => 11
    case Colon => 12
    case N => 13
    case LParen => 14
    case RParen => 15
  }

  function TokenValue(t: Token): Value {
    match t
    case Number(n) => VNum(n)
    case EquOp(op) => VOp(op)
    case CmpOp(op) => VOp(op)
    case AddOp(op) => VOp(op)
    case MulOp(op) => VOp(op)
    case _ => VNone
  }

  /** The lookahead symbol when `rest` is what remains of the input. */
  function Peek(rest: seq<Token>): int {
    if rest == [] then 0 else Symbol(rest[0])
  }

  /** State `s`, holding `v`, may stand directly above state `p`. */
  predicate Linked(p: int, s: int, v: Value) {
    if 1 <= s <= 4 then Open(p) && (s == 2 ==> v.VNum?)
    else if 8 <= s <= 14 then Closed(p) && (11 <= s ==> v.VOp?)
    else if Closed(s) then Open(p) && ExpGoto(p) == s && v.VExp?
    else if s == 15 then p == 7
    else if s == 23 then p == 16
    else if s == 25 then p == 0 && v.VExp?
    else s == 26 && p == 25
  }

  predicate WellLinked(st: Stack) {
    st.Push? ==> WellLinked(st.below) && Linked(Top(st.below), st.state, st.value)
  }

  lemma TopIsState(st: Stack)
    requires WellLinked(st)
    ensures IsState(Top(st))
  {}

  datatype Outcome = Accepted(exp: Expr) | Aborted | Overflowed

  /** The stack left after popping the right-hand side of the rule that state `Top(st)` completes,
      and the value the rule's action computes. */
  function Reduction(st: Stack): (r: (Stack, Value))
    requires WellLinked(st) && (Top(st) in {2, 3, 15} || Closed(Top(st))) && Top(st) !in {7, 16}
    ensures WellLinked(r.0) && r.1.VExp?
    ensures Depth(r.0) + (if Top(st) in {2, 3, 5} then 1 else 2) <= Depth(st)
    ensures Open(Top(r.0)) && (Top(st) == 5 ==> r.0.Base?)
  {
    var s := Top(st);
    if s == 2 then (st.below, VExp(Num(st.value.num)))
    else if s == 3 then (st.below, VExp(Var))
    else if s == 5 then (st.below, st.value)
    else if s == 6 then
      var o := st.below;
      assert WellLinked(o) && Top(o) == 1;
      assert Depth(st) == 2 + Depth(o.below);
      (o.below, VExp(Lnot(st.value.exp)))
    else if s == 15 then
      var e := st.below;
      assert WellLinked(e) && Top(e) == 7;
      assert WellLinked(e.below) && Top(e.below) == 4;
      assert Depth(st) == 2 + Depth(e.below);
      (e.below.below, e.value)
    else if s == 24 then
      var f := st.value.exp;
      assert WellLinked(st.below) && Top(st.below) == 23;
      var t := st.below.below;
      assert WellLinked(t) && t.state == 16;
      assert WellLinked(t.below) && Top(t.below) == 8;
      var c := t.below.below;
      assert WellLinked(c) && Closed(c.state);
      assert Depth(st) == 2 + Depth(t) && Depth(t) == 2 + Depth(c);
      (c.below, VExp(Qmop(c.value.exp, t.value.exp, f)))
    else
      var o := st.below;
      assert WellLinked(o) && Top(o) == s - 8;
      var l := o.below;
      assert WellLinked(l) && Closed(l.state);
      assert Depth(st) == 2 + Depth(l);
      var op := if s == 17 then Lor else if s == 18 then Land else o.value.op;
      (l.below, VExp(Binary(op, l.value.exp, st.value.exp)))
  }

  function Phase(st: Stack): nat {
    if Top(st) == 26 then 0 else if Top(st) == 25 then 1 else 2
  }

  function Work(st: Stack, rest: seq<Token>): nat {
    5 * |rest| + 3 * Depth(st) + (if Top(st) == 2 || Top(st) == 3 then 1 else 0)
  }

  function AfterReduce(st: Stack): Stack
    requires WellLinked(st) && (Top(st) in {2, 3, 15} || Closed(Top(st))) && Top(st) !in {7, 16}
  {
    var (b, v) := Reduction(st);
    Push(b, if Top(st) == 5 then 25 else ExpGoto(Top(b)), v)
  }

  /** A run of the automaton from a stack and the remaining input. */
  function Run(st: Stack, rest: seq<Token>): Outcome
    requires WellLinked(st)
    decreases Phase(st), Work(st, rest)
  {
    TopIsState(st);
    if Depth(st) >= YYMAXDEPTH then Overflowed
    else
      match Unpacked(Top(st), Peek(rest))
      case Fail => Aborted
      case Accept =>
        assert WellLinked(st.below);
        Accepted(st.below.value.exp)
      case Reduce(_) => Run(AfterReduce(st), rest)
      case Shift(s) =>
        if rest == [] then Run(Push(st, s, VNone), [])
        else Run(Push(st, s, TokenValue(rest[0])), rest[1..])
  }

  // ----- soundness: what is accepted has a conforming derivation

  /** The grammar symbols a stack stands for: tokens, and derivations of completed expressions. */
  datatype Symbols = Nil | Tok(below: Symbols, tok: Token) | Exp(below: Symbols, tree: Tree)

  /** The tokens consumed so far, followed by `rest`. */
  function Before(ps: Symbols, rest: seq<Token>): seq<Token> {
    match ps
    case Nil => rest
    case Tok(b, t) => Before(b, [t] + rest)
    case Exp(b, t) => Before(b, Onto(t, rest))
  }

  /** The symbol whose shift enters state `s`. */
  function AccessSymbol(s: int): int {
    if s == 1 then 10 else if s == 2 then 11 else if s == 3 then 13 else if s == 4 then 14
    else if s == 15 then 15 else if s == 23 then 12
    else if 8 <= s <= 14 then s - 5 else -1
  }

  /** `t` may be the left operand of an operator of level `l`; only `?` demands more than `l`. */
  predicate LeftFits(t: Tree, l: nat) {
    l == 0 || (Level(t) >= l && Level(t) > 1)
  }

  ghost predicate Explains(st: Stack, ps: Symbols) {
    match ps
    case Nil => st.Base?
    case Tok(b, t) =>
      && st.Push? && Explains(st.below, b)
      && AccessSymbol(st.state) == Symbol(t) && st.value == TokenValue(t)
      && (8 <= st.state <= 14 ==>
          b.Exp? && LeftFits(b.tree, OpLevel(t)) && OpLevel(t) >= ClosedMinLevel(Top(st.below)))
    case Exp(b, t) =>
      && st.Push? && Explains(st.below, b)
      && Open(Top(st.below)) && st.state == ExpGoto(Top(st.below))
      && Conforms(t) && Level(t) >= MinLevel(Top(st.below))
      && Derivation(t) && st.value == VExp(Ast(t))
  }

  /** What reducing at the top of a stack does to the symbols it stands for. */
  ghost predicate Reduces(st: Stack, ps: Symbols, rest: seq<Token>, qs: Symbols)
    requires WellLinked(st) && (Top(st) in {2, 3, 15} || Closed(Top(st))) && Top(st) !in {5, 7, 16}
  {
    && qs.Exp? && Explains(AfterReduce(st), qs)
    && Before(qs, rest) == Before(ps, rest)
    && LeftFits(qs.tree, SymbolLevel(Peek(rest)))
  }

  lemma ReducePrimary(st: Stack, ps: Symbols, rest: seq<Token>) returns (qs: Symbols)
    requires WellLinked(st) && Explains(st, ps) && Top(st) in {2, 3}
    ensures Reduces(st, ps, rest, qs)
  {
    qs := Exp(ps.below, if Top(st) == 2 then TNum(ps.tok.num) else TVar);
  }

  lemma ReduceParen(st: Stack, ps: Symbols, rest: seq<Token>) returns (qs: Symbols)
    requires WellLinked(st) && Explains(st, ps) && Top(st) == 15
    ensures Reduces(st, ps, rest, qs)
  {
    var e, pe := st.below, ps.below;
    assert WellLinked(e) && Explains(e, pe);
    var p, pp := e.below, pe.below;
    assert WellLinked(p) && Explains(p, pp);
    qs := Exp(pp.below, TParen(pe.tree));
    assert Before(ps, rest) == Before(pp, Onto(pe.tree, [RParen] + rest));
  }

  lemma ReduceNot(st: Stack, ps: Symbols, rest: seq<Token>) returns (qs: Symbols)
    requires WellLinked(st) && Explains(st, ps) && Top(st) == 6
    ensures Reduces(st, ps, rest, qs)
  {
    var o, po := st.below, ps.below;
    assert WellLinked(o) && Explains(o, po);
    qs := Exp(po.below, TNot(ps.tree));
    assert Before(ps, rest) == Before(po, Onto(ps.tree, rest));
  }

  lemma ReduceBinary(st: Stack, ps: Symbols, rest: seq<Token>) returns (qs: Symbols)
    requires WellLinked(st) && Explains(st, ps) && 17 <= Top(st) <= 22
    requires SymbolLevel(Peek(rest)) < ClosedMinLevel(Top(st))
    ensures Reduces(st, ps, rest, qs)
  {
    var o, po := st.below, ps.below;
    assert WellLinked(o) && Explains(o, po) && o.state == st.state - 8;
    var l, pl := o.below, po.below;
    assert WellLinked(l) && Explains(l, pl);
    qs := Exp(pl.below, TBin(pl.tree, po.tok, ps.tree));
    assert Before(ps, rest) == Before(pl, [po.tok] + Onto(ps.tree, rest));
    BinaryExplained(st, ps);
  }

  lemma BinaryExplained(st: Stack, ps: Symbols)
    requires WellLinked(st) && Explains(st, ps) && 17 <= Top(st) <= 22
    requires ps.Exp? && ps.below.Tok? && ps.below.below.Exp?
    ensures Explains(AfterReduce(st), Exp(ps.below.below.below, TBin(ps.below.below.tree, ps.below.tok, ps.tree)))
  {
    var o, po := st.below, ps.below;
    assert WellLinked(o) && Explains(o, po) && o.state == st.state - 8;
    var l, pl := o.below, po.below;
    assert WellLinked(l) && Explains(l, pl);
  }

  lemma ReduceCond(st: Stack, ps: Symbols, rest: seq<Token>) returns (qs: Symbols)
    requires WellLinked(st) && Explains(st, ps) && Top(st) == 24
    requires SymbolLevel(Peek(rest)) < 1
    ensures Reduces(st, ps, rest, qs)
  {
    var colon, pcolon := st.below, ps.below;
    assert WellLinked(colon) && Explains(colon, pcolon) && colon.state == 23;
    var x, px := colon.below, pcolon.below;
    assert WellLinked(x) && Explains(x, px) && x.state == 16;
    var quest, pquest := x.below, px.below;
    assert WellLinked(quest) && Explains(quest, pquest) && quest.state == 8;
    var c, pc := quest.below, pquest.below;
    assert WellLinked(c) && Explains(c, pc);
    qs := Exp(pc.below, TCond(pc.tree, px.tree, ps.tree));
    assert Before(ps, rest) == Before(px, [Colon] + Onto(ps.tree, rest));
    assert Before(px, [Colon] + Onto(ps.tree, rest))
        == Before(pc, [Quest] + Onto(px.tree, [Colon] + Onto(ps.tree, rest)));
  }

  lemma Reduced(st: Stack, ps: Symbols, rest: seq<Token>) returns (qs: Symbols)
    requires WellLinked(st) && Explains(st, ps) && IsState(Top(st)) && Top(st) != 5
    requires Unpacked(Top(st), Peek(rest)).Reduce?
    ensures Top(st) in {2, 3, 15} || Closed(Top(st))
    ensures Top(st) !in {7, 16} && Reduces(st, ps, rest, qs)
  {
    if Top(st) in {2, 3} {
      qs := ReducePrimary(st, ps, rest);
    } else if Top(st) == 15 {
      qs := ReduceParen(st, ps, rest);
    } else if Top(st) == 6 {
      qs := ReduceNot(st, ps, rest);
    } else if Top(st) == 24 {
      qs := ReduceCond(st, ps, rest);
    } else {
      qs := ReduceBinary(st, ps, rest);
    }
  }

  /** A shifted token can be put on the symbols the stack stands for. */
  lemma Shifted(st: Stack, ps: Symbols, rest: seq<Token>, s: int)
    requires WellLinked(st) && Explains(st, ps) && IsState(Top(st)) && Top(st) < 25
    requires Unpacked(Top(st), Peek(rest)) == Shift(s)
    requires ps.Exp? ==> LeftFits(ps.tree, SymbolLevel(Peek(rest)))
    ensures rest != [] && Explains(Push(st, s, TokenValue(rest[0])), Tok(ps, rest[0]))
    ensures Before(Tok(ps, rest[0]), rest[1..]) == Before(ps, rest)
  {
    assert [rest[0]] + rest[1..] == rest;
  }

  lemma ShiftedOn(st: Stack, rest: seq<Token>, s: int)
    requires WellLinked(st) && IsState(Top(st)) && Top(st) < 25 && rest != []
    requires Unpacked(Top(st), Peek(rest)) == Shift(s)
    ensures WellLinked(Push(st, s, TokenValue(rest[0]))) == true && s < 25
    ensures Work(Push(st, s, TokenValue(rest[0])), rest[1..]) < Work(st, rest)
    ensures Depth(st) < YYMAXDEPTH ==> Run(st, rest) == Run(Push(st, s, TokenValue(rest[0])), rest[1..])
  {}

  /** Once the whole input has been reduced to `start`, only the end of input is accepted. */
  lemma RunStart(e: Expr, rest: seq<Token>)
    ensures WellLinked(Push(Base, 25, VExp(e)))
    ensures Run(Push(Base, 25, VExp(e)), rest) == if rest == [] then Accepted(e) else Aborted
  {
    var st := Push(Base, 25, VExp(e));
    assert WellLinked(Base) && Linked(Top(Base), 25, VExp(e));
    assert WellLinked(st) && Depth(st) == 2;
    if rest == [] {
      var st' := Push(st, 26, VNone);
      assert Linked(Top(st), 26, VNone);
      assert WellLinked(st') && Depth(st') == 3;
      assert Unpacked(Top(st'), Peek([])) == Accept;
      assert Run(st', []) == Accepted(e);
      assert Unpacked(Top(st), Peek([])) == Shift(26);
    } else {
      assert Unpacked(Top(st), Peek(rest)) == Fail;
    }
  }

  /** If a run accepts, `t` is a conforming derivation of the tokens, and its expression the one returned. */
  predicate Explained(toks: seq<Token>, out: Outcome, t: Tree) {
    out.Accepted? ==> Conforms(t) && Derivation(t) && Yield(t) == toks && out.exp == Ast(t)
  }

  /** Soundness along a run: if it accepts, the consumed and remaining tokens together have a
      conforming derivation whose expression is the one returned. */
  lemma {:induction false} RunSound(st: Stack, ps: Symbols, rest: seq<Token>) returns (t: Tree)
    requires WellLinked(st) && Explains(st, ps) && Top(st) < 25
    requires ps.Exp? ==> LeftFits(ps.tree, SymbolLevel(Peek(rest)))
    ensures Explained(Before(ps, rest), Run(st, rest), t) == true
    decreases Phase(st), Work(st, rest)
  {
    t := TVar;
    TopIsState(st);
    if Depth(st) < YYMAXDEPTH {
      match Unpacked(Top(st), Peek(rest))
      case Fail =>
      case Accept =>
      case Reduce(_) =>
        if Top(st) == 5 {
          t := ps.tree;
          assert WellLinked(st.below);
          RunStart(st.value.exp, rest);
        } else {
          var qs := Reduced(st, ps, rest);
          t := RunSound(AfterReduce(st), qs, rest);
        }
      case Shift(s) =>
        Shifted(st, ps, rest, s);
        ShiftedOn(st, rest, s);
        t := RunSound(Push(st, s, TokenValue(rest[0])), Tok(ps, rest[0]), rest[1..]);
    }
  }

  // ----- completeness: every conforming derivation is followed

  function Max(a: nat, b: nat): nat { if a >= b then a else b }

  /** The greatest stack height while the automaton reads `t`, starting at height `k`. */
  function Need(t: Tree, k: nat): (d: nat)
    ensures d > k
  {
    match t
    case TVar => k + 1
    case TNum(_) => k + 1
    case TParen(u) => Max(Need(u, k + 1), k + 3)
    case TNot(u) => Need(u, k + 1)
    case TBin(l, _, r) => Max(Need(l, k), Need(r, k + 2))
    case TCond(c, x, y) => Max(Need(c, k), Max(Need(x, k + 2), Need(y, k + 4)))
  }

  lemma ShiftStep(st: Stack, t: Token, rest: seq<Token>, s: int)
    requires WellLinked(st) && Depth(st) < YYMAXDEPTH && IsState(Top(st))
    requires Unpacked(Top(st), Symbol(t)) == Shift(s)
    ensures WellLinked(Push(st, s, TokenValue(t)))
    ensures Run(st, [t] + rest) == Run(Push(st, s, TokenValue(t)), rest)
  {
    assert ([t] + rest)[1..] == rest;
  }

  lemma ReduceStep(st: Stack, rest: seq<Token>)
    requires WellLinked(st) && Depth(st) < YYMAXDEPTH && IsState(Top(st))
    requires Unpacked(Top(st), Peek(rest)).Reduce?
    ensures Top(st) in {2, 3, 15} || Closed(Top(st))
    ensures Top(st) !in {7, 16} && Run(st, rest) == Run(AfterReduce(st), rest)
  {}

  /** The stack after completing an expression of value `e` on top of an open state. */
  function Completed(st: Stack, e: Expr): (r: Stack)
    requires WellLinked(st) && Open(Top(st))
    ensures WellLinked(r)
  {
    Push(st, ExpGoto(Top(st)), VExp(e))
  }

  /** The automaton reads a conforming derivation and ends with its value on the stack, unless the
      stack limit stops it. */
  ghost predicate Follows(st: Stack, t: Tree, rest: seq<Token>)
    requires WellLinked(st) && Open(Top(st)) && Derivation(t)
  {
    Run(st, Onto(t, rest)) ==
      if Need(t, Depth(st)) >= YYMAXDEPTH then Overflowed else Run(Completed(st, Ast(t)), rest)
  }

  ghost predicate Fits(st: Stack, t: Tree, rest: seq<Token>)
    requires WellLinked(st) && Open(Top(st))
  {
    && Conforms(t) && Derivation(t) && Level(t) >= MinLevel(Top(st))
    && LeftFits(t, SymbolLevel(Peek(rest)))
  }

  lemma {:induction false} RunFollows(st: Stack, t: Tree, rest: seq<Token>)
    requires WellLinked(st) && Open(Top(st)) && Fits(st, t, rest)
    ensures Follows(st, t, rest)
    decreases t, 3
  {
    if Depth(st) < YYMAXDEPTH {
      match t
      case TVar => FollowPrimary(st, t, rest);
      case TNum(_) => FollowPrimary(st, t, rest);
      case TParen(u) => FollowParen(st, u, rest);
      case TNot(u) => FollowNot(st, u, rest);
      case TBin(l, op, r) => FollowBinary(st, l, op, r, rest);
      case TCond(c, x, y) => FollowCond(st, c, x, y, rest);
    }
  }

  lemma FollowPrimary(st: Stack, t: Tree, rest: seq<Token>)
    requires WellLinked(st) && Open(Top(st)) && Depth(st) < YYMAXDEPTH && (t.TVar? || t.TNum?)
    ensures Follows(st, t, rest)
  {
    if t.TVar? {
      FollowToken(st, N, rest, 3, Var);
    } else {
      FollowToken(st, Number(t.num), rest, 2, Num(t.num));
    }
  }

  lemma FollowToken(st: Stack, tok: Token, rest: seq<Token>, s: int, e: Expr)
    requires WellLinked(st) && Open(Top(st)) && Depth(st) < YYMAXDEPTH
    requires (tok.N? && s == 3 && e == Var) || (tok.Number? && s == 2 && e == Num(tok.num))
    ensures
      Run(st, [tok] + rest) == if Depth(st) + 1 < YYMAXDEPTH then Run(Completed(st, e), rest) else Overflowed
  {
    ShiftStep(st, tok, rest, s);
    if Depth(st) + 1 < YYMAXDEPTH {
      ReduceStep(Push(st, s, TokenValue(tok)), rest);
    }
  }

  lemma {:induction false} FollowParen(st: Stack, u: Tree, rest: seq<Token>)
    requires WellLinked(st) && Open(Top(st)) && Fits(st, TParen(u), rest) && Depth(st) < YYMAXDEPTH
    ensures Follows(st, TParen(u), rest)
    decreases TParen(u), 0
  {
    var st2 := Push(st, 4, VNone);
    ShiftStep(st, LParen, Onto(u, [RParen] + rest), 4);
    RunFollows(st2, u, [RParen] + rest);
    if Need(u, Depth(st2)) < YYMAXDEPTH {
      CloseParen(st, Ast(u), rest);
    }
  }

  lemma CloseParen(st: Stack, e: Expr, rest: seq<Token>)
    requires WellLinked(st) && Open(Top(st))
    ensures WellLinked(Push(st, 4, VNone)) && Open(Top(Push(st, 4, VNone)))
    ensures
      var st3 := Completed(Push(st, 4, VNone), e);
      Depth(st3) < YYMAXDEPTH ==>
        Run(st3, [RParen] + rest) == if Depth(st3) + 1 < YYMAXDEPTH then Run(Completed(st, e), rest) else Overflowed
  {
    var st3 := Completed(Push(st, 4, VNone), e);
    if Depth(st3) < YYMAXDEPTH {
      ShiftStep(st3, RParen, rest, 15);
      if Depth(st3) + 1 < YYMAXDEPTH {
        ReduceStep(Push(st3, 15, VNone), rest);
      }
    }
  }

  /** Reading the last operand `r` of a production and reducing by it. */
  lemma {:induction false} FollowLast(st: Stack, r: Tree, rest: seq<Token>, goal: Stack)
    requires WellLinked(st) && Open(Top(st)) && Top(st) !in {0, 4, 8} && Fits(st, r, rest)
    requires SymbolLevel(Peek(rest)) < MinLevel(Top(st))
    requires AfterReduce(Completed(st, Ast(r))) == goal && WellLinked(goal)
    ensures Run(st, Onto(r, rest)) ==
      if Need(r, Depth(st)) >= YYMAXDEPTH then Overflowed else Run(goal, rest)
    decreases r, 4
  {
    RunFollows(st, r, rest);
    if Need(r, Depth(st)) < YYMAXDEPTH {
      ReduceStep(Completed(st, Ast(r)), rest);
    }
  }

  lemma {:induction false} FollowNot(st: Stack, u: Tree, rest: seq<Token>)
    requires WellLinked(st) && Open(Top(st)) && Fits(st, TNot(u), rest) && Depth(st) < YYMAXDEPTH
    ensures Follows(st, TNot(u), rest)
    decreases TNot(u), 0
  {
    var st2 := Push(st, 1, VNone);
    ShiftStep(st, Bang, Onto(u, rest), 1);
    FollowLast(st2, u, rest, Completed(st, Lnot(Ast(u))));
  }

  /** The stack after reading an operand and the operator token that follows it. */
  function Operator(st: Stack, e: Expr, t: Token): (r: Stack)
    requires WellLinked(st) && Open(Top(st))
    requires OpLevel(t) > 0 || (t.Colon? && Top(st) == 8)
    ensures WellLinked(r) && Open(Top(r)) && Depth(r) == Depth(st) + 2
    ensures Top(r) == if t.Colon? then 23 else OpLevel(t) + 7
  {
    var r := Push(Completed(st, e), if t.Colon? then 23 else OpLevel(t) + 7, TokenValue(t));
    assert WellLinked(r);
    r
  }

  lemma OperatorShift(st: Stack, l: Tree, op: Token)
    requires WellLinked(st) && Open(Top(st)) && Derivation(l)
    requires OpLevel(op) > 0 || (op.Colon? && Top(st) == 8)
    requires OpLevel(op) >= MinLevel(Top(st)) || op.Colon?
    ensures Unpacked(Top(Completed(st, Ast(l))), Symbol(op)) == Shift(Top(Operator(st, Ast(l), op)))
  {}

  /** Reading `l op` in front of `more`. */
  lemma {:induction false} FollowOperand(st: Stack, l: Tree, op: Token, more: seq<Token>)
    requires WellLinked(st) && Open(Top(st)) && Conforms(l) && Derivation(l)
    requires Level(l) >= MinLevel(Top(st)) && LeftFits(l, OpLevel(op))
    requires OpLevel(op) > 0 || (op.Colon? && Top(st) == 8)
    requires OpLevel(op) >= MinLevel(Top(st)) || op.Colon?
    ensures Run(st, Onto(l, [op] + more)) ==
      if Need(l, Depth(st)) >= YYMAXDEPTH then Overflowed else Run(Operator(st, Ast(l), op), more)
    decreases l, 4
  {
    assert SymbolLevel(Peek([op] + more)) == OpLevel(op);
    RunFollows(st, l, [op] + more);
    if Need(l, Depth(st)) < YYMAXDEPTH {
      OperatorShift(st, l, op);
      ShiftStep(Completed(st, Ast(l)), op, more, Top(Operator(st, Ast(l), op)));
    }
  }

  lemma BinaryReduction(st: Stack, l: Tree, op: Token, r: Tree)
    requires WellLinked(st) && Open(Top(st)) && Derivation(TBin(l, op, r))
    ensures
      var st3 := Completed(Operator(st, Ast(l), op), Ast(r));
      Closed(Top(st3)) && Top(st3) !in {7, 16} && AfterReduce(st3) == Completed(st, Ast(TBin(l, op, r)))
  {}

  /** The operands of a binary operation fit where they are read. */
  lemma BinaryFits(st: Stack, l: Tree, op: Token, r: Tree, rest: seq<Token>)
    requires WellLinked(st) && Open(Top(st)) && Fits(st, TBin(l, op, r), rest)
    ensures Conforms(l) && Derivation(l) && Level(l) >= MinLevel(Top(st)) && LeftFits(l, OpLevel(op))
    ensures OpLevel(op) > 0 && OpLevel(op) >= MinLevel(Top(st)) && Derivation(TBin(l, op, r))
    ensures
      var st2 := Operator(st, Ast(l), op);
      Top(st2) !in {0, 4, 8} && Fits(st2, r, rest) && SymbolLevel(Peek(rest)) < MinLevel(Top(st2))
  {}

  lemma {:induction false} FollowBinary(st: Stack, l: Tree, op: Token, r: Tree, rest: seq<Token>)
    requires WellLinked(st) && Open(Top(st)) && Fits(st, TBin(l, op, r), rest)
    ensures Follows(st, TBin(l, op, r), rest)
    decreases TBin(l, op, r), 0
  {
    BinaryFits(st, l, op, r, rest);
    FollowOperand(st, l, op, Onto(r, rest));
    BinaryReduction(st, l, op, r);
    FollowLast(Operator(st, Ast(l), op), r, rest, Completed(st, Ast(TBin(l, op, r))));
  }

  lemma CondReduction(st: Stack, c: Expr, x: Expr, y: Expr)
    requires WellLinked(st) && Open(Top(st))
    ensures
      var st5 := Completed(Operator(Operator(st, c, Quest), x, Colon), y);
      Top(st5) == 24 && AfterReduce(st5) == Completed(st, Qmop(c, x, y))
  {}

  /** Reading `x : y` after `?` and reducing the conditional. */
  lemma {:induction false} FollowBranches(t: Tree, st: Stack, x: Tree, y: Tree, rest: seq<Token>, goal: Stack)
    requires t.TCond? && t.tbranch == x && t.fbranch == y && WellLinked(st) && Top(st) == 8
    requires Conforms(x) && Derivation(x) && Conforms(y) && Derivation(y) && SymbolLevel(Peek(rest)) == 0
    requires AfterReduce(Completed(Operator(st, Ast(x), Colon), Ast(y))) == goal && WellLinked(goal)
    ensures Run(st, Onto(x, [Colon] + Onto(y, rest))) ==
      if Max(Need(x, Depth(st)), Need(y, Depth(st) + 2)) >= YYMAXDEPTH then Overflowed else Run(goal, rest)
    decreases t, 0
  {
    LevelBounds(x);
    FollowOperand(st, x, Colon, Onto(y, rest));
    LevelBounds(y);
    FollowLast(Operator(st, Ast(x), Colon), y, rest, goal);
  }

  lemma CondFits(st: Stack, c: Tree, x: Tree, y: Tree, rest: seq<Token>)
    requires WellLinked(st) && Open(Top(st)) && Fits(st, TCond(c, x, y), rest)
    ensures Conforms(c) && Derivation(c) && Level(c) >= MinLevel(Top(st)) && LeftFits(c, OpLevel(Quest))
    ensures OpLevel(Quest) > 0 && OpLevel(Quest) >= MinLevel(Top(st))
    ensures WellLinked(Operator(st, Ast(c), Quest)) && Top(Operator(st, Ast(c), Quest)) == 8
    ensures Conforms(x) && Derivation(x) && Conforms(y) && Derivation(y) && SymbolLevel(Peek(rest)) == 0
  {}

  lemma {:induction false} FollowCond(st: Stack, c: Tree, x: Tree, y: Tree, rest: seq<Token>)
    requires WellLinked(st) && Open(Top(st)) && Fits(st, TCond(c, x, y), rest)
    ensures Follows(st, TCond(c, x, y), rest)
    decreases TCond(c, x, y), 2
  {
    FollowCondBranches(TCond(c, x, y), st, rest);
    FollowCondition(TCond(c, x, y), st, rest, Onto(x, [Colon] + Onto(y, rest)));
  }

  lemma {:induction false} FollowCondition(t: Tree, st: Stack, rest: seq<Token>, more: seq<Token>)
    requires WellLinked(st) && Open(Top(st)) && t.TCond? && Fits(st, t, rest)
    ensures
      Run(st, Onto(t.cond, [Quest] + more)) ==
      if Need(t.cond, Depth(st)) >= YYMAXDEPTH then Overflowed else Run(Operator(st, Ast(t.cond), Quest), more)
    decreases t, 1
  {
    CondFits(st, t.cond, t.tbranch, t.fbranch, rest);
    FollowOperand(st, t.cond, Quest, more);
  }

  lemma {:induction false} FollowCondBranches(t: Tree, st: Stack, rest: seq<Token>)
    requires WellLinked(st) && Open(Top(st)) && t.TCond? && Fits(st, t, rest)
    ensures
      var st2 := Operator(st, Ast(t.cond), Quest);
      Run(st2, Onto(t.tbranch, [Colon] + Onto(t.fbranch, rest))) ==
      if Max(Need(t.tbranch, Depth(st2)), Need(t.fbranch, Depth(st2) + 2)) >= YYMAXDEPTH then Overflowed
      else Run(Completed(st, Ast(t)), rest)
    decreases t, 1
  {
    CondFits(st, t.cond, t.tbranch, t.fbranch, rest);
    CondReduction(st, Ast(t.cond), Ast(t.tbranch), Ast(t.fbranch));
    FollowBranches(t, Operator(st, Ast(t.cond), Quest), t.tbranch, t.fbranch, rest, Completed(st, Ast(t)));
  }

  // ----- the whole input

  /** Some derivation of the grammar, with no regard to precedence, derives the tokens. */
  ghost predicate Derivable(toks: seq<Token>) {
    exists t :: Derivation(t) && Yield(t) == toks
  }

  /** The result for the token string of a conforming derivation, for every size of input: its
      expression, unless the derivation needs a stack of YYMAXDEPTH states. */
  lemma RunConforming(t: Tree)
    requires Conforms(t)
    ensures Derivation(t)
    ensures Run(Base, Yield(t)) ==
      if Need(t, 1) >= YYMAXDEPTH then Overflowed else Accepted(Ast(t))
  {
    ConformsDerives(t);
    LevelBounds(t);
    RunFollows(Base, t, []);
    if Need(t, 1) < YYMAXDEPTH {
      var st := Completed(Base, Ast(t));
      assert Depth(st) == 2 && Unpacked(Top(st), 0) == Reduce(1);
      RunStart(Ast(t), []);
    }
  }

  /** The automaton accepts exactly the derivable strings, unless the stack limit stops it, and the
      expression is the one of every conforming derivation: precedence, associativity and the
      preference for shifting fix it. */
  lemma RunDecidesDerivable(toks: seq<Token>)
    ensures Run(Base, toks) != Overflowed ==> (Run(Base, toks).Accepted? <==> Derivable(toks))
    ensures forall t :: Conforms(t) && Yield(t) == toks && Run(Base, toks) != Overflowed ==>
      Derivation(t) && Run(Base, toks) == Accepted(Ast(t))
    ensures Run(Base, toks).Accepted? ==> exists t :: Conforms(t) && Yield(t) == toks
  {
    if Derivable(toks) {
      var t :| Derivation(t) && Yield(t) == toks;
      RegroupYield(t);
      RunConforming(Regroup(t));
    }
    forall t | Conforms(t) && Yield(t) == toks && Run(Base, toks) != Overflowed
      ensures Derivation(t) && Run(Base, toks) == Accepted(Ast(t))
    {
      RunConforming(t);
    }
    var u := RunSound(Base, Nil, toks);
    assert Run(Base, toks).Accepted? ==> Derivation(u) && Yield(u) == toks;
  }
}
