/** The driver `yyparse` of intl/plural.c: stacks in growing arrays, lookahead read on demand,
    decisions from the packed tables. It is proved to return what the automaton's run on the token
    string of its input returns. */
module PluralParser {
  import opened PluralSyntax
  import opened PluralTables
  import opened PluralAutomaton
  import opened PluralLexer

  const YYEMPTY := -2

  /** YYTRANSLATE; entries of `yytranslate` not listed are 2, the undefined token. */
  function YyTranslate(x: int): int {
    if x < 0 || x > 261 then 18
    else if x == 0 then 0
    else if x == '!' as int then 10
    else if x == '&' as int then 5
    else if x == '(' as int then 14
    else if x == ')' as int then 15
    else if x == ':' as int then 12
    else if x == '?' as int then 3
    else if x == 'n' as int then 13
    else if x == '|' as int then 4
    else if x == YYERRCODE then 1
    else if x == EQUOP2 then 6
    else if x == CMPOP2 then 7
    else if x == ADDOP2 then 8
    else if x == MULOP2 then 9
    else if x == NUMBER then 11
    else 2
  }

  lemma TranslateCode(t: Token)
    ensures Code(t) > 0 && YyTranslate(Code(t)) == Symbol(t)
  {}

  /** The first `n` entries of the two arrays are the stack `st`. */
  ghost predicate Holds(ss: seq<int>, vs: seq<Value>, n: nat, st: Stack) {
    && n == Depth(st) && n <= |ss| && n <= |vs| && ss[n - 1] == Top(st)
    && (st.Push? ==> vs[n - 1] == st.value && Holds(ss, vs, n - 1, st.below))
  }

  lemma {:induction false} HoldsPrefix(ss: seq<int>, vs: seq<Value>, ss': seq<int>, vs': seq<Value>, n: nat, st: Stack)
    requires Holds(ss, vs, n, st) && n <= |ss'| && n <= |vs'|
    requires ss[..n] == ss'[..n] && vs[..n] == vs'[..n]
    ensures Holds(ss', vs', n, st)
  {
    assert ss[n - 1] == ss[..n][n - 1] && ss'[n - 1] == ss'[..n][n - 1];
    if st.Push? {
      assert vs[n - 1] == vs[..n][n - 1] && vs'[n - 1] == vs'[..n][n - 1];
      assert ss[..n - 1] == ss[..n][..n - 1] && vs[..n - 1] == vs[..n][..n - 1];
      assert ss'[..n - 1] == ss'[..n][..n - 1] && vs'[..n - 1] == vs'[..n][..n - 1];
      HoldsPrefix(ss, vs, ss', vs', n - 1, st.below);
    }
  }

  lemma HoldsPush(ss: seq<int>, vs: seq<Value>, n: nat, st: Stack, s: int, v: Value)
    requires Holds(ss, vs, n, st) && n < |ss| && n < |vs|
    ensures Holds(ss[n := s], vs[n := v], n + 1, Push(st, s, v))
  {
    HoldsPrefix(ss, vs, ss[n := s], vs[n := v], n, st);
  }

  /** The lookahead token in `yychar`, if any, and the unread characters are the tokens `rest`. */
  ghost predicate Pending(s: string, yychar: int, yylval: Value, cp: nat, rest: seq<Token>)
    requires cp <= |s|
  {
    if yychar == YYEMPTY then rest == Tokens(s, cp)
    else if yychar == YYEOF then rest == []
    else
      && rest != [] && yychar == Code(rest[0]) && yylval == TokenValue(rest[0])
      && rest[1..] == Tokens(s, cp)
  }

  /** YYSTACK_RELOCATE for both stacks. */
  method Relocate(yyss: array<int>, yyvs: array<Value>, yysize: nat, yystacksize: nat)
    returns (ss: array<int>, vs: array<Value>)
    requires yysize <= yyss.Length && yysize <= yyvs.Length && yysize <= yystacksize
    ensures fresh(ss) && fresh(vs) && ss.Length == vs.Length == yystacksize
    ensures ss[..yysize] == yyss[..yysize] && vs[..yysize] == yyvs[..yysize]
  {
    ss := new int[yystacksize](_ => 0);
    vs := new Value[yystacksize](_ => VNone);
    var yyi := 0;
    while yyi < yysize
      invariant 0 <= yyi <= yysize
      invariant ss[..yyi] == yyss[..yyi] && vs[..yyi] == yyvs[..yyi]
    {
      ss[yyi] := yyss[yyi];
      vs[yyi] := yyvs[yyi];
      yyi := yyi + 1;
    }
  }

  function ExpOf(v: Value): Expr { if v.VExp? then v.exp else Var }
  function OpIn(v: Value): BinaryOp { if v.VOp? then v.op else Mult }
  function NumIn(v: Value): nat { if v.VNum? then v.num else 0 }

  /** The semantic action of rule `yyn`, with `yyvsp` the index of the top value. */
  function ActionValue(vs: seq<Value>, yyvsp: nat, yyn: int): Value
    requires 1 <= yyn <= 12 && yyvsp < |vs| && yyr2[yyn] <= yyvsp
  {
    match yyn
    case 2 => VExp(Qmop(ExpOf(vs[yyvsp - 4]), ExpOf(vs[yyvsp - 2]), ExpOf(vs[yyvsp])))
    case 3 => VExp(Binary(Lor, ExpOf(vs[yyvsp - 2]), ExpOf(vs[yyvsp])))
    case 4 => VExp(Binary(Land, ExpOf(vs[yyvsp - 2]), ExpOf(vs[yyvsp])))
    case 5 | 6 | 7 | 8 => VExp(Binary(OpIn(vs[yyvsp - 1]), ExpOf(vs[yyvsp - 2]), ExpOf(vs[yyvsp])))
    case 9 => VExp(Lnot(ExpOf(vs[yyvsp])))
    case 10 => VExp(Var)
    case 11 => VExp(Num(NumIn(vs[yyvsp])))
    case 12 => vs[yyvsp - 1]
    case _ => vs[yyvsp]
  }

  /** Popping one entry. */
  lemma HoldsBelow(ss: seq<int>, vs: seq<Value>, n: nat, st: Stack)
    requires Holds(ss, vs, n, st) && WellLinked(st) && st.Push?
    ensures n > 1 && Holds(ss, vs, n - 1, st.below) && WellLinked(st.below)
    ensures ss[n - 1] == st.state && vs[n - 1] == st.value
  {}

  /** The arrays' view of a reduction. */
  ghost predicate ReducesTo(ss: seq<int>, vs: seq<Value>, n: nat, st: Stack, yyn: int) {
    && 1 <= yyn <= 12 && yyr2[yyn] < n <= |vs|
    && WellLinked(st) && (Top(st) in {2, 3, 15} || Closed(Top(st))) && Top(st) !in {7, 16}
    && (yyn == 1 <==> Top(st) == 5)
    && Reduction(st).1 == ActionValue(vs, n - 1, yyn)
    && Holds(ss, vs, n - yyr2[yyn], Reduction(st).0)
  }

  lemma ReductionInArrays(ss: seq<int>, vs: seq<Value>, n: nat, st: Stack, yyn: int, rest: seq<Token>)
    requires Holds(ss, vs, n, st) && WellLinked(st) && IsState(Top(st))
    requires Unpacked(Top(st), Peek(rest)) == Reduce(yyn)
    ensures ReducesTo(ss, vs, n, st, yyn)
  {
    assert yyr2[1] == yyr2[10] == yyr2[11] == 1 && yyr2[9] == 2 && yyr2[12] == 3 && yyr2[2] == 5;
    assert yyr2[3] == yyr2[4] == yyr2[5] == yyr2[6] == yyr2[7] == yyr2[8] == 3;
    HoldsBelow(ss, vs, n, st);
    if Top(st) !in {2, 3, 5} {
      HoldsBelow(ss, vs, n - 1, st.below);
      if Top(st) == 24 {
        CondInArrays(ss, vs, n, st);
      } else if Top(st) != 6 {
        HoldsBelow(ss, vs, n - 2, st.below.below);
      }
    }
  }

  lemma CondInArrays(ss: seq<int>, vs: seq<Value>, n: nat, st: Stack)
    requires Holds(ss, vs, n, st) && WellLinked(st) && Top(st) == 24 && yyr2[2] == 5
    ensures ReducesTo(ss, vs, n, st, 2)
  {
    HoldsBelow(ss, vs, n, st);
    var colon := st.below;
    HoldsBelow(ss, vs, n - 1, colon);
    var x := colon.below;
    HoldsBelow(ss, vs, n - 2, x);
    var quest := x.below;
    assert quest.state == 8;
    HoldsBelow(ss, vs, n - 3, quest);
    HoldsBelow(ss, vs, n - 4, quest.below);
  }

  /** The parser's two stacks: `yyssp` indexes the top entry of both. */
  class Stacks {
    var yyss: array<int>
    var yyvs: array<Value>
    var yyssp: nat
    var yystacksize: nat

    ghost predicate Valid()
      reads this
    {
      && yyss.Length == yyvs.Length == yystacksize
      && YYINITDEPTH <= yystacksize <= YYMAXDEPTH && yyssp < yystacksize
    }

    /** The arrays hold `st`. */
    ghost predicate Shows(st: Stack)
      reads this, yyss, yyvs
    {
      Valid() && WellLinked(st) && Holds(yyss[..], yyvs[..], yyssp + 1, st)
    }

    constructor ()
      ensures fresh(yyss) && fresh(yyvs)
      ensures Shows(Base) && yyssp + 1 < yystacksize
    {
      yystacksize := YYINITDEPTH;
      yyss := new int[YYINITDEPTH](_ => 0);
      yyvs := new Value[YYINITDEPTH](_ => VNone);
      yyssp := 0;
    }

    /** Doubles the stacks, up to YYMAXDEPTH. */
    method Grow(ghost st: Stack)
      requires Shows(st) && yyssp == yystacksize - 1 && yystacksize < YYMAXDEPTH
      modifies this
      ensures fresh(yyss) && fresh(yyvs)
      ensures Shows(st) && yyssp == old(yyssp) && yyssp + 1 < yystacksize
    {
      ghost var ss, vs := yyss[..], yyvs[..];
      var yysize := yyssp + 1;
      yystacksize := if 2 * yystacksize > YYMAXDEPTH then YYMAXDEPTH else 2 * yystacksize;
      yyss, yyvs := Relocate(yyss, yyvs, yysize, yystacksize);
      HoldsPrefix(ss, vs, yyss[..], yyvs[..], yysize, st);
    }

    /** Labels `yynewstate` and `yysetstate`: stores the value and the state, then grows the stacks
        when they are full. The result tells whether the height limit was reached. */
    method PushState(yystate: int, yyval: Value, ghost st: Stack) returns (overflow: bool)
      requires Shows(st) && yyssp + 1 < yystacksize && Linked(Top(st), yystate, yyval)
      modifies this, yyss, yyvs
      ensures fresh(yyss) || yyss == old(yyss)
      ensures fresh(yyvs) || yyvs == old(yyvs)
      ensures Shows(Push(st, yystate, yyval))
      ensures overflow <==> Depth(st) + 1 >= YYMAXDEPTH
      ensures !overflow ==> yyssp + 1 < yystacksize
    {
      HoldsPush(yyss[..], yyvs[..], yyssp + 1, st, yystate, yyval);
      yyssp := yyssp + 1;
      yyvs[yyssp] := yyval;
      yyss[yyssp] := yystate;
      overflow := yyssp >= yystacksize - 1 && yystacksize >= YYMAXDEPTH;
      if yyssp >= yystacksize - 1 && !overflow {
        Grow(Push(st, yystate, yyval));
      }
    }

    /** Label `yyreduce` up to popping the right-hand side of the rule. */
    method PopRule(yyn: int, ghost st: Stack) returns (yyval: Value)
      requires Shows(st) && ReducesTo(yyss[..], yyvs[..], yyssp + 1, st, yyn)
      modifies this`yyssp
      ensures yyval == Reduction(st).1 && Shows(Reduction(st).0)
      ensures yyssp < old(yyssp)
    {
      yyval := ActionValue(yyvs[..], yyssp, yyn);
      yyssp := yyssp - yyr2[yyn];
    }

    /** A whole reduction: pops the right-hand side, looks up the goto and pushes. */
    method ReduceBy(yyn: int, ghost st: Stack, ghost rest: seq<Token>)
      returns (yystate: int, yyval: Value, overflow: bool)
      requires Shows(st) && IsState(Top(st)) && Unpacked(Top(st), Peek(rest)) == Reduce(yyn)
      requires yyssp + 1 < yystacksize
      modifies this, yyss, yyvs
      ensures fresh(yyss) || yyss == old(yyss)
      ensures fresh(yyvs) || yyvs == old(yyvs)
      ensures Top(st) in {2, 3, 15} || Closed(Top(st))
      ensures Top(st) !in {7, 16} && Shows(AfterReduce(st))
      ensures yystate == Top(AfterReduce(st)) && yyval == AfterReduce(st).value
      ensures yyn == 1 <==> Top(st) == 5
      ensures overflow <==> Depth(AfterReduce(st)) >= YYMAXDEPTH
      ensures !overflow ==> yyssp + 1 < yystacksize
    {
      ReductionInArrays(yyss[..], yyvs[..], yyssp + 1, st, yyn, rest);
      ghost var below := Reduction(st).0;
      yyval := PopRule(yyn, st);
      GotosAgree(yyss[yyssp], yyn);
      yystate := GotoState(yyss[yyssp], yyn);
      overflow := PushState(yystate, yyval, below);
    }

    /** Labels `yyerrlab` to `yyerrhandle`: every state refuses the error token, so all are popped. */
    method Recover(ghost st: Stack) returns (yyresult: int)
      requires Shows(st)
      modifies this`yyssp
      ensures yyresult == 1
    {
      ghost var below := st;
      while true
        invariant Shows(below)
        decreases yyssp
      {
        TopIsState(below);
        NoErrorProductions(yyss[yyssp]);
        if ShiftsErrorIn(TABLES, yyss[yyssp]) {
          return 0;
        }
        if yyssp == 0 {
          return 1;
        }
        HoldsBelow(yyss[..], yyvs[..], yyssp + 1, below);
        below := below.below;
        yyssp := yyssp - 1;
      }
    }
  }

  /** `yyresult` for each outcome of a run. */
  function ResultCode(out: Outcome): int {
    match out
    case Accepted(_) => 0
    case Aborted => 1
    case Overflowed => 2
  }

  /** Reads the lookahead token if there is none (label `yybackup`). */
  method Lookahead(s: string, cp: nat, yychar: int, yylval: Value, ghost rest: seq<Token>)
    returns (cp': nat, yychar': int, yylval': Value, yychar1: int)
    requires cp <= |s| && Pending(s, yychar, yylval, cp, rest)
    ensures cp' <= |s| && yychar' != YYEMPTY && Pending(s, yychar', yylval', cp', rest)
    ensures yychar1 == Peek(rest)
  {
    cp', yychar', yylval' := cp, yychar, yylval;
    if yychar == YYEMPTY {
      yychar', yylval', cp' := YyLex(s, cp);
    }
    if rest != [] {
      TranslateCode(rest[0]);
    }
    if yychar' <= 0 {
      yychar1 := 0;
      yychar' := YYEOF;
    } else {
      yychar1 := YyTranslate(yychar');
    }
  }

  /** The entry `yypact[state]` is consulted before the lookahead: a state that needs none acts by
      default, whatever follows. */
  lemma DefaultWithoutLookahead(s: int, t: int)
    requires IsState(s) && IsSymbol(t) && yypact[s] == YYFLAG
    ensures Decide(s, 0) == Decide(s, t) && !Decide(s, t).Shift?
  {}

  /** What to do in state `yystate` (labels `yybackup` and `yydefault`); the lookahead is only read
      by states that need one. */
  method NextAction(s: string, yystate: int, cp: nat, yychar: int, yylval: Value, ghost rest: seq<Token>)
    returns (action: Action, cp': nat, yychar': int, yylval': Value)
    requires cp <= |s| && IsState(yystate) && Pending(s, yychar, yylval, cp, rest)
    ensures cp' <= |s| && Pending(s, yychar', yylval', cp', rest)
    ensures action == Unpacked(yystate, Peek(rest))
    ensures action.Shift? ==> yychar' != YYEMPTY
  {
    TablesAgree(yystate, Peek(rest));
    cp', yychar', yylval' := cp, yychar, yylval;
    if yypact[yystate] == YYFLAG {
      DefaultWithoutLookahead(yystate, Peek(rest));
      action := Decide(yystate, 0);
    } else {
      var yychar1;
      cp', yychar', yylval', yychar1 := Lookahead(s, cp, yychar, yylval, rest);
      action := Decide(yystate, yychar1);
    }
  }

  /** The loop of the driver comes to an end. */
  ghost predicate Progress(st: Stack, rest: seq<Token>, st': Stack, rest': seq<Token>) {
    Phase(st') < Phase(st) || (Phase(st') == Phase(st) && Work(st', rest') < Work(st, rest))
  }

  /** The frame below an accepting state, and the one above the start symbol, agree with `res`. */
  ghost predicate ResultSet(st: Stack, res: Expr) {
    && (Top(st) == 25 ==> st.value == VExp(res))
    && (Top(st) == 26 ==> st.below.Push? && st.below.value == VExp(res))
  }

  lemma ShiftAdvances(st: Stack, rest: seq<Token>, s: int, v: Value, res: Expr)
    requires WellLinked(st) && Depth(st) < YYMAXDEPTH && IsState(Top(st)) && ResultSet(st, res)
    requires Unpacked(Top(st), Peek(rest)) == Shift(s)
    requires v == if rest == [] then VNone else TokenValue(rest[0])
    ensures Linked(Top(st), s, v) && WellLinked(Push(st, s, v)) && ResultSet(Push(st, s, v), res)
    ensures rest != [] ==> Run(st, rest) == Run(Push(st, s, v), rest[1..])
    ensures rest != [] ==> Progress(st, rest, Push(st, s, v), rest[1..])
    ensures rest == [] ==> Run(st, rest) == Run(Push(st, s, v), rest) && Progress(st, rest, Push(st, s, v), rest)
  {}

  lemma ReduceAdvances(st: Stack, rest: seq<Token>)
    requires WellLinked(st) && Depth(st) < YYMAXDEPTH && IsState(Top(st))
    requires Unpacked(Top(st), Peek(rest)).Reduce?
    ensures Top(st) in {2, 3, 15} || Closed(Top(st))
    ensures Top(st) !in {7, 16} && Run(st, rest) == Run(AfterReduce(st), rest)
    ensures Progress(st, rest, AfterReduce(st), rest)
    ensures Top(AfterReduce(st)) != 26 && (Top(AfterReduce(st)) == 25 <==> Top(st) == 5)
  {}

  /** PLURAL_PARSE on the characters from `start`: the same result as the automaton on their token
      string, for every string. `cp` is where the scanner stopped. */
  method YyParse(input: string, start: nat) returns (yyresult: int, res: Expr, cp: nat)
    requires start <= |input|
    ensures yyresult == ResultCode(Run(Base, Tokens(input, start)))
    ensures yyresult == 0 ==> Run(Base, Tokens(input, start)) == Accepted(res)
    ensures cp <= |input|
  {
    var stacks := new Stacks();
    ghost var st, rest := Base, Tokens(input, start);
    ghost var outcome := Run(st, rest);
    var yystate, yychar, yylval := 0, YYEMPTY, VNone;
    cp := start;
    res := Var;
    var overflow := false;
    while true
      invariant cp <= |input| && fresh(stacks) && fresh(stacks.yyss) && fresh(stacks.yyvs)
      invariant stacks.Shows(st) && yystate == Top(st) && Pending(input, yychar, yylval, cp, rest)
      invariant overflow <==> Depth(st) >= YYMAXDEPTH
      invariant !overflow ==> stacks.yyssp + 1 < stacks.yystacksize
      invariant Run(st, rest) == outcome
      invariant ResultSet(st, res)
      decreases Phase(st), Work(st, rest)
    {
      if overflow {
        return 2, res, cp;
      }
      TopIsState(st);
      var action;
      action, cp, yychar, yylval := NextAction(input, yystate, cp, yychar, yylval, rest);
      match action {
        case Fail =>
          var r := stacks.Recover(st);
          return r, res, cp;
        case Accept =>
          return 0, res, cp;
        case Shift(next) =>
          if yychar == YYEOF {
            yylval := VNone;
          }
          ShiftAdvances(st, rest, next, yylval, res);
          overflow := stacks.PushState(next, yylval, st);
          st := Push(st, next, yylval);
          if yychar != YYEOF {
            yychar := YYEMPTY;
            rest := rest[1..];
          }
          yystate := next;
        case Reduce(yyn) =>
          ReduceAdvances(st, rest);
          var yyval;
          yystate, yyval, overflow := stacks.ReduceBy(yyn, st, rest);
          if yyn == 1 {
            res := ExpOf(yyval);
          }
          st := AfterReduce(st);
      }
    }
  }
}
