/** The packed LALR(1) tables of intl/plural.c and the way its driver reads them, against an
    unpacked description of the same automaton in terms of operator levels. */
module PluralTables {

  const YYFINAL := 27
  const YYFLAG := -32768
  const YYNTBASE := 16
  const YYLAST := 53
  const YYMAXDEPTH := 10000
  const YYINITDEPTH := 200
  const YYTERROR := 1

  const yyr1: seq<int> := [0, 16, 17, 17, 17, 17, 17, 17, 17, 17, 17, 17, 17]

  const yyr2: seq<int> := [0, 1, 5, 3, 3, 3, 3, 3, 3, 2, 1, 1, 3]

  const yydefact: seq<int> :=
    [0, 0, 11, 10, 0, 1, 9, 0, 0, 0]
    + [0, 0, 0, 0, 0, 12, 0, 3, 4, 5]
    + [6, 7, 8, 0, 2, 0, 0, 0]

  const yydefgoto: seq<int> := [25, 5]

  const yypact: seq<int> :=
    [-9, -9, -32768, -32768, -9, 34, -32768, 11, -9, -9]
    + [-9, -9, -9, -9, -9, -32768, 24, 39, 43, 16]
    + [26, -3, -32768, -9, 34, 21, 53, -32768]

  const yypgoto: seq<int> := [-32768, -1]

  const yytable: seq<int> :=
    [6, 1, 2, 7, 3, 4, 14, 16, 17, 18]
    + [19, 20, 21, 22, 8, 9, 10, 11, 12, 13]
    + [14, 26, 24, 12, 13, 14, 15, 8, 9, 10]
    + [11, 12, 13, 14, 13, 14, 23, 8, 9, 10]
    + [11, 12, 13, 14, 10, 11, 12, 13, 14, 11]
    + [12, 13, 14, 27]

  const yycheck: seq<int> :=
    [1, 10, 11, 4, 13, 14, 9, 8, 9, 10]
    + [11, 12, 13, 14, 3, 4, 5, 6, 7, 8]
    + [9, 0, 23, 7, 8, 9, 15, 3, 4, 5]
    + [6, 7, 8, 9, 8, 9, 12, 3, 4, 5]
    + [6, 7, 8, 9, 5, 6, 7, 8, 9, 6]
    + [7, 8, 9, 0]

  /** What the driver does next. */
  datatype Action = Fail | Accept | Shift(state: int) | Reduce(rule: int)

  predicate IsState(s: int) { 0 <= s < 27 }

  /** Translated token numbers; 0 is the end of input, 1 the error token. */
  predicate IsSymbol(t: int) { 0 <= t < 16 }

  /** The four tables that decide an action; the proofs below pass them around as a value, so
      that their contents are facts rather than literals to unfold. */
  datatype Packed = Packed(pact: seq<int>, defact: seq<int>, table: seq<int>, check: seq<int>)

  const TABLES := Packed(yypact, yydefact, yytable, yycheck)

  predicate Sized(tb: Packed) {
    |tb.pact| == |tb.defact| == 28 && |tb.table| == |tb.check| == YYLAST + 1
  }

  function DefaultAction(tb: Packed, s: int): Action
    requires Sized(tb) && IsState(s)
  {
    if tb.defact[s] == 0 then Fail else Reduce(tb.defact[s])
  }

  function DecideIn(tb: Packed, s: int, t: int): Action
    requires Sized(tb) && IsState(s)
  {
    if tb.pact[s] == YYFLAG then DefaultAction(tb, s)
    else
      var n := tb.pact[s] + t;
      if n < 0 || n > YYLAST || tb.check[n] != t then DefaultAction(tb, s)
      else
        var e := tb.table[n];
        if e < 0 then (if e == YYFLAG then Fail else Reduce(-e))
        else if e == 0 then Fail
        else if e == YYFINAL then Accept
        else Shift(e)
  }

  /** Labels `yybackup` and `yydefault` of the driver. */
  function Decide(s: int, t: int): Action
    requires IsState(s)
  {
    DecideIn(TABLES, s, t)
  }

  /** The state entered after reducing by `rule` and popping back to state `s`. */
  function GotoIn(tb: Packed, s: int, rule: int): int
    requires Sized(tb) && IsState(s) && 1 <= rule <= 12
  {
    var nt := yyr1[rule] - YYNTBASE;
    var n := yypgoto[nt] + s;
    if 0 <= n <= YYLAST && tb.check[n] == s then tb.table[n] else yydefgoto[nt]
  }

  function GotoState(s: int, rule: int): int
    requires IsState(s) && 1 <= rule <= 12
  {
    GotoIn(TABLES, s, rule)
  }

  /** Whether the error token could be shifted in state `s` (label `yyerrhandle`). */
  predicate ShiftsErrorIn(tb: Packed, s: int)
    requires Sized(tb) && IsState(s)
  {
    var n := tb.pact[s] + YYTERROR;
    tb.pact[s] != YYFLAG && 0 <= n <= YYLAST && tb.check[n] == YYTERROR
  }

  // ----- the same automaton, unpacked

  /** States that wait for the start of an expression. */
  predicate Open(s: int) {
    s == 0 || s == 1 || s == 4 || 8 <= s <= 14 || s == 23
  }

  /** States entered by completing an expression. */
  predicate Closed(s: int) {
    5 <= s <= 7 || 16 <= s <= 22 || s == 24
  }

  /** The state that a completed expression leads to from an open state. */
  function ExpGoto(s: int): int
    requires Open(s)
  {
    if s == 0 then 5 else if s == 1 then 6 else if s == 4 then 7
    else if s == 23 then 24 else s + 8
  }

  /** The loosest operator that still belongs to the expression begun in open state `s`. */
  function MinLevel(s: int): nat
    requires Open(s)
  {
    if s == 1 then 8
    else if 9 <= s <= 14 then s - 6
    else 1
  }

  /** Symbol numbers 3..9 are the infix operators, in order of their level. */
  function SymbolLevel(t: int): nat {
    if 3 <= t <= 9 then t - 2 else 0
  }

  /** What a closed state does when the lookahead does not extend its expression. */
  function Finish(s: int, t: int): Action
    requires Closed(s)
  {
    if s == 5 then Reduce(1)
    else if s == 6 then Reduce(9)
    else if s == 7 then (if t == 15 then Shift(15) else Fail)
    else if s == 16 then (if t == 12 then Shift(23) else Fail)
    else if s == 24 then Reduce(2)
    else Reduce(s - 14)
  }

  function ClosedMinLevel(s: int): nat
    requires Closed(s)
  {
    if s == 6 then 8 else if 17 <= s <= 22 then s - 14 else 1
  }

  function Unpacked(s: int, t: int): Action
    requires IsState(s)
  {
    if Open(s) then
      if t == 10 then Shift(1)
      else if t == 11 then Shift(2)
      else if t == 13 then Shift(3)
      else if t == 14 then Shift(4)
      else Fail
    else if Closed(s) then
      if SymbolLevel(t) >= ClosedMinLevel(s) then Shift(t + 5) else Finish(s, t)
    else if s == 2 then Reduce(11)
    else if s == 3 then Reduce(10)
    else if s == 15 then Reduce(12)
    else if t != 0 then Fail
    else if s == 25 then Shift(26)
    else Accept
  }

  ghost predicate TablePart1(tb: Packed)
    requires Sized(tb)
  {
    && tb.table[0] == 6 && tb.table[1] == 1 && tb.table[2] == 2 && tb.table[3] == 7 && tb.table[4] == 3
    && tb.table[5] == 4 && tb.table[6] == 14 && tb.table[7] == 16 && tb.table[8] == 17 && tb.table[9] == 18
  }

  ghost predicate TablePart2(tb: Packed)
    requires Sized(tb)
  {
    && tb.table[10] == 19 && tb.table[11] == 20 && tb.table[12] == 21 && tb.table[13] == 22 && tb.table[14] == 8
    && tb.table[15] == 9 && tb.table[16] == 10 && tb.table[17] == 11 && tb.table[18] == 12 && tb.table[19] == 13
  }

  ghost predicate TablePart3(tb: Packed)
    requires Sized(tb)
  {
    && tb.table[20] == 14 && tb.table[21] == 26 && tb.table[22] == 24 && tb.table[23] == 12 && tb.table[24] == 13
    && tb.table[25] == 14 && tb.table[26] == 15 && tb.table[27] == 8 && tb.table[28] == 9 && tb.table[29] == 10
  }

  ghost predicate TablePart4(tb: Packed)
    requires Sized(tb)
  {
    && tb.table[30] == 11 && tb.table[31] == 12 && tb.table[32] == 13 && tb.table[33] == 14 && tb.table[34] == 13
    && tb.table[35] == 14 && tb.table[36] == 23 && tb.table[37] == 8 && tb.table[38] == 9 && tb.table[39] == 10
  }

  ghost predicate TablePart5(tb: Packed)
    requires Sized(tb)
  {
    && tb.table[40] == 11 && tb.table[41] == 12 && tb.table[42] == 13 && tb.table[43] == 14 && tb.table[44] == 10
    && tb.table[45] == 11 && tb.table[46] == 12 && tb.table[47] == 13 && tb.table[48] == 14 && tb.table[49] == 11
  }

  ghost predicate TablePart6(tb: Packed)
    requires Sized(tb)
  {
    && tb.table[50] == 12 && tb.table[51] == 13 && tb.table[52] == 14 && tb.table[53] == 27
  }

  ghost predicate CheckPart1(tb: Packed)
    requires Sized(tb)
  {
    && tb.check[0] == 1 && tb.check[1] == 10 && tb.check[2] == 11 && tb.check[3] == 4 && tb.check[4] == 13
    && tb.check[5] == 14 && tb.check[6] == 9 && tb.check[7] == 8 && tb.check[8] == 9 && tb.check[9] == 10
  }

  ghost predicate CheckPart2(tb: Packed)
    requires Sized(tb)
  {
    && tb.check[10] == 11 && tb.check[11] == 12 && tb.check[12] == 13 && tb.check[13] == 14 && tb.check[14] == 3
    && tb.check[15] == 4 && tb.check[16] == 5 && tb.check[17] == 6 && tb.check[18] == 7 && tb.check[19] == 8
  }

  ghost predicate CheckPart3(tb: Packed)
    requires Sized(tb)
  {
    && tb.check[20] == 9 && tb.check[21] == 0 && tb.check[22] == 23 && tb.check[23] == 7 && tb.check[24] == 8
    && tb.check[25] == 9 && tb.check[26] == 15 && tb.check[27] == 3 && tb.check[28] == 4 && tb.check[29] == 5
  }

  ghost predicate CheckPart4(tb: Packed)
    requires Sized(tb)
  {
    && tb.check[30] == 6 && tb.check[31] == 7 && tb.check[32] == 8 && tb.check[33] == 9 && tb.check[34] == 8
    && tb.check[35] == 9 && tb.check[36] == 12 && tb.check[37] == 3 && tb.check[38] == 4 && tb.check[39] == 5
  }

  ghost predicate CheckPart5(tb: Packed)
    requires Sized(tb)
  {
    && tb.check[40] == 6 && tb.check[41] == 7 && tb.check[42] == 8 && tb.check[43] == 9 && tb.check[44] == 5
    && tb.check[45] == 6 && tb.check[46] == 7 && tb.check[47] == 8 && tb.check[48] == 9 && tb.check[49] == 6
  }

  ghost predicate CheckPart6(tb: Packed)
    requires Sized(tb)
  {
    && tb.check[50] == 7 && tb.check[51] == 8 && tb.check[52] == 9 && tb.check[53] == 0
  }

  ghost predicate StatePart(tb: Packed)
    requires Sized(tb)
  {
    && tb.pact[0] == -9 && tb.pact[1] == -9 && tb.pact[2] == -32768 && tb.pact[3] == -32768 && tb.pact[4] == -9
      && tb.pact[5] == 34
    && tb.pact[6] == -32768 && tb.pact[7] == 11 && tb.pact[8] == -9 && tb.pact[9] == -9 && tb.pact[10] == -9
      && tb.pact[11] == -9
    && tb.pact[12] == -9 && tb.pact[13] == -9 && tb.pact[14] == -9 && tb.pact[15] == -32768 && tb.pact[16] == 24
      && tb.pact[17] == 39
    && tb.pact[18] == 43 && tb.pact[19] == 16 && tb.pact[20] == 26 && tb.pact[21] == -3 && tb.pact[22] == -32768
      && tb.pact[23] == -9
    && tb.pact[24] == 34 && tb.pact[25] == 21 && tb.pact[26] == 53
    && tb.defact[0] == 0 && tb.defact[1] == 0 && tb.defact[2] == 11 && tb.defact[3] == 10 && tb.defact[4] == 0
      && tb.defact[5] == 1
    && tb.defact[6] == 9 && tb.defact[7] == 0 && tb.defact[8] == 0 && tb.defact[9] == 0 && tb.defact[10] == 0
      && tb.defact[11] == 0
    && tb.defact[12] == 0 && tb.defact[13] == 0 && tb.defact[14] == 0 && tb.defact[15] == 12 && tb.defact[16] == 0
      && tb.defact[17] == 3
    && tb.defact[18] == 4 && tb.defact[19] == 5 && tb.defact[20] == 6 && tb.defact[21] == 7 && tb.defact[22] == 8
      && tb.defact[23] == 0
    && tb.defact[24] == 2 && tb.defact[25] == 0 && tb.defact[26] == 0
  }

  ghost predicate Genuine(tb: Packed) {
    && Sized(tb) && StatePart(tb)
    && TablePart1(tb) && TablePart2(tb) && TablePart3(tb) && TablePart4(tb) && TablePart5(tb) && TablePart6(tb)
    && CheckPart1(tb) && CheckPart2(tb) && CheckPart3(tb) && CheckPart4(tb) && CheckPart5(tb) && CheckPart6(tb)
  }

  lemma GenuineTable1()
    ensures TablePart1(TABLES)
  {}

  lemma GenuineTable2()
    ensures TablePart2(TABLES)
  {}

  lemma GenuineTable3()
    ensures TablePart3(TABLES)
  {}

  lemma GenuineTable4()
    ensures TablePart4(TABLES)
  {}

  lemma GenuineTable5()
    ensures TablePart5(TABLES)
  {}

  lemma GenuineTable6()
    ensures TablePart6(TABLES)
  {}

  lemma GenuineCheck1()
    ensures CheckPart1(TABLES)
  {}

  lemma GenuineCheck2()
    ensures CheckPart2(TABLES)
  {}

  lemma GenuineCheck3()
    ensures CheckPart3(TABLES)
  {}

  lemma GenuineCheck4()
    ensures CheckPart4(TABLES)
  {}

  lemma GenuineCheck5()
    ensures CheckPart5(TABLES)
  {}

  lemma GenuineCheck6()
    ensures CheckPart6(TABLES)
  {}

  lemma GenuineStates()
    ensures StatePart(TABLES)
  {}

  lemma GenuineTables()
    ensures Genuine(TABLES)
  {
    GenuineTable1();
    GenuineTable2();
    GenuineTable3();
    GenuineTable4();
    GenuineTable5();
    GenuineTable6();
    GenuineCheck1();
    GenuineCheck2();
    GenuineCheck3();
    GenuineCheck4();
    GenuineCheck5();
    GenuineCheck6();
    GenuineStates();
  }

  lemma OpenStatesAgree(tb: Packed, s: int, t: int)
    requires Genuine(tb) && Open(s) && IsSymbol(t)
    ensures DecideIn(tb, s, t) == Unpacked(s, t)
  {}

  lemma BracketStatesAgree(tb: Packed, s: int, t: int)
    requires Genuine(tb) && (s == 5 || s == 7 || s == 16 || s == 24) && IsSymbol(t)
    ensures DecideIn(tb, s, t) == Unpacked(s, t)
  {}

  lemma OperandStatesAgree(tb: Packed, s: int, t: int)
    requires Genuine(tb) && 17 <= s <= 21 && IsSymbol(t)
    ensures DecideIn(tb, s, t) == Unpacked(s, t)
  {}

  lemma OtherStatesAgree(tb: Packed, s: int, t: int)
    requires Genuine(tb) && (s == 2 || s == 3 || s == 6 || s == 15 || s == 22 || s == 25 || s == 26) && IsSymbol(t)
    ensures DecideIn(tb, s, t) == Unpacked(s, t)
  {}

  /** The packed tables, read as the driver reads them, are exactly the unpacked automaton. */
  lemma TablesAgree(s: int, t: int)
    requires IsState(s) && IsSymbol(t)
    ensures Decide(s, t) == Unpacked(s, t)
  {
    GenuineTables();
    if Open(s) {
      OpenStatesAgree(TABLES, s, t);
    } else if s == 5 || s == 7 || s == 16 || s == 24 {
      BracketStatesAgree(TABLES, s, t);
    } else if 17 <= s <= 21 {
      OperandStatesAgree(TABLES, s, t);
    } else {
      OtherStatesAgree(TABLES, s, t);
    }
  }

  lemma GotoContents(tb: Packed, s: int, rule: int)
    requires Genuine(tb) && IsState(s) && 1 <= rule <= 12
    ensures rule == 1 ==> GotoIn(tb, s, rule) == 25
    ensures rule != 1 && Open(s) ==> GotoIn(tb, s, rule) == ExpGoto(s)
  {}

  lemma GotosAgree(s: int, rule: int)
    requires IsState(s) && 1 <= rule <= 12
    ensures rule == 1 ==> GotoState(s, rule) == 25
    ensures rule != 1 && Open(s) ==> GotoState(s, rule) == ExpGoto(s)
  {
    GenuineTables();
    GotoContents(TABLES, s, rule);
  }

  lemma NoErrorEntry(tb: Packed, s: int)
    requires Genuine(tb) && IsState(s)
    ensures !ShiftsErrorIn(tb, s)
  {}

  /** Error recovery never finds a state that accepts the error token, so it pops everything. */
  lemma NoErrorProductions(s: int)
    requires IsState(s)
    ensures !ShiftsErrorIn(TABLES, s)
  {
    GenuineTables();
    NoErrorEntry(TABLES, s);
  }
}
