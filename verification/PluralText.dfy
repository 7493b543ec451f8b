/** How tokens are written in a plural specification, with blanks between them and a terminator behind them, and that
    the scanner reads them back (`yylex` of intl/plural.y). */
module PluralText {
  import opened PluralLexer
  import opened PluralSyntax

  function TokenOf(op: BinaryOp): (t: Token)
    ensures IsBinaryToken(t) && OpOf(t) == op
  {
    match op
    case Lor => Bar
    case Land => Amp
    case Equal | NotEqual => EquOp(op)
    case LessThan | GreaterThan | LessOrEqual | GreaterOrEqual => CmpOp(op)
    case Plus | Minus => AddOp(op)
    case Mult | Divide | Module => MulOp(op)
  }

  function DigitChar(d: nat): char
    requires d < 10
  {
    ('0' as nat + d) as char
  }

  function DecimalText(n: nat): (s: string)
    ensures |s| > 0 && forall k :: 0 <= k < |s| ==> IsDigit(s[k])
  {
    if n < 10 then [DigitChar(n)] else DecimalText(n / 10) + [DigitChar(n % 10)]
  }

  function TokenText(t: Token): (s: string)
    ensures |s| > 0
  {
    match t
    case Quest => "?"
    case Colon => ":"
    case Bar => "||"
    case Amp => "&&"
    case Bang => "!"
    case LParen => "("
    case RParen => ")"
    case N => "n"
    case Number(n) => DecimalText(n)
    case Bad => "="
    case EquOp(op) => OpText(op)
    case CmpOp(op) => OpText(op)
    case AddOp(op) => OpText(op)
    case MulOp(op) => OpText(op)
  }

  function OpText(op: BinaryOp): (s: string)
    ensures |s| > 0
  {
    match op
    case Mult => "*"
    case Divide => "/"
    case Module => "%"
    case Plus => "+"
    case Minus => "-"
    case LessThan => "<"
    case GreaterThan => ">"
    case LessOrEqual => "<="
    case GreaterOrEqual => ">="
    case Equal => "=="
    case NotEqual => "!="
    case Land => "&&"
    case Lor => "||"
  }

  /** A token the scanner produces. */
  predicate Scannable(t: Token) {
    && !t.Bad? && (t.Number? ==> t.num < ULONG_MODULUS)
    && (IsBinaryToken(t) ==> t == TokenOf(OpOf(t)))
  }

  lemma {:induction false} DecimalReads(s: string, i: nat, j: nat, n: nat)
    requires i <= j <= |s| && s[i..j] == DecimalText(n)
    ensures forall k :: i <= k < j ==> IsDigit(s[k])
    ensures Decimal(s, i, j) == n
  {
    assert forall k :: i <= k < j ==> s[k] == s[i..j][k - i];
    assert s[j - 1] == s[i..j][j - 1 - i];
    if n >= 10 {
      assert s[i..j - 1] == s[i..j][..j - 1 - i] == DecimalText(n / 10);
      DecimalReads(s, i, j - 1, n / 10);
    } else {
      assert Decimal(s, i, i) == 0;
    }
  }

  lemma {:induction false} DigitsEndIs(s: string, i: nat, j: nat)
    requires i <= j <= |s| && !IsDigit(At(s, j)) && forall k :: i <= k < j ==> IsDigit(s[k])
    ensures DigitsEnd(s, i) == j
    decreases j - i
  {
    if i < j {
      DigitsEndIs(s, i + 1, j);
    }
  }

  lemma LexNumber(s: string, i: nat, n: nat)
    requires i + |DecimalText(n)| <= |s| && s[i..i + |DecimalText(n)|] == DecimalText(n)
    requires n < ULONG_MODULUS && !IsDigit(At(s, i + |DecimalText(n)|))
    ensures LexAt(s, i) == Lexeme(Number(n), i + |DecimalText(n)|)
  {
    LexNumberTo(s, i, i + |DecimalText(n)|, n);
  }

  lemma LexNumberTo(s: string, i: nat, j: nat, n: nat)
    requires j == i + |DecimalText(n)| <= |s| && s[i..j] == DecimalText(n) && n < ULONG_MODULUS && !IsDigit(At(s, j))
    ensures LexAt(s, i) == Lexeme(Number(n), j)
  {
    DecimalReads(s, i, j, n);
    DigitsEndIs(s, i, j);
    assert SkipBlanks(s, i) == i;
  }

  lemma LexSymbol(s: string, i: nat, t: Token)
    requires i < |s| && s[i] == TokenText(t)[0] && !t.Number? && Scannable(t)
    requires |TokenText(t)| <= 2
    requires |TokenText(t)| == 2 ==> At(s, i + 1) == TokenText(t)[1]
    requires |TokenText(t)| == 1 && (t.Bang? || t.CmpOp?) ==> At(s, i + 1) != '='
    ensures LexAt(s, i) == Lexeme(t, i + |TokenText(t)|)
  {
    assert !IsBlank(s[i]) && !IsDigit(s[i]) && s[i] !in {'\0', ';', '\n'};
    assert SkipBlanks(s, i) == i;
  }

  /** The scanner reads one printed token. */
  lemma LexOne(s: string, i: nat, t: Token)
    requires i + |TokenText(t)| <= |s| && s[i..i + |TokenText(t)|] == TokenText(t)
    requires Scannable(t) && !Extends(t, At(s, i + |TokenText(t)|))
    ensures LexAt(s, i) == Lexeme(t, i + |TokenText(t)|)
  {
    if t.Number? {
      LexNumber(s, i, t.num);
    } else {
      var u := s[i..i + |TokenText(t)|];
      assert u[0] == s[i] && (|u| > 1 ==> u[1] == s[i + 1]);
      LexSymbol(s, i, t);
    }
  }

  // ----- what is written between and behind the tokens

  /** The character makes another token of the one that it follows. */
  predicate Extends(t: Token, c: char) {
    if t.Number? then '0' <= c <= '9'
    else c == '=' && (t == Bang || t == CmpOp(LessThan) || t == CmpOp(GreaterThan))
  }

  /** Without a blank between them the two tokens would be read as others. */
  predicate RunTogether(t: Token, u: Token) {
    Extends(t, TokenText(u)[0])
  }

  datatype Piece = Piece(blanks: string, tok: Token)

  predicate AllBlank(b: string) {
    forall k :: 0 <= k < |b| ==> b[k] == ' ' || b[k] == '\t'
  }

  /** The end of the string, a semicolon or a newline, whatever follows. */
  predicate Terminates(tail: string) {
    tail != "" ==> tail[0] == ';' || tail[0] == '\n'
  }

  function Written(l: seq<Piece>): string {
    if l == [] then "" else l[0].blanks + TokenText(l[0].tok) + Written(l[1..])
  }

  function TokensOf(l: seq<Piece>): seq<Token> {
    if l == [] then [] else [l[0].tok] + TokensOf(l[1..])
  }

  /** Blanks before the tokens, at least where two of them would run together. */
  predicate Apart(l: seq<Piece>) {
    && (forall i :: 0 <= i < |l| ==> Scannable(l[i].tok) && AllBlank(l[i].blanks))
    && forall i :: 0 < i < |l| && l[i].blanks == "" ==> !RunTogether(l[i - 1].tok, l[i].tok)
  }

  lemma {:induction false} SkipTo(s: string, i: nat, j: nat)
    requires i <= j <= |s| && !IsBlank(At(s, j)) && forall k :: i <= k < j ==> IsBlank(s[k])
    ensures SkipBlanks(s, i) == j
    decreases j - i
  {
    if i < j {
      SkipTo(s, i + 1, j);
    }
  }

  /** What is left of `s` from `i` on. */
  ghost predicate Left(s: string, i: nat, rest: string) {
    i <= |s| && forall k {:trigger s[k..]} :: k == i ==> s[k..] == rest
  }

  lemma Front(s: string, i: nat, a: string, rest: string)
    requires Left(s, i, a + rest)
    ensures i + |a| <= |s| && s[i..i + |a|] == a && Left(s, i + |a|, rest)
  {
    assert s[i..] == a + rest;
    assert s[i..i + |a|] == s[i..][..|a|] && s[i + |a|..] == s[i..][|a|..];
  }

  lemma BlankRun(s: string, i: nat, j: nat)
    requires i <= j <= |s| && AllBlank(s[i..j])
    ensures LexAt(s, i) == LexAt(s, j)
  {
    forall k | i <= k < j ensures IsBlank(s[k]) {
      assert s[k] == s[i..j][k - i];
    }
    var e := SkipBlanks(s, j);
    SkipTo(s, j, e);
    SkipTo(s, i, e);
  }

  /** At `i` the scanner reads `t`, and then stands at `j`. */
  ghost predicate Reads(s: string, i: nat, t: Token, j: nat)
    requires i <= |s|
  {
    j <= |s| && forall x {:trigger LexAt(x, i)} :: x == s ==> LexAt(x, i) == Lexeme(t, j)
  }

  /** Blanks make no difference. */
  lemma ReadBehind(s: string, i: nat, b: string, rest: string, t: Token, j: nat)
    requires Left(s, i, b + rest) == true && AllBlank(b)
    requires i + |b| <= |s| && Reads(s, i + |b|, t, j)
    ensures Reads(s, i, t, j)
  {
    Front(s, i, b, rest);
    BlankRun(s, i, i + |b|);
  }

  lemma FirstChar(s: string, i: nat, rest: string)
    requires Left(s, i, rest)
    ensures At(s, i) == if rest == "" then '\0' else rest[0]
  {
    assert s[i..] == rest;
    if rest != "" {
      assert s[i] == s[i..][0];
    } else {
      assert |s[i..]| == 0;
    }
  }

  lemma LexTerminator(s: string, i: nat, b: string, tail: string)
    requires Left(s, i, b + tail) && AllBlank(b) && Terminates(tail)
    ensures LexAt(s, i) == End(i + |b|) && Tokens(s, i) == []
  {
    Front(s, i, b, tail);
    BlankRun(s, i, i + |b|);
    FirstChar(s, i + |b|, tail);
    assert SkipBlanks(s, i + |b|) == i + |b|;
  }

  lemma TokensCons(s: string, i: nat, t: Token, j: nat)
    requires i <= |s| && Reads(s, i, t, j)
    ensures Tokens(s, i) == [t] + Tokens(s, j)
  {
    assert LexAt(s, i) == Lexeme(t, j);
  }

  /** What follows a token does not extend it. */
  lemma NotExtended(t: Token, l: seq<Piece>, b: string, tail: string)
    requires AllBlank(b) && Terminates(tail) && (l != [] ==> AllBlank(l[0].blanks))
    requires l != [] && l[0].blanks == "" ==> !RunTogether(t, l[0].tok)
    ensures var rest := Written(l) + (b + tail); !Extends(t, if rest == "" then '\0' else rest[0])
  {
    if l != [] {
      WrittenSplits(l, b + tail);
    }
  }

  lemma Regroup(a: string, b: string, c: string, d: string)
    ensures a + b + c + d == a + (b + (c + d))
  {}

  lemma WrittenSplits(l: seq<Piece>, end: string)
    requires l != []
    ensures Written(l) + end == l[0].blanks + (TokenText(l[0].tok) + (Written(l[1..]) + end))
  {
    Regroup(l[0].blanks, TokenText(l[0].tok), Written(l[1..]), end);
  }

  lemma LexToken(s: string, i: nat, t: Token, rest: string)
    requires Left(s, i, TokenText(t) + rest) && Scannable(t)
    requires !Extends(t, if rest == "" then '\0' else rest[0])
    ensures
      var j := i + |TokenText(t)|;
      Left(s, j, rest) == true && Reads(s, i, t, j) == true
  {
    Front(s, i, TokenText(t), rest);
    FirstChar(s, i + |TokenText(t)|, rest);
    LexOne(s, i, t);
  }

  lemma LexSpaced(s: string, i: nat, b: string, t: Token, rest: string)
    requires Left(s, i, b + (TokenText(t) + rest)) == true && AllBlank(b) && Scannable(t)
    requires !Extends(t, if rest == "" then '\0' else rest[0])
    ensures
      var j := i + |b| + |TokenText(t)|;
      Left(s, j, rest) == true && Reads(s, i, t, j) == true
  {
    Front(s, i, b, TokenText(t) + rest);
    LexToken(s, i + |b|, t, rest);
    ReadBehind(s, i, b, TokenText(t) + rest, t, i + |b| + |TokenText(t)|);
  }

  /** The scanner reads the first token, and stands at what follows it. */
  lemma LexPiece(s: string, i: nat, l: seq<Piece>, b: string, tail: string)
    requires Left(s, i, Written(l) + (b + tail)) == true && l != [] && Apart(l) && AllBlank(b) && Terminates(tail)
    ensures
      var j := i + |l[0].blanks| + |TokenText(l[0].tok)|;
      Left(s, j, Written(l[1..]) + (b + tail)) == true && Reads(s, i, l[0].tok, j) == true
  {
    var rest := Written(l[1..]) + (b + tail);
    WrittenSplits(l, b + tail);
    if |l| > 1 {
      SecondApart(l);
    }
    NotExtended(l[0].tok, l[1..], b, tail);
    LexSpaced(s, i, l[0].blanks, l[0].tok, rest);
  }

  lemma SecondApart(l: seq<Piece>)
    requires Apart(l) && |l| > 1
    ensures AllBlank(l[1..][0].blanks) && (l[1..][0].blanks == "" ==> !RunTogether(l[0].tok, l[1..][0].tok))
  {
    assert l[1..][0] == l[1] && l[1 - 1] == l[0];
  }

  lemma ApartTail(l: seq<Piece>)
    requires Apart(l) && l != []
    ensures Apart(l[1..])
  {
    var rest := l[1..];
    assert forall i :: 0 <= i < |rest| ==> rest[i] == l[i + 1];
  }

  lemma {:induction false} LexFrom(s: string, i: nat, l: seq<Piece>, b: string, tail: string)
    requires Left(s, i, Written(l) + (b + tail)) == true && Apart(l) && AllBlank(b) && Terminates(tail)
    ensures Tokens(s, i) == TokensOf(l)
    decreases |l|
  {
    if l == [] {
      assert Written(l) + (b + tail) == b + tail;
      LexTerminator(s, i, b, tail);
    } else {
      var j := i + |l[0].blanks| + |TokenText(l[0].tok)|;
      LexPiece(s, i, l, b, tail);
      ApartTail(l);
      LexFrom(s, j, l[1..], b, tail);
      TokensCons(s, i, l[0].tok, j);
    }
  }

  /** Tokens written with blanks, at least where two would run together, and with a terminator or not, are read back
      as they are. */
  lemma LexWritten(l: seq<Piece>, b: string, tail: string)
    requires Apart(l) && AllBlank(b) && Terminates(tail)
    ensures Tokens(Written(l) + (b + tail), 0) == TokensOf(l)
  {
    var s := Written(l) + (b + tail);
    assert s[0..] == s;
    LexFrom(s, 0, l, b, tail);
  }

  /** A character that begins no token is YYERRCODE; so is an equals sign, `&` or `|` that stands alone. */
  lemma Stray(s: string, i: nat)
    requires i < |s|
    requires if s[i] in "=&|" then At(s, i + 1) != s[i] else s[i] !in " \t\n;0123456789!<>*/%+-n?:()\0"
    ensures Tokens(s, i) != [] && Tokens(s, i)[0] == Bad
  {
    assert SkipBlanks(s, i) == i;
    assert LexAt(s, i) == Lexeme(Bad, i + 1);
  }

  lemma DigitsTogether(s: string, t: Token, u: Token)
    requires t.Number? && u.Number? && s == TokenText(t) + TokenText(u)
    ensures |Tokens(s, 0)| == 1
  {
    forall k | 0 <= k < |s| ensures IsDigit(s[k]) {
      assert s[k] == if k < |TokenText(t)| then TokenText(t)[k] else TokenText(u)[k - |TokenText(t)|];
    }
    DigitsEndIs(s, 0, |s|);
    assert SkipBlanks(s, 0) == 0;
    assert Tokens(s, |s|) == [];
  }

  lemma SignsTogether(s: string, t: Token, u: Token)
    requires Scannable(t) && Scannable(u) && !t.Number? && RunTogether(t, u) && s == TokenText(t) + TokenText(u)
    ensures Tokens(s, 0) != [t, u]
  {
    assert s[0] == TokenText(t)[0] && s[1] == '=';
    assert SkipBlanks(s, 0) == 0;
    assert LexAt(s, 0).tok != t && Tokens(s, 0)[0] == LexAt(s, 0).tok;
  }

  lemma TwoApart(t: Token, u: Token)
    requires Scannable(t) && Scannable(u) && !RunTogether(t, u)
    ensures Tokens(TokenText(t) + TokenText(u), 0) == [t, u]
  {
    var l := [Piece("", t), Piece("", u)];
    assert l[1..] == [Piece("", u)];
    WrittenTwo(l, TokenText(t), TokenText(u));
    assert TokensOf(l[1..]) == [u] && TokensOf(l) == [t] + [u];
    LexWritten(l, "", "");
  }

  lemma WrittenFirst(l: seq<Piece>, first: string, rest: string)
    requires l != [] && l[0].blanks == "" && first == TokenText(l[0].tok) && rest == Written(l[1..])
    ensures Written(l) == first + rest
  {
    assert "" + first + rest == first + rest;
  }

  lemma WrittenTwo(l: seq<Piece>, a: string, b: string)
    requires |l| == 2 && l[0].blanks == "" == l[1].blanks && TokenText(l[0].tok) == a && TokenText(l[1].tok) == b
    ensures Written(l) + ("" + "") == a + b
  {
    var tail := l[1..];
    assert tail[0] == l[1] && tail[1..] == [] && Written([]) == "";
    WrittenFirst(tail, b, "");
    WrittenFirst(l, a, b + "");
    assert b + "" == b;
  }

  /** Only where two tokens run together do they need a blank. */
  lemma Together(t: Token, u: Token)
    requires Scannable(t) && Scannable(u)
    ensures Tokens(TokenText(t) + TokenText(u), 0) == [t, u] <==> !RunTogether(t, u)
  {
    var s := TokenText(t) + TokenText(u);
    if !RunTogether(t, u) {
      TwoApart(t, u);
    } else if t.Number? {
      DigitsTogether(s, t, u);
    } else {
      SignsTogether(s, t, u);
    }
  }

  // ----- without blanks

  /** The tokens written one after the other, with nothing between them. */
  function Text(toks: seq<Token>): string {
    if toks == [] then "" else TokenText(toks[0]) + Text(toks[1..])
  }

  predicate Starter(t: Token) { t.Bang? || t.Number? || t.N? || t.LParen? }

  predicate Ender(t: Token) { t.Number? || t.N? || t.RParen? }

  /** Operands and operators alternate, so that no two neighbours run together when written
      without blanks. */
  predicate Alternates(toks: seq<Token>) {
    && (forall i :: 0 <= i < |toks| ==> Scannable(toks[i]))
    && (forall i :: 0 <= i < |toks| - 1 ==> (Ender(toks[i]) <==> !Starter(toks[i + 1])))
  }

  lemma AlternatesCons(t: Token, rest: seq<Token>)
    requires Scannable(t) && Alternates(rest)
    requires rest != [] ==> (Ender(t) <==> !Starter(rest[0]))
    ensures Alternates([t] + rest)
  {
    var toks := [t] + rest;
    forall i | 0 <= i < |toks| - 1
      ensures Ender(toks[i]) <==> !Starter(toks[i + 1])
    {
      assert toks[i + 1] == rest[i];
      assert i > 0 ==> toks[i] == rest[i - 1];
    }
  }

  /** Such tokens do not run together. */
  lemma Junction(t: Token, u: Token)
    requires Scannable(t) && Scannable(u) && (Ender(t) <==> !Starter(u))
    ensures !RunTogether(t, u)
  {}

  function Unspaced(toks: seq<Token>): (l: seq<Piece>)
    ensures |l| == |toks| && forall k :: 0 <= k < |toks| ==> l[k] == Piece("", toks[k])
  {
    seq(|toks|, k requires 0 <= k < |toks| => Piece("", toks[k]))
  }

  lemma {:induction false} UnspacedText(toks: seq<Token>)
    ensures Written(Unspaced(toks)) == Text(toks) && TokensOf(Unspaced(toks)) == toks
  {
    if toks != [] {
      var l := Unspaced(toks);
      UnspacedText(toks[1..]);
      assert l[0] == Piece("", toks[0]) && l[1..] == Unspaced(toks[1..]);
      assert "" + TokenText(toks[0]) == TokenText(toks[0]);
    }
  }

  lemma UnspacedApart(toks: seq<Token>)
    requires Alternates(toks)
    ensures Apart(Unspaced(toks))
  {
    forall i | 0 < i < |toks| ensures !RunTogether(toks[i - 1], toks[i]) {
      assert Ender(toks[i - 1]) <==> !Starter(toks[i - 1 + 1]);
      Junction(toks[i - 1], toks[i]);
    }
  }

  /** The text of a token string in which operands and operators alternate, with a terminator or not, is read back as
      that token string. */
  lemma LexText(s: string, toks: seq<Token>, tail: string)
    requires s == Text(toks) + tail && Alternates(toks) && Terminates(tail)
    ensures Tokens(s, 0) == toks
  {
    UnspacedText(toks);
    UnspacedApart(toks);
    assert "" + tail == tail;
    LexWritten(Unspaced(toks), "", tail);
  }
}
