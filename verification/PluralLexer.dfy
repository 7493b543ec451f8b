/** `yylex` of intl/plural.y: the token string a plural specification stands for, and the scanner
    that delivers it one token at a time. */
module PluralLexer {
  import opened PluralSyntax
  import opened PluralAutomaton

  const YYEOF := 0
  const YYERRCODE := 256
  const EQUOP2 := 257
  const CMPOP2 := 258
  const ADDOP2 := 259
  const MULOP2 := 260
  const NUMBER := 261

  /** Character `i` of a NUL-terminated string. */
  function At(s: string, i: nat): char {
    if i < |s| then s[i] else '\0'
  }

  predicate IsDigit(c: char) { '0' <= c <= '9' }

  predicate IsBlank(c: char) { c == ' ' || c == '\t' }

  function SkipBlanks(s: string, i: nat): (j: nat)
    requires i <= |s|
    ensures i <= j <= |s| && !IsBlank(At(s, j))
    ensures forall k :: i <= k < j ==> IsBlank(s[k])
    decreases |s| - i
  {
    if IsBlank(At(s, i)) then SkipBlanks(s, i + 1) else i
  }

  function DigitsEnd(s: string, i: nat): (j: nat)
    requires i <= |s|
    ensures i <= j <= |s| && !IsDigit(At(s, j))
    ensures forall k :: i <= k < j ==> IsDigit(s[k])
    decreases |s| - i
  {
    if IsDigit(At(s, i)) then DigitsEnd(s, i + 1) else i
  }

  function Digit(c: char): nat
    requires IsDigit(c)
  {
    c as nat - '0' as nat
  }

  /** The value of the decimal digits `s[i..j]`, with no bound on their number. */
  function Decimal(s: string, i: nat, j: nat): nat
    requires i <= j <= |s| && forall k :: i <= k < j ==> IsDigit(s[k])
  {
    if i == j then 0 else 10 * Decimal(s, i, j - 1) + Digit(s[j - 1])
  }

  datatype Lexed = End(at: nat) | Lexeme(tok: Token, next: nat)

  /** The token that starts at or after `i`. A semicolon or newline ends the input and is not
      consumed. */
  function LexAt(s: string, i: nat): (r: Lexed)
    requires i <= |s|
    ensures r.Lexeme? ==> i < r.next <= |s|
    ensures r.End? ==> r.at <= |s|
  {
    var j := SkipBlanks(s, i);
    var c := At(s, j);
    var d := At(s, j + 1);
    if c == '\0' || c == ';' || c == '\n' then End(j)
    else if IsDigit(c) then
      var e := DigitsEnd(s, j);
      Lexeme(Number(Decimal(s, j, e) % ULONG_MODULUS), e)
    else if c == '=' then (if d == '=' then Lexeme(EquOp(Equal), j + 2) else Lexeme(Bad, j + 1))
    else if c == '!' then (if d == '=' then Lexeme(EquOp(NotEqual), j + 2) else Lexeme(Bang, j + 1))
    else if c == '&' then (if d == '&' then Lexeme(Amp, j + 2) else Lexeme(Bad, j + 1))
    else if c == '|' then (if d == '|' then Lexeme(Bar, j + 2) else Lexeme(Bad, j + 1))
    else if c == '<' then
      (if d == '=' then Lexeme(CmpOp(LessOrEqual), j + 2) else Lexeme(CmpOp(LessThan), j + 1))
    else if c == '>' then
      (if d == '=' then Lexeme(CmpOp(GreaterOrEqual), j + 2) else Lexeme(CmpOp(GreaterThan), j + 1))
    else if c == '*' then Lexeme(MulOp(Mult), j + 1)
    else if c == '/' then Lexeme(MulOp(Divide), j + 1)
    else if c == '%' then Lexeme(MulOp(Module), j + 1)
    else if c == '+' then Lexeme(AddOp(Plus), j + 1)
    else if c == '-' then Lexeme(AddOp(Minus), j + 1)
    else if c == 'n' then Lexeme(N, j + 1)
    else if c == '?' then Lexeme(Quest, j + 1)
    else if c == ':' then Lexeme(Colon, j + 1)
    else if c == '(' then Lexeme(LParen, j + 1)
    else if c == ')' then Lexeme(RParen, j + 1)
    else Lexeme(Bad, j + 1)
  }

  /** All tokens from position `i` to the end of the specification. */
  function Tokens(s: string, i: nat): seq<Token>
    requires i <= |s|
    decreases |s| - i
  {
    match LexAt(s, i)
    case End(_) => []
    case Lexeme(t, next) => [t] + Tokens(s, next)
  }

  /** The number `yylex` returns for a token. */
  function Code(t: Token): int {
    match t
    case Quest => '?' as int
    case Colon => ':' as int
    case Bang => '!' as int
    case LParen => '(' as int
    case RParen => ')' as int
    case N => 'n' as int
    case Bar => '|' as int
    case Amp => '&' as int
    case EquOp(_) => EQUOP2
    case CmpOp(_) => CMPOP2
    case AddOp(_) => ADDOP2
    case MulOp(_) => MULOP2
    case Number(_) => NUMBER
    case Bad => YYERRCODE
  }

  /** One more digit in wrapping arithmetic. */
  lemma WrapDigit(v: nat, d: nat)
    ensures ((v % ULONG_MODULUS) * 10 % ULONG_MODULUS + d) % ULONG_MODULUS == (10 * v + d) % ULONG_MODULUS
  {
    var q := v / ULONG_MODULUS;
    var r := v % ULONG_MODULUS;
    var q' := r * 10 / ULONG_MODULUS;
    assert 10 * v + d == (r * 10 % ULONG_MODULUS + d) + (10 * q + q') * ULONG_MODULUS;
    AddMultiple(r * 10 % ULONG_MODULUS + d, 10 * q + q');
  }

  lemma {:induction false} AddMultiple(a: nat, k: nat)
    ensures (a + k * ULONG_MODULUS) % ULONG_MODULUS == a % ULONG_MODULUS
  {
    if k > 0 {
      AddMultiple(a, k - 1);
      assert a + k * ULONG_MODULUS == (a + (k - 1) * ULONG_MODULUS) + ULONG_MODULUS;
    }
  }

  /** The digits of a number, in the wrapping arithmetic of `unsigned long int`. */
  method ScanNumber(s: string, begin: nat) returns (n: nat, exp: nat)
    requires begin < |s| && IsDigit(s[begin])
    ensures exp == DigitsEnd(s, begin) && n == Decimal(s, begin, exp) % ULONG_MODULUS
  {
    n := Digit(s[begin]);
    exp := begin + 1;
    assert Decimal(s, begin, begin) == 0 && Decimal(s, begin, exp) == n;
    while IsDigit(At(s, exp))
      invariant begin < exp <= |s| && forall k :: begin <= k < exp ==> IsDigit(s[k])
      invariant DigitsEnd(s, begin) == DigitsEnd(s, exp)
      invariant n == Decimal(s, begin, exp) % ULONG_MODULUS
      decreases |s| - exp
    {
      WrapDigit(Decimal(s, begin, exp), Digit(s[exp]));
      n := n * 10 % ULONG_MODULUS;
      n := (n + Digit(s[exp])) % ULONG_MODULUS;
      exp := exp + 1;
    }
  }

  method YyLex(s: string, pexp: nat) returns (result: int, lval: Value, next: nat)
    requires pexp <= |s|
    ensures next <= |s|
    ensures LexAt(s, pexp).End? ==> result == YYEOF && next == LexAt(s, pexp).at
    ensures LexAt(s, pexp).Lexeme? ==>
      && result == Code(LexAt(s, pexp).tok) && lval == TokenValue(LexAt(s, pexp).tok)
      && next == LexAt(s, pexp).next
  {
    var exp := pexp;
    lval := VNone;
    while true
      invariant pexp <= exp <= |s|
      invariant SkipBlanks(s, pexp) == SkipBlanks(s, exp)
      decreases |s| - exp
    {
      if At(s, exp) == '\0' {
        return YYEOF, lval, exp;
      }
      if At(s, exp) != ' ' && At(s, exp) != '\t' {
        break;
      }
      exp := exp + 1;
    }
    var c := s[exp];
    if IsDigit(c) {
      var n, e := ScanNumber(s, exp);
      return NUMBER, VNum(n), e;
    }
    exp := exp + 1;
    match c {
      case '=' =>
        if At(s, exp) == '=' {
          exp := exp + 1;
          lval := VOp(Equal);
          result := EQUOP2;
        } else {
          result := YYERRCODE;
        }
      case '!' =>
        result := c as int;
        if At(s, exp) == '=' {
          exp := exp + 1;
          lval := VOp(NotEqual);
          result := EQUOP2;
        }
      case '&' | '|' =>
        result := c as int;
        if At(s, exp) == c {
          exp := exp + 1;
        } else {
          result := YYERRCODE;
        }
      case '<' =>
        if At(s, exp) == '=' {
          exp := exp + 1;
          lval := VOp(LessOrEqual);
        } else {
          lval := VOp(LessThan);
        }
        result := CMPOP2;
      case '>' =>
        if At(s, exp) == '=' {
          exp := exp + 1;
          lval := VOp(GreaterOrEqual);
        } else {
          lval := VOp(GreaterThan);
        }
        result := CMPOP2;
      case '*' => lval := VOp(Mult); result := MULOP2;
      case '/' => lval := VOp(Divide); result := MULOP2;
      case '%' => lval := VOp(Module); result := MULOP2;
      case '+' => lval := VOp(Plus); result := ADDOP2;
      case '-' => lval := VOp(Minus); result := ADDOP2;
      case 'n' | '?' | ':' | '(' | ')' => result := c as int;
      case ';' | '\n' =>
        exp := exp - 1;
        result := YYEOF;
      case _ => result := YYERRCODE;
    }
    next := exp;
  }
}
