/** The plural form that a catalogue declares: the `Plural-Forms` line of its header entry
    (intl/plural-exp.c:97-154). */
module PluralHeader {
  import opened Options
  import opened PluralAutomaton
  import opened PluralLexer
  import opened PluralParser
  import opened PluralRoundTrip
  import opened PluralSyntax
  import opened PluralTables
  import opened PluralText

  // ----- strstr

  predicate Occurs(s: string, pat: string, k: nat) {
    k + |pat| <= |s| && s[k..k + |pat|] == pat
  }

  /** `r` is the first place of `pat`, or there is none. */
  ghost predicate First(s: string, pat: string, r: Option<nat>) {
    match r
    case Some(k) => Occurs(s, pat, k) && forall j :: 0 <= j < k ==> !Occurs(s, pat, j)
    case None => forall j :: 0 <= j <= |s| ==> !Occurs(s, pat, j)
  }

  method Strstr(s: string, pat: string) returns (r: Option<nat>)
    ensures First(s, pat, r)
  {
    var k := 0;
    while k <= |s|
      invariant 0 <= k <= |s| + 1 && forall j :: 0 <= j < k ==> !Occurs(s, pat, j)
    {
      if Occurs(s, pat, k) {
        return Some(k);
      }
      k := k + 1;
    }
    r := None;
  }

  lemma OneFirst(s: string, pat: string, r: Option<nat>, q: Option<nat>)
    requires First(s, pat, r) && First(s, pat, q)
    ensures r == q
  {}

  // ----- the number of forms

  /** `isspace` in the C locale. */
  predicate IsSpace(c: char) {
    c == ' ' || 9 <= c as int <= 13
  }

  function SkipSpaces(s: string, i: nat): (j: nat)
    requires i <= |s|
    ensures i <= j <= |s| && !IsSpace(At(s, j)) && forall k :: i <= k < j ==> IsSpace(s[k])
    decreases |s| - i
  {
    if i < |s| && IsSpace(s[i]) then SkipSpaces(s, i + 1) else i
  }

  const ULONG_MAX := 0xFFFF_FFFF_FFFF_FFFF

  /** `strtoul`, which cuts a number that is too large off at the largest one. */
  function Strtoul(s: string, i: nat): nat
    requires i <= |s|
  {
    var n := Decimal(s, i, DigitsEnd(s, i));
    if n > ULONG_MAX then ULONG_MAX else n
  }

  /** The default: one form for a single thing, another for all other numbers. */
  const GERMANIC := (Binary(NotEqual, Var, Num(1)), 2)

  const PLURAL := "plural="
  const NPLURALS := "nplurals="

  /** The header names an expression behind `i` and a number of forms behind `j`. */
  ghost predicate Declares(s: string, i: nat, j: nat) {
    First(s, PLURAL, Some(i)) && First(s, NPLURALS, Some(j)) && Counted(s, j + |NPLURALS|)
  }

  /** From `i` on there is a number, behind spaces or not. */
  predicate Counted(s: string, i: nat) {
    i <= |s| && IsDigit(At(s, SkipSpaces(s, i)))
  }

  /** What is taken from a header, for what the parser makes of the expression, and with the number at `j`. */
  function Taken(outcome: Outcome, s: string, j: nat): (Expr, nat)
    requires j <= |s|
  {
    if outcome.Accepted? then (outcome.exp, Strtoul(s, SkipSpaces(s, j))) else GERMANIC
  }

  function Declared(s: string, i: nat, j: nat): (Expr, nat)
    requires i + |PLURAL| <= |s| && j + |NPLURALS| <= |s|
  {
    Taken(Run(Base, Tokens(s, i + |PLURAL|)), s, j + |NPLURALS|)
  }

  method Take(s: string, i: nat, j: nat) returns (plural: Expr, nplurals: nat)
    requires i <= |s| && j <= |s|
    ensures (plural, nplurals) == if Counted(s, j) then Taken(Run(Base, Tokens(s, i)), s, j) else GERMANIC
  {
    plural, nplurals := GERMANIC.0, GERMANIC.1;
    var k := SkipSpaces(s, j);
    if IsDigit(At(s, k)) {
      var yyresult, res, cp := YyParse(s, i);
      if yyresult == 0 {
        plural, nplurals := res, Strtoul(s, k);
      }
    }
  }

  /** `EXTRACT_PLURAL_EXPRESSION`. */
  method ExtractPluralExpression(nullentry: Option<string>) returns (plural: Expr, nplurals: nat)
    ensures nullentry.None? ==> (plural, nplurals) == GERMANIC
    ensures nullentry.Some? ==>
      forall i: nat, j: nat {:trigger Declares(nullentry.value, i, j)} :: Declares(nullentry.value, i, j) ==>
        (plural, nplurals) == Declared(nullentry.value, i, j)
    ensures nullentry.Some? && (forall i: nat, j: nat :: !Declares(nullentry.value, i, j)) ==>
      (plural, nplurals) == GERMANIC
  {
    plural, nplurals := GERMANIC.0, GERMANIC.1;
    if nullentry.None? {
      return;
    }
    var s, pat1, pat2 := nullentry.value, PLURAL, NPLURALS;
    var i := Strstr(s, pat1);
    var j := Strstr(s, pat2);
    forall a: nat, b: nat | Declares(s, a, b) ensures i == Some(a) && j == Some(b) {
      OneFirst(s, PLURAL, i, Some(a));
      OneFirst(s, NPLURALS, j, Some(b));
    }
    if i.Some? && j.Some? {
      assert Counted(s, j.value + |pat2|) ==> Declares(s, i.value, j.value);
      plural, nplurals := Take(s, i.value + |pat1|, j.value + |pat2|);
    }
  }

  // ----- a header as it is written

  lemma {:induction false} SpacesTo(s: string, i: nat, j: nat)
    requires i <= j <= |s| && (forall k :: i <= k < j ==> IsSpace(s[k])) && (j < |s| ==> !IsSpace(s[j]))
    ensures SkipSpaces(s, i) == j
    decreases j - i
  {
    if i < j {
      SpacesTo(s, i + 1, j);
    }
  }

  /** From `i` on there are blanks, the number `n` and then no digit. */
  ghost predicate Numbered(s: string, i: nat, blanks: string, n: nat) {
    var j := i + |blanks|;
    var k := j + |DecimalText(n)|;
    && k <= |s| && s[i..j] == blanks && s[j..k] == DecimalText(n) && !IsDigit(At(s, k))
    && forall c :: c in blanks ==> IsSpace(c)
  }

  lemma NumberRead(s: string, i: nat, blanks: string, n: nat)
    requires Numbered(s, i, blanks, n) == true && n <= ULONG_MAX
    ensures i <= |s| && SkipSpaces(s, i) == i + |blanks| <= |s| && IsDigit(At(s, i + |blanks|))
    ensures Strtoul(s, i + |blanks|) == n
  {
    var j := i + |blanks|;
    var k := j + |DecimalText(n)|;
    forall x | i <= x < j ensures IsSpace(s[x]) {
      assert s[x] == s[i..j][x - i] && s[x] in blanks;
    }
    assert s[j] == s[j..k][0];
    SpacesTo(s, i, j);
    DecimalReads(s, j, k, n);
    DigitsEndIs(s, j, k);
  }

  lemma HeaderRuns(header: string, i: nat, e: Expr, l: seq<Piece>, b: string, tail: string)
    requires i <= |header| && header[i..] == Written(l) + (b + tail)
    requires NumbersFit(e) && TokensOf(l) == Yield(Bare(e)) && Apart(l) && AllBlank(b) && Terminates(tail)
    ensures Run(Base, Tokens(header, i)) == if Need(Bare(e), 1) >= YYMAXDEPTH then Overflowed else Accepted(e)
  {
    LexFrom(header, i, l, b, tail);
    RunConforming(Bare(e));
  }

  lemma TakenIs(outcome: Outcome, s: string, j: nat, blanks: string, n: nat)
    requires j <= |s| && Numbered(s, j, blanks, n) == true && n <= ULONG_MAX
    ensures Counted(s, j) && Taken(outcome, s, j) == if outcome.Accepted? then (outcome.exp, n) else GERMANIC
  {
    NumberRead(s, j, blanks, n);
  }

  /** A header that gives a number of forms and an expression, however they are spaced and whatever else it says,
      declares them; unless the expression is too deep for the parser, which leaves the default. */
  method ReadHeader(
    header: string, ghost i: nat, ghost j: nat, ghost blanks: string, ghost n: nat, ghost e: Expr,
    ghost l: seq<Piece>, ghost b: string, ghost tail: string)
    returns (plural: Expr, nplurals: nat)
    requires First(header, "plural=", Some(i)) && First(header, "nplurals=", Some(j))
    requires Numbered(header, j + 9, blanks, n) == true && n <= ULONG_MAX
    requires NumbersFit(e) && TokensOf(l) == Yield(Bare(e)) && Apart(l) && AllBlank(b) && Terminates(tail)
    requires header[i + 7..] == Written(l) + (b + tail)
    ensures Need(Bare(e), 1) < YYMAXDEPTH ==> plural == e && nplurals == n
    ensures Need(Bare(e), 1) >= YYMAXDEPTH ==> (plural, nplurals) == GERMANIC
  {
    HeaderRuns(header, i + 7, e, l, b, tail);
    TakenIs(Run(Base, Tokens(header, i + 7)), header, j + 9, blanks, n);
    assert |PLURAL| == 7 && |NPLURALS| == 9;
    assert Declares(header, i, j);
    plural, nplurals := ExtractPluralExpression(Some(header));
  }
}
