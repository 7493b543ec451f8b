/** What a format means as it is written: text, directives and text again, whose arguments are taken in turn
    (intl/vasnprintf.c; section 7.19.6.1 of ISO C99). */
module VasnprintfMeans {
  import opened Options
  import opened PrintfFormat
  import opened PrintfOrder
  import opened PrintfScan
  import opened PrintfSize
  import opened PrintfSpec
  import opened PrintfTypes
  import opened PrintfUnique
  import opened VasnprintfBuffer
  import opened VasnprintfDirective
  import opened VasnprintfMain
  import opened VasnprintfReread

  // ----- formats as they are written

  /** Text without `%`, and a directive behind it. */
  datatype Chunk = Chunk(text: string, p: Pieces)

  function Format(cs: seq<Chunk>, last: string): string {
    if cs == [] then last else cs[0].text + (cs[0].p.Text() + Format(cs[1..], last))
  }

  ghost predicate Writable(cs: seq<Chunk>, last: string) {
    && '%' !in last
    && forall k :: 0 <= k < |cs| ==>
      '%' !in cs[k].text && Spelled(cs[k].p) && PrintfOrder.Proper(cs[k].p) && Legal(cs[k].p)
  }

  predicate AllDigits(s: string) {
    forall k :: 0 <= k < |s| ==> '0' <= s[k] <= '9'
  }

  /** A directive of ISO C99, without numbers, or of one of the extensions `'`, `C` and `S`. */
  predicate C99(p: Pieces) {
    && p.pos == "" && (forall k :: 0 <= k < |p.flags| ==> p.flags[k] in "'-+ #0")
    && (p.width == "" || p.width == "*" || (AllDigits(p.width) && p.width[0] != '0'))
    && (p.prec == "" || p.prec == ".*" || (p.prec[0] == '.' && AllDigits(p.prec[1..])))
    && p.size in ["", "hh", "h", "l", "ll", "j", "z", "t", "L"] && p.conv in "diouxXfFeEgGaAcCsSpn%"
  }

  lemma C99Parts(p: Pieces)
    requires C99(p)
    ensures Spelled(p) && InTurn(p)
  {
    if p.prec != "" && p.prec != ".*" && |p.prec| > 1 {
      assert p.prec[1] == p.prec[1..][0];
    }
    forall c | c in p.size ensures IsSize(c) {}
  }

  /** All of them can stand in a format. */
  lemma C99Readable(p: Pieces)
    requires C99(p)
    ensures Spelled(p) && PrintfOrder.Proper(p) && Legal(p)
  {
    C99Parts(p);
    NoOtherTypes(p.conv, p.size);
    OneInTurn(p, 0);
  }

  /** The directives with their places. */
  function FoundIn(cs: seq<Chunk>, i: nat): (l: seq<Found>)
    ensures |l| == |cs|
    decreases |cs|
  {
    if cs == [] then []
    else
      var j := i + |cs[0].text|;
      [(j, cs[0].p)] + FoundIn(cs[1..], j + |cs[0].p.Text()|)
  }

  // ----- what they mean

  function Values<T>(ts: seq<ArgType>, n: nat, fetch: (nat, ArgType) -> T): (vals: seq<T>)
    ensures |vals| == |ts|
  {
    seq(|ts|, k requires 0 <= k < |ts| => fetch(n + k, ts[k]))
  }

  /** The text for a directive whose first argument is number `n`. */
  function TextFor<T>(p: Pieces, n: nat, fetch: (nat, ArgType) -> T, render: V.Render<T>): Option<string> {
    if p.conv == '%' then Some("%")
    else if p.conv == 'n' then Some("")
    else render(Handed(p, TypeIn(p)).Text(), Values(Takes(p, TypeIn(p)), n, fetch))
  }

  /** The whole output, for what is made of a directive and how many arguments it takes. */
  function WrittenBy(
    cs: seq<Chunk>, last: string, n: nat, textFor: (Pieces, nat) -> Option<string>, taken: Pieces -> nat)
    : Option<string>
    decreases |cs|
  {
    if cs == [] then Some(last)
    else
      var text := textFor(cs[0].p, n);
      var rest := WrittenBy(cs[1..], last, n + taken(cs[0].p), textFor, taken);
      if text.None? || rest.None? then None else Some(cs[0].text + text.value + rest.value)
  }

  function Written<T>(cs: seq<Chunk>, last: string, fetch: (nat, ArgType) -> T, render: V.Render<T>): Option<string> {
    WrittenBy(cs, last, 0, TextsFor(fetch, render), Count())
  }

  function TextsFor<T>(fetch: (nat, ArgType) -> T, render: V.Render<T>): (Pieces, nat) -> Option<string> {
    (p: Pieces, n: nat) => TextFor(p, n, fetch, render)
  }

  /** How many arguments a directive takes. */
  function Count(): Pieces -> nat {
    (p: Pieces) => |Takes(p, TypeIn(p))|
  }

  // ----- the scan finds the directives

  lemma {:induction false} ChunksTiled(f: string, i: nat, cs: seq<Chunk>, last: string)
    requires i <= |f| && f[i..] == Format(cs, last) && Writable(cs, last)
    ensures Tiled(f, i, FoundIn(cs, i)) == true
    decreases |cs|
  {
    if cs == [] {
      NoPercentIn(f, i, last);
    } else {
      var text, t := cs[0].text, cs[0].p.Text();
      var rest := Format(cs[1..], last);
      var j := i + |text|;
      assert f[i..] == text + (t + rest);
      Split(f, i, text, t, rest);
      NoPercentIn2(f, i, j, text);
      assert Writable(cs[1..], last);
      ChunksTiled(f, j + |t|, cs[1..], last);
      TileFirst(f, i, j, cs[0].p, FoundIn(cs[1..], j + |t|));
    }
  }

  lemma TileFirst(f: string, i: nat, j: nat, p: Pieces, l: seq<Found>)
    requires i <= j && j + |p.Text()| <= |f| && NoPercent(f, i, j) && f[j..j + |p.Text()|] == p.Text()
    requires Spelled(p) && Legal(p) && Tiled(f, j + |p.Text()|, l)
    ensures Tiled(f, i, [(j, p)] + l) == true
  {
    assert ([(j, p)] + l)[1..] == l;
  }

  lemma Split(f: string, i: nat, a: string, b: string, c: string)
    requires i <= |f| && f[i..] == a + (b + c)
    ensures i + |a| + |b| <= |f| && f[i..i + |a|] == a && f[i + |a|..i + |a| + |b|] == b && f[i + |a| + |b|..] == c
  {
    assert f[i..i + |a|] == f[i..][..|a|];
    assert f[i + |a|..i + |a| + |b|] == f[i..][|a|..|a| + |b|];
    assert f[i + |a| + |b|..] == f[i..][|a| + |b|..];
  }

  lemma NoPercentIn2(f: string, i: nat, j: nat, text: string)
    requires i <= j <= |f| && f[i..j] == text && '%' !in text
    ensures NoPercent(f, i, j)
  {
    forall k | i <= k < j ensures f[k] != '%' {
      assert f[k] == f[i..j][k - i];
    }
  }

  lemma NoPercentIn(f: string, i: nat, text: string)
    requires i <= |f| && f[i..] == text && '%' !in text
    ensures NoPercent(f, i, |f|)
  {
    assert f[i..|f|] == text;
    NoPercentIn2(f, i, |f|, text);
  }

  // ----- the texts

  lemma ArgumentsInTurn(p: Pieces, n: nat)
    requires PrintfOrder.Proper(p)
    ensures
      var w := if p.width == "*" then 1 else 0;
      var r := if p.prec == ".*" then 1 else 0;
      ArgsOf(ShapeOf(p), n)
      == Args(if w == 1 then Some(n) else None, if r == 1 then Some(n + w) else None,
           if p.conv == '%' then None else Some(n + w + r), n + |Takes(p, TypeIn(p))|)
  {
    OneInTurn(p, n);
    NoType(p.conv, SizeFlags(p.size));
    var sh := ShapeOf(p);
    assert sh.pos == Arg(None);
    assert sh.width == if p.width == "*" then Arg(None) else NoArg;
    assert sh.prec == if p.prec == ".*" then Arg(None) else NoArg;
  }

  /** The types `ts` have those of the directive from number `n` on. */
  ghost predicate TypedAt(ts: seq<ArgType>, p: Pieces, n: nat) {
    n + |Takes(p, TypeIn(p))| <= |ts| && ts[n..n + |Takes(p, TypeIn(p))|] == Takes(p, TypeIn(p))
  }

  lemma ValuesTaken<T>(p: Pieces, n: nat, ts: seq<ArgType>, args: Args, fetch: (nat, ArgType) -> T, vals: seq<T>)
    requires PrintfOrder.Proper(p) && TypedAt(ts, p, n) && args == ArgsOf(ShapeOf(p), n) && vals == Fetched(ts, fetch)
    ensures
      V.ValueAt(args.width, vals) + V.ValueAt(args.prec, vals) + V.ValueAt(args.conv, vals)
      == Values(Takes(p, TypeIn(p)), n, fetch)
    ensures p.conv != '%' ==> args.conv.Some? && args.conv.value < |ts| && ts[args.conv.value] == TypeIn(p)
  {
    var t := Takes(p, TypeIn(p));
    ArgumentsInTurn(p, n);
    ValuesAre(t, n, ts, fetch, vals);
    ThreeValues(p.width == "*", p.prec == ".*", p.conv != '%', |t|, n, vals, Values(t, n, fetch));
    TypeTaken(p, n, ts, t);
  }

  lemma TypeTaken(p: Pieces, n: nat, ts: seq<ArgType>, t: seq<ArgType>)
    requires TypedAt(ts, p, n) && t == Takes(p, TypeIn(p))
    ensures p.conv != '%' ==>
      |t| == (if p.width == "*" then 1 else 0) + (if p.prec == ".*" then 1 else 0) + 1
      && ts[n + |t| - 1] == TypeIn(p)
  {
    if p.conv != '%' {
      assert ts[n..n + |t|][|t| - 1] == TypeIn(p);
    }
  }

  /** The values at up to three numbers in a row. */
  lemma ThreeValues<T>(w: bool, r: bool, c: bool, m: nat, n: nat, vals: seq<T>, out: seq<T>)
    requires m == |out| == (if w then 1 else 0) + (if r then 1 else 0) + (if c then 1 else 0)
    requires forall k {:trigger out[k]} :: 0 <= k < m ==> V.ValueAt(Some(n + k), vals) == [out[k]]
    ensures
      var i := if w then 1 else 0;
      var j := i + if r then 1 else 0;
      V.ValueAt(if w then Some(n) else None, vals) + V.ValueAt(if r then Some(n + i) else None, vals)
      + V.ValueAt(if c then Some(n + j) else None, vals) == out
  {
    var i := if w then 1 else 0;
    var j := i + if r then 1 else 0;
    assert w ==> V.ValueAt(Some(n + 0), vals) == [out[0]];
    assert r ==> V.ValueAt(Some(n + i), vals) == [out[i]];
    assert c ==> V.ValueAt(Some(n + j), vals) == [out[j]];
  }

  lemma ValuesAre<T>(t: seq<ArgType>, n: nat, ts: seq<ArgType>, fetch: (nat, ArgType) -> T, vals: seq<T>)
    requires n + |t| <= |ts| && ts[n..n + |t|] == t && vals == Fetched(ts, fetch)
    ensures forall k {:trigger t[k]} :: 0 <= k < |t| ==>
      ts[n + k] == t[k] && V.ValueAt(Some(n + k), vals) == [Values(t, n, fetch)[k]]
  {
    forall k {:trigger t[k]} | 0 <= k < |t|
      ensures ts[n + k] == t[k] && V.ValueAt(Some(n + k), vals) == [Values(t, n, fetch)[k]]
    {
      assert ts[n..n + |t|][k] == t[k];
    }
  }

  lemma ConvertedBy<T>(
    f: string, d: Directive, p: Pieces, ts: seq<ArgType>, vals: seq<T>, values: seq<T>, render: V.Render<T>)
    requires Fields(f, d) && FieldText(f, d.widthStart, d.widthEnd) == Unnumbered(p.width, 0)
    requires FieldText(f, d.precStart, d.precEnd) == Unnumbered(p.prec, 1)
    requires d.flags == FlagSet(p.flags) && d.conversion == Conversion(p.conv) && p.conv != '%' && p.conv != 'n'
    requires d.arg.Some? && d.arg.value < |ts| && ts[d.arg.value] == TypeIn(p)
    requires values == V.ValueAt(d.widthArg, vals) + V.ValueAt(d.precArg, vals) + V.ValueAt(d.arg, vals)
    ensures V.Converted(f, d, ts, vals, render) == render(Handed(p, TypeIn(p)).Text(), values)
  {
    RebuiltIs(f, d, p, TypeIn(p));
  }

  lemma ConvertedIs<T>(
    f: string, s: nat, p: Pieces, n: nat, ts: seq<ArgType>, fetch: (nat, ArgType) -> T, render: V.Render<T>,
    d: Directive, args: Args)
    requires s + |p.Text()| <= |f| && f[s..s + |p.Text()|] == p.Text() && Spelled(p)
    requires PrintfOrder.Proper(p) == true && TypedAt(ts, p, n) == true
    requires args == ArgsOf(ShapeOf(p), n) && d == Recorded(s, p, args)
    ensures V.Converted(f, d, ts, Fetched(ts, fetch), render) == TextFor(p, n, fetch, render)
  {
    if p.conv != '%' && p.conv != 'n' {
      ValuesTaken(p, n, ts, args, fetch, Fetched(ts, fetch));
      LiesAt(f, s, p);
      FieldsAre(f, s, p, args);
      ConvertedBy(f, d, p, ts, Fetched(ts, fetch), Values(Takes(p, TypeIn(p)), n, fetch), render);
    }
  }

  // ----- the arguments of all directives

  lemma {:induction false} TakenPart(l: seq<Found>, k: nat)
    requires k < |l|
    ensures TypedAt(TakenBy(l), l[k].1, |TakenBy(l[..k])|)
    decreases |l|
  {
    var rest, t := l[..|l| - 1], Takes(l[|l| - 1].1, TypeIn(l[|l| - 1].1));
    assert TakenBy(l) == TakenBy(rest) + t;
    if k == |l| - 1 {
      assert l[..k] == rest;
    } else {
      TakenPart(rest, k);
      assert rest[..k] == l[..k] && rest[k] == l[k];
      var n, u := |TakenBy(l[..k])|, Takes(l[k].1, TypeIn(l[k].1));
      assert TakenBy(l)[n..n + |u|] == TakenBy(rest)[n..n + |u|];
    }
  }

  lemma TakenNext(l: seq<Found>, k: nat)
    requires k < |l|
    ensures |TakenBy(l[..k + 1])| == |TakenBy(l[..k])| + |Takes(l[k].1, TypeIn(l[k].1))|
  {
    assert l[..k + 1][..k] == l[..k];
  }

  // ----- the output

  /** The texts are those of the directives, the records say where they are, and `ns` which arguments they take. */
  ghost predicate Given(
    l: seq<Found>, ds: seq<Directive>, texts: seq<Option<string>>, ns: seq<nat>,
    textFor: (Pieces, nat) -> Option<string>, taken: Pieces -> nat)
  {
    && |ds| == |texts| == |l| && |ns| == |l| + 1
    && forall k {:trigger l[k]} :: 0 <= k < |l| ==>
      && ds[k].dirStart == l[k].0 && ds[k].dirEnd == l[k].0 + |l[k].1.Text()|
      && texts[k] == textFor(l[k].1, ns[k]) && ns[k + 1] == ns[k] + taken(l[k].1)
  }

  lemma {:induction false} TiledSpelled(f: string, i: nat, l: seq<Found>, k: nat)
    requires i <= |f| && Tiled(f, i, l) && k < |l|
    ensures l[k].0 + |l[k].1.Text()| <= |f| && f[l[k].0..l[k].0 + |l[k].1.Text()|] == l[k].1.Text()
    ensures Spelled(l[k].1)
    decreases |l|
  {
    if k > 0 {
      TiledSpelled(f, l[0].0 + |l[0].1.Text()|, l[1..], k - 1);
    }
  }

  lemma RecordedInTurn(l: seq<Found>, k: nat)
    requires AllInTurn(l) && k < |l|
    ensures RecordsOf(l)[k] == Recorded(l[k].0, l[k].1, ArgsOf(ShapeOf(l[k].1), |TakenBy(l[..k])|))
    ensures PrintfOrder.Proper(l[k].1) == true
  {
    RecordAt(l, k);
    TakenInOrder(l[..k]);
  }

  lemma TextGiven<T>(
    f: string, l: seq<Found>, ts: seq<ArgType>, fetch: (nat, ArgType) -> T, render: V.Render<T>, k: nat)
    requires Tiled(f, 0, l) == true && AllInTurn(l) == true && ts == TakenBy(l) && k < |l|
    ensures
      V.Converted(f, RecordsOf(l)[k], ts, Fetched(ts, fetch), render)
      == TextFor(l[k].1, |TakenBy(l[..k])|, fetch, render)
  {
    var n, p := |TakenBy(l[..k])|, l[k].1;
    TiledSpelled(f, 0, l, k);
    RecordedInTurn(l, k);
    TakenPart(l, k);
    ConvertedIs(f, l[k].0, p, n, ts, fetch, render, RecordsOf(l)[k], ArgsOf(ShapeOf(p), n));
  }

  lemma GivenAt<T>(
    f: string, l: seq<Found>, ts: seq<ArgType>, fetch: (nat, ArgType) -> T, render: V.Render<T>,
    textFor: (Pieces, nat) -> Option<string>, taken: Pieces -> nat, k: nat)
    requires Tiled(f, 0, l) == true && AllInTurn(l) == true && ts == TakenBy(l) && k < |l|
    requires textFor == TextsFor(fetch, render) && taken == Count() && RegisterAll([], UsesIn(l)) == Some(ts)
    ensures RecordsOf(l)[k].dirStart == l[k].0 && RecordsOf(l)[k].dirEnd == l[k].0 + |l[k].1.Text()|
    ensures V.Converted(f, RecordsOf(l)[k], ts, Fetched(ts, fetch), render) == textFor(l[k].1, |TakenBy(l[..k])|)
    ensures |TakenBy(l[..k + 1])| == |TakenBy(l[..k])| + taken(l[k].1)
  {
    ParsedProper(f, l, ts, k);
    TextGiven(f, l, ts, fetch, render, k);
    TakenNext(l, k);
  }

  lemma AllGiven<T>(
    f: string, l: seq<Found>, ds: seq<Directive>, ts: seq<ArgType>, texts: seq<Option<string>>, ns: seq<nat>,
    fetch: (nat, ArgType) -> T, render: V.Render<T>, textFor: (Pieces, nat) -> Option<string>, taken: Pieces -> nat)
    requires Tiled(f, 0, l) == true && AllInTurn(l) == true && ts == TakenBy(l) && ds == RecordsOf(l)
    requires texts == V.Texts(f, ds, ts, Fetched(ts, fetch), render) && RegisterAll([], UsesIn(l)) == Some(ts)
    requires textFor == TextsFor(fetch, render) && taken == Count()
    requires |ns| == |l| + 1 && forall k :: 0 <= k <= |l| ==> ns[k] == |TakenBy(l[..k])|
    ensures Given(l, ds, texts, ns, textFor, taken) == true
  {
    forall k {:trigger l[k]} | 0 <= k < |l|
      ensures ds[k].dirStart == l[k].0 && ds[k].dirEnd == l[k].0 + |l[k].1.Text()|
      ensures texts[k] == textFor(l[k].1, ns[k]) && ns[k + 1] == ns[k] + taken(l[k].1)
    {
      GivenAt(f, l, ts, fetch, render, textFor, taken, k);
    }
  }

  lemma OutputStep(
    f: string, cp: nat, ds: seq<Directive>, texts: seq<Option<string>>, i: nat, end: nat, text: string,
    rest: Option<string>)
    requires |texts| == |ds| && i < |ds| && cp <= ds[i].dirStart <= |f| && f[cp..ds[i].dirStart] == text
    requires ds[i].dirEnd == end && V.OutputFrom(f, end, ds, texts, i + 1) == rest
    ensures
      V.OutputFrom(f, cp, ds, texts, i)
      == if texts[i].None? || rest.None? then None else Some(text + texts[i].value + rest.value)
  {}

  /** From `cp` on there are the chunks `rest`, with the directives of `l` from the `i`-th on in them. */
  ghost predicate Here(f: string, cp: nat, rest: seq<Chunk>, last: string, l: seq<Found>, i: nat) {
    && cp <= |f| && i <= |l| && |rest| == |l| - i
    && f[cp..] == Format(rest, last) && l[i..] == FoundIn(rest, cp)
  }

  lemma HereNext(f: string, cp: nat, rest: seq<Chunk>, last: string, l: seq<Found>, i: nat)
    requires Here(f, cp, rest, last, l, i) && rest != []
    ensures
      var j := cp + |rest[0].text|;
      && i < |l| && j <= |f| && l[i] == (j, rest[0].p) && f[cp..j] == rest[0].text
      && Here(f, j + |rest[0].p.Text()|, rest[1..], last, l, i + 1) == true
  {
    var text, p := rest[0].text, rest[0].p;
    Split(f, cp, text, p.Text(), Format(rest[1..], last));
    assert l[i] == l[i..][0];
    assert l[i + 1..] == l[i..][1..];
  }

  /** From the `i`-th directive on. */
  lemma {:induction false} OutputIs(
    f: string, cp: nat, rest: seq<Chunk>, last: string, l: seq<Found>, ds: seq<Directive>, texts: seq<Option<string>>,
    ns: seq<nat>, i: nat, textFor: (Pieces, nat) -> Option<string>, taken: Pieces -> nat)
    requires Given(l, ds, texts, ns, textFor, taken) && Here(f, cp, rest, last, l, i) == true && i <= |l|
    ensures V.OutputFrom(f, cp, ds, texts, i) == WrittenBy(rest, last, ns[i], textFor, taken)
    decreases |rest|
  {
    if rest == [] {
      assert Here(f, cp, rest, last, l, i);
    } else {
      var p, j := rest[0].p, cp + |rest[0].text|;
      HereNext(f, cp, rest, last, l, i);
      assert l[i] == (j, p);
      OutputIs(f, j + |p.Text()|, rest[1..], last, l, ds, texts, ns, i + 1, textFor, taken);
      OutputStep(
        f, cp, ds, texts, i, j + |p.Text()|, rest[0].text, V.OutputFrom(f, j + |p.Text()|, ds, texts, i + 1));
    }
  }

  /** The output for a format whose directives take their arguments in turn: its text as it stands, `%%` as a percent
      sign, nothing for `%n`, and for every other directive what is made of it and of the next arguments. */
  lemma MeaningWritten<T>(cs: seq<Chunk>, last: string, fetch: (nat, ArgType) -> T, render: V.Render<T>)
    requires Writable(cs, last)
    ensures
      var m := Meaning(Format(cs, last), fetch, render);
      var text := Written(cs, last, fetch, render);
      if text.None? then m.None? else m.Some? && m.value.0 == text.value
  {
    var f, l := Format(cs, last), FoundIn(cs, 0);
    assert f[0..] == f;
    ChunksTiled(f, 0, cs, last);
    FoundInTurn(cs, 0, last);
    MeaningOf(f, cs, last, l, fetch, render);
  }

  lemma OutputOf<T>(
    f: string, cs: seq<Chunk>, last: string, l: seq<Found>, ts: seq<ArgType>, fetch: (nat, ArgType) -> T,
    render: V.Render<T>, textFor: (Pieces, nat) -> Option<string>, taken: Pieces -> nat)
    requires f == Format(cs, last) && l == FoundIn(cs, 0) && Tiled(f, 0, l) == true && AllInTurn(l) == true
    requires ts == TakenBy(l) && textFor == TextsFor(fetch, render) && taken == Count()
    ensures
      V.OutputFrom(f, 0, RecordsOf(l), V.Texts(f, RecordsOf(l), ts, Fetched(ts, fetch), render), 0)
      == WrittenBy(cs, last, 0, textFor, taken)
  {
    var ns := seq(|l| + 1, k requires 0 <= k <= |l| => |TakenBy(l[..k])|);
    var ds := RecordsOf(l);
    var texts := V.Texts(f, ds, ts, Fetched(ts, fetch), render);
    TakenInOrder(l);
    AllGiven(f, l, ds, ts, texts, ns, fetch, render, textFor, taken);
    assert l[0..] == l && l[..0] == [] && f[0..] == f;
    assert Here(f, 0, cs, last, l, 0);
    OutputIs(f, 0, cs, last, l, ds, texts, ns, 0, textFor, taken);
  }

  lemma MeaningOf<T>(
    f: string, cs: seq<Chunk>, last: string, l: seq<Found>, fetch: (nat, ArgType) -> T, render: V.Render<T>)
    requires f == Format(cs, last) && l == FoundIn(cs, 0) && Tiled(f, 0, l) == true && AllInTurn(l) == true
    ensures
      var m := Meaning(f, fetch, render);
      var text := Written(cs, last, fetch, render);
      if text.None? then m.None? else m.Some? && m.value.0 == text.value
  {
    var ts, ds := TakenBy(l), RecordsOf(l);
    var texts := V.Texts(f, ds, ts, Fetched(ts, fetch), render);
    ScanExactly(f, l);
    TakenInOrder(l);
    AllTyped(l);
    OutputOf(f, cs, last, l, ts, fetch, render, TextsFor(fetch, render), Count());
    MeaningIs(f, fetch, render, l, ts, ds, texts);
  }

  lemma {:induction false} FoundInTurn(cs: seq<Chunk>, i: nat, last: string)
    requires Writable(cs, last)
    ensures AllInTurn(FoundIn(cs, i))
    decreases |cs|
  {
    if cs != [] {
      assert Writable(cs[1..], last);
      FoundInTurn(cs[1..], i + |cs[0].text| + |cs[0].p.Text()|, last);
    }
  }

  lemma {:induction false} AllTyped(l: seq<Found>)
    requires AllInTurn(l)
    ensures TYPE_NONE !in TakenBy(l)
  {
    if l != [] {
      AllTyped(l[..|l| - 1]);
      TypesTaken(l[|l| - 1].1);
    }
  }

  /** So vasnprintf gives exactly that, in the caller's buffer if it fits there. */
  method PrintWritten<T(!new)>(
      resultbuf: array?<char>, size: nat, format: string, ghost cs: seq<Chunk>, ghost last: string,
      fetch: (nat, ArgType) -> T, render: V.Render<T>, nCount: Counter)
    returns (ok: bool, out: Output)
    requires size < SIZE_MAX && if resultbuf == null then size == 0 else size <= resultbuf.Length
    requires Conforming(nCount) && V.Bounded(render) && |format| < LONG
    requires Writable(cs, last) && format == Format(cs, last)
    modifies resultbuf
    ensures ok ==>
      && Written(cs, last, fetch, render).Some? && Complete(out, Written(cs, last, fetch, render).value)
      && (out.result == resultbuf <==> |Written(cs, last, fetch, render).value| < size)
    ensures !ok ==> Written(cs, last, fetch, render).None? || TooLarge(format, fetch, render)
  {
    MeaningWritten(cs, last, fetch, render);
    var stores;
    ok, out, stores := Vasnprintf(resultbuf, size, format, fetch, render, nCount);
  }
}
