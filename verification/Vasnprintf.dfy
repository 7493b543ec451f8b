/** vasnprintf (intl/vasnprintf.c) and libintl_vsnprintf (intl/printf.c:175-200), with the rendering of
    single values left open. */
module Vasnprintf {
  import opened Options
  import opened PrintfSize
  import opened PrintfSpec
  import opened VasnprintfBuffer
  import opened VasnprintfDirective

  /** What snprintf makes of a directive and the values it is given: a text, or an encoding error. */
  type Render<!V> = (string, seq<V>) -> Option<string>

  /** No rendered text is longer than a size can say. */
  ghost predicate Bounded<V(!new)>(render: Render<V>) {
    forall text, values :: render(text, values).Some? ==> |render(text, values).value| <= SIZE_MAX
  }

  predicate IsCount(ty: ArgType) {
    || ty.TYPE_COUNT_SCHAR_POINTER? || ty.TYPE_COUNT_SHORT_POINTER? || ty.TYPE_COUNT_INT_POINTER?
    || ty.TYPE_COUNT_LONGINT_POINTER? || ty.TYPE_COUNT_LONGLONGINT_POINTER?
  }

  predicate InSlot(arg: Option<nat>, ts: seq<ArgType>, ty: ArgType) {
    arg.Some? ==> arg.value < |ts| && ts[arg.value] == ty
  }

  /** What the loop relies on for a directive of a parsed format. */
  ghost predicate Proper(f: string, d: Directive, ts: seq<ArgType>, maxWidth: nat, maxPrecision: nat) {
    && d.dirStart <= d.dirEnd <= |f|
    && Between(f, d.widthStart, d.widthEnd, maxWidth) && Between(f, d.precStart, d.precEnd, maxPrecision)
    && Fields(f, d)
    && InSlot(d.widthArg, ts, TYPE_INT) && InSlot(d.precArg, ts, TYPE_INT)
    && (d.arg.None? <==> d.conversion == '%')
    && (d.arg.Some? ==> d.arg.value < |ts|)
    && (d.arg.Some? ==> ts[d.arg.value] != TYPE_NONE && (d.conversion == 'n' <==> IsCount(ts[d.arg.value])))
  }

  ghost predicate AllProper(f: string, ds: seq<Directive>, ts: seq<ArgType>, maxWidth: nat, maxPrecision: nat) {
    && (forall k :: 0 <= k < |ds| ==> Proper(f, ds[k], ts, maxWidth, maxPrecision))
    && forall k :: 0 < k < |ds| ==> ds[k - 1].dirEnd <= ds[k].dirStart
  }

  function ValueAt<V>(arg: Option<nat>, vals: seq<V>): seq<V> {
    if arg.Some? && arg.value < |vals| then [vals[arg.value]] else []
  }

  /** The text of one directive. */
  function Converted<V>(f: string, d: Directive, ts: seq<ArgType>, vals: seq<V>, render: Render<V>): Option<string> {
    if d.conversion == '%' then Some("%")
    else if d.conversion == 'n' then Some("")
    else if !Fields(f, d) || d.arg.None? || d.arg.value >= |ts| then None
    else render(
      Rebuilt(f, d, ts[d.arg.value]),
      ValueAt(d.widthArg, vals) + ValueAt(d.precArg, vals) + ValueAt(d.arg, vals))
  }

  /** The texts of all directives. */
  function Texts<V>(
    f: string, ds: seq<Directive>, ts: seq<ArgType>, vals: seq<V>, render: Render<V>): (cs: seq<Option<string>>)
    ensures |cs| == |ds|
  {
    seq(|ds|, k requires 0 <= k < |ds| => Converted(f, ds[k], ts, vals, render))
  }

  /** The literal pieces and the texts of the directives in order, from the `i`-th directive on; none if
      one cannot be rendered. */
  function OutputFrom(f: string, cp: nat, ds: seq<Directive>, cs: seq<Option<string>>, i: nat): Option<string>
    requires |cs| == |ds|
    decreases |ds| - i
  {
    if cp > |f| then None
    else if i >= |ds| then Some(f[cp..])
    else if !(cp <= ds[i].dirStart <= |f|) then None
    else
      var rest := OutputFrom(f, ds[i].dirEnd, ds, cs, i + 1);
      if cs[i].None? || rest.None? then None else Some(f[cp..ds[i].dirStart] + cs[i].value + rest.value)
  }

  /** What a `%n` stores: the number of its argument and a count of characters. */
  function StoreOf(d: Directive, before: nat): seq<(nat, nat)> {
    if d.conversion == 'n' && d.arg.Some? then [(d.arg.value, before)] else []
  }

  function StoresFrom(
    f: string, cp: nat, ds: seq<Directive>, cs: seq<Option<string>>, i: nat, length: nat): seq<(nat, nat)>
    requires |cs| == |ds|
    decreases |ds| - i
  {
    if i >= |ds| || cs[i].None? || !(cp <= ds[i].dirStart) then []
    else
      var before := length + (ds[i].dirStart - cp);
      StoreOf(ds[i], before) + StoresFrom(f, ds[i].dirEnd, ds, cs, i + 1, before + |cs[i].value|)
  }

  /** The result is still the caller's buffer of the given size, or what has been written did not fit
      there together with a NUL. */
  ghost predicate Home(out: Output, size: nat)
    reads out
  {
    if out.result == out.resultbuf then out.room == size else out.length >= size
  }

  /** The text is too long for any memory. */
  const TOO_LONG: nat := SIZE_MAX / 4

  /** A literal piece of the format. */
  method Literal(out: Output, s: string, size: nat) returns (ok: bool)
    requires out.Valid() && Home(out, size) && |s| <= SIZE_MAX
    modifies out, out.result
    ensures out.Valid() && (out.result == old(out.result) || fresh(out.result))
    ensures ok ==> Home(out, size) && out.Text() == old(out.Text()) + s && out.length == old(out.length) + |s|
    ensures !ok ==> old(out.length) + |s| >= TOO_LONG
  {
    ok := out.Append(s);
  }

  /** The piece of the format up to `end`, if there is one. */
  method LiteralPiece(out: Output, f: string, cp: nat, end: nat, size: nat) returns (ok: bool)
    requires out.Valid() && Home(out, size) && cp <= end <= |f| <= SIZE_MAX
    modifies out, out.result
    ensures out.Valid() && (out.result == old(out.result) || fresh(out.result))
    ensures ok ==> Home(out, size) && out.Text() == old(out.Text()) + f[cp..end]
    ensures ok ==> out.length == old(out.length) + (end - cp)
    ensures !ok ==> old(out.length) + (end - cp) >= TOO_LONG
  {
    if cp != end {
      ok := Literal(out, f[cp..end], size);
    } else {
      assert out.Text() + f[cp..end] == out.Text();
      ok := true;
    }
  }

  /** The values for snprintf: a width and a precision given by arguments come first. */
  method Arguments<V>(d: Directive, ts: seq<ArgType>, vals: seq<V>) returns (values: seq<V>)
    requires InSlot(d.widthArg, ts, TYPE_INT) && InSlot(d.precArg, ts, TYPE_INT) && |vals| == |ts|
    requires d.arg.Some? && d.arg.value < |ts|
    ensures values == ValueAt(d.widthArg, vals) + ValueAt(d.precArg, vals) + ValueAt(d.arg, vals)
  {
    values := [];
    if d.widthArg.Some? {
      assert ts[d.widthArg.value] == TYPE_INT;   // or else the program aborts
      values := values + [vals[d.widthArg.value]];
    }
    if d.precArg.Some? {
      assert ts[d.precArg.value] == TYPE_INT;
      values := values + [vals[d.precArg.value]];
    }
    values := values + [vals[d.arg.value]];
  }

  /** A directive that snprintf formats. */
  method Formatted<V>(
      f: string, d: Directive, ts: seq<ArgType>, vals: seq<V>, render: Render<V>, buf: array<char>,
      ghost maxWidth: nat, ghost maxPrecision: nat)
    returns (c: Option<string>)
    requires |vals| == |ts| && Proper(f, d, ts, maxWidth, maxPrecision) && d.conversion != 'n' && d.conversion != '%'
    requires buf.Length >= NeededLength(maxWidth, maxPrecision)
    modifies buf
    ensures c == Converted(f, d, ts, vals, render)
  {
    var ty := ts[d.arg.value];
    assert !IsCount(ty) && ty != TYPE_NONE;   // or else the program aborts
    var p := Rebuild(f, d, ty, buf, maxWidth, maxPrecision, Rebuilt(f, d, ty));
    var values := Arguments(d, ts, vals);
    c := render(buf[..p + 1], values);
  }

  /** A single directive. */
  method Directed<V(!new)>(
      out: Output, f: string, d: Directive, ts: seq<ArgType>, vals: seq<V>, render: Render<V>, nCount: Counter,
      buf: array<char>, size: nat, ghost maxWidth: nat, ghost maxPrecision: nat, ghost c: Option<string>)
    returns (ok: bool, store: seq<(nat, nat)>, ghost enlargements: nat)
    requires out.Valid() && Home(out, size) && Conforming(nCount) && |vals| == |ts|
    requires Proper(f, d, ts, maxWidth, maxPrecision) && c == Converted(f, d, ts, vals, render)
    requires buf.Length >= NeededLength(maxWidth, maxPrecision) && buf != out.result && buf != out.resultbuf
    requires Bounded(render)
    modifies out, out.result, buf
    ensures out.Valid() && (out.result == old(out.result) || fresh(out.result))
    ensures ok ==> c.Some? && Home(out, size) && enlargements <= 2 && store == StoreOf(d, old(out.length))
    ensures ok ==> out.Text() == old(out.Text()) + c.value && out.length == old(out.length) + |c.value|
    ensures !ok ==> c.None? || old(out.length) + |c.value| >= TOO_LONG
  {
    enlargements, store, ok := 0, [], true;
    if d.conversion == '%' {
      ok := Literal(out, "%", size);
    } else if d.conversion == 'n' {
      assert IsCount(ts[d.arg.value]);   // or else the program aborts
      store := [(d.arg.value, out.length)];
    } else {
      ghost var text := out.Text();
      var rendered := Formatted(f, d, ts, vals, render, buf, maxWidth, maxPrecision);
      assert out.Text() == text;
      ok, enlargements := out.Retry(rendered, nCount);
    }
  }

  /** A turn of the loop: the literal piece before a directive, and the directive. */
  method Turn<V(!new)>(
      out: Output, f: string, cp: nat, d: Directive, ts: seq<ArgType>, vals: seq<V>, render: Render<V>,
      nCount: Counter, buf: array<char>, size: nat, ghost maxWidth: nat, ghost maxPrecision: nat,
      ghost c: Option<string>)
    returns (ok: bool, store: seq<(nat, nat)>)
    requires out.Valid() && Home(out, size) && Conforming(nCount) && |vals| == |ts| && |f| <= SIZE_MAX
    requires Proper(f, d, ts, maxWidth, maxPrecision) && c == Converted(f, d, ts, vals, render)
      && cp <= d.dirStart <= |f|
    requires buf.Length >= NeededLength(maxWidth, maxPrecision) && buf != out.result && buf != out.resultbuf
    requires Bounded(render)
    modifies out, out.result, buf
    ensures out.Valid() && (out.result == old(out.result) || fresh(out.result))
    ensures ok ==> c.Some? && Home(out, size) && store == StoreOf(d, old(out.length) + (d.dirStart - cp))
    ensures ok ==> out.Text() == old(out.Text()) + f[cp..d.dirStart] + c.value
    ensures !ok ==> c.None? || old(out.length) + (d.dirStart - cp) + |c.value| >= TOO_LONG
  {
    store := [];
    ok := LiteralPiece(out, f, cp, d.dirStart, size);
    if ok {
      ghost var enlargements;
      ok, store, enlargements := Directed(out, f, d, ts, vals, render, nCount, buf, size, maxWidth, maxPrecision, c);
    }
  }

  /** The whole is what has been written and stored, and what is still to come. */
  ghost predicate Remaining(
    whole: Option<string>, wholeStores: seq<(nat, nat)>, text: string, stores: seq<(nat, nat)>,
    rest: Option<string>, restStores: seq<(nat, nat)>)
  {
    && whole == (if rest.None? then None else Some(text + rest.value))
    && wholeStores == stores + restStores
  }

  lemma {:induction false} RemainingTurn(
    whole: Option<string>, wholeStores: seq<(nat, nat)>, text: string, stores: seq<(nat, nat)>,
    rest: Option<string>, restStores: seq<(nat, nat)>,
    lit: string, c: Option<string>, store: seq<(nat, nat)>, next: Option<string>, nextStores: seq<(nat, nat)>)
    requires Remaining(whole, wholeStores, text, stores, rest, restStores)
    requires rest == if c.None? || next.None? then None else Some(lit + c.value + next.value)
    requires c.Some? ==> restStores == store + nextStores
    ensures c.None? ==> whole.None?
    ensures c.Some? ==> Remaining(whole, wholeStores, text + lit + c.value, stores + store, next, nextStores)
    ensures whole.Some? && c.Some? ==> |text| + |lit| + |c.value| <= |whole.value|
  {
    if c.Some? {
      assert stores + (store + nextStores) == (stores + store) + nextStores;
      if next.Some? {
        assert text + (lit + c.value + next.value) == (text + lit + c.value) + next.value;
      }
    }
  }

  /** All the output and the stores of a format. */
  datatype Whole = Whole(text: Option<string>, stores: seq<(nat, nat)>)

  /** The state of the loop at the `i`-th directive. */
  ghost predicate Progress(
    whole: Whole, f: string, ds: seq<Directive>, cs: seq<Option<string>>, cp: nat, i: nat, text: string,
    stores: seq<(nat, nat)>)
    requires |cs| == |ds|
  {
    && i <= |ds| && cp <= |f| && (i < |ds| ==> cp <= ds[i].dirStart)
    && Remaining(
      whole.text, whole.stores, text, stores, OutputFrom(f, cp, ds, cs, i), StoresFrom(f, cp, ds, cs, i, |text|))
  }

  lemma ProgressStart(f: string, ds: seq<Directive>, cs: seq<Option<string>>)
    requires |cs| == |ds|
    ensures Progress(Whole(OutputFrom(f, 0, ds, cs, 0), StoresFrom(f, 0, ds, cs, 0, 0)), f, ds, cs, 0, 0, "", [])
  {
    var whole, stores := OutputFrom(f, 0, ds, cs, 0), StoresFrom(f, 0, ds, cs, 0, 0);
    assert whole.Some? ==> "" + whole.value == whole.value;
    assert [] + stores == stores;
  }

  lemma {:induction false} ProgressTurn(
    whole: Whole, f: string, ds: seq<Directive>, cs: seq<Option<string>>, cp: nat, i: nat, text: string,
    stores: seq<(nat, nat)>, d: Directive, c: Option<string>)
    requires |cs| == |ds| && Progress(whole, f, ds, cs, cp, i, text, stores) && i < |ds| && d == ds[i] && c == cs[i]
    requires d.dirStart <= d.dirEnd <= |f| && (i + 1 < |ds| ==> d.dirEnd <= ds[i + 1].dirStart)
    ensures c.None? ==> whole.text.None?
    ensures c.Some? ==>
      Progress(
        whole, f, ds, cs, d.dirEnd, i + 1, text + f[cp..d.dirStart] + c.value,
        stores + StoreOf(d, |text| + (d.dirStart - cp)))
    ensures c.Some? && whole.text.Some? ==> |text| + (d.dirStart - cp) + |c.value| <= |whole.text.value|
  {
    var before := |text| + (d.dirStart - cp);
    if c.Some? {
      RemainingTurn(
        whole.text, whole.stores, text, stores,
        OutputFrom(f, cp, ds, cs, i), StoresFrom(f, cp, ds, cs, i, |text|),
        f[cp..d.dirStart], c, StoreOf(d, before),
        OutputFrom(f, d.dirEnd, ds, cs, i + 1), StoresFrom(f, d.dirEnd, ds, cs, i + 1, before + |c.value|));
    }
  }

  lemma ProgressEnd(
    whole: Whole, f: string, ds: seq<Directive>, cs: seq<Option<string>>, cp: nat, text: string,
    stores: seq<(nat, nat)>)
    requires |cs| == |ds| && Progress(whole, f, ds, cs, cp, |ds|, text, stores)
    ensures whole == Whole(Some(text + f[cp..]), stores)
  {
    assert stores + [] == stores;
  }

  /** The body of the main loop. */
  method LoopTurn<V(!new)>(
      out: Output, f: string, cp: nat, ds: seq<Directive>, i: nat, ts: seq<ArgType>, vals: seq<V>, render: Render<V>,
      nCount: Counter, buf: array<char>, size: nat, stores: seq<(nat, nat)>, ghost maxWidth: nat,
      ghost maxPrecision: nat,
      ghost cs: seq<Option<string>>, ghost whole: Whole)
    returns (ok: bool, after: seq<(nat, nat)>)
    requires out.Valid() && Home(out, size) && Conforming(nCount) && |vals| == |ts| && |f| <= SIZE_MAX
    requires i < |ds| == |cs| && cs[i] == Converted(f, ds[i], ts, vals, render)
    requires Proper(f, ds[i], ts, maxWidth, maxPrecision) && (i + 1 < |ds| ==> ds[i].dirEnd <= ds[i + 1].dirStart)
    requires buf.Length >= NeededLength(maxWidth, maxPrecision) && buf != out.result && buf != out.resultbuf
    requires Bounded(render) && Progress(whole, f, ds, cs, cp, i, out.Text(), stores)
    modifies out, out.result, buf
    ensures out.Valid() && (out.result == old(out.result) || fresh(out.result))
    ensures ok ==> Home(out, size) && Progress(whole, f, ds, cs, ds[i].dirEnd, i + 1, out.Text(), after) == true
    ensures !ok ==> whole.text.None? || |whole.text.value| >= TOO_LONG
  {
    ProgressTurn(whole, f, ds, cs, cp, i, out.Text(), stores, ds[i], cs[i]);
    assert |out.Text()| == out.length;
    var store;
    ok, store := Turn(out, f, cp, ds[i], ts, vals, render, nCount, buf, size, maxWidth, maxPrecision, cs[i]);
    after := stores + store;
  }

  /** The main loop. */
  method Loop<V(!new)>(
      out: Output, f: string, ds: seq<Directive>, ts: seq<ArgType>, vals: seq<V>, render: Render<V>,
      nCount: Counter, buf: array<char>, size: nat, ghost maxWidth: nat, ghost maxPrecision: nat)
    returns (ok: bool, stores: seq<(nat, nat)>)
    requires out.Valid() && Home(out, size) && out.length == 0 && Conforming(nCount) && |vals| == |ts| && |f| < TOO_LONG
    requires AllProper(f, ds, ts, maxWidth, maxPrecision)
    requires buf.Length >= NeededLength(maxWidth, maxPrecision) && buf != out.result && buf != out.resultbuf
    requires Bounded(render)
    modifies out, out.result, buf
    ensures out.Valid() && (out.result == old(out.result) || fresh(out.result))
    ensures
      var cs := Texts(f, ds, ts, vals, render);
      var whole := OutputFrom(f, 0, ds, cs, 0);
      && (ok ==> Home(out, size) && whole == Some(out.Text()) && stores == StoresFrom(f, 0, ds, cs, 0, 0))
      && (!ok ==> whole.None? || |whole.value| >= TOO_LONG)
  {
    ghost var cs := Texts(f, ds, ts, vals, render);
    ghost var whole := Whole(OutputFrom(f, 0, ds, cs, 0), StoresFrom(f, 0, ds, cs, 0, 0));
    var cp: nat, i: nat := 0, 0;
    stores := [];
    assert out.Text() == "";
    ProgressStart(f, ds, cs);
    while i < |ds|
      invariant i <= |ds|
      invariant out.Valid() && Home(out, size) && (out.result == old(out.result) || fresh(out.result))
      invariant buf != out.result
      invariant Progress(whole, f, ds, cs, cp, i, out.Text(), stores) == true
    {
      ok, stores := LoopTurn(
        out, f, cp, ds, i, ts, vals, render, nCount, buf, size, stores, maxWidth, maxPrecision, cs, whole);
      if !ok {
        return;
      }
      cp, i := ds[i].dirEnd, i + 1;
    }
    ProgressEnd(whole, f, ds, cs, cp, out.Text(), stores);
    assert f[cp..] == f[cp..|f|] && |out.Text()| == out.length;
    ok := LiteralPiece(out, f, cp, |f|, size);
  }
}
