/** vasnprintf from the format string on, and libintl_vsnprintf (intl/printf.c:175-200) on top of it. */
module VasnprintfMain {
  import opened Options
  import opened PrintfFormat
  import opened PrintfParse
  import opened PrintfScan
  import opened PrintfSize
  import opened PrintfSpec
  import opened PrintfTypes
  import opened VasnprintfBuffer
  import opened VasnprintfDirective
  import V = Vasnprintf

  // ----- what a successful parse guarantees to the loop

  lemma RecordFields(f: string, i: nat, p: Pieces, args: Args)
    requires i + |p.Text()| <= |f|
    ensures
      var d := Recorded(i, p, args);
      && d.dirStart == i && d.dirEnd == i + |p.Text()| && Fields(f, d)
      && Between(f, d.widthStart, d.widthEnd, FieldLength(p.width, 0))
      && Between(f, d.precStart, d.precEnd, FieldLength(p.prec, 1))
  {}

  lemma {:induction false} LongestBounds(l: seq<Found>, k: nat)
    requires k < |l|
    ensures FieldLength(l[k].1.width, 0) <= Longest(l, 0) && FieldLength(l[k].1.prec, 1) <= Longest(l, 1)
  {
    if k < |l| - 1 {
      assert l[k] == l[..|l| - 1][k];
      LongestBounds(l[..|l| - 1], k);
    }
  }

  /** The directives of a tiled format lie behind one another. */
  lemma {:induction false} TiledAt(f: string, i: nat, l: seq<Found>, k: nat)
    requires i <= |f| && Tiled(f, i, l) && k < |l|
    ensures i <= l[k].0 && l[k].0 + |l[k].1.Text()| <= |f|
    ensures k + 1 < |l| ==> l[k].0 + |l[k].1.Text()| <= l[k + 1].0
    decreases |l|
  {
    var (s, p) := l[0];
    if k > 0 {
      TiledAt(f, s + |p.Text()|, l[1..], k - 1);
    } else if |l| > 1 {
      TiledAt(f, s + |p.Text()|, l[1..], 0);
    }
  }

  lemma CountTypes(c: char, flags: nat)
    requires TypeOf(c, flags).Some?
    ensures TypeOf(c, flags).value == TYPE_NONE <==> c == '%'
    ensures V.IsCount(TypeOf(c, flags).value) <==> c == 'n'
    ensures Conversion(c) == '%' <==> c == '%'
    ensures Conversion(c) == 'n' <==> c == 'n'
  {}

  lemma ParsedProper(f: string, l: seq<Found>, ts: seq<ArgType>, k: nat)
    requires Tiled(f, 0, l) && RegisterAll([], UsesIn(l)) == Some(ts) && k < |l|
    ensures V.Proper(f, RecordsOf(l)[k], ts, Longest(l, 0), Longest(l, 1))
    ensures RecordsOf(l)[k].dirStart == l[k].0 && RecordsOf(l)[k].dirEnd == l[k].0 + |l[k].1.Text()|
  {
    TiledLegal(f, 0, l, k);
    TiledAt(f, 0, l, k);
    RecordAt(l, k);
    RecordFields(f, l[k].0, l[k].1, ArgsAt(l, k));
    LongestBounds(l, k);
    ArgumentsInRange(f, l, ts, k);
    CountTypes(l[k].1.conv, SizeFlags(l[k].1.size));
  }

  lemma ParsedAllProper(f: string, l: seq<Found>, ts: seq<ArgType>)
    requires Tiled(f, 0, l) && RegisterAll([], UsesIn(l)) == Some(ts)
    ensures V.AllProper(f, RecordsOf(l), ts, Longest(l, 0), Longest(l, 1))
  {
    forall k | 0 <= k < |l|
      ensures V.Proper(f, RecordsOf(l)[k], ts, Longest(l, 0), Longest(l, 1))
    {
      ParsedProper(f, l, ts, k);
    }
    forall k | 0 < k < |l| ensures RecordsOf(l)[k - 1].dirEnd <= RecordsOf(l)[k].dirStart {
      ParsedProper(f, l, ts, k - 1);
      ParsedProper(f, l, ts, k);
      TiledAt(f, 0, l, k - 1);
    }
  }

  // ----- the functions

  /** The values of the arguments, each fetched as its type. */
  function Fetched<T>(ts: seq<ArgType>, fetch: (nat, ArgType) -> T): (vals: seq<T>)
    ensures |vals| == |ts|
  {
    seq(|ts|, k requires 0 <= k < |ts| => fetch(k, ts[k]))
  }

  /** `printf_fetchargs`: fails if the type of some argument is not known. */
  method FetchArgs<T>(ts: seq<ArgType>, fetch: (nat, ArgType) -> T) returns (ok: bool, vals: seq<T>)
    ensures ok <==> TYPE_NONE !in ts
    ensures ok ==> vals == Fetched(ts, fetch)
  {
    vals := [];
    var i := 0;
    while i < |ts|
      invariant 0 <= i <= |ts| && TYPE_NONE !in ts[..i] && vals == Fetched(ts, fetch)[..i]
    {
      if ts[i] == TYPE_NONE {
        return false, vals;
      }
      vals := vals + [fetch(i, ts[i])];
      i := i + 1;
    }
    ok := true;
  }

  /** What a format and its arguments mean: nothing, if the format is not read, an argument has no type
      or a value cannot be rendered; otherwise the output, and the counts stored through `%n`. */
  ghost function Meaning<T>(
    f: string, fetch: (nat, ArgType) -> T, render: V.Render<T>): Option<(string, seq<(nat, nat)>)> {
    var l := Scan(f, 0);
    if l.None? then None
    else
      var ts := RegisterAll([], UsesIn(l.value));
      if ts.None? || TYPE_NONE in ts.value then None
      else
        var ds := RecordsOf(l.value);
        var cs := V.Texts(f, ds, ts.value, Fetched(ts.value, fetch), render);
        var text := V.OutputFrom(f, 0, ds, cs, 0);
        if text.None? then None else Some((text.value, V.StoresFrom(f, 0, ds, cs, 0, 0)))
  }

  /** More than any memory holds, or an argument number that no memory could be described for. */
  ghost predicate TooLarge<T>(f: string, fetch: (nat, ArgType) -> T, render: V.Render<T>) {
    || |f| >= LONG || (Scan(f, 0).Some? && SomeHuge(UsesIn(Scan(f, 0).value)))
    || (Meaning(f, fetch, render).Some? && |Meaning(f, fetch, render).value.0| >= V.TOO_LONG)
  }

  /** The result is complete: the text, a NUL and, unless it is in the caller's buffer, no more. */
  ghost predicate Complete(out: Output, text: string)
    reads out, out.result
  {
    && out.Valid() && out.result != null && out.length < out.room
    && out.Text() == text && out.result[out.length] == '\0'
    && (out.result != out.resultbuf ==> out.room == out.length + 1)
  }

  /** The final NUL, and the memory shrunk to what is used. */
  method Terminate(out: Output, size: nat) returns (ok: bool)
    requires out.Valid() && V.Home(out, size)
    modifies out, out.result
    ensures out.Valid() && (out.result == old(out.result) || fresh(out.result))
    ensures ok ==> Complete(out, old(out.Text())) && (out.result == out.resultbuf <==> out.length < size)
    ensures !ok ==> out.length >= V.TOO_LONG && out.length == old(out.length)
  {
    XsumSaturates(out.length, 1);
    ok := out.Ensure(Xsum(out.length, 1));
    if ok {
      out.result[out.length] := '\0';
      if out.result != out.resultbuf && out.length + 1 < out.room {
        out.room := out.length + 1;
      }
    }
  }

  /** What failing to parse means. */
  lemma ParseFails<T>(f: string, fetch: (nat, ArgType) -> T, render: V.Render<T>)
    requires Scan(f, 0).None? || Refused([], UsesIn(Scan(f, 0).value)) || |f| >= LONG
    ensures Meaning(f, fetch, render).None? || TooLarge(f, fetch, render)
  {}

  /** What a parsed format means. */
  lemma MeaningIs<T>(
    f: string, fetch: (nat, ArgType) -> T, render: V.Render<T>, l: seq<Found>, ts: seq<ArgType>, ds: seq<Directive>,
    cs: seq<Option<string>>)
    requires Scan(f, 0) == Some(l) && RegisterAll([], UsesIn(l)) == Some(ts) && ds == RecordsOf(l)
    requires cs == V.Texts(f, ds, ts, Fetched(ts, fetch), render)
    ensures TYPE_NONE in ts ==> Meaning(f, fetch, render).None?
    ensures TYPE_NONE !in ts ==>
      var text := V.OutputFrom(f, 0, ds, cs, 0);
      Meaning(f, fetch, render)
        == if text.None? then None else Some((text.value, V.StoresFrom(f, 0, ds, cs, 0, 0)))
  {}

  lemma LongestWithin(f: string, l: seq<Found>, k: nat)
    requires Tiled(f, 0, l) && k < |l|
    ensures FieldLength(l[k].1.width, 0) <= |f| && FieldLength(l[k].1.prec, 1) <= |f|
  {
    TiledAt(f, 0, l, k);
  }

  lemma {:induction false} LongestOf(l: seq<Found>, n: nat)
    requires forall k :: 0 <= k < |l| ==> FieldLength(l[k].1.width, 0) <= n && FieldLength(l[k].1.prec, 1) <= n
    ensures Longest(l, 0) <= n && Longest(l, 1) <= n
  {
    if l != [] {
      assert forall k :: 0 <= k < |l| - 1 ==> l[..|l| - 1][k] == l[k];
      LongestOf(l[..|l| - 1], n);
    }
  }

  /** The buffer for a single directive; there is none only for a format that is too large. */
  method DirectiveBuffer(format: string, maxWidth: nat, maxPrecision: nat, ghost l: seq<Found>)
    returns (buf: array?<char>)
    requires Tiled(format, 0, l) && maxWidth == Longest(l, 0) && maxPrecision == Longest(l, 1) && |format| < LONG
    ensures fresh(buf) && buf != null && buf.Length == NeededLength(maxWidth, maxPrecision)
  {
    forall k | 0 <= k < |l|
      ensures FieldLength(l[k].1.width, 0) <= |format| && FieldLength(l[k].1.prec, 1) <= |format|
    {
      LongestWithin(format, l, k);
    }
    LongestOf(l, |format|);
    XsumSaturates(7, maxWidth);
    XsumSaturates(7 + maxWidth, maxPrecision);
    XsumSaturates(7 + maxWidth + maxPrecision, 6);
    var needed := Xsum(Xsum(Xsum(7, maxWidth), maxPrecision), 6);
    XtimesSaturates(needed, 1);
    buf := new char[Xtimes(needed, 1)];
  }

  /** The output of a parsed format. */
  method Run<T(!new)>(
      out: Output, format: string, ds: seq<Directive>, ts: seq<ArgType>, maxWidth: nat, maxPrecision: nat,
      fetch: (nat, ArgType) -> T, render: V.Render<T>, nCount: Counter, size: nat, ghost l: seq<Found>)
    returns (ok: bool, stores: seq<(nat, nat)>)
    requires out.Valid() && V.Home(out, size) && out.length == 0 && Conforming(nCount) && V.Bounded(render)
    requires |format| < LONG && Tiled(format, 0, l) && ds == RecordsOf(l) && RegisterAll([], UsesIn(l)) == Some(ts)
    requires maxWidth == Longest(l, 0) && maxPrecision == Longest(l, 1)
    modifies out, out.result
    ensures out.Valid() && (out.result == old(out.result) || fresh(out.result))
    ensures
      var cs := V.Texts(format, ds, ts, Fetched(ts, fetch), render);
      var text := V.OutputFrom(format, 0, ds, cs, 0);
      && (ok ==>
          && TYPE_NONE !in ts && text.Some? && Complete(out, text.value)
          && stores == V.StoresFrom(format, 0, ds, cs, 0, 0)
          && (out.result == out.resultbuf <==> out.length < size))
      && (!ok ==> TYPE_NONE in ts || text.None? || |text.value| >= V.TOO_LONG)
  {
    stores := [];
    var vals;
    ok, vals := FetchArgs(ts, fetch);
    if !ok {
      return;
    }
    var buf := DirectiveBuffer(format, maxWidth, maxPrecision, l);
    ParsedAllProper(format, l, ts);
    ok, stores := V.Loop(out, format, ds, ts, vals, render, nCount, buf, size, maxWidth, maxPrecision);
    if ok {
      ok := Terminate(out, size);
    }
  }

  /** vasnprintf. */
  method Vasnprintf<T(!new)>(
      resultbuf: array?<char>, size: nat, format: string,
      fetch: (nat, ArgType) -> T, render: V.Render<T>, nCount: Counter)
    returns (ok: bool, out: Output, stores: seq<(nat, nat)>)
    requires size < SIZE_MAX && if resultbuf == null then size == 0 else size <= resultbuf.Length
    requires Conforming(nCount) && V.Bounded(render) && |format| < LONG
    modifies resultbuf
    ensures ok ==>
      && Meaning(format, fetch, render).Some? && stores == Meaning(format, fetch, render).value.1
      && out.resultbuf == resultbuf && Complete(out, Meaning(format, fetch, render).value.0)
      && (out.result == resultbuf <==> |Meaning(format, fetch, render).value.0| < size)
    ensures ok && out.result != resultbuf ==> fresh(out.result)
    ensures !ok ==> Meaning(format, fetch, render).None? || TooLarge(format, fetch, render)
  {
    stores := [];
    out := new Output(resultbuf, size);
    var d, a;
    ok, d, a := Parse(format);
    if !ok {
      ParseFails(format, fetch, render);
      return;
    }
    ghost var l := Scan(format, 0).value;
    FormatTiled(format, l);
    var ds, ts := d.dir[..d.count], a.arg[..a.count];
    MeaningIs(format, fetch, render, l, ts, ds, V.Texts(format, ds, ts, Fetched(ts, fetch), render));
    ok, stores := Run(out, format, ds, ts, d.maxWidthLength, d.maxPrecisionLength, fetch, render, nCount, size, l);
  }

  lemma FormatTiled(f: string, l: seq<Found>)
    requires Scan(f, 0) == Some(l)
    ensures Tiled(f, 0, l)
  {
    ScanTiles(f, TurnsOf(f), 0);
  }

  /** libintl_vsnprintf, for a format with positions. A result that does not fit is cut off, and the
      return value is -1. */
  method LibintlVsnprintf<T(!new)>(
      resultbuf: array<char>, length: nat, format: string,
      fetch: (nat, ArgType) -> T, render: V.Render<T>, nCount: Counter)
    returns (ok: bool, ret: int, stores: seq<(nat, nat)>)
    requires length < SIZE_MAX && length <= resultbuf.Length && '$' in format
    requires Conforming(nCount) && V.Bounded(render) && |format| < LONG
    modifies resultbuf
    ensures ok ==>
      && Meaning(format, fetch, render).Some? && stores == Meaning(format, fetch, render).value.1
      && var text := Meaning(format, fetch, render).value.0;
        if |text| < length then
          ret == |text| && resultbuf[..|text|] == text && resultbuf[|text|] == '\0'
        else
          ret == -1 && (length > 0 ==> resultbuf[..length - 1] == text[..length - 1] && resultbuf[length - 1] == '\0')
    ensures !ok ==> Meaning(format, fetch, render).None? || TooLarge(format, fetch, render)
  {
    var maxlength := length;
    var out;
    ret := -1;
    ok, out, stores := Vasnprintf(resultbuf, length, format, fetch, render, nCount);
    if ok {
      if out.result != resultbuf {
        if maxlength > 0 {
          assert out.length >= maxlength;   // or else the program aborts
          CopyPrefix(resultbuf, out.result, maxlength - 1);
          resultbuf[maxlength - 1] := '\0';
        }
      } else {
        ret := out.length;
      }
    }
  }

  /** memcpy. */
  method CopyPrefix(to: array<char>, from: array<char>, n: nat)
    requires n <= to.Length && n <= from.Length && to != from
    modifies to
    ensures to[..n] == from[..n]
  {
    var i := 0;
    while i < n
      invariant 0 <= i <= n && to[..i] == from[..i]
    {
      to[i] := from[i];
      i := i + 1;
    }
  }
}
