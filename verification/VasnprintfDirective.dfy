/** The directive that vasnprintf hands to snprintf (intl/vasnprintf.c:144-165, 501-576). */
module VasnprintfDirective {
  import opened Options
  import opened PrintfSpec

  // ----- the directive rebuilt

  function Flag(flags: set<char>, c: char): string {
    if c in flags then [c] else ""
  }

  function FlagText(flags: set<char>): string {
    Flag(flags, '\'') + Flag(flags, '-') + Flag(flags, '+') + Flag(flags, ' ') + Flag(flags, '#') + Flag(flags, '0')
  }

  /** The part of the format between two recorded places. */
  predicate Between(f: string, start: Option<nat>, end: Option<nat>, longest: nat) {
    && (start.Some? <==> end.Some?)
    && (start.Some? ==> start.value <= end.value <= |f| && end.value - start.value <= longest)
  }

  function FieldText(f: string, start: Option<nat>, end: Option<nat>): (s: string)
    requires Between(f, start, end, |f|)
  {
    if start.None? then "" else f[start.value..end.value]
  }

  function SizeText(ty: ArgType): string {
    match ty
    case TYPE_LONGLONGINT => "ll"
    case TYPE_ULONGLONGINT => "ll"
    case TYPE_LONGINT => "l"
    case TYPE_ULONGINT => "l"
    case TYPE_WIDE_CHAR => "l"
    case TYPE_WIDE_STRING => "l"
    case TYPE_LONGDOUBLE => "L"
    case _ => ""
  }

  predicate Fields(f: string, d: Directive) {
    Between(f, d.widthStart, d.widthEnd, |f|) && Between(f, d.precStart, d.precEnd, |f|)
  }

  function Rebuilt(f: string, d: Directive, ty: ArgType): string
    requires Fields(f, d)
  {
    "%" + FlagText(d.flags) + FieldText(f, d.widthStart, d.widthEnd) + FieldText(f, d.precStart, d.precEnd)
    + SizeText(ty) + [d.conversion]
  }

  /** The size of the buffer for it. */
  function NeededLength(maxWidth: nat, maxPrecision: nat): nat {
    7 + maxWidth + maxPrecision + 6
  }

  lemma FlagTextSize(flags: set<char>)
    ensures |FlagText(flags)| <= 6
    ensures |FlagText(flags)| == 6 <==> {'\'', '-', '+', ' ', '#', '0'} <= flags
  {}

  /** With `%n` and the NUL behind it, it always fits; and it fills the buffer if all six flags, the
      longest width and precision and two size letters come together. */
  lemma RebuiltFits(f: string, d: Directive, ty: ArgType, maxWidth: nat, maxPrecision: nat)
    requires Fields(f, d)
    requires Between(f, d.widthStart, d.widthEnd, maxWidth) && Between(f, d.precStart, d.precEnd, maxPrecision)
    ensures |Rebuilt(f, d, ty)| + 3 <= NeededLength(maxWidth, maxPrecision)
    ensures |Rebuilt(f, d, ty)| + 3 == NeededLength(maxWidth, maxPrecision) <==>
      && {'\'', '-', '+', ' ', '#', '0'} <= d.flags && ty in {TYPE_LONGLONGINT, TYPE_ULONGLONGINT}
      && |FieldText(f, d.widthStart, d.widthEnd)| == maxWidth && |FieldText(f, d.precStart, d.precEnd)| == maxPrecision
  {
    FlagTextSize(d.flags);
  }

  /** `*p++ = c`, or memcpy, into the buffer. */
  method Emit(buf: array<char>, p: nat, s: string) returns (q: nat)
    requires p + |s| <= buf.Length
    modifies buf
    ensures q == p + |s| && buf[..q] == old(buf[..p]) + s
  {
    var i := 0;
    while i < |s|
      invariant 0 <= i <= |s| && buf[..p + i] == old(buf[..p]) + s[..i]
    {
      buf[p + i] := s[i];
      assert buf[..p + i + 1] == buf[..p + i] + [s[i]];
      i := i + 1;
    }
    q := p + |s|;
  }

  /** The same, as one more part of what is being built. */
  method EmitPart(buf: array<char>, p: nat, s: string, ghost done: string) returns (q: nat)
    requires p + |s| <= buf.Length && buf[..p] == done
    modifies buf
    ensures q == p + |s| && buf[..q] == done + s
  {
    q := Emit(buf, p, s);
  }

  method EmitFlag(buf: array<char>, p: nat, flags: set<char>, c: char, ghost start: string, ghost done: string)
    returns (q: nat)
    requires p < buf.Length && buf[..p] == start + done
    modifies buf
    ensures p <= q <= p + 1 && buf[..q] == start + (done + Flag(flags, c))
  {
    q := p;
    if c in flags {
      q := Emit(buf, p, [c]);
    }
    assert (start + done) + Flag(flags, c) == start + (done + Flag(flags, c));
  }

  method EmitFlags(buf: array<char>, p: nat, flags: set<char>) returns (q: nat)
    requires p + 6 <= buf.Length
    modifies buf
    ensures q == p + |FlagText(flags)| && buf[..q] == old(buf[..p]) + FlagText(flags)
  {
    ghost var start, t1 := buf[..p], Flag(flags, '\'');
    ghost var t2 := t1 + Flag(flags, '-');
    ghost var t3 := t2 + Flag(flags, '+');
    ghost var t4 := t3 + Flag(flags, ' ');
    ghost var t5 := t4 + Flag(flags, '#');
    assert start + "" == start && "" + t1 == t1;
    q := EmitFlag(buf, p, flags, '\'', start, "");
    q := EmitFlag(buf, q, flags, '-', start, t1);
    q := EmitFlag(buf, q, flags, '+', start, t2);
    q := EmitFlag(buf, q, flags, ' ', start, t3);
    q := EmitFlag(buf, q, flags, '#', start, t4);
    q := EmitFlag(buf, q, flags, '0', start, t5);
    assert q == |buf[..q]|;
  }

  /** Builds the directive in the buffer, with `%n` and a NUL behind it; `p` is the place of the
      conversion character. */
  method Rebuild(
      f: string, d: Directive, ty: ArgType, buf: array<char>, ghost maxWidth: nat, ghost maxPrecision: nat,
      ghost text: string)
    returns (p: nat)
    requires Fields(f, d) && text == Rebuilt(f, d, ty) && buf.Length >= NeededLength(maxWidth, maxPrecision)
    requires Between(f, d.widthStart, d.widthEnd, maxWidth) && Between(f, d.precStart, d.precEnd, maxPrecision)
    modifies buf
    ensures p + 4 <= buf.Length && p + 1 == |text| && buf[..p + 1] == text
    ensures buf[p + 1] == '%' && buf[p + 2] == 'n' && buf[p + 3] == '\0'
  {
    RebuiltFits(f, d, ty, maxWidth, maxPrecision);
    FlagTextSize(d.flags);
    ghost var t1 := "%" + FlagText(d.flags);
    ghost var t2 := t1 + FieldText(f, d.widthStart, d.widthEnd);
    ghost var t3 := t2 + FieldText(f, d.precStart, d.precEnd);
    p := EmitPart(buf, 0, "%", "");
    p := EmitFlags(buf, p, d.flags);
    p := EmitPart(buf, p, FieldText(f, d.widthStart, d.widthEnd), t1);
    p := EmitPart(buf, p, FieldText(f, d.precStart, d.precEnd), t2);
    p := EmitPart(buf, p, SizeText(ty), t3);
    buf[p] := d.conversion;
    assert buf[..p + 1] == (t3 + SizeText(ty)) + [d.conversion];
    buf[p + 1], buf[p + 2], buf[p + 3] := '%', 'n', '\0';
  }
}
