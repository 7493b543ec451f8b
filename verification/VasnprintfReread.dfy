/** The types that conversions take, as section 7.19.6.1 of ISO C99 lists them, and what the directive handed to
    snprintf means to it (intl/printf-parse.c:300-490, intl/vasnprintf.c:501-576). */
module VasnprintfReread {
  import opened Options
  import opened PrintfScan
  import opened PrintfSpec
  import opened PrintfUnique
  import opened VasnprintfDirective

  // ----- the types

  lemma Sizes()
    ensures SizeFlags("") == 0 && SizeFlags("h") == 1 && SizeFlags("hh") == 3 && SizeFlags("L") == 4
    ensures SizeFlags("l") == SizeFlags("j") == SizeFlags("z") == SizeFlags("Z") == SizeFlags("t") == 8
    ensures SizeFlags("ll") == 16
  {
    assert "h"[..0] == "" && "L"[..0] == "" && "l"[..0] == "" && "j"[..0] == "" && "z"[..0] == "" && "Z"[..0] == "";
    assert "t"[..0] == "" && "hh"[..1] == "h" && "ll"[..1] == "l";
  }

  /** Signed and unsigned integers. */
  lemma IntegerTypes(c: char)
    ensures c in "di" ==>
      && TypeOf(c, SizeFlags("")) == Some(TYPE_INT) && TypeOf(c, SizeFlags("h")) == Some(TYPE_SHORT)
      && TypeOf(c, SizeFlags("hh")) == Some(TYPE_SCHAR) && TypeOf(c, SizeFlags("l")) == Some(TYPE_LONGINT)
      && TypeOf(c, SizeFlags("ll")) == Some(TYPE_LONGLONGINT) && TypeOf(c, SizeFlags("z")) == Some(TYPE_LONGINT)
      && TypeOf(c, SizeFlags("t")) == Some(TYPE_LONGINT) && TypeOf(c, SizeFlags("j")) == Some(TYPE_LONGINT)
    ensures c in "ouxX" ==>
      && TypeOf(c, SizeFlags("")) == Some(TYPE_UINT) && TypeOf(c, SizeFlags("h")) == Some(TYPE_USHORT)
      && TypeOf(c, SizeFlags("hh")) == Some(TYPE_UCHAR) && TypeOf(c, SizeFlags("l")) == Some(TYPE_ULONGINT)
      && TypeOf(c, SizeFlags("ll")) == Some(TYPE_ULONGLONGINT) && TypeOf(c, SizeFlags("z")) == Some(TYPE_ULONGINT)
      && TypeOf(c, SizeFlags("t")) == Some(TYPE_ULONGINT) && TypeOf(c, SizeFlags("j")) == Some(TYPE_ULONGINT)
    ensures c == 'n' ==>
      && TypeOf(c, SizeFlags("")) == Some(TYPE_COUNT_INT_POINTER)
      && TypeOf(c, SizeFlags("h")) == Some(TYPE_COUNT_SHORT_POINTER)
      && TypeOf(c, SizeFlags("hh")) == Some(TYPE_COUNT_SCHAR_POINTER)
      && TypeOf(c, SizeFlags("l")) == Some(TYPE_COUNT_LONGINT_POINTER)
      && TypeOf(c, SizeFlags("ll")) == Some(TYPE_COUNT_LONGLONGINT_POINTER)
  {
    Sizes();
  }

  /** Floating point numbers. */
  lemma RealTypes(c: char)
    requires c in "fFeEgGaA"
    ensures TypeOf(c, SizeFlags("")) == TypeOf(c, SizeFlags("l")) == Some(TYPE_DOUBLE)
    ensures TypeOf(c, SizeFlags("L")) == Some(TYPE_LONGDOUBLE)
  {
    Sizes();
  }

  /** Characters and strings. */
  lemma TextTypes()
    ensures TypeOf('c', SizeFlags("")) == Some(TYPE_CHAR) && TypeOf('c', SizeFlags("l")) == Some(TYPE_WIDE_CHAR)
    ensures TypeOf('s', SizeFlags("")) == Some(TYPE_STRING) && TypeOf('s', SizeFlags("l")) == Some(TYPE_WIDE_STRING)
  {
    Sizes();
  }

  lemma SizelessTypes()
    ensures TypeOf('C', SizeFlags("")) == Some(TYPE_WIDE_CHAR) && TypeOf('S', SizeFlags("")) == Some(TYPE_WIDE_STRING)
    ensures TypeOf('p', SizeFlags("")) == Some(TYPE_POINTER) && TypeOf('%', SizeFlags("")) == Some(TYPE_NONE)
  {
    Sizes();
  }

  /** There are no others. */
  lemma NoOtherTypes(c: char, size: string)
    ensures TypeOf(c, SizeFlags(size)).Some? <==> c in "diouxXfFeEgGaAcCsSpn%"
  {
    assert c in "diouxXfFeEgGaAcCsSpn%" <==>
      || c in "di" || c in "ouxX" || c in "fFeEgGaA" || c == 'c' || c == 'C' || c == 's' || c == 'S' || c == 'p'
      || c == 'n' || c == '%';
  }

  // ----- the directive rebuilt

  /** As which an argument of the type is passed: small integers are promoted. */
  function Passed(ty: ArgType): ArgType {
    match ty
    case TYPE_SCHAR => TYPE_INT
    case TYPE_SHORT => TYPE_INT
    case TYPE_UCHAR => TYPE_UINT
    case TYPE_USHORT => TYPE_UINT
    case _ => ty
  }

  lemma SameType(c: char, flags: nat)
    requires TypeOf(c, flags).Some? && c != 'n' && c != '%'
    ensures
      var ty := TypeOf(c, flags).value;
      TypeOf(Conversion(c), SizeFlags(SizeText(ty))) == Some(Passed(ty))
  {
    Sizes();
  }

  /** A width or precision without the number of its argument. */
  function Unnumbered(s: string, k: nat): string {
    if Starred(s, k) then s[..k + 1] else s
  }

  /** What is handed to snprintf. */
  function Handed(p: Pieces, ty: ArgType): Pieces {
    Pieces("", FlagText(FlagSet(p.flags)), Unnumbered(p.width, 0), Unnumbered(p.prec, 1), SizeText(ty),
      Conversion(p.conv))
  }

  lemma FlagsStay(flags: string)
    requires forall c <- flags :: IsFlag(c)
    ensures (forall c <- FlagText(FlagSet(flags)) :: IsFlag(c)) && FlagSet(FlagText(FlagSet(flags))) == FlagSet(flags)
  {
    var s := FlagSet(flags);
    forall c ensures c in FlagText(s) <==> c in s {
      if c in s {
        assert IsFlag(c);
      }
    }
  }

  lemma FieldsStay(p: Pieces)
    requires Spelled(p)
    ensures IsWidth(Unnumbered(p.width, 0)) && IsPrecision(Unnumbered(p.prec, 1))
    ensures StarDemand(Unnumbered(p.width, 0), 0) == (if Starred(p.width, 0) then Arg(None) else NoArg)
    ensures StarDemand(Unnumbered(p.prec, 1), 1) == (if Starred(p.prec, 1) then Arg(None) else NoArg)
  {
    if Starred(p.width, 0) {
      assert p.width[..1][1..] == "";
    }
    if Starred(p.prec, 1) {
      assert p.prec[..2][2..] == "";
    }
  }

  lemma HandedSpelled(p: Pieces, ty: ArgType)
    requires Spelled(p)
    ensures Spelled(Handed(p, ty)) == true
  {
    FlagsStay(p.flags);
    FieldsStay(p);
    assert forall c <- SizeText(ty) :: IsSize(c);
  }

  lemma HandedLegal(p: Pieces, ty: ArgType)
    requires Spelled(p) && TypeOf(p.conv, SizeFlags(p.size)) == Some(ty) && p.conv != 'n' && p.conv != '%'
    ensures Legal(Handed(p, ty)) == true
  {
    FieldsStay(p);
    SameType(p.conv, SizeFlags(p.size));
    var sh := ShapeOf(Handed(p, ty));
    assert sh.pos == Arg(None) && !sh.width.BadArg? && !sh.prec.BadArg? && sh.ty.Some?;
  }

  lemma FieldIs(f: string, start: nat, end: nat, part: string, k: nat)
    requires start <= end <= |f| && f[start..end] == part && k <= 1 && (k == 1 ==> part == "" || part[0] == '.')
    ensures start + FieldLength(part, k) <= |f|
    ensures f[start..start + FieldLength(part, k)] == Unnumbered(part, k)
  {
    assert f[start..start + FieldLength(part, k)] == part[..FieldLength(part, k)];
  }

  lemma SameText(flags: string, width: string, prec: string, size: string, conv: char)
    ensures "%" + flags + width + prec + size + [conv] == Pieces("", flags, width, prec, size, conv).Text()
  {
    assert "%" + "" == "%";
  }

  lemma FieldsAre(f: string, i: nat, p: Pieces, args: Args)
    requires Lies(f, i, p, Laid(i, p)) && Spelled(p)
    ensures
      var d := Recorded(i, p, args);
      && Fields(f, d) && FieldText(f, d.widthStart, d.widthEnd) == Unnumbered(p.width, 0)
      && FieldText(f, d.precStart, d.precEnd) == Unnumbered(p.prec, 1)
      && d.flags == FlagSet(p.flags) && d.conversion == Conversion(p.conv)
  {
    var x := Laid(i, p);
    FieldIs(f, x.flags, x.width, p.width, 0);
    FieldIs(f, x.width, x.prec, p.prec, 1);
  }

  /** The directive that is rebuilt from what was recorded. */
  lemma RebuiltIs(f: string, d: Directive, p: Pieces, ty: ArgType)
    requires Fields(f, d) && FieldText(f, d.widthStart, d.widthEnd) == Unnumbered(p.width, 0)
    requires FieldText(f, d.precStart, d.precEnd) == Unnumbered(p.prec, 1)
    requires d.flags == FlagSet(p.flags) && d.conversion == Conversion(p.conv)
    ensures Rebuilt(f, d, ty) == Handed(p, ty).Text()
  {
    var h := Handed(p, ty);
    SameText(h.flags, h.width, h.prec, h.size, h.conv);
  }

  /** To snprintf it is a directive of its own: with the same flags, width and precision, their stars in order, and a
      conversion of the same kind for the argument as it is passed. */
  lemma RereadAlike(f: string, i: nat, p: Pieces, args: Args, ty: ArgType)
    requires i + |p.Text()| <= |f| && f[i..i + |p.Text()|] == p.Text() && Spelled(p)
    requires TypeOf(p.conv, SizeFlags(p.size)) == Some(ty) && p.conv != 'n' && p.conv != '%'
    ensures
      var d := Recorded(i, p, args);
      Fields(f, d) &&
      var text := Rebuilt(f, d, ty);
      text != "" && PiecesAt(text, 0).Some? &&
      var q := PiecesAt(text, 0).value;
      && q.pos == "" && FlagSet(q.flags) == FlagSet(p.flags)
      && q.width == Unnumbered(p.width, 0) && q.prec == Unnumbered(p.prec, 1)
      && TypeOf(q.conv, SizeFlags(q.size)) == Some(Passed(ty)) && q.conv == Conversion(p.conv)
      && EndsOf(text, 0).size + 1 == |text|
  {
    var q := Handed(p, ty);
    var text := q.Text();
    LiesAt(f, i, p);
    FieldsAre(f, i, p, args);
    RebuiltIs(f, Recorded(i, p, args), p, ty);
    HandedSpelled(p, ty);
    HandedLegal(p, ty);
    FlagsStay(p.flags);
    SameType(p.conv, SizeFlags(p.size));
    assert text[0..0 + |text|] == text;
    PiecesUnique(text, 0, q);
  }
}
