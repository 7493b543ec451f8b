/** Every properly spelled format is read, and in one way only. */
module PrintfUnique {
  import opened Options
  import opened PrintfScan
  import opened PrintfSize
  import opened PrintfSpec

  /** The parts of `p` lie behind one another from `i` on. */
  ghost predicate Lies(f: string, i: nat, p: Pieces, x: Ends) {
    && i + 1 <= x.pos <= x.flags <= x.width <= x.prec <= x.size < |f|
    && p.pos == f[i + 1..x.pos] && p.flags == f[x.pos..x.flags] && p.width == f[x.flags..x.width]
    && p.prec == f[x.width..x.prec] && p.size == f[x.prec..x.size] && p.conv == f[x.size]
  }

  function Laid(i: nat, p: Pieces): Ends {
    var pos := i + 1 + |p.pos|;
    var flags := pos + |p.flags|;
    var width := flags + |p.width|;
    var prec := width + |p.prec|;
    Ends(pos, flags, width, prec, prec + |p.size|)
  }

  lemma LiesAt(f: string, i: nat, p: Pieces)
    requires i + |p.Text()| <= |f| && f[i..i + |p.Text()|] == p.Text()
    ensures Lies(f, i, p, Laid(i, p)) && Laid(i, p).size + 1 == i + |p.Text()|
  {
    var t1 := "%" + p.pos;
    var t2 := t1 + p.flags;
    var t3 := t2 + p.width;
    var t4 := t3 + p.prec;
    var t5 := t4 + p.size;
    Front(f, i, t5, [p.conv]);
    Front(f, i, t4, p.size);
    Front(f, i, t3, p.prec);
    Front(f, i, t2, p.width);
    Front(f, i, t1, p.flags);
    Front(f, i, "%", p.pos);
  }

  lemma Front(f: string, i: nat, a: string, b: string)
    requires i + |a + b| <= |f| && f[i..i + |a + b|] == a + b
    ensures f[i..i + |a|] == a && f[i + |a|..i + |a| + |b|] == b
  {
    assert f[i..i + |a + b|][..|a|] == a && f[i..i + |a + b|][|a|..] == b;
  }

  /** Neither a flag, a digit, a star nor a dollar sign. */
  predicate Ends0(c: char) {
    !IsFlag(c) && !Digit(c) && c != '*' && c != '$'
  }

  predicate Ending(c: char) {
    Ends0(c) && !IsSize(c) && c != '.'
  }

  lemma ConversionEnds(c: char, flags: nat)
    requires TypeOf(c, flags).Some?
    ensures Ending(c)
  {}

  lemma SizeEnds(c: char)
    requires IsSize(c)
    ensures Ends0(c) && c != '.'
  {}

  /** What follows the flags, the width and the precision. */
  lemma Followers(f: string, i: nat, p: Pieces, x: Ends)
    requires Lies(f, i, p, x) && Spelled(p) && Ending(p.conv)
    ensures Ends0(f[x.prec]) && f[x.prec] != '.'
    ensures Ends0(f[x.width]) && (p.prec == "" ==> f[x.width] != '.')
    ensures p.width == "" ==> Ends0(f[x.flags])
    ensures !IsFlag(f[x.flags])
  {
    if p.size != "" {
      SizeEnds(p.size[0]);
    }
    assert p.size != "" ==> f[x.prec] == p.size[0];
    assert p.prec != "" ==> f[x.width] == p.prec[0];
    assert p.width != "" ==> f[x.flags] == p.width[0];
  }

  lemma PositionRead(f: string, i: nat, e: nat)
    requires i <= e < |f| && IsPosition(f[i..e]) && (i == e ==> !Digit(f[e]))
    ensures PositionEnd(f, i) == e
  {
    if i < e {
      var d := f[i..e][..e - i - 1];
      assert forall k :: i <= k < e - 1 ==> f[k] == d[k - i];
      assert f[e - 1] == f[i..e][e - i - 1];
      RunIs(f, i, DIGIT, e - 1);
    } else {
      RunIs(f, i, DIGIT, e);
    }
  }

  lemma WidthRead(f: string, i: nat, e: nat)
    requires i <= e < |f| && IsWidth(f[i..e]) && Ends0(f[e])
    ensures WidthEnd(f, i) == e
  {
    var w := f[i..e];
    if w != "" && w[0] == '*' {
      assert w[1..] == f[i + 1..e];
      PositionRead(f, i + 1, e);
    } else {
      assert forall k :: i <= k < e ==> f[k] == w[k - i];
      RunIs(f, i, DIGIT, e);
    }
  }

  lemma PrecisionRead(f: string, i: nat, e: nat)
    requires i <= e < |f| && IsPrecision(f[i..e]) && Ends0(f[e]) && (i == e ==> f[e] != '.')
    ensures PrecisionEnd(f, i) == e
  {
    var w := f[i..e];
    if w != "" {
      assert f[i] == w[0];
      if |w| > 1 && w[1] == '*' {
        assert f[i + 1] == w[1] && w[2..] == f[i + 2..e];
        PositionRead(f, i + 2, e);
      } else {
        assert forall k :: i + 1 <= k < e ==> f[k] == w[1..][k - i - 1];
        RunIs(f, i + 1, DIGIT, e);
      }
    }
  }

  /** Flags and a width without a position do not look like a position. */
  lemma NoPositionRead(f: string, i: nat, g: nat, e: nat)
    requires i <= g <= e < |f| && (forall k :: i <= k < g ==> IsFlag(f[k])) && IsWidth(f[g..e]) && Ends0(f[e])
    ensures PositionEnd(f, i) == i
  {
    var r := RunEnd(f, i, DIGIT);
    var w := f[g..e];
    assert forall k :: g <= k < e ==> f[k] == w[k - g];
    assert r <= e;
    if r >= g && w != "" && w[0] == '*' {
      assert f[g] == '*';
      assert r == g;
    }
    assert f[r] != '$';
  }

  lemma RunRead(f: string, i: nat, e: nat, p: char -> bool)
    requires i <= e < |f| && (forall c <- f[i..e] :: p(c)) && !p(f[e])
    ensures RunEnd(f, i, p) == e
  {
    assert forall k :: i <= k < e ==> f[k] == f[i..e][k - i];
    RunIs(f, i, p, e);
  }

  lemma PiecesUnique(f: string, i: nat, p: Pieces)
    requires i + |p.Text()| <= |f| && f[i..i + |p.Text()|] == p.Text() && Spelled(p) && Legal(p)
    ensures EndsOf(f, i) == Laid(i, p) && PiecesAt(f, i) == Some(p) && EndsOf(f, i).size + 1 == i + |p.Text()|
  {
    var x := Laid(i, p);
    LiesAt(f, i, p);
    ConversionEnds(p.conv, SizeFlags(p.size));
    EndsRead(f, i, p, x);
  }

  lemma PositionPartRead(f: string, i: nat, p: Pieces, x: Ends)
    requires Lies(f, i, p, x) && Spelled(p) && Ends0(f[x.width])
    ensures PositionEnd(f, i + 1) == x.pos
  {
    if p.pos == "" {
      assert forall k :: x.pos <= k < x.flags ==> f[k] == p.flags[k - x.pos];
      NoPositionRead(f, i + 1, x.flags, x.width);
    } else {
      PositionRead(f, i + 1, x.pos);
    }
  }

  lemma EndsRead(f: string, i: nat, p: Pieces, x: Ends)
    requires Lies(f, i, p, x) && Spelled(p) && Ending(p.conv)
    ensures EndsOf(f, i) == x
  {
    Followers(f, i, p, x);
    PositionPartRead(f, i, p, x);
    RunRead(f, x.pos, x.flags, FLAG);
    WidthRead(f, x.flags, x.width);
    PrecisionRead(f, x.width, x.prec);
    RunRead(f, x.prec, x.size, SIZE);
  }

  lemma FirstTile(f: string, i: nat, l: seq<Found>)
    requires i < |f| && f[i] == '%' && Tiled(f, i, l)
    ensures l != [] && l[0].0 == i
  {}

  lemma NextTile(f: string, i: nat, l: seq<Found>)
    requires i < |f| && f[i] != '%' && Tiled(f, i, l)
    ensures Tiled(f, i + 1, l)
  {
    if l != [] {
      var (s, p) := l[0];
      assert f[s] == f[s..s + |p.Text()|][0];
    }
  }

  lemma DirectiveRead(f: string, t: nat -> Turn, i: nat, l: seq<Found>)
    requires Tells(f, t) && i < |f| && f[i] == '%' && Tiled(f, i, l)
    ensures l != [] && t(i).Dir? && i < t(i).end <= |f| && Tiled(f, t(i).end, l[1..]) && l[0] == (i, t(i).p)
  {
    FirstTile(f, i, l);
    PiecesUnique(f, i, l[0].1);
    assert t(i) == TurnAt(f, i);
  }

  lemma {:induction false} ScanComplete(f: string, t: nat -> Turn, i: nat, l: seq<Found>)
    requires Tells(f, t) && i <= |f| && Tiled(f, i, l)
    ensures ScanTurns(t, |f|, i) == Some(l)
    decreases |f| - i
  {
    if i < |f| {
      TurnEnds(f, t, i);
      if f[i] != '%' {
        NextTile(f, i, l);
        ScanComplete(f, t, i + 1, l);
      } else {
        DirectiveRead(f, t, i, l);
        ScanComplete(f, t, t(i).end, l[1..]);
        assert l == [(i, t(i).p)] + l[1..];
      }
    }
  }

  /** The scan finds exactly the directives that the format is made of. */
  lemma ScanExactly(f: string, l: seq<Found>)
    ensures Scan(f, 0) == Some(l) <==> Tiled(f, 0, l)
  {
    var t := TurnsOf(f);
    if Tiled(f, 0, l) {
      ScanComplete(f, t, 0, l);
    }
    if Scan(f, 0) == Some(l) {
      ScanTiles(f, t, 0);
    }
  }
}
