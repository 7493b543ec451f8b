/** Reading a whole format string: which formats are read, and as what. */
module PrintfScan {
  import opened Options
  import opened PrintfSize
  import opened PrintfSpec

  /** A directive and its place. */
  type Found = (nat, Pieces)

  /** What is at a place of the format: text, a directive with its end, or an improper one. */
  datatype Turn = Plain | Bad | Dir(p: Pieces, end: nat)

  function TurnAt(f: string, i: nat): Turn {
    if i >= |f| || f[i] != '%' then Plain
    else if PiecesAt(f, i).None? || !Legal(PiecesAt(f, i).value) then Bad
    else Dir(PiecesAt(f, i).value, EndsOf(f, i).size + 1)
  }

  function TurnsOf(f: string): nat -> Turn {
    (i: nat) => TurnAt(f, i)
  }

  /** `t` tells what is at each place of `f`. */
  ghost predicate Tells(f: string, t: nat -> Turn) {
    forall i: nat {:trigger TurnAt(f, i)} :: t(i) == TurnAt(f, i)
  }

  /** The directives from `i` to `n`; none if one of them is not proper. */
  function ScanTurns(t: nat -> Turn, n: nat, i: nat): Option<seq<Found>>
    decreases n - i
  {
    if i >= n then Some([])
    else
      match t(i)
      case Plain => ScanTurns(t, n, i + 1)
      case Bad => None
      case Dir(p, end) =>
        if end <= i || ScanTurns(t, n, end).None? then None else Some([(i, p)] + ScanTurns(t, n, end).value)
  }

  function Scan(f: string, i: nat): Option<seq<Found>> {
    ScanTurns(TurnsOf(f), |f|, i)
  }

  // ----- an independent description

  /** The parts are spelled as they may be. The flag `0` can only be a flag, so no width begins with it. */
  predicate Spelled(p: Pieces) {
    && IsPosition(p.pos) && (forall c <- p.flags :: IsFlag(c)) && IsWidth(p.width)
    && IsPrecision(p.prec) && forall c <- p.size :: IsSize(c)
  }

  predicate IsWidth(s: string) {
    s == "" || Starred(s, 0) || (Digits(s) && s[0] != '0')
  }

  predicate IsPrecision(s: string) {
    s == "" || (s[0] == '.' && (Starred(s, 1) || Digits(s[1..])))
  }

  ghost predicate NoPercent(f: string, i: nat, j: nat)
    requires i <= j <= |f|
  {
    forall k :: i <= k < j ==> f[k] != '%'
  }

  /** From `i` on the format is text without `%`, interrupted by exactly these directives. */
  ghost predicate Tiled(f: string, i: nat, l: seq<Found>)
    requires i <= |f|
    decreases |l|
  {
    if l == [] then NoPercent(f, i, |f|)
    else
      var (s, p) := l[0];
      && i <= s && s + |p.Text()| <= |f| && NoPercent(f, i, s)
      && f[s..s + |p.Text()|] == p.Text() && Spelled(p) && Legal(p)
      && Tiled(f, s + |p.Text()|, l[1..])
  }

  lemma WidthSpelled(f: string, i: nat)
    requires i <= |f| && (i < |f| ==> f[i] != '0')
    ensures IsWidth(f[i..WidthEnd(f, i)])
  {
    var e := WidthEnd(f, i);
    if At(f, i) == '*' {
      assert f[i..e][1..] == f[i + 1..e];
    }
  }

  lemma PrecisionSpelled(f: string, i: nat)
    requires i <= |f|
    ensures IsPrecision(f[i..PrecisionEnd(f, i)])
  {
    var e := PrecisionEnd(f, i);
    if At(f, i) == '.' {
      if At(f, i + 1) == '*' {
        assert f[i..e][2..] == f[i + 2..e];
      } else {
        assert f[i..e][1..] == f[i + 1..e];
      }
    }
  }

  lemma PiecesSpelled(f: string, i: nat)
    requires i < |f| && PiecesAt(f, i).Some?
    ensures Spelled(PiecesAt(f, i).value)
  {
    var x := EndsOf(f, i);
    WidthSpelled(f, x.flags);
    PrecisionSpelled(f, x.width);
  }

  lemma PlainTile(f: string, t: nat -> Turn, i: nat, l: seq<Found>)
    requires Tells(f, t) && i < |f| && t(i).Plain? && Tiled(f, i + 1, l)
    ensures Tiled(f, i, l)
  {
    assert TurnAt(f, i).Plain?;
  }

  lemma DirectiveTile(f: string, t: nat -> Turn, i: nat, l: seq<Found>)
    requires Tells(f, t) && i < |f| && t(i).Dir? && t(i).end <= |f| && Tiled(f, t(i).end, l)
    ensures Tiled(f, i, [(i, t(i).p)] + l)
  {
    assert t(i) == TurnAt(f, i);
    PiecesSpelled(f, i);
    PiecesText(f, i);
  }

  lemma TurnEnds(f: string, t: nat -> Turn, i: nat)
    requires Tells(f, t) && i < |f|
    ensures t(i).Dir? ==> i < t(i).end <= |f|
    ensures t(i).Plain? <==> f[i] != '%'
  {
    assert t(i) == TurnAt(f, i);
  }

  lemma {:induction false} ScanTiles(f: string, t: nat -> Turn, i: nat)
    requires Tells(f, t) && i <= |f| && ScanTurns(t, |f|, i).Some?
    ensures Tiled(f, i, ScanTurns(t, |f|, i).value)
    decreases |f| - i
  {
    if i < |f| {
      TurnEnds(f, t, i);
      if t(i).Plain? {
        ScanTiles(f, t, i + 1);
        PlainTile(f, t, i, ScanTurns(t, |f|, i).value);
      } else {
        ScanTiles(f, t, t(i).end);
        DirectiveTile(f, t, i, ScanTurns(t, |f|, t(i).end).value);
      }
    }
  }
}
