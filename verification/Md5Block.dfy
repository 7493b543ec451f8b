/** `md5_process_block` of lib/md5.c for one block: the unrolled operations and the optimised
    auxiliary functions compute the rounds of RFC 1321. */
module Md5Block {
  import opened Md5Spec

  function FF(b: word, c: word, d: word): word { d ^ (b & (c ^ d)) }

  function FG(b: word, c: word, d: word): word { FF(d, b, c) }

  function FH(b: word, c: word, d: word): word { b ^ c ^ d }

  function FI(b: word, c: word, d: word): word { c ^ (b | !d) }

  lemma Select(b: word, c: word, d: word)
    ensures d ^ (b & (c ^ d)) == (b & c) | (!b & d)
  {}

  lemma SelectFlipped(b: word, c: word, d: word)
    ensures d ^ (b & (c ^ d)) == (c & b) | (d & !b)
  {}

  lemma FFIsF(b: word, c: word, d: word)
    ensures FF(b, c, d) == Auxiliary(0, b, c, d)
  {
    Select(b, c, d);
  }

  lemma FGIsG(b: word, c: word, d: word)
    ensures FG(b, c, d) == Auxiliary(1, b, c, d)
  {
    SelectFlipped(d, b, c);
  }

  lemma FHIsH(b: word, c: word, d: word)
    ensures FH(b, c, d) == Auxiliary(2, b, c, d)
  {}

  lemma FIIsI(b: word, c: word, d: word)
    ensures FI(b, c, d) == Auxiliary(3, b, c, d)
  {}

  /** The macro OP: `a += f + x + T; a = rol (a, s); a += b`. */
  function Op(f: word, a: word, b: word, x: word, s: nat, t: word): word
    requires 0 < s < 32
  {
    Rotl(a + (f + x + t), s) + b
  }

  lemma AddAssociates(a: word, f: word, x: word, t: word)
    ensures a + (f + x + t) == a + f + x + t
  {}

  lemma AddCommutes(a: word, b: word)
    ensures a + b == b + a
  {}

  lemma OpIsOperation(f: word, a: word, b: word, x: word, s: nat, t: word)
    requires 0 < s < 32
    ensures Op(f, a, b, x, s, t) == Operation(f, a, b, x, s, t)
  {
    AddAssociates(a, f, x, t);
    AddCommutes(b, Rotl(a + f + x + t, s));
  }

  /** Four operations of the unrolled code are one row of the table. */
  lemma RowOf(row: Row, q: Registers, x: words, fa: word, fb: word, fc: word, fd: word, p: Registers)
    requires
      var r := row.round;
      && fa == Auxiliary(r, q.b, q.c, q.d) && p.a == Op(fa, q.a, q.b, x[row.k0], Shift(r, 0), row.t0)
      && fd == Auxiliary(r, p.a, q.b, q.c) && p.d == Op(fd, q.d, p.a, x[row.k1], Shift(r, 1), row.t1)
      && fc == Auxiliary(r, p.d, p.a, q.b) && p.c == Op(fc, q.c, p.d, x[row.k2], Shift(r, 2), row.t2)
      && fb == Auxiliary(r, p.c, p.d, p.a) && p.b == Op(fb, q.b, p.c, x[row.k3], Shift(r, 3), row.t3)
    ensures RowOps(row, q, x) == p
  {
    var r := row.round;
    OpIsOperation(fa, q.a, q.b, x[row.k0], Shift(r, 0), row.t0);
    OpIsOperation(fd, q.d, p.a, x[row.k1], Shift(r, 1), row.t1);
    OpIsOperation(fc, q.c, p.d, x[row.k2], Shift(r, 2), row.t2);
    OpIsOperation(fb, q.b, p.c, x[row.k3], Shift(r, 3), row.t3);
  }

  /** The rows that remain give the result that is still to be computed. */
  ghost predicate Remains(rows: RowList, q: Registers, x: words, goal: Registers) {
    RunRows(rows, q, x) == goal
  }

  lemma RowDone(row: Row, rest: RowList, q: Registers, x: words, goal: Registers, p: Registers)
    requires Remains(Then(row, rest), q, x, goal) && p == RowOps(row, q, x)
    ensures Remains(rest, p, x, goal)
  {}

  /** Four consecutive uses of OP in round 1. */
  method FFOps(a: word, b: word, c: word, d: word, x: words, row: Row)
    returns (A: word, B: word, C: word, D: word)
    requires row.round == 0
    ensures Registers(A, B, C, D) == RowOps(row, Registers(a, b, c, d), x)
  {
    A, B, C, D := a, b, c, d;
    A := Op(FF(B, C, D), A, B, x[row.k0], 7, row.t0);
    D := Op(FF(A, B, C), D, A, x[row.k1], 12, row.t1);
    C := Op(FF(D, A, B), C, D, x[row.k2], 17, row.t2);
    B := Op(FF(C, D, A), B, C, x[row.k3], 22, row.t3);
    FFIsF(b, c, d);
    FFIsF(A, b, c);
    FFIsF(D, A, b);
    FFIsF(C, D, A);
    RowOf(row, Registers(a, b, c, d), x, FF(b, c, d), FF(C, D, A), FF(D, A, b), FF(A, b, c), Registers(A, B, C, D));
  }

  /** The same, for the row at the head of those that remain. */
  method FFRow(a: word, b: word, c: word, d: word, x: words, row: Row, ghost rest: RowList, ghost goal: Registers)
    returns (A: word, B: word, C: word, D: word)
    requires row.round == 0 && Remains(Then(row, rest), Registers(a, b, c, d), x, goal)
    ensures Remains(rest, Registers(A, B, C, D), x, goal)
  {
    A, B, C, D := FFOps(a, b, c, d, x, row);
    RowDone(row, rest, Registers(a, b, c, d), x, goal, Registers(A, B, C, D));
  }

  /** Four consecutive uses of OP in round 2. */
  method FGOps(a: word, b: word, c: word, d: word, x: words, row: Row)
    returns (A: word, B: word, C: word, D: word)
    requires row.round == 1
    ensures Registers(A, B, C, D) == RowOps(row, Registers(a, b, c, d), x)
  {
    A, B, C, D := a, b, c, d;
    A := Op(FG(B, C, D), A, B, x[row.k0], 5, row.t0);
    D := Op(FG(A, B, C), D, A, x[row.k1], 9, row.t1);
    C := Op(FG(D, A, B), C, D, x[row.k2], 14, row.t2);
    B := Op(FG(C, D, A), B, C, x[row.k3], 20, row.t3);
    FGIsG(b, c, d);
    FGIsG(A, b, c);
    FGIsG(D, A, b);
    FGIsG(C, D, A);
    RowOf(row, Registers(a, b, c, d), x, FG(b, c, d), FG(C, D, A), FG(D, A, b), FG(A, b, c), Registers(A, B, C, D));
  }

  /** The same, for the row at the head of those that remain. */
  method FGRow(a: word, b: word, c: word, d: word, x: words, row: Row, ghost rest: RowList, ghost goal: Registers)
    returns (A: word, B: word, C: word, D: word)
    requires row.round == 1 && Remains(Then(row, rest), Registers(a, b, c, d), x, goal)
    ensures Remains(rest, Registers(A, B, C, D), x, goal)
  {
    A, B, C, D := FGOps(a, b, c, d, x, row);
    RowDone(row, rest, Registers(a, b, c, d), x, goal, Registers(A, B, C, D));
  }

  /** Four consecutive uses of OP in round 3. */
  method FHOps(a: word, b: word, c: word, d: word, x: words, row: Row)
    returns (A: word, B: word, C: word, D: word)
    requires row.round == 2
    ensures Registers(A, B, C, D) == RowOps(row, Registers(a, b, c, d), x)
  {
    A, B, C, D := a, b, c, d;
    A := Op(FH(B, C, D), A, B, x[row.k0], 4, row.t0);
    D := Op(FH(A, B, C), D, A, x[row.k1], 11, row.t1);
    C := Op(FH(D, A, B), C, D, x[row.k2], 16, row.t2);
    B := Op(FH(C, D, A), B, C, x[row.k3], 23, row.t3);
    FHIsH(b, c, d);
    FHIsH(A, b, c);
    FHIsH(D, A, b);
    FHIsH(C, D, A);
    RowOf(row, Registers(a, b, c, d), x, FH(b, c, d), FH(C, D, A), FH(D, A, b), FH(A, b, c), Registers(A, B, C, D));
  }

  /** The same, for the row at the head of those that remain. */
  method FHRow(a: word, b: word, c: word, d: word, x: words, row: Row, ghost rest: RowList, ghost goal: Registers)
    returns (A: word, B: word, C: word, D: word)
    requires row.round == 2 && Remains(Then(row, rest), Registers(a, b, c, d), x, goal)
    ensures Remains(rest, Registers(A, B, C, D), x, goal)
  {
    A, B, C, D := FHOps(a, b, c, d, x, row);
    RowDone(row, rest, Registers(a, b, c, d), x, goal, Registers(A, B, C, D));
  }

  /** Four consecutive uses of OP in round 4. */
  method FIOps(a: word, b: word, c: word, d: word, x: words, row: Row)
    returns (A: word, B: word, C: word, D: word)
    requires row.round == 3
    ensures Registers(A, B, C, D) == RowOps(row, Registers(a, b, c, d), x)
  {
    A, B, C, D := a, b, c, d;
    A := Op(FI(B, C, D), A, B, x[row.k0], 6, row.t0);
    D := Op(FI(A, B, C), D, A, x[row.k1], 10, row.t1);
    C := Op(FI(D, A, B), C, D, x[row.k2], 15, row.t2);
    B := Op(FI(C, D, A), B, C, x[row.k3], 21, row.t3);
    FIIsI(b, c, d);
    FIIsI(A, b, c);
    FIIsI(D, A, b);
    FIIsI(C, D, A);
    RowOf(row, Registers(a, b, c, d), x, FI(b, c, d), FI(C, D, A), FI(D, A, b), FI(A, b, c), Registers(A, B, C, D));
  }

  /** The same, for the row at the head of those that remain. */
  method FIRow(a: word, b: word, c: word, d: word, x: words, row: Row, ghost rest: RowList, ghost goal: Registers)
    returns (A: word, B: word, C: word, D: word)
    requires row.round == 3 && Remains(Then(row, rest), Registers(a, b, c, d), x, goal)
    ensures Remains(rest, Registers(A, B, C, D), x, goal)
  {
    A, B, C, D := FIOps(a, b, c, d, x, row);
    RowDone(row, rest, Registers(a, b, c, d), x, goal, Registers(A, B, C, D));
  }

  /** Round 1: sixteen uses of OP. */
  method Round1(a: word, b: word, c: word, d: word, x: words, ghost rest: RowList, ghost goal: Registers)
    returns (A: word, B: word, C: word, D: word)
    requires Remains(Round1Rows(rest), Registers(a, b, c, d), x, goal)
    ensures Remains(rest, Registers(A, B, C, D), x, goal)
  {
    ghost var r := Round1Rows(rest);
    A, B, C, D :=
      FFRow(a, b, c, d, x, Row(0, 0, 1, 2, 3, 0xd76aa478, 0xe8c7b756, 0x242070db, 0xc1bdceee), r.rest, goal);
    A, B, C, D :=
      FFRow(A, B, C, D, x, Row(0, 4, 5, 6, 7, 0xf57c0faf, 0x4787c62a, 0xa8304613, 0xfd469501), r.rest.rest, goal);
    A, B, C, D :=
      FFRow(A, B, C, D, x, Row(0, 8, 9, 10, 11, 0x698098d8, 0x8b44f7af, 0xffff5bb1, 0x895cd7be), r.rest.rest.rest,
        goal);
    A, B, C, D :=
      FFRow(A, B, C, D, x, Row(0, 12, 13, 14, 15, 0x6b901122, 0xfd987193, 0xa679438e, 0x49b40821),
        r.rest.rest.rest.rest, goal);
  }

  /** Round 2: sixteen uses of OP. */
  method Round2(a: word, b: word, c: word, d: word, x: words, ghost rest: RowList, ghost goal: Registers)
    returns (A: word, B: word, C: word, D: word)
    requires Remains(Round2Rows(rest), Registers(a, b, c, d), x, goal)
    ensures Remains(rest, Registers(A, B, C, D), x, goal)
  {
    ghost var r := Round2Rows(rest);
    A, B, C, D :=
      FGRow(a, b, c, d, x, Row(1, 1, 6, 11, 0, 0xf61e2562, 0xc040b340, 0x265e5a51, 0xe9b6c7aa), r.rest, goal);
    A, B, C, D :=
      FGRow(A, B, C, D, x, Row(1, 5, 10, 15, 4, 0xd62f105d, 0x02441453, 0xd8a1e681, 0xe7d3fbc8), r.rest.rest, goal);
    A, B, C, D :=
      FGRow(A, B, C, D, x, Row(1, 9, 14, 3, 8, 0x21e1cde6, 0xc33707d6, 0xf4d50d87, 0x455a14ed), r.rest.rest.rest, goal);
    A, B, C, D :=
      FGRow(A, B, C, D, x, Row(1, 13, 2, 7, 12, 0xa9e3e905, 0xfcefa3f8, 0x676f02d9, 0x8d2a4c8a),
        r.rest.rest.rest.rest, goal);
  }

  /** Round 3: sixteen uses of OP. */
  method Round3(a: word, b: word, c: word, d: word, x: words, ghost rest: RowList, ghost goal: Registers)
    returns (A: word, B: word, C: word, D: word)
    requires Remains(Round3Rows(rest), Registers(a, b, c, d), x, goal)
    ensures Remains(rest, Registers(A, B, C, D), x, goal)
  {
    ghost var r := Round3Rows(rest);
    A, B, C, D :=
      FHRow(a, b, c, d, x, Row(2, 5, 8, 11, 14, 0xfffa3942, 0x8771f681, 0x6d9d6122, 0xfde5380c), r.rest, goal);
    A, B, C, D :=
      FHRow(A, B, C, D, x, Row(2, 1, 4, 7, 10, 0xa4beea44, 0x4bdecfa9, 0xf6bb4b60, 0xbebfbc70), r.rest.rest, goal);
    A, B, C, D :=
      FHRow(A, B, C, D, x, Row(2, 13, 0, 3, 6, 0x289b7ec6, 0xeaa127fa, 0xd4ef3085, 0x04881d05), r.rest.rest.rest, goal);
    A, B, C, D :=
      FHRow(A, B, C, D, x, Row(2, 9, 12, 15, 2, 0xd9d4d039, 0xe6db99e5, 0x1fa27cf8, 0xc4ac5665),
        r.rest.rest.rest.rest, goal);
  }

  /** Round 4: sixteen uses of OP. */
  method Round4(a: word, b: word, c: word, d: word, x: words, ghost rest: RowList, ghost goal: Registers)
    returns (A: word, B: word, C: word, D: word)
    requires Remains(Round4Rows(rest), Registers(a, b, c, d), x, goal)
    ensures Remains(rest, Registers(A, B, C, D), x, goal)
  {
    ghost var r := Round4Rows(rest);
    A, B, C, D :=
      FIRow(a, b, c, d, x, Row(3, 0, 7, 14, 5, 0xf4292244, 0x432aff97, 0xab9423a7, 0xfc93a039), r.rest, goal);
    A, B, C, D :=
      FIRow(A, B, C, D, x, Row(3, 12, 3, 10, 1, 0x655b59c3, 0x8f0ccc92, 0xffeff47d, 0x85845dd1), r.rest.rest, goal);
    A, B, C, D :=
      FIRow(A, B, C, D, x, Row(3, 8, 15, 6, 13, 0x6fa87e4f, 0xfe2ce6e0, 0xa3014314, 0x4e0811a1), r.rest.rest.rest,
        goal);
    A, B, C, D :=
      FIRow(A, B, C, D, x, Row(3, 4, 11, 2, 9, 0xf7537e82, 0xbd3af235, 0x2ad7d2bb, 0xeb86d391), r.rest.rest.rest.rest,
        goal);
  }
}
