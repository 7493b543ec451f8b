/** The MD5 message digest as RFC 1321 defines it, sections 3.1 to 3.5. */
module Md5Spec {

  type byte = bv8
  type word = bv32

  datatype Registers = Registers(a: word, b: word, c: word, d: word)

  /** Section 3.3. */
  const INITIAL := Registers(0x67452301, 0xefcdab89, 0x98badcfe, 0x10325476)

  /** The auxiliary functions of section 3.4. */
  function F(x: word, y: word, z: word): word { (x & y) | (!x & z) }

  function G(x: word, y: word, z: word): word { (x & z) | (y & !z) }

  function H(x: word, y: word, z: word): word { x ^ y ^ z }

  function I(x: word, y: word, z: word): word { y ^ (x | !z) }

  function Auxiliary(round: nat, x: word, y: word, z: word): word {
    if round == 0 then F(x, y, z)
    else if round == 1 then G(x, y, z)
    else if round == 2 then H(x, y, z)
    else I(x, y, z)
  }

  /** Rotation to the left. */
  function Rotl(x: word, s: nat): word
    requires 0 < s < 32
  {
    (x << s) | (x >> (32 - s))
  }

  /** The operation [abcd k s i], with `f` the auxiliary function of b, c and d: the new value of
      `a`. */
  function Operation(f: word, a: word, b: word, x: word, s: nat, t: word): word
    requires 0 < s < 32
  {
    b + Rotl(a + f + x + t, s)
  }

  type index = k: nat | k < 16
  type words = x: seq<word> | |x| == 16 witness seq(16, _ => 0)

  /** Section 3.4 lists the 64 operations in 16 rows of four. A row has the number of its round
      (from 0), and the indices k into X and the constants T[i] of its four columns. */
  datatype Row = Row(
    round: nat, k0: index, k1: index, k2: index, k3: index, t0: word, t1: word, t2: word, t3: word)

  datatype RowList = End | Then(row: Row, rest: RowList)

  /** Round 1, followed by `rest`. */
  function Round1Rows(rest: RowList): RowList {
    Then(Row(0, 0, 1, 2, 3, 0xd76aa478, 0xe8c7b756, 0x242070db, 0xc1bdceee),
    Then(Row(0, 4, 5, 6, 7, 0xf57c0faf, 0x4787c62a, 0xa8304613, 0xfd469501),
    Then(Row(0, 8, 9, 10, 11, 0x698098d8, 0x8b44f7af, 0xffff5bb1, 0x895cd7be),
    Then(Row(0, 12, 13, 14, 15, 0x6b901122, 0xfd987193, 0xa679438e, 0x49b40821), rest))))
  }

  /** Round 2, followed by `rest`. */
  function Round2Rows(rest: RowList): RowList {
    Then(Row(1, 1, 6, 11, 0, 0xf61e2562, 0xc040b340, 0x265e5a51, 0xe9b6c7aa),
    Then(Row(1, 5, 10, 15, 4, 0xd62f105d, 0x02441453, 0xd8a1e681, 0xe7d3fbc8),
    Then(Row(1, 9, 14, 3, 8, 0x21e1cde6, 0xc33707d6, 0xf4d50d87, 0x455a14ed),
    Then(Row(1, 13, 2, 7, 12, 0xa9e3e905, 0xfcefa3f8, 0x676f02d9, 0x8d2a4c8a), rest))))
  }

  /** Round 3, followed by `rest`. */
  function Round3Rows(rest: RowList): RowList {
    Then(Row(2, 5, 8, 11, 14, 0xfffa3942, 0x8771f681, 0x6d9d6122, 0xfde5380c),
    Then(Row(2, 1, 4, 7, 10, 0xa4beea44, 0x4bdecfa9, 0xf6bb4b60, 0xbebfbc70),
    Then(Row(2, 13, 0, 3, 6, 0x289b7ec6, 0xeaa127fa, 0xd4ef3085, 0x04881d05),
    Then(Row(2, 9, 12, 15, 2, 0xd9d4d039, 0xe6db99e5, 0x1fa27cf8, 0xc4ac5665), rest))))
  }

  /** Round 4, followed by `rest`. */
  function Round4Rows(rest: RowList): RowList {
    Then(Row(3, 0, 7, 14, 5, 0xf4292244, 0x432aff97, 0xab9423a7, 0xfc93a039),
    Then(Row(3, 12, 3, 10, 1, 0x655b59c3, 0x8f0ccc92, 0xffeff47d, 0x85845dd1),
    Then(Row(3, 8, 15, 6, 13, 0x6fa87e4f, 0xfe2ce6e0, 0xa3014314, 0x4e0811a1),
    Then(Row(3, 4, 11, 2, 9, 0xf7537e82, 0xbd3af235, 0x2ad7d2bb, 0xeb86d391), rest))))
  }

  /** The shifts s of the four columns. */
  function Shift(round: nat, col: nat): (s: nat)
    ensures 0 < s < 32
  {
    if round == 0 then (if col == 0 then 7 else if col == 1 then 12 else if col == 2 then 17 else 22)
    else if round == 1 then (if col == 0 then 5 else if col == 1 then 9 else if col == 2 then 14 else 20)
    else if round == 2 then (if col == 0 then 4 else if col == 1 then 11 else if col == 2 then 16 else 23)
    else (if col == 0 then 6 else if col == 1 then 10 else if col == 2 then 15 else 21)
  }

  /** One row: [ABCD], [DABC], [CDAB], [BCDA]. */
  function RowOps(row: Row, q: Registers, x: words): Registers {
    var r := row.round;
    var a := Operation(Auxiliary(r, q.b, q.c, q.d), q.a, q.b, x[row.k0], Shift(r, 0), row.t0);
    var d := Operation(Auxiliary(r, a, q.b, q.c), q.d, a, x[row.k1], Shift(r, 1), row.t1);
    var c := Operation(Auxiliary(r, d, a, q.b), q.c, d, x[row.k2], Shift(r, 2), row.t2);
    var b := Operation(Auxiliary(r, c, d, a), q.b, c, x[row.k3], Shift(r, 3), row.t3);
    Registers(a, b, c, d)
  }

  function RunRows(rows: RowList, q: Registers, x: words): Registers {
    match rows
    case End => q
    case Then(row, rest) => RunRows(rest, RowOps(row, q, x), x)
  }

  function Add(p: Registers, q: Registers): Registers {
    Registers(p.a + q.a, p.b + q.b, p.c + q.c, p.d + q.d)
  }

  /** Four bytes, low-order byte first (section 2). */
  function WordOf(b0: byte, b1: byte, b2: byte, b3: byte): word {
    (b0 as word) | ((b1 as word) << 8) | ((b2 as word) << 16) | ((b3 as word) << 24)
  }

  function WordBytes(w: word): (r: seq<byte>)
    ensures |r| == 4
  {
    [(w & 0xff) as byte, ((w >> 8) & 0xff) as byte, ((w >> 16) & 0xff) as byte, (w >> 24) as byte]
  }

  function Words(block: seq<byte>): words
    requires |block| == 64
  {
    seq(16, i requires 0 <= i < 16 => WordOf(block[4 * i], block[4 * i + 1], block[4 * i + 2], block[4 * i + 3]))
  }

  /** One 16-word block. */
  function Compress(q: Registers, block: seq<byte>): Registers
    requires |block| == 64
  {
    var rows := Round1Rows(Round2Rows(Round3Rows(Round4Rows(End))));
    Add(RunRows(rows, q, Words(block)), q)
  }

  type BlockFunction = (Registers, seq<byte>) -> Registers

  /** A block function applied to each block in turn; a last incomplete block is ignored. What
      buffering does to the input can be said of every block function. */
  function Fold(f: BlockFunction, q: Registers, data: seq<byte>): Registers
    decreases |data|
  {
    if |data| < 64 then q else Fold(f, f(q, data[..64]), data[64..])
  }

  /** The block function of MD5. */
  const COMPRESS: BlockFunction := (q, block) => if |block| == 64 then Compress(q, block) else q

  function Zeros(n: nat): (z: seq<byte>)
    ensures |z| == n && forall i :: 0 <= i < n ==> z[i] == 0
  {
    seq(n, _ => 0)
  }

  /** Section 3.1: at least one bit of padding, up to 56 bytes modulo 64. */
  function PadLength(n: nat): (p: nat)
    ensures 1 <= p <= 64 && (n + p) % 64 == 56
  {
    if n % 64 < 56 then 56 - n % 64 else 120 - n % 64
  }

  /** Two words, low-order word first. */
  function TwoWords(low: nat, high: nat): (r: seq<byte>)
    requires low < 0x1_0000_0000 && high < 0x1_0000_0000
    ensures |r| == 8
  {
    WordBytes(low as word) + WordBytes(high as word)
  }

  /** Section 3.2: the length in bits modulo 2^64, low-order word first. */
  function LengthBytes(n: nat): (r: seq<byte>)
    ensures |r| == 8
  {
    var bits := 8 * n;
    TwoWords(bits % 0x1_0000_0000, bits / 0x1_0000_0000 % 0x1_0000_0000)
  }

  function Padded(msg: seq<byte>): seq<byte> {
    msg + [0x80] + Zeros(PadLength(|msg|) - 1) + LengthBytes(|msg|)
  }

  /** Section 3.5. */
  function Output(q: Registers): seq<byte> {
    WordBytes(q.a) + WordBytes(q.b) + WordBytes(q.c) + WordBytes(q.d)
  }

  function Md5(msg: seq<byte>): seq<byte> {
    Output(Fold(COMPRESS, INITIAL, Padded(msg)))
  }

  lemma FoldOne(f: BlockFunction, q: Registers, block: seq<byte>)
    requires |block| == 64
    ensures Fold(f, q, block) == f(q, block)
  {
    assert block[..64] == block;
  }

  /** Blocks are processed one after the other. */
  lemma {:induction false} FoldAppend(f: BlockFunction, q: Registers, x: seq<byte>, y: seq<byte>)
    requires |x| % 64 == 0
    ensures Fold(f, q, x + y) == Fold(f, Fold(f, q, x), y)
    decreases |x|
  {
    if |x| == 0 {
      assert x + y == y;
    } else {
      var p := f(q, x[..64]);
      FoldAppend(f, p, x[64..], y);
      assert (x + y)[..64] == x[..64];
      assert (x + y)[64..] == x[64..] + y;
    }
  }
}
