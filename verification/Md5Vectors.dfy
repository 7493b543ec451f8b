/** Two digests of the test suite of RFC 1321 (appendix A.5), row by row: they fix every constant, shift, index and
    auxiliary function of the algorithm. */
module Md5Vectors {
  import opened Md5Spec

  /** The four operations of a row, one after the other, on the four words of the block that it takes. */
  lemma RunRow(
    r: nat, k0: index, k1: index, k2: index, k3: index, t0: word, t1: word, t2: word, t3: word, rest: RowList,
    x: words, x0: word, x1: word, x2: word, x3: word,
    qa: word, qb: word, qc: word, qd: word, pa: word, pb: word, pc: word, pd: word)
    requires x[k0] == x0 && x[k1] == x1 && x[k2] == x2 && x[k3] == x3
    requires pa == Operation(Auxiliary(r, qb, qc, qd), qa, qb, x0, Shift(r, 0), t0)
    requires pd == Operation(Auxiliary(r, pa, qb, qc), qd, pa, x1, Shift(r, 1), t1)
    requires pc == Operation(Auxiliary(r, pd, pa, qb), qc, pd, x2, Shift(r, 2), t2)
    requires pb == Operation(Auxiliary(r, pc, pd, pa), qb, pc, x3, Shift(r, 3), t3)
    ensures
      RunRows(Then(Row(r, k0, k1, k2, k3, t0, t1, t2, t3), rest), Registers(qa, qb, qc, qd), x)
      == RunRows(rest, Registers(pa, pb, pc, pd), x)
  {}

  lemma Placed(front: seq<byte>, zeros: seq<byte>, length: seq<byte>, p: seq<byte>)
    requires p == front + (zeros + length) && |front| + |zeros| == 56 && |length| == 8
    requires (forall k :: 0 <= k < |zeros| ==> zeros[k] == 0) && forall k :: 1 <= k < 8 ==> length[k] == 0
    ensures |p| == 64 && (forall k :: 0 <= k < |front| ==> p[k] == front[k]) && p[56] == length[0]
    ensures forall k :: |front| <= k < 64 && k != 56 ==> p[k] == 0
  {
    forall k | |front| <= k < 64 ensures p[k] == if k < 56 then zeros[k - |front|] else length[k - 56] {}
  }

  /** A message of at most three bytes is one block. */
  lemma ShortPadded(msg: seq<byte>, p: seq<byte>, bits: byte)
    requires |msg| <= 3 && p == Padded(msg) && LengthBytes(|msg|) == [bits, 0, 0, 0, 0, 0, 0, 0]
    ensures |p| == 64 && (forall k :: 0 <= k < |msg| ==> p[k] == msg[k]) && p[|msg|] == 0x80 && p[56] == bits
    ensures forall k :: |msg| < k < 64 && k != 56 ==> p[k] == 0
  {
    var front, zeros, length := msg + [0x80], Zeros(55 - |msg|), LengthBytes(|msg|);
    assert p == (front + zeros) + length == front + (zeros + length);
    Placed(front, zeros, length, p);
    assert forall k :: 0 <= k < |msg| ==> p[k] == front[k];
  }

  lemma ShortLength(n: nat, low: nat)
    requires n <= 3 && low == 8 * n
    ensures LengthBytes(n) == TwoWords(low, 0)
  {}

  lemma ZeroWord()
    ensures WordOf(0, 0, 0, 0) == 0
  {
    assert WordOf(0, 0, 0, 0) == 0;
  }

  lemma WordsAre(p: seq<byte>, x: words, i: nat, b0: byte, b1: byte, b2: byte, b3: byte)
    requires |p| == 64 && i < 16 && x[i] == WordOf(b0, b1, b2, b3)
    requires p[4 * i] == b0 && p[4 * i + 1] == b1 && p[4 * i + 2] == b2 && p[4 * i + 3] == b3
    ensures Words(p)[i] == x[i]
  {}

  lemma ShortWords(p: seq<byte>, x: words, bits: byte)
    requires |p| == 64 && p[56] == bits && forall k :: 4 <= k < 64 && k != 56 ==> p[k] == 0
    requires x[0] == WordOf(p[0], p[1], p[2], p[3]) && x[14] == WordOf(bits, 0, 0, 0)
    requires forall k :: 0 < k < 16 && k != 14 ==> x[k] == 0
    ensures Words(p) == x
  {
    ZeroWord();
    WordsAre(p, x, 0, p[0], p[1], p[2], p[3]);
    WordsAre(p, x, 14, bits, 0, 0, 0);
    forall i | 0 < i < 16 && i != 14 ensures Words(p)[i] == x[i] {
      WordsAre(p, x, i, 0, 0, 0, 0);
    }
  }

  lemma BlockDigest(msg: seq<byte>, x: words, q: Registers)
    requires |Padded(msg)| == 64 && Words(Padded(msg)) == x
    requires RunRows(Round1Rows(Round2Rows(Round3Rows(Round4Rows(End)))), INITIAL, x) == q
    ensures Md5(msg) == Output(Add(q, INITIAL))
  {
    FoldOne(COMPRESS, INITIAL, Padded(msg));
  }

  // ----- the empty message

  const EMPTY: words := [0x00000080, 0, 0, 0, 0, 0, 0, 0,
    0, 0, 0, 0, 0, 0, 0, 0]

  lemma EmptyRow1(rest: RowList)
    ensures RunRows(Then(Row(0, 0, 1, 2, 3, 0xd76aa478, 0xe8c7b756, 0x242070db, 0xc1bdceee), rest),
      Registers(0x67452301, 0xefcdab89, 0x98badcfe, 0x10325476), EMPTY)
        == RunRows(rest, Registers(0xa5202774, 0x1b163203, 0xe7f06b23, 0xf59592dd), EMPTY)
  {
    RunRow(0, 0, 1, 2, 3, 0xd76aa478, 0xe8c7b756, 0x242070db, 0xc1bdceee,
      rest, EMPTY, 0x00000080, 0, 0, 0,
      0x67452301, 0xefcdab89, 0x98badcfe, 0x10325476, 0xa5202774, 0x1b163203, 0xe7f06b23, 0xf59592dd);
  }

  lemma EmptyRow2(rest: RowList)
    ensures RunRows(Then(Row(0, 4, 5, 6, 7, 0xf57c0faf, 0x4787c62a, 0xa8304613, 0xfd469501), rest),
      Registers(0xa5202774, 0x1b163203, 0xe7f06b23, 0xf59592dd), EMPTY)
        == RunRows(rest, Registers(0x32033344, 0x9bc13ce9, 0xf5b158db, 0x2f35d494), EMPTY)
  {
    RunRow(0, 4, 5, 6, 7, 0xf57c0faf, 0x4787c62a, 0xa8304613, 0xfd469501,
      rest, EMPTY, 0, 0, 0, 0,
      0xa5202774, 0x1b163203, 0xe7f06b23, 0xf59592dd, 0x32033344, 0x9bc13ce9, 0xf5b158db, 0x2f35d494);
  }

  lemma EmptyRow3(rest: RowList)
    ensures RunRows(Then(Row(0, 8, 9, 10, 11, 0x698098d8, 0x8b44f7af, 0xffff5bb1, 0x895cd7be), rest),
      Registers(0x32033344, 0x9bc13ce9, 0xf5b158db, 0x2f35d494), EMPTY)
        == RunRows(rest, Registers(0x3893b991, 0x70768a29, 0xe1ef0576, 0xfce4a312), EMPTY)
  {
    RunRow(0, 8, 9, 10, 11, 0x698098d8, 0x8b44f7af, 0xffff5bb1, 0x895cd7be,
      rest, EMPTY, 0, 0, 0, 0,
      0x32033344, 0x9bc13ce9, 0xf5b158db, 0x2f35d494, 0x3893b991, 0x70768a29, 0xe1ef0576, 0xfce4a312);
  }

  lemma EmptyRow4(rest: RowList)
    ensures RunRows(Then(Row(0, 12, 13, 14, 15, 0x6b901122, 0xfd987193, 0xa679438e, 0x49b40821), rest),
      Registers(0x3893b991, 0x70768a29, 0xe1ef0576, 0xfce4a312), EMPTY)
        == RunRows(rest, Registers(0xf56c7cf1, 0xd6819c6a, 0x5aa53f75, 0x374943a7), EMPTY)
  {
    RunRow(0, 12, 13, 14, 15, 0x6b901122, 0xfd987193, 0xa679438e, 0x49b40821,
      rest, EMPTY, 0, 0, 0, 0,
      0x3893b991, 0x70768a29, 0xe1ef0576, 0xfce4a312, 0xf56c7cf1, 0xd6819c6a, 0x5aa53f75, 0x374943a7);
  }

  lemma EmptyRow5(rest: RowList)
    ensures RunRows(Then(Row(1, 1, 6, 11, 0, 0xf61e2562, 0xc040b340, 0x265e5a51, 0xe9b6c7aa), rest),
      Registers(0xf56c7cf1, 0xd6819c6a, 0x5aa53f75, 0x374943a7), EMPTY)
        == RunRows(rest, Registers(0x1c7d7513, 0xbd782e17, 0xc095f13a, 0x7bd57a3a), EMPTY)
  {
    RunRow(1, 1, 6, 11, 0, 0xf61e2562, 0xc040b340, 0x265e5a51, 0xe9b6c7aa,
      rest, EMPTY, 0, 0, 0, 0x00000080,
      0xf56c7cf1, 0xd6819c6a, 0x5aa53f75, 0x374943a7, 0x1c7d7513, 0xbd782e17, 0xc095f13a, 0x7bd57a3a);
  }

  lemma EmptyRow6(rest: RowList)
    ensures RunRows(Then(Row(1, 5, 10, 15, 4, 0xd62f105d, 0x02441453, 0xd8a1e681, 0xe7d3fbc8), rest),
      Registers(0x1c7d7513, 0xbd782e17, 0xc095f13a, 0x7bd57a3a), EMPTY)
        == RunRows(rest, Registers(0x3d1e3e6c, 0xe422531a, 0xeb41643e, 0x68b7b3e3), EMPTY)
  {
    RunRow(1, 5, 10, 15, 4, 0xd62f105d, 0x02441453, 0xd8a1e681, 0xe7d3fbc8,
      rest, EMPTY, 0, 0, 0, 0,
      0x1c7d7513, 0xbd782e17, 0xc095f13a, 0x7bd57a3a, 0x3d1e3e6c, 0xe422531a, 0xeb41643e, 0x68b7b3e3);
  }

  lemma EmptyRow7(rest: RowList)
    ensures RunRows(Then(Row(1, 9, 14, 3, 8, 0x21e1cde6, 0xc33707d6, 0xf4d50d87, 0x455a14ed), rest),
      Registers(0x3d1e3e6c, 0xe422531a, 0xeb41643e, 0x68b7b3e3), EMPTY)
        == RunRows(rest, Registers(0x306ec122, 0xa0572807, 0xa3c663da, 0xd28c77c2), EMPTY)
  {
    RunRow(1, 9, 14, 3, 8, 0x21e1cde6, 0xc33707d6, 0xf4d50d87, 0x455a14ed,
      rest, EMPTY, 0, 0, 0, 0,
      0x3d1e3e6c, 0xe422531a, 0xeb41643e, 0x68b7b3e3, 0x306ec122, 0xa0572807, 0xa3c663da, 0xd28c77c2);
  }

  lemma EmptyRow8(rest: RowList)
    ensures RunRows(Then(Row(1, 13, 2, 7, 12, 0xa9e3e905, 0xfcefa3f8, 0x676f02d9, 0x8d2a4c8a), rest),
      Registers(0x306ec122, 0xa0572807, 0xa3c663da, 0xd28c77c2), EMPTY)
        == RunRows(rest, Registers(0x13707036, 0xa2205f1f, 0x1c31c384, 0xae7813db), EMPTY)
  {
    RunRow(1, 13, 2, 7, 12, 0xa9e3e905, 0xfcefa3f8, 0x676f02d9, 0x8d2a4c8a,
      rest, EMPTY, 0, 0, 0, 0,
      0x306ec122, 0xa0572807, 0xa3c663da, 0xd28c77c2, 0x13707036, 0xa2205f1f, 0x1c31c384, 0xae7813db);
  }

  lemma EmptyRow9(rest: RowList)
    ensures RunRows(Then(Row(2, 5, 8, 11, 14, 0xfffa3942, 0x8771f681, 0x6d9d6122, 0xfde5380c), rest),
      Registers(0x13707036, 0xa2205f1f, 0x1c31c384, 0xae7813db), EMPTY)
        == RunRows(rest, Registers(0xdf63eaa1, 0x004b6669, 0x12f3e755, 0xc3689f5b), EMPTY)
  {
    RunRow(2, 5, 8, 11, 14, 0xfffa3942, 0x8771f681, 0x6d9d6122, 0xfde5380c,
      rest, EMPTY, 0, 0, 0, 0,
      0x13707036, 0xa2205f1f, 0x1c31c384, 0xae7813db, 0xdf63eaa1, 0x004b6669, 0x12f3e755, 0xc3689f5b);
  }

  lemma EmptyRow10(rest: RowList)
    ensures RunRows(Then(Row(2, 1, 4, 7, 10, 0xa4beea44, 0x4bdecfa9, 0xf6bb4b60, 0xbebfbc70), rest),
      Registers(0xdf63eaa1, 0x004b6669, 0x12f3e755, 0xc3689f5b), EMPTY)
        == RunRows(rest, Registers(0x5f7a9b2e, 0xc5dc8c15, 0x91ca4cb7, 0xabc34e16), EMPTY)
  {
    RunRow(2, 1, 4, 7, 10, 0xa4beea44, 0x4bdecfa9, 0xf6bb4b60, 0xbebfbc70,
      rest, EMPTY, 0, 0, 0, 0,
      0xdf63eaa1, 0x004b6669, 0x12f3e755, 0xc3689f5b, 0x5f7a9b2e, 0xc5dc8c15, 0x91ca4cb7, 0xabc34e16);
  }

  lemma EmptyRow11(rest: RowList)
    ensures RunRows(Then(Row(2, 13, 0, 3, 6, 0x289b7ec6, 0xeaa127fa, 0xd4ef3085, 0x04881d05), rest),
      Registers(0x5f7a9b2e, 0xc5dc8c15, 0x91ca4cb7, 0xabc34e16), EMPTY)
        == RunRows(rest, Registers(0x4497169d, 0x0fe32453, 0xfd95f243, 0x76fd93d4), EMPTY)
  {
    RunRow(2, 13, 0, 3, 6, 0x289b7ec6, 0xeaa127fa, 0xd4ef3085, 0x04881d05,
      rest, EMPTY, 0, 0x00000080, 0, 0,
      0x5f7a9b2e, 0xc5dc8c15, 0x91ca4cb7, 0xabc34e16, 0x4497169d, 0x0fe32453, 0xfd95f243, 0x76fd93d4);
  }

  lemma EmptyRow12(rest: RowList)
    ensures RunRows(Then(Row(2, 9, 12, 15, 2, 0xd9d4d039, 0xe6db99e5, 0x1fa27cf8, 0xc4ac5665), rest),
      Registers(0x4497169d, 0x0fe32453, 0xfd95f243, 0x76fd93d4), EMPTY)
        == RunRows(rest, Registers(0x3f55edfd, 0xca7d2dbd, 0x68d84ea2, 0x22a31f54), EMPTY)
  {
    RunRow(2, 9, 12, 15, 2, 0xd9d4d039, 0xe6db99e5, 0x1fa27cf8, 0xc4ac5665,
      rest, EMPTY, 0, 0, 0, 0,
      0x4497169d, 0x0fe32453, 0xfd95f243, 0x76fd93d4, 0x3f55edfd, 0xca7d2dbd, 0x68d84ea2, 0x22a31f54);
  }

  lemma EmptyRow13(rest: RowList)
    ensures RunRows(Then(Row(3, 0, 7, 14, 5, 0xf4292244, 0x432aff97, 0xab9423a7, 0xfc93a039), rest),
      Registers(0x3f55edfd, 0xca7d2dbd, 0x68d84ea2, 0x22a31f54), EMPTY)
        == RunRows(rest, Registers(0x93aa2577, 0x561e0689, 0xcd85b8cb, 0x1688dc85), EMPTY)
  {
    RunRow(3, 0, 7, 14, 5, 0xf4292244, 0x432aff97, 0xab9423a7, 0xfc93a039,
      rest, EMPTY, 0x00000080, 0, 0, 0,
      0x3f55edfd, 0xca7d2dbd, 0x68d84ea2, 0x22a31f54, 0x93aa2577, 0x561e0689, 0xcd85b8cb, 0x1688dc85);
  }

  lemma EmptyRow14(rest: RowList)
    ensures RunRows(Then(Row(3, 12, 3, 10, 1, 0x655b59c3, 0x8f0ccc92, 0xffeff47d, 0x85845dd1), rest),
      Registers(0x93aa2577, 0x561e0689, 0xcd85b8cb, 0x1688dc85), EMPTY)
        == RunRows(rest, Registers(0x5625a114, 0x1e77fa61, 0x392ad0d0, 0x3450f42b), EMPTY)
  {
    RunRow(3, 12, 3, 10, 1, 0x655b59c3, 0x8f0ccc92, 0xffeff47d, 0x85845dd1,
      rest, EMPTY, 0, 0, 0, 0,
      0x93aa2577, 0x561e0689, 0xcd85b8cb, 0x1688dc85, 0x5625a114, 0x1e77fa61, 0x392ad0d0, 0x3450f42b);
  }

  lemma EmptyRow15(rest: RowList)
    ensures RunRows(Then(Row(3, 8, 15, 6, 13, 0x6fa87e4f, 0xfe2ce6e0, 0xa3014314, 0x4e0811a1), rest),
      Registers(0x5625a114, 0x1e77fa61, 0x392ad0d0, 0x3450f42b), EMPTY)
        == RunRows(rest, Registers(0x474a9c8c, 0x30130182, 0x36594b14, 0xdfce00bc), EMPTY)
  {
    RunRow(3, 8, 15, 6, 13, 0x6fa87e4f, 0xfe2ce6e0, 0xa3014314, 0x4e0811a1,
      rest, EMPTY, 0, 0, 0, 0,
      0x5625a114, 0x1e77fa61, 0x392ad0d0, 0x3450f42b, 0x474a9c8c, 0x30130182, 0x36594b14, 0xdfce00bc);
  }

  lemma EmptyRow16(rest: RowList)
    ensures RunRows(Then(Row(3, 4, 11, 2, 9, 0xf7537e82, 0xbd3af235, 0x2ad7d2bb, 0xeb86d391), rest),
      Registers(0x474a9c8c, 0x30130182, 0x36594b14, 0xdfce00bc), EMPTY)
        == RunRows(rest, Registers(0x7246fad3, 0x14e45506, 0xff4ea3eb, 0x6e10a476), EMPTY)
  {
    RunRow(3, 4, 11, 2, 9, 0xf7537e82, 0xbd3af235, 0x2ad7d2bb, 0xeb86d391,
      rest, EMPTY, 0, 0, 0, 0,
      0x474a9c8c, 0x30130182, 0x36594b14, 0xdfce00bc, 0x7246fad3, 0x14e45506, 0xff4ea3eb, 0x6e10a476);
  }

  lemma EmptyRound1(rest: RowList)
    ensures RunRows(Round1Rows(rest), Registers(0x67452301, 0xefcdab89, 0x98badcfe, 0x10325476), EMPTY)
      == RunRows(rest, Registers(0xf56c7cf1, 0xd6819c6a, 0x5aa53f75, 0x374943a7), EMPTY)
  {
    var last := Then(Row(0, 12, 13, 14, 15, 0x6b901122, 0xfd987193, 0xa679438e, 0x49b40821), rest);
    var third := Then(Row(0, 8, 9, 10, 11, 0x698098d8, 0x8b44f7af, 0xffff5bb1, 0x895cd7be), last);
    EmptyRow1(Then(Row(0, 4, 5, 6, 7, 0xf57c0faf, 0x4787c62a, 0xa8304613, 0xfd469501), third));
    EmptyRow2(third);
    EmptyRow3(last);
    EmptyRow4(rest);
  }

  lemma EmptyRound2(rest: RowList)
    ensures RunRows(Round2Rows(rest), Registers(0xf56c7cf1, 0xd6819c6a, 0x5aa53f75, 0x374943a7), EMPTY)
      == RunRows(rest, Registers(0x13707036, 0xa2205f1f, 0x1c31c384, 0xae7813db), EMPTY)
  {
    var last := Then(Row(1, 13, 2, 7, 12, 0xa9e3e905, 0xfcefa3f8, 0x676f02d9, 0x8d2a4c8a), rest);
    var third := Then(Row(1, 9, 14, 3, 8, 0x21e1cde6, 0xc33707d6, 0xf4d50d87, 0x455a14ed), last);
    EmptyRow5(Then(Row(1, 5, 10, 15, 4, 0xd62f105d, 0x02441453, 0xd8a1e681, 0xe7d3fbc8), third));
    EmptyRow6(third);
    EmptyRow7(last);
    EmptyRow8(rest);
  }

  lemma EmptyRound3(rest: RowList)
    ensures RunRows(Round3Rows(rest), Registers(0x13707036, 0xa2205f1f, 0x1c31c384, 0xae7813db), EMPTY)
      == RunRows(rest, Registers(0x3f55edfd, 0xca7d2dbd, 0x68d84ea2, 0x22a31f54), EMPTY)
  {
    var last := Then(Row(2, 9, 12, 15, 2, 0xd9d4d039, 0xe6db99e5, 0x1fa27cf8, 0xc4ac5665), rest);
    var third := Then(Row(2, 13, 0, 3, 6, 0x289b7ec6, 0xeaa127fa, 0xd4ef3085, 0x04881d05), last);
    EmptyRow9(Then(Row(2, 1, 4, 7, 10, 0xa4beea44, 0x4bdecfa9, 0xf6bb4b60, 0xbebfbc70), third));
    EmptyRow10(third);
    EmptyRow11(last);
    EmptyRow12(rest);
  }

  lemma EmptyRound4(rest: RowList)
    ensures RunRows(Round4Rows(rest), Registers(0x3f55edfd, 0xca7d2dbd, 0x68d84ea2, 0x22a31f54), EMPTY)
      == RunRows(rest, Registers(0x7246fad3, 0x14e45506, 0xff4ea3eb, 0x6e10a476), EMPTY)
  {
    var last := Then(Row(3, 4, 11, 2, 9, 0xf7537e82, 0xbd3af235, 0x2ad7d2bb, 0xeb86d391), rest);
    var third := Then(Row(3, 8, 15, 6, 13, 0x6fa87e4f, 0xfe2ce6e0, 0xa3014314, 0x4e0811a1), last);
    EmptyRow13(Then(Row(3, 12, 3, 10, 1, 0x655b59c3, 0x8f0ccc92, 0xffeff47d, 0x85845dd1), third));
    EmptyRow14(third);
    EmptyRow15(last);
    EmptyRow16(rest);
  }

  lemma EmptyRounds()
    ensures
      RunRows(Round1Rows(Round2Rows(Round3Rows(Round4Rows(End)))), INITIAL, EMPTY)
      == Registers(0x7246fad3, 0x14e45506, 0xff4ea3eb, 0x6e10a476)
  {
    var rest3 := Round4Rows(End);
    var rest2 := Round3Rows(rest3);
    EmptyRound1(Round2Rows(rest2));
    EmptyRound2(rest2);
    EmptyRound3(rest3);
    EmptyRound4(End);
  }

  lemma EmptyLength()
    ensures LengthBytes(0) == [0, 0, 0, 0, 0, 0, 0, 0]
  {
    ShortLength(0, 0);
    assert TwoWords(0, 0) == WordBytes(0) + WordBytes(0);
    assert WordBytes(0) == [0, 0, 0, 0] && WordBytes(0) == [0, 0, 0, 0];
  }

  lemma EmptyWords()
    ensures |Padded([])| == 64 && Words(Padded([])) == EMPTY
  {
    var msg: seq<byte> := [];
    var p := Padded(msg);
    assert WordOf(0x80, 0x00, 0x00, 0x00) == 0x00000080 && WordOf(0, 0, 0, 0) == 0;
    EmptyLength();
    ShortPadded(msg, p, 0);
    assert p[0] == 0x80 && p[1] == 0x00 && p[2] == 0x00 && p[3] == 0x00;
    ShortWords(p, EMPTY, 0);
  }

  lemma EmptyOutput()
    ensures
      Output(Add(Registers(0x7246fad3, 0x14e45506, 0xff4ea3eb, 0x6e10a476), INITIAL))
      == [0xd4, 0x1d, 0x8c, 0xd9, 0x8f, 0x00, 0xb2, 0x04,
          0xe9, 0x80, 0x09, 0x98, 0xec, 0xf8, 0x42, 0x7e]
  {
    assert Add(Registers(0x7246fad3, 0x14e45506, 0xff4ea3eb, 0x6e10a476), INITIAL)
      == Registers(0xd98c1dd4, 0x04b2008f, 0x980980e9, 0x7e42f8ec);
    assert WordBytes(0xd98c1dd4) == [0xd4, 0x1d, 0x8c, 0xd9];
    assert WordBytes(0x04b2008f) == [0x8f, 0x00, 0xb2, 0x04];
    assert WordBytes(0x980980e9) == [0xe9, 0x80, 0x09, 0x98];
    assert WordBytes(0x7e42f8ec) == [0xec, 0xf8, 0x42, 0x7e];
  }

  /** The digest of the empty message. */
  lemma EmptyDigest()
    ensures
      Md5([])
      == [0xd4, 0x1d, 0x8c, 0xd9, 0x8f, 0x00, 0xb2, 0x04,
          0xe9, 0x80, 0x09, 0x98, 0xec, 0xf8, 0x42, 0x7e]
  {
    EmptyWords();
    EmptyRounds();
    EmptyOutput();
    BlockDigest([], EMPTY, Registers(0x7246fad3, 0x14e45506, 0xff4ea3eb, 0x6e10a476));
  }

  // ----- the message `abc`

  const ABC: words := [0x80636261, 0, 0, 0, 0, 0, 0, 0,
    0, 0, 0, 0, 0, 0, 0x00000018, 0]

  lemma AbcRow1(rest: RowList)
    ensures RunRows(Then(Row(0, 0, 1, 2, 3, 0xd76aa478, 0xe8c7b756, 0x242070db, 0xc1bdceee), rest),
      Registers(0x67452301, 0xefcdab89, 0x98badcfe, 0x10325476), ABC)
        == RunRows(rest, Registers(0xd6d117b4, 0x7ad956f2, 0x2f6fbd72, 0x344a8432), ABC)
  {
    RunRow(0, 0, 1, 2, 3, 0xd76aa478, 0xe8c7b756, 0x242070db, 0xc1bdceee,
      rest, ABC, 0x80636261, 0, 0, 0,
      0x67452301, 0xefcdab89, 0x98badcfe, 0x10325476, 0xd6d117b4, 0x7ad956f2, 0x2f6fbd72, 0x344a8432);
  }

  lemma AbcRow2(rest: RowList)
    ensures RunRows(Then(Row(0, 4, 5, 6, 7, 0xf57c0faf, 0x4787c62a, 0xa8304613, 0xfd469501), rest),
      Registers(0xd6d117b4, 0x7ad956f2, 0x2f6fbd72, 0x344a8432), ABC)
        == RunRows(rest, Registers(0xc73741ef, 0x928d99f6, 0x207dc67b, 0x8bac3051), ABC)
  {
    RunRow(0, 4, 5, 6, 7, 0xf57c0faf, 0x4787c62a, 0xa8304613, 0xfd469501,
      rest, ABC, 0, 0, 0, 0,
      0xd6d117b4, 0x7ad956f2, 0x2f6fbd72, 0x344a8432, 0xc73741ef, 0x928d99f6, 0x207dc67b, 0x8bac3051);
  }

  lemma AbcRow3(rest: RowList)
    ensures RunRows(Then(Row(0, 8, 9, 10, 11, 0x698098d8, 0x8b44f7af, 0xffff5bb1, 0x895cd7be), rest),
      Registers(0xc73741ef, 0x928d99f6, 0x207dc67b, 0x8bac3051), ABC)
        == RunRows(rest, Registers(0x854b3712, 0x5ed49596, 0x3020401c, 0x74e2f284), ABC)
  {
    RunRow(0, 8, 9, 10, 11, 0x698098d8, 0x8b44f7af, 0xffff5bb1, 0x895cd7be,
      rest, ABC, 0, 0, 0, 0,
      0xc73741ef, 0x928d99f6, 0x207dc67b, 0x8bac3051, 0x854b3712, 0x5ed49596, 0x3020401c, 0x74e2f284);
  }

  lemma AbcRow4(rest: RowList)
    ensures RunRows(Then(Row(0, 12, 13, 14, 15, 0x6b901122, 0xfd987193, 0xa679438e, 0x49b40821), rest),
      Registers(0x854b3712, 0x5ed49596, 0x3020401c, 0x74e2f284), ABC)
        == RunRows(rest, Registers(0xdda9b9a6, 0x72aff2e0, 0xe396856b, 0xa1051895), ABC)
  {
    RunRow(0, 12, 13, 14, 15, 0x6b901122, 0xfd987193, 0xa679438e, 0x49b40821,
      rest, ABC, 0, 0, 0x00000018, 0,
      0x854b3712, 0x5ed49596, 0x3020401c, 0x74e2f284, 0xdda9b9a6, 0x72aff2e0, 0xe396856b, 0xa1051895);
  }

  lemma AbcRow5(rest: RowList)
    ensures RunRows(Then(Row(1, 1, 6, 11, 0, 0xf61e2562, 0xc040b340, 0x265e5a51, 0xe9b6c7aa), rest),
      Registers(0xdda9b9a6, 0x72aff2e0, 0xe396856b, 0xa1051895), ABC)
        == RunRows(rest, Registers(0x3e9e9126, 0xb5b204e4, 0xe25e1652, 0x4a1d804e), ABC)
  {
    RunRow(1, 1, 6, 11, 0, 0xf61e2562, 0xc040b340, 0x265e5a51, 0xe9b6c7aa,
      rest, ABC, 0, 0, 0, 0x80636261,
      0xdda9b9a6, 0x72aff2e0, 0xe396856b, 0xa1051895, 0x3e9e9126, 0xb5b204e4, 0xe25e1652, 0x4a1d804e);
  }

  lemma AbcRow6(rest: RowList)
    ensures RunRows(Then(Row(1, 5, 10, 15, 4, 0xd62f105d, 0x02441453, 0xd8a1e681, 0xe7d3fbc8), rest),
      Registers(0x3e9e9126, 0xb5b204e4, 0xe25e1652, 0x4a1d804e), ABC)
        == RunRows(rest, Registers(0x59a8ffda, 0x47092c07, 0xabfc7920, 0x6d002f1e), ABC)
  {
    RunRow(1, 5, 10, 15, 4, 0xd62f105d, 0x02441453, 0xd8a1e681, 0xe7d3fbc8,
      rest, ABC, 0, 0, 0, 0,
      0x3e9e9126, 0xb5b204e4, 0xe25e1652, 0x4a1d804e, 0x59a8ffda, 0x47092c07, 0xabfc7920, 0x6d002f1e);
  }

  lemma AbcRow7(rest: RowList)
    ensures RunRows(Then(Row(1, 9, 14, 3, 8, 0x21e1cde6, 0xc33707d6, 0xf4d50d87, 0x455a14ed), rest),
      Registers(0x59a8ffda, 0x47092c07, 0xabfc7920, 0x6d002f1e), ABC)
        == RunRows(rest, Registers(0xb7f268cf, 0x786acb8f, 0xfe1623b1, 0x09388eff), ABC)
  {
    RunRow(1, 9, 14, 3, 8, 0x21e1cde6, 0xc33707d6, 0xf4d50d87, 0x455a14ed,
      rest, ABC, 0, 0x00000018, 0, 0,
      0x59a8ffda, 0x47092c07, 0xabfc7920, 0x6d002f1e, 0xb7f268cf, 0x786acb8f, 0xfe1623b1, 0x09388eff);
  }

  lemma AbcRow8(rest: RowList)
    ensures RunRows(Then(Row(1, 13, 2, 7, 12, 0xa9e3e905, 0xfcefa3f8, 0x676f02d9, 0x8d2a4c8a), rest),
      Registers(0xb7f268cf, 0x786acb8f, 0xfe1623b1, 0x09388eff), ABC)
        == RunRows(rest, Registers(0x790a77fb, 0x726342d3, 0xa62884aa, 0x9f47e4f8), ABC)
  {
    RunRow(1, 13, 2, 7, 12, 0xa9e3e905, 0xfcefa3f8, 0x676f02d9, 0x8d2a4c8a,
      rest, ABC, 0, 0, 0, 0,
      0xb7f268cf, 0x786acb8f, 0xfe1623b1, 0x09388eff, 0x790a77fb, 0x726342d3, 0xa62884aa, 0x9f47e4f8);
  }

  lemma AbcRow9(rest: RowList)
    ensures RunRows(Then(Row(2, 5, 8, 11, 14, 0xfffa3942, 0x8771f681, 0x6d9d6122, 0xfde5380c), rest),
      Registers(0x790a77fb, 0x726342d3, 0xa62884aa, 0x9f47e4f8), ABC)
        == RunRows(rest, Registers(0xb3707ebf, 0x3b0875c7, 0x8d212ff5, 0x60127b2e), ABC)
  {
    RunRow(2, 5, 8, 11, 14, 0xfffa3942, 0x8771f681, 0x6d9d6122, 0xfde5380c,
      rest, ABC, 0, 0, 0, 0x00000018,
      0x790a77fb, 0x726342d3, 0xa62884aa, 0x9f47e4f8, 0xb3707ebf, 0x3b0875c7, 0x8d212ff5, 0x60127b2e);
  }

  lemma AbcRow10(rest: RowList)
    ensures RunRows(Then(Row(2, 1, 4, 7, 10, 0xa4beea44, 0x4bdecfa9, 0xf6bb4b60, 0xbebfbc70), rest),
      Registers(0xb3707ebf, 0x3b0875c7, 0x8d212ff5, 0x60127b2e), ABC)
        == RunRows(rest, Registers(0x21b117b9, 0x5a2f5ea5, 0x3575227e, 0x6e7429d5), ABC)
  {
    RunRow(2, 1, 4, 7, 10, 0xa4beea44, 0x4bdecfa9, 0xf6bb4b60, 0xbebfbc70,
      rest, ABC, 0, 0, 0, 0,
      0xb3707ebf, 0x3b0875c7, 0x8d212ff5, 0x60127b2e, 0x21b117b9, 0x5a2f5ea5, 0x3575227e, 0x6e7429d5);
  }

  lemma AbcRow11(rest: RowList)
    ensures RunRows(Then(Row(2, 13, 0, 3, 6, 0x289b7ec6, 0xeaa127fa, 0xd4ef3085, 0x04881d05), rest),
      Registers(0x21b117b9, 0x5a2f5ea5, 0x3575227e, 0x6e7429d5), ABC)
        == RunRows(rest, Registers(0x11de1779, 0x4c6124f4, 0x31c465ca, 0xfadcaa38), ABC)
  {
    RunRow(2, 13, 0, 3, 6, 0x289b7ec6, 0xeaa127fa, 0xd4ef3085, 0x04881d05,
      rest, ABC, 0, 0x80636261, 0, 0,
      0x21b117b9, 0x5a2f5ea5, 0x3575227e, 0x6e7429d5, 0x11de1779, 0x4c6124f4, 0x31c465ca, 0xfadcaa38);
  }

  lemma AbcRow12(rest: RowList)
    ensures RunRows(Then(Row(2, 9, 12, 15, 2, 0xd9d4d039, 0xe6db99e5, 0x1fa27cf8, 0xc4ac5665), rest),
      Registers(0x11de1779, 0x4c6124f4, 0x31c465ca, 0xfadcaa38), ABC)
        == RunRows(rest, Registers(0x7f2e507b, 0x7beb9700, 0x8fae6399, 0x99d9679d), ABC)
  {
    RunRow(2, 9, 12, 15, 2, 0xd9d4d039, 0xe6db99e5, 0x1fa27cf8, 0xc4ac5665,
      rest, ABC, 0, 0, 0, 0,
      0x11de1779, 0x4c6124f4, 0x31c465ca, 0xfadcaa38, 0x7f2e507b, 0x7beb9700, 0x8fae6399, 0x99d9679d);
  }

  lemma AbcRow13(rest: RowList)
    ensures RunRows(Then(Row(3, 0, 7, 14, 5, 0xf4292244, 0x432aff97, 0xab9423a7, 0xfc93a039), rest),
      Registers(0x7f2e507b, 0x7beb9700, 0x8fae6399, 0x99d9679d), ABC)
        == RunRows(rest, Registers(0x7b201df8, 0x8bf025c4, 0xb298cefd, 0xf4e8e96e), ABC)
  {
    RunRow(3, 0, 7, 14, 5, 0xf4292244, 0x432aff97, 0xab9423a7, 0xfc93a039,
      rest, ABC, 0x80636261, 0, 0x00000018, 0,
      0x7f2e507b, 0x7beb9700, 0x8fae6399, 0x99d9679d, 0x7b201df8, 0x8bf025c4, 0xb298cefd, 0xf4e8e96e);
  }

  lemma AbcRow14(rest: RowList)
    ensures RunRows(Then(Row(3, 12, 3, 10, 1, 0x655b59c3, 0x8f0ccc92, 0xffeff47d, 0x85845dd1), rest),
      Registers(0x7b201df8, 0x8bf025c4, 0xb298cefd, 0xf4e8e96e), ABC)
        == RunRows(rest, Registers(0x06cc5e8a, 0x3bfa2c27, 0x7d632dd0, 0x5b0d97aa), ABC)
  {
    RunRow(3, 12, 3, 10, 1, 0x655b59c3, 0x8f0ccc92, 0xffeff47d, 0x85845dd1,
      rest, ABC, 0, 0, 0, 0,
      0x7b201df8, 0x8bf025c4, 0xb298cefd, 0xf4e8e96e, 0x06cc5e8a, 0x3bfa2c27, 0x7d632dd0, 0x5b0d97aa);
  }

  lemma AbcRow15(rest: RowList)
    ensures RunRows(Then(Row(3, 8, 15, 6, 13, 0x6fa87e4f, 0xfe2ce6e0, 0xa3014314, 0x4e0811a1), rest),
      Registers(0x06cc5e8a, 0x3bfa2c27, 0x7d632dd0, 0x5b0d97aa), ABC)
        == RunRows(rest, Registers(0x7f81cc35, 0x7327d604, 0x4f9dbe3f, 0x094454ab), ABC)
  {
    RunRow(3, 8, 15, 6, 13, 0x6fa87e4f, 0xfe2ce6e0, 0xa3014314, 0x4e0811a1,
      rest, ABC, 0, 0, 0, 0,
      0x06cc5e8a, 0x3bfa2c27, 0x7d632dd0, 0x5b0d97aa, 0x7f81cc35, 0x7327d604, 0x4f9dbe3f, 0x094454ab);
  }

  lemma AbcRow16(rest: RowList)
    ensures RunRows(Then(Row(3, 4, 11, 2, 9, 0xf7537e82, 0xbd3af235, 0x2ad7d2bb, 0xeb86d391), rest),
      Registers(0x7f81cc35, 0x7327d604, 0x4f9dbe3f, 0x094454ab), ABC)
        == RunRows(rest, Registers(0x310ade8f, 0xc08226b3, 0xe484b9d8, 0x624d8cb2), ABC)
  {
    RunRow(3, 4, 11, 2, 9, 0xf7537e82, 0xbd3af235, 0x2ad7d2bb, 0xeb86d391,
      rest, ABC, 0, 0, 0, 0,
      0x7f81cc35, 0x7327d604, 0x4f9dbe3f, 0x094454ab, 0x310ade8f, 0xc08226b3, 0xe484b9d8, 0x624d8cb2);
  }

  lemma AbcRound1(rest: RowList)
    ensures RunRows(Round1Rows(rest), Registers(0x67452301, 0xefcdab89, 0x98badcfe, 0x10325476), ABC)
      == RunRows(rest, Registers(0xdda9b9a6, 0x72aff2e0, 0xe396856b, 0xa1051895), ABC)
  {
    var last := Then(Row(0, 12, 13, 14, 15, 0x6b901122, 0xfd987193, 0xa679438e, 0x49b40821), rest);
    var third := Then(Row(0, 8, 9, 10, 11, 0x698098d8, 0x8b44f7af, 0xffff5bb1, 0x895cd7be), last);
    AbcRow1(Then(Row(0, 4, 5, 6, 7, 0xf57c0faf, 0x4787c62a, 0xa8304613, 0xfd469501), third));
    AbcRow2(third);
    AbcRow3(last);
    AbcRow4(rest);
  }

  lemma AbcRound2(rest: RowList)
    ensures RunRows(Round2Rows(rest), Registers(0xdda9b9a6, 0x72aff2e0, 0xe396856b, 0xa1051895), ABC)
      == RunRows(rest, Registers(0x790a77fb, 0x726342d3, 0xa62884aa, 0x9f47e4f8), ABC)
  {
    var last := Then(Row(1, 13, 2, 7, 12, 0xa9e3e905, 0xfcefa3f8, 0x676f02d9, 0x8d2a4c8a), rest);
    var third := Then(Row(1, 9, 14, 3, 8, 0x21e1cde6, 0xc33707d6, 0xf4d50d87, 0x455a14ed), last);
    AbcRow5(Then(Row(1, 5, 10, 15, 4, 0xd62f105d, 0x02441453, 0xd8a1e681, 0xe7d3fbc8), third));
    AbcRow6(third);
    AbcRow7(last);
    AbcRow8(rest);
  }

  lemma AbcRound3(rest: RowList)
    ensures RunRows(Round3Rows(rest), Registers(0x790a77fb, 0x726342d3, 0xa62884aa, 0x9f47e4f8), ABC)
      == RunRows(rest, Registers(0x7f2e507b, 0x7beb9700, 0x8fae6399, 0x99d9679d), ABC)
  {
    var last := Then(Row(2, 9, 12, 15, 2, 0xd9d4d039, 0xe6db99e5, 0x1fa27cf8, 0xc4ac5665), rest);
    var third := Then(Row(2, 13, 0, 3, 6, 0x289b7ec6, 0xeaa127fa, 0xd4ef3085, 0x04881d05), last);
    AbcRow9(Then(Row(2, 1, 4, 7, 10, 0xa4beea44, 0x4bdecfa9, 0xf6bb4b60, 0xbebfbc70), third));
    AbcRow10(third);
    AbcRow11(last);
    AbcRow12(rest);
  }

  lemma AbcRound4(rest: RowList)
    ensures RunRows(Round4Rows(rest), Registers(0x7f2e507b, 0x7beb9700, 0x8fae6399, 0x99d9679d), ABC)
      == RunRows(rest, Registers(0x310ade8f, 0xc08226b3, 0xe484b9d8, 0x624d8cb2), ABC)
  {
    var last := Then(Row(3, 4, 11, 2, 9, 0xf7537e82, 0xbd3af235, 0x2ad7d2bb, 0xeb86d391), rest);
    var third := Then(Row(3, 8, 15, 6, 13, 0x6fa87e4f, 0xfe2ce6e0, 0xa3014314, 0x4e0811a1), last);
    AbcRow13(Then(Row(3, 12, 3, 10, 1, 0x655b59c3, 0x8f0ccc92, 0xffeff47d, 0x85845dd1), third));
    AbcRow14(third);
    AbcRow15(last);
    AbcRow16(rest);
  }

  lemma AbcRounds()
    ensures
      RunRows(Round1Rows(Round2Rows(Round3Rows(Round4Rows(End)))), INITIAL, ABC)
      == Registers(0x310ade8f, 0xc08226b3, 0xe484b9d8, 0x624d8cb2)
  {
    var rest3 := Round4Rows(End);
    var rest2 := Round3Rows(rest3);
    AbcRound1(Round2Rows(rest2));
    AbcRound2(rest2);
    AbcRound3(rest3);
    AbcRound4(End);
  }

  lemma AbcLength()
    ensures LengthBytes(3) == [24, 0, 0, 0, 0, 0, 0, 0]
  {
    ShortLength(3, 24);
    assert TwoWords(24, 0) == WordBytes(24) + WordBytes(0);
    assert WordBytes(24) == [24, 0, 0, 0] && WordBytes(0) == [0, 0, 0, 0];
  }

  lemma AbcWords()
    ensures |Padded([0x61, 0x62, 0x63])| == 64 && Words(Padded([0x61, 0x62, 0x63])) == ABC
  {
    var msg: seq<byte> := [0x61, 0x62, 0x63];
    var p := Padded(msg);
    assert WordOf(0x61, 0x62, 0x63, 0x80) == 0x80636261 && WordOf(24, 0, 0, 0) == 24;
    AbcLength();
    ShortPadded(msg, p, 24);
    assert p[0] == 0x61 && p[1] == 0x62 && p[2] == 0x63 && p[3] == 0x80;
    ShortWords(p, ABC, 24);
  }

  lemma AbcOutput()
    ensures
      Output(Add(Registers(0x310ade8f, 0xc08226b3, 0xe484b9d8, 0x624d8cb2), INITIAL))
      == [0x90, 0x01, 0x50, 0x98, 0x3c, 0xd2, 0x4f, 0xb0,
          0xd6, 0x96, 0x3f, 0x7d, 0x28, 0xe1, 0x7f, 0x72]
  {
    assert Add(Registers(0x310ade8f, 0xc08226b3, 0xe484b9d8, 0x624d8cb2), INITIAL)
      == Registers(0x98500190, 0xb04fd23c, 0x7d3f96d6, 0x727fe128);
    assert WordBytes(0x98500190) == [0x90, 0x01, 0x50, 0x98];
    assert WordBytes(0xb04fd23c) == [0x3c, 0xd2, 0x4f, 0xb0];
    assert WordBytes(0x7d3f96d6) == [0xd6, 0x96, 0x3f, 0x7d];
    assert WordBytes(0x727fe128) == [0x28, 0xe1, 0x7f, 0x72];
  }

  /** The digest of the message `abc`. */
  lemma AbcDigest()
    ensures
      Md5([0x61, 0x62, 0x63])
      == [0x90, 0x01, 0x50, 0x98, 0x3c, 0xd2, 0x4f, 0xb0,
          0xd6, 0x96, 0x3f, 0x7d, 0x28, 0xe1, 0x7f, 0x72]
  {
    AbcWords();
    AbcRounds();
    AbcOutput();
    BlockDigest([0x61, 0x62, 0x63], ABC, Registers(0x310ade8f, 0xc08226b3, 0xe484b9d8, 0x624d8cb2));
  }
}
