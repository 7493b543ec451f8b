/** The digest context of lib/md5.c: input arrives in pieces of any size and is buffered, yet the
    digest is the one RFC 1321 defines for the whole message. */
module Md5Context {
  import opened Md5Spec
  import opened Md5Block

  const UINT32: nat := 0x1_0000_0000
  const UINT64: nat := 0x1_0000_0000_0000_0000

  // ----- words in memory

  /** A 32-bit word read from four bytes of memory. */
  function HostLoad(big: bool, b0: byte, b1: byte, b2: byte, b3: byte): word {
    if big then WordOf(b3, b2, b1, b0) else WordOf(b0, b1, b2, b3)
  }

  /** The bytes of a 32-bit word in memory. */
  function HostStore(big: bool, w: word): (r: seq<byte>)
    ensures |r| == 4
  {
    var l := WordBytes(w);
    if big then [l[3], l[2], l[1], l[0]] else l
  }

  function Swap32(n: word): word {
    (n << 24) | ((n & 0xff00) << 8) | ((n >> 8) & 0xff00) | (n >> 24)
  }

  /** The macro SWAP: exchanges the bytes on big-endian machines only. */
  function Swap(big: bool, n: word): word {
    if big then Swap32(n) else n
  }

  lemma SwapRaw(b0: byte, b1: byte, b2: byte, b3: byte)
    ensures Swap32(WordOf(b3, b2, b1, b0)) == WordOf(b0, b1, b2, b3)
  {}

  lemma StoreRaw(n: word)
    ensures
      var l := WordBytes(Swap32(n));
      [l[3], l[2], l[1], l[0]] == WordBytes(n)
  {}

  /** Loading with SWAP reads, and storing with SWAP writes, low-order bytes first on every machine. */
  lemma HostIndependent(big: bool, b0: byte, b1: byte, b2: byte, b3: byte, n: word)
    ensures Swap(big, HostLoad(big, b0, b1, b2, b3)) == WordOf(b0, b1, b2, b3)
    ensures HostStore(big, Swap(big, n)) == WordBytes(n)
  {
    SwapRaw(b0, b1, b2, b3);
    StoreRaw(n);
  }

  // ----- arithmetic of the two-word byte counter

  /** `total[0] += len; if (total[0] < len) ++total[1]`. */
  function Bump(total: (nat, nat), len: nat): (nat, nat) {
    var low := (total.0 + len) % UINT32;
    (low, if low < len then (total.1 + 1) % UINT32 else total.1)
  }

  function Counter(total: (nat, nat)): nat { total.0 + UINT32 * total.1 }

  predicate Is32(total: (nat, nat)) { total.0 < UINT32 && total.1 < UINT32 }

  /** The carry is detected for every length below 2^32. */
  lemma BumpCounts(total: (nat, nat), len: nat, n: nat)
    requires Is32(total) && len < UINT32 && Counter(total) == n % UINT64
    ensures Is32(Bump(total, len)) && Counter(Bump(total, len)) == (n + len) % UINT64
  {
    var q := n / UINT64;
    assert n == Counter(total) + q * UINT64;
    var sum := Counter(total) + len;
    if total.0 + len < UINT32 {
      assert Counter(Bump(total, len)) == sum;
      ModIs(n + len, sum, q);
    } else if total.1 + 1 < UINT32 {
      assert Bump(total, len) == (total.0 + len - UINT32, total.1 + 1);
      ModIs(n + len, sum, q);
    } else {
      assert Bump(total, len) == (total.0 + len - UINT32, 0);
      ModIs(n + len, sum - UINT64, q + 1);
    }
  }

  lemma ModIs(n: nat, r: nat, q: nat)
    requires r < UINT64 && n == r + q * UINT64
    ensures n % UINT64 == r
  {}

  /** `total[0] << 3` and `(total[1] << 3) | (total[0] >> 29)`; the operands of `|` share no bit, so
      it is a sum. */
  function BitLength(total: (nat, nat)): (nat, nat) {
    (total.0 * 8 % UINT32, total.1 * 8 % UINT32 + total.0 / 0x2000_0000)
  }

  lemma DivModIs(n: nat, m: nat, q: nat, r: nat)
    requires 0 < m && r < m && n == r + q * m
    ensures n / m == q && n % m == r
  {
    var d: int := n / m - q;
    assert d * m == r - n % m;
    assert d >= 1 ==> d * m >= m;
    assert d <= -1 ==> d * m + m <= 0;
  }

  /** The counter, shifted, is the length in bits modulo 2^64. */
  lemma BitLengthIs(total: (nat, nat), n: nat)
    requires Is32(total) && Counter(total) == n % UINT64
    ensures BitLength(total) == (8 * n % UINT32, 8 * n / UINT32 % UINT32)
  {
    var q := n / UINT64;
    var c, low := total.0 / 0x2000_0000, total.0 % 0x2000_0000 * 8;
    var e, r := total.1 / 0x2000_0000, total.1 % 0x2000_0000 * 8;
    DivModIs(total.0 * 8, UINT32, c, low);
    DivModIs(total.1 * 8, UINT32, e, r);
    var hi := c + r + UINT32 * (e + 8 * q);
    assert n == total.0 + UINT32 * total.1 + UINT32 * UINT32 * q;
    DivModIs(8 * n, UINT32, hi, low);
    DivModIs(hi, UINT32, e + 8 * q, c + r);
  }

  /** What the 64 bits of length look like in the padding. */
  lemma LengthBytesAre(total: (nat, nat), n: nat)
    requires Is32(total) && Counter(total) == n % UINT64
    ensures BitLength(total).0 < UINT32 && BitLength(total).1 < UINT32
    ensures LengthBytes(n) == TwoWords(BitLength(total).0, BitLength(total).1)
  {
    BitLengthIs(total, n);
  }

  // ----- the context

  /** All of `words[0..16]` of one block, as round 1 reads them. */
  method LoadWords(big: bool, block: seq<byte>) returns (x: words)
    requires |block| == 64
    ensures x == Words(block)
  {
    var correctWords := new word[16](_ => 0);
    var i := 0;
    while i < 16
      invariant 0 <= i <= 16
      invariant forall k :: 0 <= k < i ==> correctWords[k] == Words(block)[k]
    {
      HostIndependent(big, block[4 * i], block[4 * i + 1], block[4 * i + 2], block[4 * i + 3], 0);
      correctWords[i] := Swap(big, HostLoad(big, block[4 * i], block[4 * i + 1], block[4 * i + 2], block[4 * i + 3]));
      i := i + 1;
    }
    x := correctWords[..];
  }

  /** The four rounds. */
  method AllRounds(q: Registers, x: words) returns (p: Registers)
    ensures p == RunRows(Round1Rows(Round2Rows(Round3Rows(Round4Rows(End)))), q, x)
  {
    ghost var r4 := Round4Rows(End);
    ghost var r3 := Round3Rows(r4);
    ghost var r2 := Round2Rows(r3);
    ghost var goal := RunRows(Round1Rows(r2), q, x);
    var A, B, C, D := Round1(q.a, q.b, q.c, q.d, x, r2, goal);
    A, B, C, D := Round2(A, B, C, D, x, r3, goal);
    A, B, C, D := Round3(A, B, C, D, x, r4, goal);
    A, B, C, D := Round4(A, B, C, D, x, End, goal);
    p := Registers(A, B, C, D);
  }

  /** One block, with the addition of the saved registers at its end. */
  method OneBlock(big: bool, q: Registers, block: seq<byte>) returns (p: Registers)
    requires |block| == 64
    ensures p == Compress(q, block)
  {
    var x := LoadWords(big, block);
    p := AllRounds(q, x);
    p := Add(p, q);
  }

  lemma FoldStep(f: BlockFunction, q: Registers, data: seq<byte>, pos: nat)
    requires pos % 64 == 0 && pos + 64 <= |data|
    ensures Fold(f, q, data[..pos + 64]) == f(Fold(f, q, data[..pos]), data[pos..pos + 64])
  {
    var block := data[pos..pos + 64];
    assert data[..pos + 64] == data[..pos] + block;
    FoldAppend(f, q, data[..pos], block);
    FoldOne(f, Fold(f, q, data[..pos]), block);
  }

  /** `f` is MD5's block function; stated so that its 64 operations only come into play where a
      block is actually computed. */
  ghost predicate IsCompress(f: BlockFunction) {
    forall q, b {:trigger Compress(q, b)} :: |b| == 64 ==> f(q, b) == Compress(q, b)
  }

  /** One turn of the loop of `md5_process_block`. */
  method NextBlock(big: bool, q: Registers, block: seq<byte>, ghost f: BlockFunction) returns (p: Registers)
    requires |block| == 64 && IsCompress(f)
    ensures p == f(q, block)
  {
    p := OneBlock(big, q, block);
  }

  /** The state after consuming whole blocks of `msg`, with `buflen` bytes not yet processed. */
  ghost predicate Consumed(f: BlockFunction, msg: seq<byte>, buflen: nat, regs: Registers, total: (nat, nat)) {
    && buflen <= |msg| && (|msg| - buflen) % 64 == 0
    && regs == Fold(f, INITIAL, msg[..|msg| - buflen])
    && Is32(total) && Counter(total) == (|msg| - buflen) % UINT64
  }

  /** Processing the first `n` of the pending bytes. */
  lemma ConsumeMore(f: BlockFunction, msg: seq<byte>, buflen: nat, regs: Registers, total: (nat, nat), n: nat)
    requires Consumed(f, msg, buflen, regs, total) && n <= buflen && n % 64 == 0 && n < UINT32
    ensures
      var done := |msg| - buflen;
      Consumed(f, msg, buflen - n, Fold(f, regs, msg[done..done + n]), Bump(total, n))
  {
    var done := |msg| - buflen;
    assert msg[..done + n] == msg[..done] + msg[done..done + n];
    FoldAppend(f, INITIAL, msg[..done], msg[done..done + n]);
    BumpCounts(total, n, done);
    MultiplesOf64(done, n);
  }

  /** What whole blocks add to a state that has nothing pending. */
  lemma PassBlocks(f: BlockFunction, msg: seq<byte>, blocks: seq<byte>, regs: Registers, total: (nat, nat))
    requires Consumed(f, msg, 0, regs, total)
    requires |blocks| % 64 == 0 && |blocks| < UINT32
    ensures Consumed(f, msg + blocks, 0, Fold(f, regs, blocks), Bump(total, |blocks|))
  {
    var all := msg + blocks;
    assert msg[..|msg| - 0] == msg && all[..|all| - 0] == all;
    FoldAppend(f, INITIAL, msg, blocks);
    assert Fold(f, INITIAL, all[..|all| - 0]) == Fold(f, regs, blocks);
    var bumped := Bump(total, |blocks|);
    BumpCounts(total, |blocks|, |msg|);
    MultiplesOf64(|msg|, |blocks|);
    assert Consumed(f, all, 0, Fold(f, regs, blocks), bumped);
  }

  lemma MultiplesOf64(a: nat, b: nat)
    requires a % 64 == 0 && b % 64 == 0
    ensures (a + b) % 64 == 0
  {}

  /** `struct md5_ctx`. */
  class Context {
    const big: bool            // WORDS_BIGENDIAN
    const unalignedOk: bool    // _STRING_ARCH_unaligned
    ghost const f: BlockFunction
    var regs: Registers
    var total: (nat, nat)
    var buflen: nat
    const buffer: array<byte>

    /** The context has taken in `msg`: whole blocks are processed and the rest is buffered. */
    ghost predicate Holding(msg: seq<byte>)
      reads this, buffer
    {
      && IsCompress(f) && buffer.Length == 128 && buflen <= 128
      && Consumed(f, msg, buflen, regs, total)
      && buffer[..buflen] == msg[|msg| - buflen..]
    }

    /** The same between calls: at most one block is buffered. */
    ghost predicate Absorbed(msg: seq<byte>)
      reads this, buffer
    {
      Holding(msg) && buflen <= 64
    }

    /** `md5_init_ctx`. */
    constructor (big: bool, unalignedOk: bool)
      ensures Absorbed([]) && buflen == 0 && fresh(buffer)
    {
      this.big, this.unalignedOk := big, unalignedOk;
      f := COMPRESS;
      regs := INITIAL;
      total := (0, 0);
      buflen := 0;
      buffer := new byte[128](_ => 0);
    }

    /** `md5_process_block`. */
    method ProcessBlock(data: seq<byte>)
      requires |data| % 64 == 0 && IsCompress(f)
      modifies this`regs, this`total
      ensures regs == Fold(f, old(regs), data)
      ensures total == Bump(old(total), |data|)
    {
      total := Bump(total, |data|);
      var q := regs;
      var words := 0;
      while words < |data|
        invariant 0 <= words <= |data| && words % 64 == 0
        invariant regs == old(regs) && total == Bump(old(total), |data|)
        invariant q == Fold(f, regs, data[..words])
      {
        FoldStep(f, regs, data, words);
        q := NextBlock(big, q, data[words..words + 64], f);
        words := words + 64;
      }
      assert data[..words] == data;
      regs := q;
    }

    /** `memcpy` to the end of the buffered bytes. */
    method Append(src: seq<byte>, ghost msg: seq<byte>)
      requires Holding(msg) && buflen + |src| <= 128
      modifies this`buflen, buffer
      ensures Holding(msg + src) && buflen == old(buflen) + |src|
    {
      CopyIn(src);
      ghost var all := msg + src;
      assert buffer[..buflen + |src|] == buffer[..buflen] + buffer[buflen..buflen + |src|];
      assert all[|msg| - buflen..] == msg[|msg| - buflen..] + src;
      assert all[..|msg| - buflen] == msg[..|msg| - buflen];
      buflen := buflen + |src|;
    }

    method CopyIn(src: seq<byte>)
      requires buffer.Length == 128 && buflen + |src| <= 128
      modifies buffer
      ensures buffer[..buflen] == old(buffer[..buflen])
      ensures buffer[buflen..buflen + |src|] == src
    {
      var i := 0;
      while i < |src|
        invariant 0 <= i <= |src|
        invariant buffer[..buflen] == old(buffer[..buflen])
        invariant buffer[buflen..buflen + i] == src[..i]
      {
        buffer[buflen + i] := src[i];
        i := i + 1;
      }
    }

    method MoveDown(n: nat, end: nat)
      requires n <= end <= buffer.Length && end - n <= n
      modifies buffer
      ensures buffer[..end - n] == old(buffer[n..end])
    {
      var i := 0;
      while i < end - n
        invariant 0 <= i <= end - n
        invariant buffer[..i] == old(buffer[n..n + i])
        invariant buffer[n..end] == old(buffer[n..end])
      {
        assert buffer[n + i] == buffer[n..end][i];
        buffer[i] := buffer[n + i];
        i := i + 1;
      }
    }

    /** Processes the first `n` buffered bytes and moves the remainder to the front. */
    method Flush(n: nat, ghost msg: seq<byte>)
      requires Holding(msg) && 0 < n <= buflen && n % 64 == 0 && buflen - n <= n
      modifies this, buffer
      ensures Holding(msg) && buflen == old(buflen) - n
    {
      ghost var done := |msg| - buflen;
      assert buffer[..n] == buffer[..buflen][..n] == msg[done..done + n];
      assert buffer[n..buflen] == buffer[..buflen][n..] == msg[done + n..];
      ConsumeMore(f, msg, buflen, regs, total, n);
      ProcessBlock(buffer[..n]);
      MoveDown(n, buflen);
      buflen := buflen - n;
    }

    /** `md5_process_bytes`, on bytes that start at `address`. */
    method ProcessBytes(input: seq<byte>, address: nat, ghost msg: seq<byte>)
      requires Absorbed(msg) && |input| < UINT32
      modifies this, buffer
      ensures Absorbed(msg + input)
    {
      var pos := 0;
      assert msg == msg + input[..0];
      if buflen != 0 {
        pos := TopUp(input, msg);
      }
      pos := WholeBlocks(input, pos, address, msg);
      if pos < |input| {
        assert msg + input[..pos] + input[pos..] == msg + input;
        KeepRest(input[pos..], msg + input[..pos]);
      } else {
        assert input[..pos] == input;
      }
    }

    /** Joins the first bytes of the input to those already buffered, and processes what has become
        complete. */
    method TopUp(input: seq<byte>, ghost msg: seq<byte>) returns (add: nat)
      requires Absorbed(msg)
      modifies this, buffer
      ensures add <= |input| && Absorbed(msg + input[..add])
      ensures add < |input| ==> buflen == 0
    {
      var leftOver := buflen;
      add := if 128 - leftOver > |input| then |input| else 128 - leftOver;
      Append(input[..add], msg);
      if buflen > 64 {
        Flush(buflen - buflen % 64, msg + input[..add]);
      }
    }

    /** Moves the remaining bytes into the buffer. */
    method KeepRest(rest: seq<byte>, ghost msg: seq<byte>)
      requires Absorbed(msg) && |rest| <= 64
      modifies this, buffer
      ensures Absorbed(msg + rest)
    {
      Append(rest, msg);
      if buflen >= 64 {
        Flush(64, msg + rest);
      }
    }

    lemma NextBlocks(msg: seq<byte>, input: seq<byte>, pos: nat, n: nat)
      requires pos + n <= |input|
      ensures msg + input[..pos] + input[pos..pos + n] == msg + input[..pos + n]
    {
      assert input[..pos] + input[pos..pos + n] == input[..pos + n];
    }

    /** The loop that copies unaligned input to the buffer one block at a time. */
    method CopiedBlocks(input: seq<byte>, start: nat, ghost msg: seq<byte>) returns (pos: nat)
      requires start < |input| && buflen == 0 && Absorbed(msg + input[..start])
      modifies this, buffer
      ensures start <= pos < |input| && buflen == 0 && |input| - pos <= 64 && Absorbed(msg + input[..pos]) == true
    {
      pos := start;
      while |input| - pos > 64
        invariant start <= pos < |input| && buflen == 0 && Absorbed(msg + input[..pos]) == true
      {
        NextBlocks(msg, input, pos, 64);
        CopiedBlock(input[pos..pos + 64], msg + input[..pos]);
        pos := pos + 64;
      }
    }

    /** The whole blocks of the input. Unaligned input is copied to the buffer one block at a time,
        and its last whole block is left over. */
    method WholeBlocks(input: seq<byte>, start: nat, address: nat, ghost msg: seq<byte>) returns (pos: nat)
      requires start <= |input| < UINT32 && Absorbed(msg + input[..start])
      requires start < |input| ==> buflen == 0
      modifies this, buffer
      ensures start <= pos <= |input| && Absorbed(msg + input[..pos]) == true
      ensures pos < |input| ==> buflen == 0 && |input| - pos <= 64
    {
      pos := start;
      if |input| - pos >= 64 {
        if !unalignedOk && (address + pos) % 4 != 0 {
          pos := CopiedBlocks(input, start, msg);
        } else {
          var n := |input| - pos - (|input| - pos) % 64;
          NextBlocks(msg, input, pos, n);
          DirectBlocks(input[pos..pos + n], msg + input[..pos]);
          pos := pos + n;
        }
      }
    }

    method DirectBlocks(blocks: seq<byte>, ghost msg: seq<byte>)
      requires Absorbed(msg) && buflen == 0 && |blocks| % 64 == 0 && |blocks| < UINT32
      modifies this`regs, this`total
      ensures Absorbed(msg + blocks)
    {
      PassBlocks(f, msg, blocks, regs, total);
      ProcessBlock(blocks);
    }

    method CopiedBlock(block: seq<byte>, ghost msg: seq<byte>)
      requires Absorbed(msg) && buflen == 0 && |block| == 64
      modifies this`regs, this`total, buffer
      ensures Absorbed(msg + block)
    {
      CopyIn(block);
      assert buffer[..64] == buffer[0..64] == block;
      PassBlocks(f, msg, block, regs, total);
      ProcessBlock(buffer[..64]);
    }

    /** `md5_read_ctx`. */
    method ReadContext() returns (resbuf: seq<byte>)
      ensures resbuf == Output(regs)
    {
      HostIndependent(big, 0, 0, 0, 0, regs.a);
      HostIndependent(big, 0, 0, 0, 0, regs.b);
      HostIndependent(big, 0, 0, 0, 0, regs.c);
      HostIndependent(big, 0, 0, 0, 0, regs.d);
      resbuf := HostStore(big, Swap(big, regs.a)) + HostStore(big, Swap(big, regs.b))
        + HostStore(big, Swap(big, regs.c)) + HostStore(big, Swap(big, regs.d));
    }

    /** `md5_finish_ctx`. */
    method Finish(ghost msg: seq<byte>) returns (resbuf: seq<byte>)
      requires Absorbed(msg)
      modifies this, buffer
      ensures resbuf == Md5(msg)
    {
      ghost var done := |msg| - buflen;
      var end := Pad(msg);
      PaddedSplits(msg, done);
      ProcessBlock(buffer[..end]);
      FoldAppend(f, INITIAL, msg[..done], Padded(msg)[done..]);
      FoldIsMd5(f, INITIAL, Padded(msg));
      resbuf := ReadContext();
    }

    /** The padding and the length, written behind the buffered bytes. */
    method Pad(ghost msg: seq<byte>) returns (end: nat)
      requires Absorbed(msg)
      modifies this`total, buffer
      ensures end <= buffer.Length && end % 64 == 0
      ensures buffer[..end] == Padded(msg)[|msg| - buflen..]
    {
      var bytes := buflen;
      BumpCounts(total, bytes, |msg| - bytes);
      total := Bump(total, bytes);
      var pad := if bytes >= 56 then 64 + 56 - bytes else 56 - bytes;
      PadLengthIs(|msg| - bytes, bytes);
      var length := LengthField(|msg|);
      var tail := [0x80] + Zeros(pad - 1) + length;
      PaddedSplits(msg, |msg| - bytes);
      CopyIn(tail);
      end := bytes + pad + 8;
      assert buffer[..end] == buffer[..bytes] + buffer[bytes..bytes + |tail|];
    }

    /** The two words of the length in bits, as stored. */
    method LengthField(ghost n: nat) returns (field: seq<byte>)
      requires Is32(total) && Counter(total) == n % UINT64
      ensures field == LengthBytes(n)
    {
      LengthBytesAre(total, n);
      var low, high := BitLength(total).0 as word, BitLength(total).1 as word;
      HostIndependent(big, 0, 0, 0, 0, low);
      HostIndependent(big, 0, 0, 0, 0, high);
      field := HostStore(big, Swap(big, low)) + HostStore(big, Swap(big, high));
    }
  }

  lemma PadLengthIs(done: nat, bytes: nat)
    requires done % 64 == 0 && bytes <= 64
    ensures PadLength(done + bytes) == if bytes >= 56 then 64 + 56 - bytes else 56 - bytes
    ensures (bytes + PadLength(done + bytes) + 8) % 64 == 0
  {}

  lemma PaddedSplits(msg: seq<byte>, done: nat)
    requires done <= |msg|
    ensures |Padded(msg)| == |msg| + PadLength(|msg|) + 8
    ensures Padded(msg)[|msg|..] == [0x80] + Zeros(PadLength(|msg|) - 1) + LengthBytes(|msg|)
    ensures Padded(msg) == msg[..done] + Padded(msg)[done..]
    ensures Padded(msg)[done..] == msg[done..] + Padded(msg)[|msg|..]
  {
    var tail := [0x80] + Zeros(PadLength(|msg|) - 1) + LengthBytes(|msg|);
    assert Padded(msg) == msg + tail;
  }

  lemma {:induction false} FoldIsMd5(f: BlockFunction, q: Registers, data: seq<byte>)
    requires IsCompress(f)
    ensures Fold(f, q, data) == Fold(COMPRESS, q, data)
    decreases |data|
  {
    if |data| >= 64 {
      assert f(q, data[..64]) == Compress(q, data[..64]) == COMPRESS(q, data[..64]);
      FoldIsMd5(f, f(q, data[..64]), data[64..]);
    }
  }

  function Concat(chunks: seq<seq<byte>>): seq<byte> {
    if chunks == [] then [] else Concat(chunks[..|chunks| - 1]) + chunks[|chunks| - 1]
  }

  /** Any way of splitting a message into pieces below 2^32 bytes, at any addresses and on any
      machine, gives the digest of the whole. */
  method DigestPieces(chunks: seq<seq<byte>>, addresses: seq<nat>, big: bool, unalignedOk: bool)
    returns (digest: seq<byte>)
    requires |addresses| == |chunks| && forall i :: 0 <= i < |chunks| ==> |chunks[i]| < UINT32
    ensures digest == Md5(Concat(chunks))
  {
    var ctx := new Context(big, unalignedOk);
    var i := 0;
    while i < |chunks|
      invariant 0 <= i <= |chunks| && fresh(ctx) && fresh(ctx.buffer)
      invariant ctx.Absorbed(Concat(chunks[..i]))
    {
      assert chunks[..i + 1][..i] == chunks[..i];
      ctx.ProcessBytes(chunks[i], addresses[i], Concat(chunks[..i]));
      i := i + 1;
    }
    assert chunks[..i] == chunks;
    digest := ctx.Finish(Concat(chunks));
  }

  /** `md5_buffer`. */
  method DigestBuffer(buffer: seq<byte>, address: nat, big: bool, unalignedOk: bool) returns (digest: seq<byte>)
    requires |buffer| < UINT32
    ensures digest == Md5(buffer)
  {
    var ctx := new Context(big, unalignedOk);
    ctx.ProcessBytes(buffer, address, []);
    assert [] + buffer == buffer;
    digest := ctx.Finish(buffer);
  }
}
