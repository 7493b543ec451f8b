/** `md5_stream` of lib/md5.c: the digest of a stream does not depend on how `fread` cuts it up. */
module Md5Stream {
  import opened Md5Spec
  import opened Md5Context

  const BLOCKSIZE: nat := 4096

  /** What one call of `fread` does: how many bytes it is ready to deliver, whether it notices that
      the end has been reached, and whether it fails. */
  datatype Delivery = Delivery(ready: nat, noticesEnd: bool, fails: bool)

  /** A stdio stream over fixed contents. The schedule is the environment's choice. */
  class Stream {
    const data: seq<byte>
    const schedule: seq<Delivery>
    var pos: nat
    var turn: nat
    var eof: bool      // feof
    var failed: bool   // ferror

    ghost predicate Valid()
      reads this
    {
      pos <= |data| && (eof ==> pos == |data|)
    }

    constructor (data: seq<byte>, schedule: seq<Delivery>)
      ensures Valid() && this.data == data && this.schedule == schedule && pos == 0 && !eof && !failed
    {
      this.data, this.schedule := data, schedule;
      pos, turn, eof, failed := 0, 0, false, false;
    }

    /** `fread (buffer + offset, 1, n, stream)`: delivers at least one byte unless the stream is at
        its end or has failed. */
    method Fread(buffer: array<byte>, offset: nat, n: nat) returns (k: nat)
      requires Valid() && 0 < n && offset + n <= buffer.Length
      modifies this, buffer
      ensures Valid() && k <= n && pos == old(pos) + k
      ensures buffer[..offset] == old(buffer[..offset])
      ensures buffer[offset..offset + k] == data[old(pos)..pos]
      ensures k == 0 ==> pos == |data| || failed
      ensures old(failed) ==> failed
    {
      var d := if turn < |schedule| then schedule[turn] else Delivery(n, true, false);
      turn := turn + 1;
      failed := failed || d.fails;
      var ready := if failed then d.ready else if d.ready == 0 then 1 else d.ready;
      k := |data| - pos;
      if k > n {
        k := n;
      }
      if k > ready {
        k := ready;
      }
      var i := 0;
      while i < k
        invariant 0 <= i <= k
        invariant buffer[..offset] == old(buffer[..offset])
        invariant buffer[offset..offset + i] == data[pos..pos + i]
        modifies buffer
      {
        buffer[offset + i] := data[pos + i];
        i := i + 1;
      }
      pos := pos + k;
      eof := eof || (k < n && pos == |data| && d.noticesEnd);
    }
  }

  /** Reads one block of BLOCKSIZE bytes; `last` when the stream ended before that, `error` when a
      read brought nothing because of an error. */
  method ReadBlock(stream: Stream, buffer: array<byte>) returns (sum: nat, last: bool, error: bool)
    requires stream.Valid() && buffer.Length == BLOCKSIZE + 72
    modifies stream, buffer
    ensures stream.Valid() && sum <= BLOCKSIZE && stream.pos == old(stream.pos) + sum
    ensures buffer[..sum] == stream.data[old(stream.pos)..stream.pos]
    ensures !last && !error ==> sum == BLOCKSIZE
    ensures last ==> stream.pos == |stream.data| || stream.failed
    ensures error ==> stream.failed
    ensures old(stream.failed) ==> stream.failed
  {
    sum, last, error := 0, false, false;
    while true
      invariant stream.Valid() && sum < BLOCKSIZE && stream.pos == old(stream.pos) + sum
      invariant buffer[..sum] == stream.data[old(stream.pos)..stream.pos]
      invariant old(stream.failed) ==> stream.failed
      decreases BLOCKSIZE - sum
    {
      var n := stream.Fread(buffer, sum, BLOCKSIZE - sum);
      assert buffer[..sum + n] == buffer[..sum] + buffer[sum..sum + n];
      sum := sum + n;
      if sum == BLOCKSIZE {
        return sum, false, false;
      }
      if n == 0 {
        return sum, true, stream.failed;
      }
      if stream.eof {
        return sum, true, false;
      }
    }
  }

  /** A block read in full goes straight to `md5_process_block`. */
  method FullBlock(ctx: Context, block: seq<byte>, ghost data: seq<byte>, ghost begin: nat, ghost done: nat)
    requires begin <= done <= |data| && ctx.Absorbed(data[begin..done]) && ctx.buflen == 0
    requires |block| == BLOCKSIZE && done + |block| <= |data| && block == data[done..done + |block|]
    modifies ctx`regs, ctx`total
    ensures ctx.Absorbed(data[begin..done + |block|])
  {
    ctx.DirectBlocks(block, data[begin..done]);
    assert data[begin..done] + block == data[begin..done + |block|];
  }

  /** Label `process_partial_block`. */
  method PartialBlock(
    ctx: Context, rest: seq<byte>, address: nat, ghost data: seq<byte>, ghost begin: nat, ghost done: nat,
    ghost end: nat)
    returns (resblock: seq<byte>)
    requires begin <= done <= end <= |data| && ctx.Absorbed(data[begin..done])
    requires |rest| <= BLOCKSIZE && rest == data[done..end]
    modifies ctx, ctx.buffer
    ensures resblock == Md5(data[begin..end])
  {
    ghost var all := data[begin..end];
    assert data[begin..done] + rest == all;
    if |rest| > 0 {
      ctx.ProcessBytes(rest, address, data[begin..done]);
    } else {
      assert data[begin..done] == all;
    }
    resblock := ctx.Finish(all);
  }

  /** The loop over full blocks; stops at the end of the stream or at an error. */
  method FullBlocks(stream: Stream, ctx: Context, buffer: array<byte>)
    returns (sum: nat, error: bool, ghost done: nat)
    requires stream.Valid() && buffer.Length == BLOCKSIZE + 72 && buffer != ctx.buffer
    requires ctx.Absorbed([]) && ctx.buflen == 0
    modifies stream, ctx, ctx.buffer, buffer
    ensures stream.Valid() && old(stream.pos) <= done && stream.pos == done + sum && sum <= BLOCKSIZE
    ensures ctx.Absorbed(stream.data[old(stream.pos)..done])
    ensures buffer[..sum] == stream.data[done..stream.pos]
    ensures error ==> stream.failed
    ensures stream.pos == |stream.data| || stream.failed
  {
    ghost var begin: nat := stream.pos;
    assert stream.data[begin..begin] == [];
    done := begin;
    var last;
    sum, last, error := ReadBlock(stream, buffer);
    while !last && !error
      invariant stream.Valid() && begin <= done && stream.pos == done + sum && sum <= BLOCKSIZE
      invariant ctx.Absorbed(stream.data[begin..done]) && ctx.buflen == 0
      invariant buffer[..sum] == stream.data[done..stream.pos]
      invariant !last && !error ==> sum == BLOCKSIZE
      invariant last ==> stream.pos == |stream.data| || stream.failed
      invariant error ==> stream.failed
      decreases |stream.data| - done
    {
      FullBlock(ctx, buffer[..sum], stream.data, begin, done);
      done := stream.pos;
      sum, last, error := ReadBlock(stream, buffer);
    }
  }

  /** `md5_stream`. */
  method DigestStream(stream: Stream, address: nat, big: bool, unalignedOk: bool)
    returns (status: nat, resblock: seq<byte>)
    requires stream.Valid()
    modifies stream
    ensures stream.Valid() && old(stream.pos) <= stream.pos
    ensures status == 0 ==> resblock == Md5(stream.data[old(stream.pos)..stream.pos])
    ensures status == 1 ==> stream.failed
    ensures !stream.failed ==> status == 0 && stream.pos == |stream.data|
  {
    var ctx := new Context(big, unalignedOk);
    var buffer := new byte[BLOCKSIZE + 72](_ => 0);
    ghost var begin := stream.pos;
    ghost var done;
    var sum, error;
    sum, error, done := FullBlocks(stream, ctx, buffer);
    if error {
      return 1, [];
    }
    resblock := PartialBlock(ctx, buffer[..sum], address, stream.data, begin, done, stream.pos);
    status := 0;
  }
}
