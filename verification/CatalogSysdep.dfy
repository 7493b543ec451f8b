/** The system dependent strings of a catalogue (intl/loadmsgcat.c:1055-1354): a first pass decides
    which pairs are kept and measures the memory they need, a second pass fills that memory. */
module CatalogSysdep {
  import opened CatalogHash
  import opened CatalogImage
  import opened Options

  const SEGMENTS_END: nat := 0xFFFF_FFFF
  const SIZEOF_WORD: nat := 4
  const SIZEOF_DESC: nat := 16

  /** `struct segment_pair`. */
  datatype Seg = Seg(segsize: nat, sysdepref: nat)

  type Values = seq<Option<CString>>

  /** The alternating segments of a string, from the place of the first pair on. */
  function SegsAt(img: Image, off: nat): seq<Seg>
    decreases |img.bytes| - off
  {
    if off + 8 > |img.bytes| then []
    else
      var s := Seg(img.At(off), img.At(off + 4));
      if s.sysdepref == SEGMENTS_END then [s] else [s] + SegsAt(img, off + 8)
  }

  /** Closed by the end marker. */
  predicate Closed(segs: seq<Seg>) {
    segs != [] && (segs[0].sysdepref == SEGMENTS_END ==> |segs| == 1)
    && (segs[0].sysdepref != SEGMENTS_END ==> Closed(segs[1..]))
  }

  datatype Verdict = Invalid | Dropped | Kept

  /** What the references of a string make of it: the first that is out of range makes the catalogue
      invalid, the first without a value makes the pair disappear. */
  function Judge(segs: seq<Seg>, vals: Values): Verdict {
    if segs == [] || segs[0].sysdepref == SEGMENTS_END then Kept
    else if segs[0].sysdepref >= |vals| then Invalid
    else if vals[segs[0].sysdepref].None? then Dropped
    else Judge(segs[1..], vals)
  }

  /** The bytes of the static segments. */
  function StaticSize(segs: seq<Seg>): nat {
    if segs == [] then 0 else segs[0].segsize + StaticSize(segs[1..])
  }

  /** The value of a segment, when there is one. */
  function ValueOf(vals: Values, ref: nat): CString {
    if ref < |vals| && vals[ref].Some? then vals[ref].value else []
  }

  /** The segments in order, each static one followed by the value of the one it refers to. */
  function Expand(segs: seq<Seg>, vals: Values, statics: seq<Byte>): seq<Byte> {
    if segs == [] || segs[0].segsize > |statics| then []
    else if segs[0].sysdepref == SEGMENTS_END then statics[..segs[0].segsize]
    else
      statics[..segs[0].segsize] + ValueOf(vals, segs[0].sysdepref)
      + Expand(segs[1..], vals, statics[segs[0].segsize..])
  }

  /** The bytes of memory a string needs: none if it is a single static segment. */
  function NeedFor(segs: seq<Seg>, vals: Values): nat {
    if segs == [] || segs[0].sysdepref == SEGMENTS_END then 0 else FullSize(segs, vals)
  }

  function FullSize(segs: seq<Seg>, vals: Values): nat {
    if segs == [] then 0
    else
      segs[0].segsize
      + if segs[0].sysdepref == SEGMENTS_END then 0
        else |ValueOf(vals, segs[0].sysdepref)| + FullSize(segs[1..], vals)
  }

  lemma {:induction false} ExpandSize(segs: seq<Seg>, vals: Values, statics: seq<Byte>)
    requires Closed(segs) && StaticSize(segs) <= |statics|
    ensures |Expand(segs, vals, statics)| == FullSize(segs, vals)
  {
    if segs[0].sysdepref != SEGMENTS_END {
      ExpandSize(segs[1..], vals, statics[segs[0].segsize..]);
    }
  }

  /** A `struct sysdep_string`: its segments, and the memory its static segments are taken from. */
  datatype Str = Str(segs: seq<Seg>, statics: seq<Byte>) {
    predicate Proper() {
      Closed(segs) && StaticSize(segs) <= |statics|
    }

    function Verdict(vals: Values): Verdict {
      Judge(segs, vals)
    }

    function Need(vals: Values): nat {
      NeedFor(segs, vals)
    }

    function Text(vals: Values): seq<Byte> {
      Expand(segs, vals, statics)
    }
  }

  /** The string at the place `so` of the image. */
  ghost predicate Holds(img: Image, so: nat, s: Str) {
    && so + 4 <= |img.bytes| && img.At(so) <= |img.bytes|
    && s == Str(SegsAt(img, so + 4), img.bytes[img.At(so)..]) && s.Proper()
  }

  lemma {:induction false} SegAt(img: Image, off: nat, k: nat)
    requires k < |SegsAt(img, off)|
    ensures off + 8 * k + 8 <= |img.bytes|
    ensures SegsAt(img, off)[k] == Seg(img.At(off + 8 * k), img.At(off + 8 * k + 4))
    decreases k
  {
    if k > 0 {
      SegAt(img, off + 8, k - 1);
    }
  }

  /** `*p`, which is the `k`-th pair of the string at `so`. */
  method ReadSeg(img: Image, so: nat, p: nat, ghost s: Str, ghost k: nat) returns (segsize: nat, sysdepref: nat)
    requires Holds(img, so, s) && k < |s.segs| && p == so + 4 + 8 * k
    ensures s.segs[k] == Seg(segsize, sysdepref)
  {
    SegAt(img, so + 4, k);
    segsize, sysdepref := img.At(p), img.At(p + 4);
  }

  /** The inner loop of the first pass. */
  method Measure(img: Image, so: nat, vals: Values, ghost s: Str) returns (verdict: Verdict, need: nat)
    requires Holds(img, so, s)
    ensures verdict == s.Verdict(vals) && (verdict.Kept? ==> need == s.Need(vals))
  {
    need := 0;
    var p: nat := so + 4;
    var segsize, sysdepref := ReadSeg(img, so, p, s, 0);
    if sysdepref == SEGMENTS_END {
      return Kept, 0;
    }
    ghost var k, rest := 0, s.segs;
    while true
      invariant 0 <= k < |s.segs| && p == so + 4 + 8 * k && rest == s.segs[k..] && Closed(rest)
      invariant Judge(rest, vals) == Judge(s.segs, vals)
      invariant Judge(s.segs, vals).Kept? ==> need + FullSize(rest, vals) == FullSize(s.segs, vals)
      decreases |rest|
    {
      segsize, sysdepref := ReadSeg(img, so, p, s, k);
      need := need + segsize;
      if sysdepref == SEGMENTS_END {
        return Kept, need;
      }
      if sysdepref >= |vals| {
        return Invalid, need;
      }
      if vals[sysdepref].None? {
        return Dropped, need;
      }
      need := need + |vals[sysdepref].value|;
      p := p + 8;
      k, rest := k + 1, rest[1..];
    }
  }

  /** The inner loop of the second pass that looks for missing values; it no longer checks the range
      of the references. */
  method Recheck(img: Image, so: nat, vals: Values, ghost s: Str) returns (valid: bool)
    requires Holds(img, so, s) && !s.Verdict(vals).Invalid?
    ensures valid <==> s.Verdict(vals).Kept?
  {
    var p: nat := so + 4;
    ghost var k, rest := 0, s.segs;
    while true
      invariant 0 <= k < |s.segs| && p == so + 4 + 8 * k && rest == s.segs[k..] && Closed(rest)
      invariant Judge(rest, vals) == Judge(s.segs, vals)
      decreases |rest|
    {
      var segsize, sysdepref := ReadSeg(img, so, p, s, k);
      if sysdepref == SEGMENTS_END {
        return true;
      }
      if vals[sysdepref].None? {
        return false;
      }
      p := p + 8;
      k, rest := k + 1, rest[1..];
    }
  }

  /** `memcpy`, which moves `mem` on. */
  method Append(mem: array<Byte>, pos: nat, src: seq<Byte>) returns (end: nat)
    requires pos + |src| <= mem.Length
    modifies mem
    ensures end == pos + |src| && mem[pos..end] == src
    ensures mem[..pos] == old(mem[..pos])
  {
    var i := 0;
    while i < |src|
      invariant 0 <= i <= |src| && mem[pos..pos + i] == src[..i] && mem[..pos] == old(mem[..pos])
    {
      mem[pos + i] := src[i];
      assert mem[pos..pos + i + 1] == mem[pos..pos + i] + [src[i]];
      i := i + 1;
    }
    end := pos + |src|;
  }

  /** The same, as one more piece of what has been written from `start` on. */
  method AppendTo(mem: array<Byte>, ghost start: nat, pos: nat, src: seq<Byte>, ghost done: seq<Byte>)
    returns (end: nat)
    requires start <= pos && pos + |src| <= mem.Length && mem[start..pos] == done
    modifies mem
    ensures end == pos + |src| && mem[start..end] == done + src
    ensures mem[..start] == old(mem[..start])
  {
    ghost var before := mem[..pos];
    end := Append(mem, pos, src);
    assert mem[start..end] == mem[..pos][start..] + mem[pos..end];
    assert before[start..] == done && before[..start] == old(mem[..start]);
    assert mem[..start] == mem[..pos][..start];
  }

  /** The static segment of a pair. */
  method CopyStatic(
      data: seq<Byte>, mem: array<Byte>, ghost start: nat, pos: nat, staticSegments: nat, segsize: nat,
      ghost done: seq<Byte>)
    returns (end: nat, next: nat)
    requires staticSegments + segsize <= |data|
    requires start <= pos && pos + segsize <= mem.Length && mem[start..pos] == done
    modifies mem
    ensures end == pos + segsize && next == staticSegments + segsize
    ensures mem[start..end] == done + data[staticSegments..next] && mem[..start] == old(mem[..start])
  {
    end, next := pos, staticSegments;
    if segsize > 0 {
      end := AppendTo(mem, start, pos, data[staticSegments..staticSegments + segsize], done);
      next := staticSegments + segsize;
    }
  }

  /** What is written, and what is still to be written with the pairs `rest` and the static bytes from
      `i` on, make up the string. */
  ghost predicate Remaining(done: seq<Byte>, rest: seq<Seg>, vals: Values, data: seq<Byte>, i: nat, whole: seq<Byte>) {
    && Closed(rest) && Judge(rest, vals).Kept? && i + StaticSize(rest) <= |data|
    && done + Expand(rest, vals, data[i..]) == whole
  }

  lemma LastSegment(done: seq<Byte>, rest: seq<Seg>, vals: Values, data: seq<Byte>, i: nat, whole: seq<Byte>, j: nat)
    requires Remaining(done, rest, vals, data, i, whole) && rest[0].sysdepref == SEGMENTS_END
      && j == i + rest[0].segsize
    ensures done + data[i..j] == whole
  {
    assert data[i..][..rest[0].segsize] == data[i..j];
  }

  lemma NextSegment(
    done: seq<Byte>, rest: seq<Seg>, vals: Values, data: seq<Byte>, i: nat, whole: seq<Byte>, j: nat, ref: nat,
    rest': seq<Seg>)
    requires Remaining(done, rest, vals, data, i, whole) && ref == rest[0].sysdepref != SEGMENTS_END
    requires j == i + rest[0].segsize && rest' == rest[1..]
    ensures ref < |vals| && vals[ref].Some?
    ensures Remaining(done + data[i..j] + vals[ref].value, rest', vals, data, j, whole)
    ensures FullSize(rest, vals) == rest[0].segsize + |vals[ref].value| + FullSize(rest', vals)
  {
    assert data[i..][..rest[0].segsize] == data[i..j] && data[i..][rest[0].segsize..] == data[j..];
  }

  /** The inner loop of the second pass that puts a string together. */
  method Concatenate(img: Image, so: nat, vals: Values, mem: array<Byte>, pos: nat, ghost s: Str) returns (end: nat)
    requires Holds(img, so, s) && s.Verdict(vals).Kept?
    requires pos + FullSize(s.segs, vals) <= mem.Length
    modifies mem
    ensures end == pos + FullSize(s.segs, vals)
    ensures mem[pos..end] == s.Text(vals)
    ensures mem[..pos] == old(mem[..pos])
  {
    var data, staticSegments: nat := img.bytes, img.At(so);
    var p: nat := so + 4;
    ghost var k: nat, rest, done := 0, s.segs, [];
    ghost var whole := s.Text(vals);
    end := pos;
    while true
      invariant k < |s.segs| && p == so + 4 + 8 * k && rest == s.segs[k..]
      invariant Remaining(done, rest, vals, data, staticSegments, whole) == true
      invariant pos <= end && end + FullSize(rest, vals) == pos + FullSize(s.segs, vals)
      invariant mem[pos..end] == done && mem[..pos] == old(mem[..pos])
      decreases |rest|
    {
      var segsize, sysdepref := ReadSeg(img, so, p, s, k);
      ghost var i: nat, from := staticSegments, done;
      end, staticSegments := CopyStatic(data, mem, pos, end, staticSegments, segsize, done);
      done := done + data[i..staticSegments];
      if sysdepref == SEGMENTS_END {
        LastSegment(from, rest, vals, data, i, whole, staticSegments);
        break;
      }
      NextSegment(from, rest, vals, data, i, whole, staticSegments, sysdepref, rest[1..]);
      end := AppendTo(mem, pos, end, vals[sysdepref].value, done);
      done := done + vals[sysdepref].value;
      p := p + 8;
      k, rest := k + 1, rest[1..];
    }
  }
}
