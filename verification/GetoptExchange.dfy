/** `exchange` of lib/getopt.c: two adjacent blocks of an array change places, in place. */
module GetoptExchange {

  /** Where the element at `k` comes from when the blocks [p..p+len) and [q..q+len) are swapped. */
  function SwapSource(p: nat, q: nat, len: nat, k: nat): nat
    requires p + len <= q
  {
    if p <= k < p + len then k - p + q
    else if q <= k < q + len then k - q + p
    else k
  }

  function Swapped<T>(xs: seq<T>, p: nat, q: nat, len: nat): (r: seq<T>)
    requires p + len <= q && q + len <= |xs|
    ensures |r| == |xs|
  {
    seq(|xs|, k requires 0 <= k < |xs| => xs[SwapSource(p, q, len, k)])
  }

  /** Where it comes from when the blocks [first..last) and [last..end) change places. */
  function RotateSource(first: nat, last: nat, end: nat, k: nat): nat
    requires first <= last <= end
  {
    if k < first || end <= k then k
    else if k < first + (end - last) then k - first + last
    else k - (end - last)
  }

  /** `xs` with its blocks [first..last) and [last..end) exchanged. */
  function Rotated<T>(xs: seq<T>, first: nat, last: nat, end: nat): (r: seq<T>)
    requires first <= last <= end <= |xs|
    ensures |r| == |xs|
  {
    seq(|xs|, k requires 0 <= k < |xs| => xs[RotateSource(first, last, end, k)])
  }

  /** Order is kept inside both blocks and everything outside stays in place. */
  lemma RotatedBlocks<T>(xs: seq<T>, first: nat, last: nat, end: nat)
    requires first <= last <= end <= |xs|
    ensures Rotated(xs, first, last, end) == xs[..first] + xs[last..end] + xs[first..last] + xs[end..]
  {}

  method SwapBlocks<T>(argv: array<T>, p: nat, q: nat, len: nat)
    requires p + len <= q && q + len <= argv.Length
    modifies argv
    ensures argv[..] == Swapped(old(argv[..]), p, q, len)
  {
    ghost var xs := argv[..];
    var i := 0;
    while i < len
      invariant 0 <= i <= len
      invariant forall k :: p <= k < p + i ==> argv[k] == xs[k - p + q]
      invariant forall k :: q <= k < q + i ==> argv[k] == xs[k - q + p]
      invariant forall k :: 0 <= k < argv.Length && !(p <= k < p + i) && !(q <= k < q + i) ==> argv[k] == xs[k]
    {
      var tem := argv[p + i];
      argv[p + i] := argv[q + i];
      argv[q + i] := tem;
      i := i + 1;
    }
    assert forall k :: 0 <= k < argv.Length ==> argv[..][k] == Swapped(xs, p, q, len)[k];
  }

  /** Swapping the short bottom block with the top of the top block leaves a smaller exchange with
      the same result. */
  lemma ShortBottom<T>(xs: seq<T>, bottom: nat, middle: nat, top: nat, len: nat, top': nat)
    requires bottom <= middle <= top <= |xs| && len == middle - bottom && top' == top - len > middle
    ensures Rotated(Swapped(xs, bottom, top', len), bottom, middle, top') == Rotated(xs, bottom, middle, top)
  {}

  /** The same for a short top block. */
  lemma ShortTop<T>(xs: seq<T>, bottom: nat, middle: nat, top: nat, len: nat, bottom': nat)
    requires bottom <= middle <= top <= |xs| && len == top - middle && bottom' == bottom + len <= middle
    ensures Rotated(Swapped(xs, bottom, middle, len), bottom', middle, top) == Rotated(xs, bottom, middle, top)
  {}

  lemma RotatedNothing<T>(xs: seq<T>, bottom: nat, middle: nat, top: nat)
    requires bottom <= middle <= top <= |xs| && (bottom == middle || middle == top)
    ensures Rotated(xs, bottom, middle, top) == xs
  {}

  method Exchange<T>(argv: array<T>, first: nat, last: nat, optind: nat)
    requires first <= last <= optind <= argv.Length
    modifies argv
    ensures argv[..] == Rotated(old(argv[..]), first, last, optind)
  {
    var bottom: nat, middle: nat, top: nat := first, last, optind;
    while top > middle > bottom
      invariant bottom <= middle <= top <= argv.Length
      invariant Rotated(argv[..], bottom, middle, top) == Rotated(old(argv[..]), first, last, optind)
      decreases top - bottom
    {
      ghost var xs := argv[..];
      if top - middle > middle - bottom {
        var len := middle - bottom;
        var top' := top - len;
        SwapBlocks(argv, bottom, top', len);
        ShortBottom(xs, bottom, middle, top, len, top');
        top := top';
      } else {
        var len := top - middle;
        var bottom' := bottom + len;
        SwapBlocks(argv, bottom, middle, len);
        ShortTop(xs, bottom, middle, top, len, bottom');
        bottom := bottom';
      }
    }
    RotatedNothing(argv[..], bottom, middle, top);
  }
}
