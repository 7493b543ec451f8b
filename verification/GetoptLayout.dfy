/** Where the elements of the argument vector are while getopt permutes it. */
module GetoptLayout {
  import opened GetoptSpec
  import opened GetoptExchange

  /** `cur` is the vector `orig` as rearranged so far. The elements from `start` to `i` have been
      scanned, with `m` telling which of them were options; the non-options among them are kept
      together in [first..last), the others precede and follow in order. */
  ghost predicate Layout(
    orig: seq<string>, cur: seq<string>, start: nat, first: nat, last: nat, i: nat, m: seq<bool>)
  {
    && |cur| == |orig| && start <= first <= last <= i <= |orig| && |m| == i - start
    && (forall k :: 0 <= k < start || i <= k < |orig| ==> cur[k] == orig[k])
    && forall b :: Select(orig[start..i], m, b) == if b then cur[start..first] + cur[last..i] else cur[first..last]
  }

  lemma LayoutInitially(orig: seq<string>, i: nat)
    requires i <= |orig|
    ensures Layout(orig, orig, i, i, i, i, [])
  {}

  lemma SameBehind(a: seq<string>, b: seq<string>, i: nat, j: nat)
    requires |a| == |b| && i <= j <= |a| && a[i..] == b[i..]
    ensures a[i..j] == b[i..j] && a[j..] == b[j..]
  {
    assert b[i..j] == b[i..][..j - i] && a[i..j] == a[i..][..j - i];
    assert b[j..] == b[i..][j - i..] && a[j..] == a[i..][j - i..];
  }

  /** Scanning on to `j` without rearranging anything. */
  lemma ScanOn(orig: seq<string>, cur: seq<string>, start: nat, i: nat, m: seq<bool>, j: nat, b: bool, c: seq<bool>)
    requires |cur| == |orig| && start <= i <= j <= |orig| && |m| == i - start
    requires cur[i..] == orig[i..] && c == Copies(b, j - i)
    ensures cur[i..j] == orig[i..j] && cur[j..] == orig[j..]
    ensures Select(orig[start..j], m + c, b) == Select(orig[start..i], m, b) + orig[i..j]
    ensures Select(orig[start..j], m + c, !b) == Select(orig[start..i], m, !b)
  {
    assert orig[start..j] == orig[start..i] + orig[i..j];
    SelectAppend(orig[start..i], m, orig[i..j], c, b);
    SelectAppend(orig[start..i], m, orig[i..j], c, !b);
    SelectCopies(orig[i..j], b, b);
    SelectCopies(orig[i..j], !b, b);
    SameBehind(orig, cur, i, j);
  }

  /** Elements up to `j` are taken as options. */
  lemma TakeOptions(
    orig: seq<string>, cur: seq<string>, start: nat, first: nat, last: nat, i: nat, m: seq<bool>, j: nat, c: seq<bool>)
    requires Layout(orig, cur, start, first, last, i, m) && i <= j <= |orig| && c == Copies(true, j - i)
    ensures Layout(orig, cur, start, first, last, j, m + c)
  {
    ScanOn(orig, cur, start, i, m, j, true, c);
    assert cur[last..j] == cur[last..i] + cur[i..j];
  }

  /** Elements up to `j` are left as non-options, directly behind those already kept. */
  lemma LeaveNonOptions(
    orig: seq<string>, cur: seq<string>, start: nat, first: nat, i: nat, m: seq<bool>, j: nat, c: seq<bool>)
    requires Layout(orig, cur, start, first, i, i, m) && i <= j <= |orig| && c == Copies(false, j - i)
    ensures Layout(orig, cur, start, first, j, j, m + c)
  {
    ScanOn(orig, cur, start, i, m, j, false, c);
    assert cur[first..j] == cur[first..i] + cur[i..j];
  }

  /** After `exchange`, the kept non-options end where the scan stands. */
  lemma ExchangeLayout(
    orig: seq<string>, cur: seq<string>, start: nat, first: nat, last: nat, i: nat, m: seq<bool>, first': nat)
    requires Layout(orig, cur, start, first, last, i, m) && first' == first + (i - last)
    ensures Layout(orig, Rotated(cur, first, last, i), start, first', i, i, m)
  {
    RotatedBlocks(cur, first, last, i);
    var r := Rotated(cur, first, last, i);
    assert r[..start] == cur[..start];
    assert r[start..first'] == cur[start..first] + cur[last..i];
    assert r[first'..i] == cur[first..last];
    assert r[i..] == cur[i..];
  }

  /** With nothing kept, the range of kept non-options can be put anywhere. */
  lemma EmptyRange(
    orig: seq<string>, cur: seq<string>, start: nat, first: nat, i: nat, m: seq<bool>)
    requires Layout(orig, cur, start, first, first, i, m)
    ensures Layout(orig, cur, start, i, i, i, m)
  {
    assert cur[start..i] == cur[start..first] + cur[first..i];
  }

  /** The state at the end of a scan: a stable partition, with `optind` at the first non-option. */
  ghost predicate Finished(orig: seq<string>, cur: seq<string>, start: nat, m: seq<bool>, optind: nat) {
    && start <= |orig| && |m| == |orig| - start
    && cur == orig[..start] + Partition(orig[start..], m)
    && optind == start + |Select(orig[start..], m, true)|
  }

  lemma FinishedAtEnd(
    orig: seq<string>, cur: seq<string>, start: nat, first: nat, last: nat, m: seq<bool>, optind: nat)
    requires Layout(orig, cur, start, first, last, |orig|, m) && (last == |orig| || first == last)
    requires optind == if first != last then first else |orig|
    ensures Finished(orig, cur, start, m, optind)
  {
    var t, f := Select(orig[start..], m, true), Select(orig[start..], m, false);
    assert orig[start..|orig|] == orig[start..];
    assert t == cur[start..first] + cur[last..|orig|] && f == cur[first..last];
    assert orig[..start] == cur[..start];
    if first == last {
      assert cur == cur[..start] + (cur[start..first] + cur[first..]);
    } else {
      assert t == cur[start..first] && f == cur[first..];
      assert cur == cur[..start] + (cur[start..first] + cur[first..]);
    }
  }

  /** A scan that stops at a non-option it has not passed. */
  lemma FinishedInOrder(orig: seq<string>, cur: seq<string>, start: nat, first: nat, i: nat, m: seq<bool>, c: seq<bool>)
    requires Layout(orig, cur, start, first, first, i, m) && c == Copies(false, |orig| - i)
    ensures Finished(orig, cur, start, m + c, i)
  {
    EmptyRange(orig, cur, start, first, i, m);
    LeaveNonOptions(orig, cur, start, i, i, m, |orig|, c);
    SelectLengths(orig[start..i], m);
    FinishedAtEnd(orig, cur, start, i, |orig|, m + c, i);
  }
}
