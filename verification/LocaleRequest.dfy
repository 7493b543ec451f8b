/** What `_nl_make_l10nflist` is asked for, and what that inherits from (intl/l10nflist.c:167-361). */
module LocaleRequest {
  import opened Bits
  import opened LocaleFile
  import opened LocaleMask
  import opened LocaleName

  // ----- what is asked for, and what it inherits from

  datatype Request = Request(dirs: seq<string>, mask: Mask, parts: Parts, filename: string)

  predicate Absolute(language: string) {
    language != "" && language[0] == '/'
  }

  /** The directories, unless the language makes the name absolute. */
  function DirsFor(argz: string, language: string): seq<string> {
    if Absolute(language) then [] else Entries(argz, 0)
  }

  predicate Several(q: Request) {
    |q.dirs| > 1
  }

  function NameOf(q: Request): string {
    FileName(q.dirs, q.mask, q.parts, q.filename)
  }

  /** The same with the parts of `m`, in each directory. */
  function WithMask(q: Request, m: Mask): (l: seq<Request>)
    ensures |l| == if Several(q) then |q.dirs| else 1
  {
    if Several(q) then seq(|q.dirs|, k requires 0 <= k < |q.dirs| => q.(dirs := [q.dirs[k]], mask := m))
    else [q.(mask := m)]
  }

  function WithMasks(q: Request, masks: seq<Mask>): seq<Request> {
    if masks == [] then [] else WithMask(q, masks[0]) + WithMasks(q, masks[1..])
  }

  function Successors(q: Request): seq<Request> {
    WithMasks(q, Inherited(q.mask, Several(q)))
  }

  /** The pointers that a node has room for. */
  function Places(dirCount: nat, mask: Mask): nat {
    1 + dirCount * Pow2(BitCount(mask)) + if dirCount > 1 then 1 else 0
  }

  function Room(q: Request): nat {
    Places(if q.dirs == [] then 1 else |q.dirs|, q.mask)
  }

  /** Not a file, or not worth looking for. */
  predicate Decided(q: Request) {
    Several(q) || (Has(q.mask, XPG_CODESET) && Has(q.mask, XPG_NORM_CODESET))
  }

  lemma {:induction false} WithMasksCount(q: Request, masks: seq<Mask>)
    ensures |WithMasks(q, masks)| == |masks| * if Several(q) then |q.dirs| else 1
  {
    if masks != [] {
      WithMasksCount(q, masks[1..]);
    }
  }

  lemma Times(n: nat, a: nat, b: nat)
    requires a <= b
    ensures a * n <= n * b
  {}

  /** The successors and the NULL behind them never take more than was allocated. */
  lemma SuccessorsFit(q: Request)
    ensures |Successors(q)| < Room(q)
  {
    WithMasksCount(q, Inherited(q.mask, Several(q)));
    InheritedFit(q.mask, Several(q));
    Times(if Several(q) then |q.dirs| else 1, |Inherited(q.mask, Several(q))|, Pow2(BitCount(q.mask)));
  }

  // ----- which requests they are

  lemma InWithMask(q: Request, m: Mask, x: Request)
    ensures
      x in WithMask(q, m)
      <==> x.mask == m && x.parts == q.parts && x.filename == q.filename
           && if Several(q) then |x.dirs| == 1 && x.dirs[0] in q.dirs else x.dirs == q.dirs
  {
    if Several(q) && |x.dirs| == 1 && x.dirs[0] in q.dirs {
      var k :| 0 <= k < |q.dirs| && q.dirs[k] == x.dirs[0];
      assert x.dirs == [q.dirs[k]];
      assert x == q.(dirs := x.dirs, mask := m) ==> WithMask(q, m)[k] == x;
    }
  }

  lemma {:induction false} InWithMasks(q: Request, masks: seq<Mask>, x: Request)
    ensures x in WithMasks(q, masks) <==> x.mask in masks && x in WithMask(q, x.mask)
    decreases |masks|
  {
    if masks != [] {
      InWithMasks(q, masks[1..], x);
      InWithMask(q, masks[0], x);
    }
  }

  /** The successors of a request: an admissible mask, and one of several directories. */
  lemma InSuccessors(q: Request, x: Request)
    ensures
      x in Successors(q)
      <==> Admissible(x.mask, q.mask) && (Several(q) || x.mask != q.mask) && x in WithMask(q, x.mask)
  {
    InWithMasks(q, Inherited(q.mask, Several(q)), x);
    InheritedIs(q.mask, Several(q));
  }

  lemma Associative<T>(a: seq<T>, b: seq<T>, c: seq<T>)
    ensures a + (b + c) == a + b + c
  {}

  lemma {:induction false} WithMasksSplit(q: Request, a: seq<Mask>, b: seq<Mask>)
    ensures WithMasks(q, a + b) == WithMasks(q, a) + WithMasks(q, b)
  {
    if a == [] {
      assert a + b == b;
    } else {
      WithMasksSplit(q, a[1..], b);
      assert (a + b)[1..] == a[1..] + b && (a + b)[0] == a[0];
      Associative(WithMask(q, a[0]), WithMasks(q, a[1..]), WithMasks(q, b));
    }
  }

  lemma WithMasksAt(q: Request, masks: seq<Mask>, i: nat)
    requires i < |masks|
    ensures WithMasks(q, masks) == WithMasks(q, masks[..i]) + (WithMask(q, masks[i]) + WithMasks(q, masks[i + 1..]))
    ensures |WithMasks(q, masks[..i])| == i * if Several(q) then |q.dirs| else 1
  {
    var rest := masks[i..];
    assert masks == masks[..i] + rest && rest[0] == masks[i] && rest[1..] == masks[i + 1..];
    WithMasksSplit(q, masks[..i], rest);
    WithMasksCount(q, masks[..i]);
  }

  lemma InMiddle<T>(all: seq<T>, a: seq<T>, here: seq<T>, b: seq<T>, j: nat)
    requires j < |here| && all == a + (here + b)
    ensures |a| + j < |all| && all[|a| + j] == here[j]
  {}

  /** The successors go mask by mask, and for each mask directory by directory. */
  lemma SuccessorAt(q: Request, i: nat, j: nat)
    requires i < |Inherited(q.mask, Several(q))| && j < if Several(q) then |q.dirs| else 1
    ensures
      var masks, d := Inherited(q.mask, Several(q)), if Several(q) then |q.dirs| else 1;
      && 0 <= i * d + j < |Successors(q)|
      && Successors(q)[i * d + j]
         == if Several(q) then q.(dirs := [q.dirs[j]], mask := masks[i]) else q.(mask := masks[i])
  {
    var masks := Inherited(q.mask, Several(q));
    WithMasksAt(q, masks, i);
    InMiddle(
      Successors(q), WithMasks(q, masks[..i]), WithMask(q, masks[i]), WithMasks(q, masks[i + 1..]), j);
  }

  lemma Dominating(a: bv8, b: bv8, m: bv8)
    requires a & !b == 0 && b & !m == 0
    ensures a & !m == 0
    ensures a == m ==> b == m
  {}

  /** What a successor inherits from is a successor. */
  lemma Inheriting(q: Request, r: Request, x: Request)
    requires r in Successors(q) && x in Successors(r)
    ensures x in Successors(q)
  {
    InSuccessors(q, r);
    InSuccessors(r, x);
    InWithMask(q, r.mask, r);
    InWithMask(r, x.mask, x);
    Dominating(x.mask, r.mask, q.mask);
    InWithMask(q, x.mask, x);
    InSuccessors(q, x);
  }

  // ----- what the recursive calls ask for

  lemma MaskBelow(c: bv8, m: bv8, f: bv8)
    requires c & !m == 0 && c & f != 0
    ensures m & f != 0
  {}

  lemma HasBelow(c: Mask, m: Mask, f: Mask)
    requires Dominated(c, m)
    ensures Has(c, f) ==> Has(m, f)
  {
    if Has(c, f) {
      MaskBelow(c, m, f);
    }
  }

  lemma SuppliedBelow(c: Mask, m: Mask, p: Parts)
    requires Dominated(c, m) && Supplied(m, p)
    ensures Supplied(c, p)
  {
    HasBelow(c, m, TERRITORY);
    HasBelow(c, m, XPG_CODESET);
    HasBelow(c, m, XPG_NORM_CODESET);
    HasBelow(c, m, XPG_MODIFIER | CEN_AUDIENCE);
    HasBelow(c, m, CEN_SPECIAL);
    HasBelow(c, m, CEN_SPONSOR);
    HasBelow(c, m, CEN_REVISION);
  }

  /** An entry with its NUL is a list of one. */
  lemma OneEntry(argz: string, p: nat)
    requires p < |argz| && EndOf(argz, p) < |argz|
    ensures
      var one := argz[p..EndOf(argz, p) + 1];
      Closed(one) && Entries(one, 0) == [argz[p..EndOf(argz, p)]] == Entries(argz, p)[..1]
  {
    var e := EndOf(argz, p);
    var one := argz[p..e + 1];
    assert EndOf(one, 0) == e - p by {
      assert one[e - p] == '\0' && forall k :: 0 <= k < e - p ==> one[k] == argz[p + k];
    }
    assert one[0..e - p] == argz[p..e];
  }
}
