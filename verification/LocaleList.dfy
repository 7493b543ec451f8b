/** The list of locale files (intl/l10nflist.c:167-361): descending by name, each node with the nodes it
    inherits from. (A clause `P(...) == true` says `P(...)`; as an equation it is carried along as a whole.) */
module LocaleList {
  import opened LocaleFile
  import opened LocaleListing
  import opened LocaleMask
  import opened LocaleName
  import opened LocaleRequest
  import opened Options
  import opened StringOrder

  /** `struct loaded_l10nfile`; the pointers at its end are those it was allocated with. */
  class Node {
    const filename: string
    const decided: bool
    const room: nat
    var successor: seq<Node?>
    ghost const request: Request

    constructor (filename: string, decided: bool, room: nat, ghost request: Request)
      ensures this.filename == filename && this.decided == decided && this.room == room && this.request == request
      ensures |successor| == room
    {
      this.filename, this.decided, this.room, this.request := filename, decided, room, request;
      successor := seq(room, _ => null);
    }
  }

  /** The first pointers of a node lead to nodes with the names. */
  ghost predicate Leads(f: Family, n: Node, l: seq<Request>, count: nat, nodes: seq<Node>)
    reads n
  {
    && count <= |l| && count <= |n.successor|
    && forall k :: 0 <= k < count ==>
         && n.successor[k] != null && n.successor[k] in nodes && n.successor[k].filename == f.name(l[k])
  }

  /** A node that is done: its pointers lead to what it inherits from, with a NULL behind them. */
  ghost predicate Done(f: Family, n: Node, nodes: seq<Node>)
    reads n
  {
    var l := f.next(n.request);
    && Leads(f, n, l, |l|, nodes) && |l| < |n.successor| == n.room && n.successor[|l|] == null
  }

  ghost predicate Descending(f: Family, nodes: seq<Node>) {
    forall i, j {:trigger f.above(nodes[i].filename, nodes[j].filename)} ::
      0 <= i < j < |nodes| ==> f.above(nodes[i].filename, nodes[j].filename)
  }

  /** A node carries the name of what it is for, and was allocated for it. */
  ghost predicate Named(f: Family, n: Node) {
    n.filename == f.name(n.request) && n.room == f.room(n.request) && n.decided == f.decided(n.request)
  }

  /** The nodes carry their names, and are done but for those still `open`. */
  ghost predicate AllDone(f: Family, nodes: seq<Node>, open: set<Node>)
    reads nodes
  {
    forall n {:trigger Named(f, n)} {:trigger Done(f, n, nodes)} ::
      n in nodes ==> Named(f, n) && (n !in open ==> Done(f, n, nodes))
  }

  ghost predicate Contains(a: seq<Node>, b: seq<Node>) {
    forall n :: n in b ==> n in a
  }

  /** The list keeps what it has, and what is new is for one of the requests. */
  ghost predicate Extends(a: seq<Node>, b: seq<Node>, l: seq<Request>) {
    Contains(a, b) && forall n :: n in a ==> n in b || n.request in l
  }

  /** What the requests inherit from is among them. */
  ghost predicate Hereditary(f: Family, l: seq<Request>) {
    forall q, r :: q in l && r in f.next(q) ==> r in l
  }

  lemma ExtendsBelow(f: Family, a: seq<Node>, b: seq<Node>, q: Request, l: seq<Request>)
    requires Extends(a, b, [q] + f.next(q)) && Hereditary(f, l) && q in l
    ensures Extends(a, b, l)
  {}

  lemma ExtendsInserted(a: seq<Node>, b: seq<Node>, i: nat, node: Node, l: seq<Request>)
    requires i <= |b| && Extends(a, b[..i] + [node] + b[i..], l)
    ensures Extends(a, b, [node.request] + l)
  {
    var now := b[..i] + [node] + b[i..];
    assert b == b[..i] + b[i..] && forall n :: n in now <==> n in b || n == node;
  }

  lemma ExtendsFurther(a: seq<Node>, b: seq<Node>, c: seq<Node>, l: seq<Request>)
    requires Extends(a, b, l) == true && Extends(b, c, l) == true
    ensures Extends(a, c, l)
  {}

  lemma SuccessorsHereditary(f: Family, q: Request)
    requires Real(f)
    ensures Hereditary(f, f.next(q))
  {
    assert f.next(q) == Successors(q);
    forall r, s | r in f.next(q) && s in f.next(r) ensures s in f.next(q) {
      assert f.next(r) == Successors(r);
      Inheriting(q, r, s);
    }
  }

  ghost predicate Listed(nodes: seq<Node>, name: string) {
    exists n :: n in nodes && n.filename == name
  }

  /** The nodes as a listing. */
  ghost predicate Lists(f: Family, nodes: seq<Node>, listing: Listing) {
    && (forall n :: n in nodes ==> n.filename in listing && listing[n.filename] == f.entry(n.request))
    && forall name {:trigger Listed(nodes, name)} :: name in listing ==> Listed(nodes, name)
  }

  lemma InsertedLists(f: Family, nodes: seq<Node>, i: nat, node: Node, listing: Listing)
    requires Lists(f, nodes, listing) && i <= |nodes| && node.filename !in listing
    ensures Lists(f, nodes[..i] + [node] + nodes[i..], listing[node.filename := f.entry(node.request)])
  {
    var now := nodes[..i] + [node] + nodes[i..];
    assert nodes == nodes[..i] + nodes[i..] && node in now;
    assert forall n :: n in now <==> n in nodes || n == node;
    forall name | name in listing || name == node.filename ensures Listed(now, name) {
      if name in listing {
        assert Listed(nodes, name);
      }
    }
  }

  /** A name that is found is entered already. */
  lemma EnterFound(f: Family, nodes: seq<Node>, listing: Listing, q: Request, i: nat)
    requires Real(f) && Lists(f, nodes, listing) && i < |nodes| && nodes[i].filename == f.name(q)
    ensures f.enter(listing, q) == listing
  {
    assert nodes[i] in nodes;
    EnterThere(f, listing, q);
  }

  lemma NotListed(f: Family, nodes: seq<Node>, listing: Listing, name: string)
    requires Lists(f, nodes, listing) && !Listed(nodes, name)
    ensures name !in listing
  {}

  lemma LeadsMore(f: Family, n: Node, l: seq<Request>, count: nat, a: seq<Node>, b: seq<Node>)
    requires Leads(f, n, l, count, a) && Contains(b, a)
    ensures Leads(f, n, l, count, b)
  {}

  lemma DoneMore(f: Family, n: Node, a: seq<Node>, b: seq<Node>)
    requires Done(f, n, a) && Contains(b, a)
    ensures Done(f, n, b)
  {
    LeadsMore(f, n, f.next(n.request), |f.next(n.request)|, a, b);
  }

  lemma InsertedInOrder(f: Family, nodes: seq<Node>, i: nat, node: Node)
    requires Descending(f, nodes) && i <= |nodes|
    requires forall k :: 0 <= k < i ==> f.above(nodes[k].filename, node.filename)
    requires forall k :: i <= k < |nodes| ==> f.above(node.filename, nodes[k].filename)
    ensures Descending(f, nodes[..i] + [node] + nodes[i..])
  {}

  lemma InsertedDone(f: Family, nodes: seq<Node>, i: nat, node: Node, open: set<Node>)
    requires AllDone(f, nodes, open) && i <= |nodes| && Named(f, node)
    ensures AllDone(f, nodes[..i] + [node] + nodes[i..], open + {node})
  {
    var now := nodes[..i] + [node] + nodes[i..];
    assert nodes == nodes[..i] + nodes[i..];
    forall n | n in nodes && n !in open ensures Done(f, n, now) {
      DoneMore(f, n, nodes, now);
    }
  }

  lemma Finished(f: Family, nodes: seq<Node>, node: Node, open: set<Node>)
    requires AllDone(f, nodes, open + {node}) && Done(f, node, nodes)
    ensures AllDone(f, nodes, open)
  {}

  lemma NotThere(f: Family, nodes: seq<Node>, i: nat, name: string)
    requires Real(f) && i <= |nodes|
    requires forall k :: 0 <= k < i ==> f.above(nodes[k].filename, name)
    requires forall k :: i <= k < |nodes| ==> f.above(name, nodes[k].filename)
    ensures forall n :: n in nodes ==> n.filename != name
  {
    assert !(Strcmp(name, name) > 0);
    forall n | n in nodes ensures n.filename != name {
      var k :| 0 <= k < |nodes| && nodes[k] == n;
      assert f.above(nodes[k].filename, name) || f.above(name, nodes[k].filename);
    }
  }

  lemma AllBelow(f: Family, nodes: seq<Node>, i: nat, name: string)
    requires Real(f) && Descending(f, nodes) && i < |nodes| && Strcmp(nodes[i].filename, name) < 0
    ensures forall k :: i <= k < |nodes| ==> f.above(name, nodes[k].filename)
  {
    StrcmpReversed(nodes[i].filename, name);
    assert f.above(name, nodes[i].filename);
    forall k | i < k < |nodes| ensures f.above(name, nodes[k].filename) {
      assert f.above(nodes[i].filename, nodes[k].filename);
      assert Strcmp(nodes[i].filename, nodes[k].filename) > 0;
      StrcmpTransitive(name, nodes[i].filename, nodes[k].filename);
    }
  }

  /** From `start` on the requests are for the directories, one after the other. */
  ghost predicate ForEach(l: seq<Request>, start: nat, q: Request, cnt: Mask) {
    && Several(q) && start + |q.dirs| <= |l|
    && forall end {:trigger l[start..end]} :: end == start + |q.dirs| ==> l[start..end] == WithMask(q, cnt)
  }

  /** The directories from the k-th on are those of the list from `dir` on. */
  ghost predicate Reached(dirs: seq<string>, k: nat, dirlist: string, dir: Option<nat>) {
    && k <= |dirs| && (dir.Some? ==> dir.value < |dirlist|)
    && forall n {:trigger dirs[n..]} :: n == k ==> EntriesAt(dirlist, dir) == dirs[n..]
  }

  lemma ReachedFirst(dirs: seq<string>, dirlist: string, dir: Option<nat>)
    requires (dir.Some? ==> dir.value < |dirlist|) && EntriesAt(dirlist, dir) == dirs
    ensures Reached(dirs, 0, dirlist, dir)
  {}

  lemma ReachedEnd(dirs: seq<string>, k: nat, dirlist: string, dir: Option<nat>)
    requires Reached(dirs, k, dirlist, dir) == true
    ensures dir.Some? <==> k < |dirs|
  {
    assert |dirs[k..]| == |dirs| - k;
  }

  lemma ReachedNext(dirs: seq<string>, k: nat, dirlist: string, dir: nat, next: Option<nat>)
    requires Reached(dirs, k, dirlist, Some(dir)) == true && k < |dirs|
    requires (next.Some? ==> next.value < |dirlist|) && EntriesAt(dirlist, next) == EntriesAt(dirlist, Some(dir))[1..]
    ensures Reached(dirs, k + 1, dirlist, next)
  {
    assert dirs[k..][1..] == dirs[k + 1..];
  }

  /** The request for the k-th directory, with its entry as a list of its own. */
  lemma ReachedOne(
    l: seq<Request>, start: nat, q: Request, cnt: Mask, k: nat, dirlist: string, dir: nat, one: string)
    requires ForEach(l, start, q, cnt) == true && Reached(q.dirs, k, dirlist, Some(dir)) == true && k < |q.dirs|
    requires EndOf(dirlist, dir) < |dirlist| && one == dirlist[dir..EndOf(dirlist, dir) + 1]
    requires !Absolute(q.parts.language)
    ensures start + k < |l| && Closed(one) && |DirsFor(one, q.parts.language)| == 1
    ensures l[start + k] == q.(dirs := DirsFor(one, q.parts.language), mask := cnt)
  {
    OneEntry(dirlist, dir);
    var end := start + |q.dirs|;
    assert l[start + k] == l[start..end][k];
    assert Entries(dirlist, dir) == q.dirs[k..] && q.dirs[k..][..1] == [q.dirs[k]];
  }

  /** What is left of the successors when `cnt` is next. */
  ghost predicate Left(l: seq<Request>, entries: nat, q: Request, more: bool, cnt: Mask) {
    entries <= |l| && l[entries..] == if more then WithMasks(q, From(q.mask, cnt)) else []
  }

  function PartFor(q: Request, cnt: Mask): seq<Request> {
    if Admissible(cnt, q.mask) then WithMask(q, cnt) else []
  }

  lemma Tail<T>(l: seq<T>, e: nat, here: seq<T>, rest: seq<T>)
    requires e <= |l| && l[e..] == here + rest
    ensures e + |here| <= |l| && l[e..e + |here|] == here && l[e + |here|..] == rest
  {
    assert l[e..e + |here|] == l[e..][..|here|];
    assert l[e + |here|..] == l[e..][|here|..];
  }

  lemma WithMasksFirst(q: Request, cnt: Mask)
    ensures
      WithMasks(q, From(q.mask, cnt)) == PartFor(q, cnt) + if cnt == 0 then [] else WithMasks(q, From(q.mask, cnt - 1))
  {
    var rest := if cnt == 0 then [] else From(q.mask, cnt - 1);
    if Admissible(cnt, q.mask) {
      assert From(q.mask, cnt)[1..] == rest;
    } else {
      assert From(q.mask, cnt) == rest;
    }
  }

  lemma LeftNext(l: seq<Request>, entries: nat, q: Request, cnt: Mask) returns (part: seq<Request>)
    requires Left(l, entries, q, true, cnt)
    ensures entries + |part| <= |l| && l[entries..entries + |part|] == part == PartFor(q, cnt)
    ensures Left(l, entries + |part|, q, cnt != 0, if cnt != 0 then cnt - 1 else cnt)
  {
    part := PartFor(q, cnt);
    WithMasksFirst(q, cnt);
    Tail(l, entries, part, if cnt == 0 then [] else WithMasks(q, From(q.mask, cnt - 1)));
  }

  lemma LeftNone(l: seq<Request>, entries: nat, q: Request, cnt: Mask)
    requires Left(l, entries, q, false, cnt)
    ensures entries == |l|
  {
    assert |l[entries..]| == 0;
  }

  lemma LeftFirst(q: Request, l: seq<Request>, more: bool, cnt: Mask)
    requires l == Successors(q)
    requires more <==> Several(q) || q.mask != 0
    requires cnt == if Several(q) || q.mask == 0 then q.mask else q.mask - 1
    ensures Left(l, 0, q, more, cnt)
  {
    assert l[0..] == l;
  }

  method NewNode(dirlist: string, mask: Mask, name: string, ghost q: Request) returns (node: Node)
    requires Closed(dirlist) && q.dirs == Entries(dirlist, 0) && q.mask == mask
    ensures fresh(node) && node.filename == name && node.request == q && node.room == Room(q)
    ensures |Successors(q)| < |node.successor| == node.room
    ensures node.decided == Decided(q)
  {
    var count := 1;
    if |dirlist| > 0 {
      count := ArgzCount(dirlist);
    }
    var decided := count > 1 || (Has(mask, XPG_CODESET) && Has(mask, XPG_NORM_CODESET));
    node := new Node(name, decided, Places(count, mask), q);
    SuccessorsFit(q);
  }

  /** Where the loop over the masks begins. */
  method Begin(dirlist: string, mask: Mask, ghost q: Request, ghost l: seq<Request>)
    returns (count: nat, more: bool, cnt: Mask)
    requires Closed(dirlist) && q.dirs == Entries(dirlist, 0) && q.mask == mask && l == Successors(q)
    ensures count == (if q.dirs == [] then 1 else |q.dirs|) && Left(l, 0, q, more, cnt)
    ensures more && !Several(q) ==> cnt < mask
  {
    count := 1;
    if |dirlist| > 0 {
      count := ArgzCount(dirlist);
    }
    more := count > 1 || mask != 0;
    cnt := if count > 1 || mask == 0 then mask else mask - 1;
    LeftFirst(q, l, more, cnt);
  }

  /** What a new node is to be filled with, and the list as it was then. */
  datatype Work = Work(q: Request, l: seq<Request>, open: set<Node>, nodes: seq<Node>, listing: Listing)

  class L10nList {
    var nodes: seq<Node>
    ghost var listing: Listing
    ghost const f: Family

    constructor ()
      ensures nodes == [] && listing == map[] && Valid({})
    {
      nodes, listing := [], map[];
      f := Family(NameOf, Room, Successors, Decided, (a, b) => Strcmp(a, b) > 0, EntryOf, Enter, EnterFirst);
    }

    /** In order without duplicates, and all nodes done but those still `open`. */
    ghost predicate Valid(open: set<Node>)
      reads this, nodes
    {
      Real(f) && Descending(f, nodes) && AllDone(f, nodes, open) && Lists(f, nodes, listing)
    }

    /** Where the name is, or where it belongs. */
    method Find(name: string) returns (i: nat, found: bool)
      requires Real(f) && Descending(f, nodes)
      ensures i <= |nodes| && (found ==> i < |nodes| && nodes[i].filename == name)
      ensures !found ==> forall k :: 0 <= k < i ==> f.above(nodes[k].filename, name)
      ensures !found ==> forall k :: i <= k < |nodes| ==> f.above(name, nodes[k].filename)
    {
      i, found := 0, false;
      while i < |nodes|
        invariant i <= |nodes| && forall k :: 0 <= k < i ==> f.above(nodes[k].filename, name)
      {
        var compare := Strcmp(nodes[i].filename, name);
        if compare == 0 {
          return i, true;
        }
        if compare < 0 {
          AllBelow(f, nodes, i, name);
          return i, false;
        }
        i := i + 1;
      }
    }

    /** A new node, at its place in the list. */
    method Insert(i: nat, node: Node, ghost open: set<Node>)
      requires i <= |nodes| && Valid(open) && Named(f, node) && node.filename !in listing
      requires forall k :: 0 <= k < i ==> f.above(nodes[k].filename, node.filename)
      requires forall k :: i <= k < |nodes| ==> f.above(node.filename, nodes[k].filename)
      modifies this
      ensures nodes == old(nodes[..i]) + [node] + old(nodes[i..]) && Valid(open + {node})
      ensures listing == old(listing)[node.filename := f.entry(node.request)]
    {
      InsertedLists(f, nodes, i, node, listing);
      InsertedInOrder(f, nodes, i, node);
      InsertedDone(f, nodes, i, node, open);
      nodes := nodes[..i] + [node] + nodes[i..];
      listing := listing[node.filename := f.entry(node.request)];
    }

    /** A node that has its first successors. */
    ghost predicate Filling(node: Node, entries: nat, w: Work)
      reads this, node, nodes
    {
      forall now {:trigger Extends(now, w.nodes, w.l)} :: now == nodes ==>
        && w.l == f.next(w.q) && listing == f.enterFirst(w.listing, w.q, entries) && Extends(now, w.nodes, w.l)
        && Valid(w.open) && node in nodes && node in w.open && Leads(f, node, w.l, entries, nodes)
        && |w.l| < |node.successor| == node.room
    }

    lemma FillingNone(node: Node, w: Work)
      requires Valid(w.open) && node in nodes && node in w.open && w.l == f.next(w.q)
      requires w.nodes == nodes && w.listing == listing && |w.l| < |node.successor| == node.room
      ensures Filling(node, 0, w)
    {
      EnterFirstNone(f, listing, w.q);
      assert Leads(f, node, w.l, 0, nodes) && Extends(nodes, w.nodes, w.l);
      forall now {:trigger Extends(now, w.nodes, w.l)} | now == nodes ensures Extends(now, w.nodes, w.l) {}
    }

    /** One more successor. */
    method Store(node: Node, entries: nat, child: Node, ghost l: seq<Request>, ghost open: set<Node>)
      requires Valid(open) && node in open && Leads(f, node, l, entries, nodes)
      requires entries < |l| < |node.successor| && child in nodes && child.filename == f.name(l[entries])
      modifies node
      ensures Valid(open) == true && Leads(f, node, l, entries + 1, nodes) == true
      ensures |node.successor| == old(|node.successor|)
    {
      node.successor := node.successor[entries := child];
      assert forall k :: 0 <= k < entries ==> node.successor[k] == old(node.successor[k]);
    }

    /** The NULL behind the successors. */
    method End(node: Node, entries: nat, ghost w: Work)
      requires Filling(node, entries, w) == true && entries == |w.l| && w.q == node.request
      modifies node
      ensures Valid(w.open) == true && Done(f, node, nodes) == true && Extends(nodes, w.nodes, w.l) == true
      ensures listing == f.enterFirst(w.listing, w.q, entries)
    {
      assert Extends(nodes, w.nodes, w.l);
      node.successor := node.successor[entries := null];
      assert Leads(f, node, w.l, entries, nodes);
    }

    /** `_nl_make_l10nflist`. */
    method Make(argz: string, mask: Mask, p: Parts, filename: string, doAllocate: bool, ghost open: set<Node>)
      returns (r: Node?)
      requires Closed(argz) && Supplied(mask, p) && Valid(open)
      modifies this
      ensures Valid(open) == true
      ensures
        var q := Request(DirsFor(argz, p.language), mask, p, filename);
        && Extends(nodes, old(nodes), [q] + f.next(q)) == true
        && listing == if doAllocate then f.enter(old(listing), q) else old(listing)
      ensures
        var q := Request(DirsFor(argz, p.language), mask, p, filename);
        && (r == null ==> !doAllocate && nodes == old(nodes) && forall n :: n in nodes ==> n.filename != NameOf(q))
        && (r != null ==> r in nodes && r.filename == NameOf(q))
        && (r != null && r in old(nodes) ==> nodes == old(nodes))
        && (r != null && r !in old(nodes) ==>
             doAllocate && r.request == q && forall n :: n in old(nodes) ==> n.filename != NameOf(q))
      decreases |DirsFor(argz, p.language)| > 1, mask, 9
    {
      var dirlist := if Absolute(p.language) then "" else argz;
      ghost var q := Request(DirsFor(argz, p.language), mask, p, filename);
      var absFilename := BuildFileName(dirlist, mask, p, filename);
      var name := absFilename[..absFilename.Length - 1];
      assert name == NameOf(q);
      var i, found := Find(name);
      if found {
        EnterFound(f, nodes, listing, q, i);
        return nodes[i];
      }
      NotThere(f, nodes, i, name);
      if !doAllocate {
        return null;
      }
      r := Add(i, name, dirlist, mask, p, filename, q, open);
    }

    /** A new node for the name, at its place, with what it inherits from. */
    method Add(
      i: nat, name: string, dirlist: string, mask: Mask, p: Parts, filename: string, ghost q: Request,
      ghost open: set<Node>)
      returns (node: Node)
      requires Closed(dirlist) && Supplied(mask, p) && Valid(open) && i <= |nodes|
      requires q == Request(Entries(dirlist, 0), mask, p, filename)
      requires DirsFor(dirlist, p.language) == q.dirs && name == f.name(q)
      requires forall k :: 0 <= k < i ==> f.above(nodes[k].filename, name)
      requires forall k :: i <= k < |nodes| ==> f.above(name, nodes[k].filename)
      requires !Listed(nodes, name)
      modifies this
      ensures Valid(open) == true && Extends(nodes, old(nodes), [q] + f.next(q)) == true
      ensures listing == f.enter(old(listing), q)
      ensures node in nodes && node !in old(nodes) && node.filename == name && node.request == q
      decreases |q.dirs| > 1, mask, 8
    {
      node := NewNode(dirlist, mask, name, q);
      NotListed(f, nodes, listing, f.name(q));
      EnterNew(f, listing, q);
      Insert(i, node, open);
      Fill(node, dirlist, mask, p, filename, q, open + {node});
      ExtendsInserted(nodes, old(nodes), i, node, f.next(q));
      Finished(f, nodes, node, open);
    }

    /** The successors of a new node, for the masks from its own down to 0. */
    method Fill(
      node: Node, dirlist: string, mask: Mask, p: Parts, filename: string, ghost q: Request, ghost open: set<Node>)
      requires Closed(dirlist) && Supplied(mask, p) && Valid(open) && node in nodes && node in open
      requires q == node.request == Request(Entries(dirlist, 0), mask, p, filename)
      requires DirsFor(dirlist, p.language) == q.dirs && |f.next(q)| < |node.successor| == node.room
      modifies this, node
      ensures Valid(open) == true && Done(f, node, nodes) == true && Extends(nodes, old(nodes), f.next(q)) == true
      ensures listing == f.enterFirst(old(listing), q, |f.next(q)|)
      decreases |q.dirs| > 1, mask, 7
    {
      ghost var w := Work(q, f.next(q), open, nodes, listing);
      FillingNone(node, w);
      FillAll(node, dirlist, mask, p, filename, w);
    }

    method FillAll(node: Node, dirlist: string, mask: Mask, p: Parts, filename: string, ghost w: Work)
      requires Closed(dirlist) && Supplied(mask, p) && Real(f) && Filling(node, 0, w) == true
      requires w.q == node.request == Request(Entries(dirlist, 0), mask, p, filename) && w.l == f.next(w.q)
      requires DirsFor(dirlist, p.language) == w.q.dirs
      modifies this, node
      ensures Valid(w.open) == true && Done(f, node, nodes) == true && Extends(nodes, w.nodes, w.l) == true
      ensures listing == f.enterFirst(w.listing, w.q, |w.l|)
      decreases |w.q.dirs| > 1, mask, 6
    {
      var count, more, cnt := Begin(dirlist, mask, w.q, w.l);
      var entries := FillFrom(node, dirlist, count, more, cnt, mask, p, filename, w);
      End(node, entries, w);
    }

    method FillFrom(
      node: Node, dirlist: string, count: nat, first: bool, start: Mask, mask: Mask, p: Parts, filename: string,
      ghost w: Work)
      returns (entries: nat)
      requires Closed(dirlist) && Supplied(mask, p) && Filling(node, 0, w) == true
      requires w.q == Request(Entries(dirlist, 0), mask, p, filename) && DirsFor(dirlist, p.language) == w.q.dirs
      requires count == (if w.q.dirs == [] then 1 else |w.q.dirs|) && (first && !Several(w.q) ==> start < mask)
      requires Left(w.l, 0, w.q, first, start) == true
      modifies this, node
      ensures entries == |w.l| && Filling(node, entries, w) == true
      decreases |w.q.dirs| > 1, mask, 5
    {
      var more, cnt := first, start;
      entries := 0;
      while more
        invariant Filling(node, entries, w) == true && Left(w.l, entries, w.q, more, cnt) == true
        invariant more && !Several(w.q) ==> cnt < mask
        decreases more, cnt
      {
        entries := ForMask(node, entries, dirlist, count, cnt, mask, p, filename, w);
        more := cnt != 0;
        cnt := if cnt != 0 then cnt - 1 else cnt;
      }
      LeftNone(w.l, entries, w.q, cnt);
    }

    /** The successors with the parts of `cnt`, in each directory. */
    method ForMask(
      node: Node, start: nat, dirlist: string, count: nat, cnt: Mask, mask: Mask, p: Parts, filename: string,
      ghost w: Work)
      returns (entries: nat)
      requires Closed(dirlist) && Supplied(mask, p) && Filling(node, start, w) == true
      requires w.q == Request(Entries(dirlist, 0), mask, p, filename) && DirsFor(dirlist, p.language) == w.q.dirs
      requires count == (if w.q.dirs == [] then 1 else |w.q.dirs|) && (Several(w.q) || cnt < mask)
      requires Left(w.l, start, w.q, true, cnt) == true
      modifies this, node
      ensures Left(w.l, entries, w.q, cnt != 0, if cnt != 0 then cnt - 1 else cnt) == true
      ensures Filling(node, entries, w) == true
      decreases |w.q.dirs| > 1, mask, 4
    {
      ghost var part := LeftNext(w.l, start, w.q, cnt);
      entries := start;
      assert !Admissible(cnt, mask) ==> start == start + |part|;
      if Admissible(cnt, mask) {
        entries := ForAdmissible(node, start, dirlist, count, cnt, mask, p, filename, w, part);
      }
    }

    method ForAdmissible(
      node: Node, start: nat, dirlist: string, count: nat, cnt: Mask, mask: Mask, p: Parts, filename: string,
      ghost w: Work, ghost part: seq<Request>)
      returns (entries: nat)
      requires Closed(dirlist) && Supplied(mask, p) && Filling(node, start, w) == true
      requires w.q == Request(Entries(dirlist, 0), mask, p, filename) && DirsFor(dirlist, p.language) == w.q.dirs
      requires count == (if w.q.dirs == [] then 1 else |w.q.dirs|) && (Several(w.q) || cnt < mask)
      requires start + |part| <= |w.l| && w.l[start..start + |part|] == part == WithMask(w.q, cnt)
      requires Admissible(cnt, mask)
      modifies this, node
      ensures entries == start + |part| && Filling(node, entries, w) == true
      decreases |w.q.dirs| > 1, mask, 3
    {
      SuppliedBelow(cnt, mask, p);
      if count > 1 {
        entries := ForDirs(node, start, dirlist, cnt, mask, p, filename, w);
      } else {
        assert w.l[start] == w.l[start..start + 1][0];
        ForOne(node, start, dirlist, cnt, mask, p, filename, w);
        entries := start + 1;
      }
    }

    method ForDirs(
      node: Node, start: nat, dirlist: string, cnt: Mask, mask: Mask, p: Parts, filename: string, ghost w: Work)
      returns (entries: nat)
      requires Closed(dirlist) && Supplied(cnt, p) && !Absolute(p.language) && Filling(node, start, w) == true
      requires w.q == Request(w.q.dirs, mask, p, filename) && w.q.dirs == Entries(dirlist, 0)
      requires ForEach(w.l, start, w.q, cnt) == true
      modifies this, node
      ensures entries == start + |w.q.dirs| && Filling(node, entries, w) == true
      decreases |w.q.dirs| > 1, mask, 2
    {
      var dir := ArgzNext(dirlist, None);
      ReachedFirst(w.q.dirs, dirlist, dir);
      entries := start;
      while dir.Some?
        invariant Filling(node, entries, w) == true
        invariant start <= entries && Reached(w.q.dirs, entries - start, dirlist, dir) == true
        decreases start + |w.q.dirs| - entries
      {
        dir := ForDir(node, entries, dirlist, dir.value, cnt, mask, p, filename, w, start);
        entries := entries + 1;
      }
      ReachedEnd(w.q.dirs, entries - start, dirlist, dir);
    }

    /** The successor for the next directory, and the directory after that. */
    method ForDir(
      node: Node, entries: nat, dirlist: string, dir: nat, cnt: Mask, mask: Mask, p: Parts, filename: string,
      ghost w: Work, ghost start: nat)
      returns (next: Option<nat>)
      requires Closed(dirlist) && Supplied(cnt, p) && !Absolute(p.language) && Filling(node, entries, w) == true
      requires w.q == Request(w.q.dirs, mask, p, filename) && ForEach(w.l, start, w.q, cnt) == true
      requires start <= entries && Reached(w.q.dirs, entries - start, dirlist, Some(dir)) == true
      modifies this, node
      ensures entries < start + |w.q.dirs| && Reached(w.q.dirs, entries + 1 - start, dirlist, next) == true
      ensures Filling(node, entries + 1, w) == true
      decreases |w.q.dirs| > 1, mask, 1
    {
      var len := Strlen(dirlist, dir);
      var one := dirlist[dir..dir + len + 1];
      ReachedEnd(w.q.dirs, entries - start, dirlist, Some(dir));
      ReachedOne(w.l, start, w.q, cnt, entries - start, dirlist, dir, one);
      ForOne(node, entries, one, cnt, mask, p, filename, w);
      next := ArgzNext(dirlist, Some(dir));
      ReachedNext(w.q.dirs, entries - start, dirlist, dir, next);
    }

    /** One successor: made, and stored. */
    method ForOne(
      node: Node, entries: nat, dirlist: string, cnt: Mask, mask: Mask, p: Parts, filename: string, ghost w: Work)
      requires Closed(dirlist) && Supplied(cnt, p) && |DirsFor(dirlist, p.language)| <= 1
      requires Filling(node, entries, w) == true && (Several(w.q) || cnt < mask)
      requires entries < |w.l| && w.l[entries] == Request(DirsFor(dirlist, p.language), cnt, p, filename)
      modifies this, node
      ensures Filling(node, entries + 1, w) == true
      decreases |w.q.dirs| > 1, mask, 0
    {
      ghost var was := nodes;
      assert Extends(was, w.nodes, w.l);
      var child := Make(dirlist, cnt, p, filename, true, w.open);
      LeadsMore(f, node, w.l, entries, was, nodes);
      SuccessorsHereditary(f, w.q);
      ExtendsBelow(f, nodes, was, w.l[entries], w.l);
      ExtendsFurther(nodes, was, w.nodes, w.l);
      EnterFirstMore(f, w.listing, w.q, entries);
      Store(node, entries, child, w.l, w.open);
    }
  }

  // ----- what it comes to

  /** A list that is valid with no node open, in terms of what the nodes are for. */
  lemma ValidList(l: L10nList)
    requires l.Valid({})
    ensures forall i, j :: 0 <= i < j < |l.nodes| ==> Strcmp(l.nodes[i].filename, l.nodes[j].filename) > 0
    ensures forall n :: n in l.nodes ==> n.filename == NameOf(n.request) && n.decided == Decided(n.request)
  {
    forall i, j | 0 <= i < j < |l.nodes| ensures Strcmp(l.nodes[i].filename, l.nodes[j].filename) > 0 {
      assert l.f.above(l.nodes[i].filename, l.nodes[j].filename);
    }
    forall n | n in l.nodes ensures n.filename == NameOf(n.request) && n.decided == Decided(n.request) {
      assert Named(l.f, n);
    }
  }

  /** The nodes that a node of the list inherits from. */
  lemma ValidNode(l: L10nList, n: Node)
    requires l.Valid({}) && n in l.nodes
    ensures |n.successor| == Room(n.request) && |Successors(n.request)| < |n.successor|
    ensures forall k :: 0 <= k < |Successors(n.request)| ==>
              && n.successor[k] != null && n.successor[k] in l.nodes
              && n.successor[k].filename == NameOf(Successors(n.request)[k])
    ensures n.successor[|Successors(n.request)|] == null
  {
    assert Named(l.f, n) && Done(l.f, n, l.nodes);
    var s := Successors(n.request);
    forall k | 0 <= k < |s|
      ensures n.successor[k] != null && n.successor[k] in l.nodes && n.successor[k].filename == NameOf(s[k])
    {
      assert l.f.name(s[k]) == NameOf(s[k]);
    }
  }

  /** The pointers lead to the names. */
  ghost predicate Lead(successor: seq<Node?>, names: seq<string>, nodes: seq<Node>) {
    && |names| < |successor| && successor[|names|] == null
    && forall k :: 0 <= k < |names| ==>
         successor[k] != null && successor[k] in nodes && successor[k].filename == names[k]
  }

  /** A node and its entry in the listing. */
  lemma ListedNode(l: L10nList, n: Node)
    requires l.Valid({}) && n in l.nodes
    ensures n.filename in l.listing && n.decided == l.listing[n.filename].decided
    ensures Lead(n.successor, l.listing[n.filename].leads, l.nodes)
  {
    ValidList(l);
    ValidNode(l, n);
    var s := Successors(n.request);
    assert l.f.entry(n.request) == EntryOf(n.request);
    assert l.listing[n.filename].leads == NamesOf(s);
  }

  /** The listing leads nowhere that is not listed. */
  lemma ListComplete(l: L10nList)
    requires l.Valid({})
    ensures Complete(l.listing, {})
  {
    forall n | n in l.listing ensures AllIn(l.listing[n].leads, l.listing) {
      assert Listed(l.nodes, n);
      var node :| node in l.nodes && node.filename == n;
      ListedNode(l, node);
      var leads := l.listing[n].leads;
      forall k | 0 <= k < |leads| ensures leads[k] in l.listing {
        assert node.successor[k] in l.nodes;
      }
    }
  }
}
