/** The list of locale files as a table: for the name of a node, whether it is a file at all and the names of the
    nodes that it leads to. */
module LocaleListing {
  import opened LocaleMask
  import opened LocaleRequest
  import opened StringOrder

  function NamesOf(l: seq<Request>): (names: seq<string>)
    ensures |names| == |l| && forall k :: 0 <= k < |l| ==> names[k] == NameOf(l[k])
  {
    seq(|l|, k requires 0 <= k < |l| => NameOf(l[k]))
  }

  /** The request, or one that it inherits from, is for the file. */
  predicate AsksFor(q: Request, name: string) {
    NameOf(q) == name || name in NamesOf(Successors(q))
  }

  lemma AsksForSuccessor(q: Request, x: Request)
    requires x in [q] + Successors(q)
    ensures AsksFor(q, NameOf(x))
  {
    if x != q {
      var k :| 0 <= k < |Successors(q)| && Successors(q)[k] == x;
      assert NamesOf(Successors(q))[k] == NameOf(x);
    }
  }

  /** What something inherited asks for is asked for. */
  lemma AsksForInherited(q: Request, r: Request, name: string)
    requires r in [q] + Successors(q) && AsksFor(r, name)
    ensures AsksFor(q, name)
  {
    if NameOf(r) == name {
      AsksForSuccessor(q, r);
    } else if r != q {
      var k :| 0 <= k < |Successors(r)| && NamesOf(Successors(r))[k] == name;
      Inheriting(q, r, Successors(r)[k]);
      AsksForSuccessor(q, Successors(r)[k]);
    }
  }

  /** The mask of the request, or one that it inherits from. */
  predicate Tried(q: Request, c: Mask) {
    c == q.mask || c in Inherited(q.mask, false)
  }

  lemma InOneDirectory(q: Request, x: Request)
    requires !Several(q)
    ensures x in Successors(q) <==> x.mask in Inherited(q.mask, false) && x == q.(mask := x.mask)
  {
    InSuccessors(q, x);
    InWithMask(q, x.mask, x);
    InheritedIs(q.mask, false);
  }

  /** The names go mask by mask. */
  lemma NamesAt(q: Request, k: nat)
    requires !Several(q) && k < |Inherited(q.mask, false)|
    ensures |NamesOf(Successors(q))| == |Inherited(q.mask, false)|
    ensures NamesOf(Successors(q))[k] == NameOf(q.(mask := Inherited(q.mask, false)[k]))
  {
    WithMasksCount(q, Inherited(q.mask, false));
    SuccessorAt(q, k, 0);
  }

  /** With one directory a file that is asked for is the name for one of the masks tried. */
  lemma AskedBy(q: Request, name: string) returns (c: Mask)
    requires !Several(q) && AsksFor(q, name)
    ensures Tried(q, c) && NameOf(q.(mask := c)) == name
  {
    if NameOf(q) == name {
      c := q.mask;
      assert q.(mask := c) == q;
    } else {
      var s := Successors(q);
      var k :| 0 <= k < |s| && NamesOf(s)[k] == name;
      InOneDirectory(q, s[k]);
      c := s[k].mask;
    }
  }

  /** The names for all of them are asked for. */
  lemma AsksWith(q: Request, c: Mask)
    requires !Several(q) && Tried(q, c)
    ensures AsksFor(q, NameOf(q.(mask := c)))
  {
    if c == q.mask {
      assert q.(mask := c) == q;
    } else {
      InOneDirectory(q, q.(mask := c));
      var s := Successors(q);
      var k :| 0 <= k < |s| && s[k] == q.(mask := c);
      assert NamesOf(s)[k] == NameOf(s[k]);
    }
  }

  datatype Entry = Entry(decided: bool, leads: seq<string>)

  type Listing = map<string, Entry>

  /** The node and those that it leads to. */
  function Candidates(l: Listing, name: string): seq<string> {
    [name] + if name in l then l[name].leads else []
  }

  /** Not decided to be no file. */
  ghost predicate IsFile(l: Listing, name: string) {
    name in l && !l[name].decided
  }

  function EntryOf(q: Request): Entry {
    Entry(Decided(q), NamesOf(Successors(q)))
  }

  /** The recursive calls are for one directory, or for a smaller mask. */
  lemma SuccessorSmaller(q: Request, r: Request)
    requires r in Successors(q)
    ensures !Several(r) && (!Several(q) ==> r.mask < q.mask)
  {
    InSuccessors(q, r);
    InWithMask(q, r.mask, r);
    DominatedBelow(r.mask, q.mask);
    if !Several(q) {
      Between(r.mask, q.mask);
    }
  }

  /** The listing when a request has been entered, and what it inherits from, unless its name is there. */
  function Enter(l: Listing, q: Request): Listing
    decreases Several(q), q.mask, 1, 0
  {
    if NameOf(q) in l then l else EnterFirst(l[NameOf(q) := EntryOf(q)], q, |Successors(q)|)
  }

  /** The listing when the first `k` successors have been entered. */
  function EnterFirst(l: Listing, q: Request, k: nat): Listing
    decreases Several(q), q.mask, 0, k
  {
    if k == 0 || k > |Successors(q)| then l
    else
      SuccessorSmaller(q, Successors(q)[k - 1]);
      Enter(EnterFirst(l, q, k - 1), Successors(q)[k - 1])
  }

  // ----- the same without the definitions

  /** What a request means, as functions without their bodies: a `Real` family are the ones above. */
  datatype Family = Family(
    name: Request -> string, room: Request -> nat, next: Request -> seq<Request>, decided: Request -> bool,
    above: (string, string) -> bool, entry: Request -> Entry, enter: (Listing, Request) -> Listing,
    enterFirst: (Listing, Request, nat) -> Listing)

  ghost predicate Real(f: Family) {
    && (forall q {:trigger NameOf(q)} :: f.name(q) == NameOf(q))
    && (forall q {:trigger Room(q)} :: f.room(q) == Room(q))
    && (forall q {:trigger Successors(q)} :: f.next(q) == Successors(q))
    && (forall q {:trigger Decided(q)} :: f.decided(q) == Decided(q))
    && (forall q {:trigger EntryOf(q)} :: f.entry(q) == EntryOf(q))
    && (forall l, q {:trigger Enter(l, q)} :: f.enter(l, q) == Enter(l, q))
    && (forall l, q, k: nat {:trigger EnterFirst(l, q, k)} :: f.enterFirst(l, q, k) == EnterFirst(l, q, k))
    && (forall a, b {:trigger Strcmp(a, b)} :: f.above(a, b) == (Strcmp(a, b) > 0))
  }

  lemma EnterFirstNone(f: Family, listing: Listing, q: Request)
    requires Real(f)
    ensures f.enterFirst(listing, q, 0) == listing
  {
    assert EnterFirst(listing, q, 0) == listing;
  }

  lemma EnterFirstMore(f: Family, listing: Listing, q: Request, k: nat)
    requires Real(f) && k < |f.next(q)|
    ensures f.enterFirst(listing, q, k + 1) == f.enter(f.enterFirst(listing, q, k), f.next(q)[k])
  {
    var l := Successors(q);
    assert EnterFirst(listing, q, k + 1) == Enter(EnterFirst(listing, q, k), l[k]);
  }

  lemma EnterThere(f: Family, l: Listing, q: Request)
    requires Real(f) && f.name(q) in l
    ensures f.enter(l, q) == l
  {
    assert NameOf(q) == f.name(q) && Enter(l, q) == f.enter(l, q);
  }

  /** A new name is entered, and then what it inherits from. */
  lemma EnterNew(f: Family, l: Listing, q: Request)
    requires Real(f) && f.name(q) !in l
    ensures f.enter(l, q) == f.enterFirst(l[f.name(q) := f.entry(q)], q, |f.next(q)|)
  {
    assert f.next(q) == Successors(q) && f.name(q) == NameOf(q) && f.entry(q) == EntryOf(q);
    assert Enter(l, q) == EnterFirst(l[NameOf(q) := EntryOf(q)], q, |Successors(q)|);
  }

  lemma NextSmaller(f: Family, q: Request, r: Request)
    requires Real(f) && r in f.next(q)
    ensures !Several(r) && (!Several(q) ==> r.mask < q.mask) && Contained(f.next(r), f.next(q))
  {
    assert f.next(q) == Successors(q) && f.next(r) == Successors(r);
    SuccessorSmaller(q, r);
    forall x | x in Successors(r) ensures x in Successors(q) {
      Inheriting(q, r, x);
    }
  }

  lemma EntryLeads(f: Family, q: Request)
    requires Real(f)
    ensures |f.entry(q).leads| == |f.next(q)|
    ensures forall k :: 0 <= k < |f.next(q)| ==> f.entry(q).leads[k] == f.name(f.next(q)[k])
  {
    assert f.entry(q) == EntryOf(q) && f.next(q) == Successors(q);
    var s := Successors(q);
    forall k | 0 <= k < |s| ensures NamesOf(s)[k] == f.name(s[k]) {
      assert f.name(s[k]) == NameOf(s[k]);
    }
  }

  // ----- what entering a request adds

  ghost predicate Contained(a: seq<Request>, b: seq<Request>) {
    forall r :: r in a ==> r in b
  }

  ghost predicate Within(l: Listing, m: Listing) {
    forall n :: n in l ==> n in m && m[n] == l[n]
  }

  /** The entry is that of one of the requests. */
  ghost predicate ComesFrom(f: Family, n: string, e: Entry, requests: seq<Request>) {
    exists r :: r in requests && f.name(r) == n && f.entry(r) == e
  }

  /** What is new is for one of the requests. */
  ghost predicate Adds(f: Family, l: Listing, m: Listing, requests: seq<Request>) {
    Within(l, m) && forall n :: n in m && n !in l ==> ComesFrom(f, n, m[n], requests)
  }

  ghost predicate AllIn(names: seq<string>, l: Listing) {
    forall k :: 0 <= k < |names| ==> names[k] in l
  }

  /** What the names lead to is listed, but for those still `open`. */
  ghost predicate Complete(l: Listing, open: set<string>) {
    forall n :: n in l && n !in open ==> AllIn(l[n].leads, l)
  }

  lemma AddsFurther(
    f: Family, l: Listing, m: Listing, n: Listing, some: seq<Request>, requests: seq<Request>)
    requires Adds(f, l, m, requests) && Adds(f, m, n, some) && Contained(some, requests)
    ensures Adds(f, l, n, requests)
  {
    forall x | x in n && x !in l ensures ComesFrom(f, x, n[x], requests) {
      if x in m {
        assert ComesFrom(f, x, m[x], requests);
      } else {
        assert ComesFrom(f, x, n[x], some);
        var r :| r in some && f.name(r) == x && f.entry(r) == n[x];
      }
    }
  }

  /** A request is entered with what it inherits from, and nothing that was there changes. */
  lemma {:induction false} EnterAdds(f: Family, l: Listing, q: Request, open: set<string>)
    requires Real(f) && Complete(l, open)
    ensures Adds(f, l, f.enter(l, q), [q] + f.next(q)) && Complete(f.enter(l, q), open)
    ensures f.name(q) in f.enter(l, q) && (f.name(q) !in l ==> f.enter(l, q)[f.name(q)] == f.entry(q))
    decreases Several(q), q.mask, 1, 0
  {
    if f.name(q) in l {
      EnterThere(f, l, q);
    } else {
      EnterNew(f, l, q);
      var m := l[f.name(q) := f.entry(q)];
      assert ComesFrom(f, f.name(q), f.entry(q), [q] + f.next(q)) by {
        assert q in [q] + f.next(q);
      }
      var n := EnterFirstAdds(f, m, q, |f.next(q)|, open + {f.name(q)});
      assert Contained([q] + f.next(q), [q] + f.next(q));
      AddsFurther(f, l, m, n, [q] + f.next(q), [q] + f.next(q));
      LeadsListed(f, n, q, open);
    }
  }

  lemma LeadsListed(f: Family, m: Listing, q: Request, open: set<string>)
    requires Real(f) && Complete(m, open + {f.name(q)}) && f.name(q) in m && m[f.name(q)] == f.entry(q)
    requires Have(f, m, f.next(q), |f.next(q)|)
    ensures Complete(m, open)
  {
    EntryLeads(f, q);
  }

  /** The first requests are entered. */
  ghost predicate Have(f: Family, m: Listing, l: seq<Request>, k: nat) {
    k <= |l| && forall j :: 0 <= j < k ==> f.name(l[j]) in m
  }

  lemma {:induction false} EnterFirstAdds(f: Family, l: Listing, q: Request, k: nat, open: set<string>)
    returns (m: Listing)
    requires Real(f) && Complete(l, open) && k <= |f.next(q)|
    ensures m == f.enterFirst(l, q, k)
    ensures Adds(f, l, m, [q] + f.next(q)) && Complete(m, open) && Have(f, m, f.next(q), k)
    decreases Several(q), q.mask, 0, k
  {
    if k == 0 {
      EnterFirstNone(f, l, q);
      m := l;
    } else {
      var s := f.next(q);
      var r := s[k - 1];
      NextSmaller(f, q, r);
      var a := EnterFirstAdds(f, l, q, k - 1, open);
      EnterFirstMore(f, l, q, k - 1);
      m := f.enter(a, r);
      EnterAdds(f, a, r, open);
      assert Contained([r] + f.next(r), [q] + s);
      AddsFurther(f, l, a, m, [r] + f.next(r), [q] + s);
    }
  }

  // ----- what that comes to

  lemma RealFamily() returns (f: Family)
    ensures Real(f)
  {
    f := Family(NameOf, Room, Successors, Decided, (a, b) => Strcmp(a, b) > 0, EntryOf, Enter, EnterFirst);
  }

  /** The request, or one that it inherits from, has the name and the entry. */
  ghost predicate For(q: Request, n: string, e: Entry) {
    exists r :: r in [q] + Successors(q) && NameOf(r) == n && EntryOf(r) == e
  }

  /** Entering a request changes nothing that was there; what is new is for it, or for what it inherits from. */
  lemma Entering(l: Listing, q: Request)
    requires Complete(l, {})
    ensures Within(l, Enter(l, q)) && Complete(Enter(l, q), {}) && NameOf(q) in Enter(l, q)
    ensures forall n :: n in Enter(l, q) && n !in l ==> For(q, n, Enter(l, q)[n])
    ensures NameOf(q) !in l ==> Enter(l, q)[NameOf(q)] == EntryOf(q)
  {
    var f := RealFamily();
    var m := Enter(l, q);
    assert m == f.enter(l, q) && f.name(q) == NameOf(q) && f.next(q) == Successors(q) && f.entry(q) == EntryOf(q);
    EnterAdds(f, l, q, {});
    forall n | n in m && n !in l ensures For(q, n, m[n]) {
      assert ComesFrom(f, n, m[n], [q] + f.next(q));
      var r :| r in [q] + f.next(q) && f.name(r) == n && f.entry(r) == m[n];
      assert NameOf(r) == f.name(r) && EntryOf(r) == f.entry(r);
    }
  }
}
