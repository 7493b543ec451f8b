/** `dcigettext` with its table of known translations (intl/dcigettext.c:240-265, 429-706), and when its answers are
    those of a system that searches every time. */
module Translations {
  import opened Bindings
  import opened LocaleListing
  import opened Options
  import opened StringOrder
  import opened TranslationSearch

  // ----- the table

  /** `transcmp`. */
  function Transcmp(a: Key, b: Key): int {
    if Strcmp(a.msgid, b.msgid) != 0 then Strcmp(a.msgid, b.msgid)
    else if Strcmp(a.domainname, b.domainname) != 0 then Strcmp(a.domainname, b.domainname)
    else a.category - b.category
  }

  /** The order of the search tree tells all keys apart, so that the tree is a map. */
  lemma TranscmpOrders(a: Key, b: Key, c: Key)
    ensures Transcmp(a, b) == 0 <==> a == b
    ensures Transcmp(a, b) < 0 <==> Transcmp(b, a) > 0
    ensures Transcmp(a, b) > 0 && Transcmp(b, c) > 0 ==> Transcmp(a, c) > 0
  {
    StrcmpReversed(a.msgid, b.msgid);
    StrcmpReversed(b.msgid, a.msgid);
    StrcmpReversed(a.domainname, b.domainname);
    StrcmpReversed(b.domainname, a.domainname);
    if Strcmp(a.msgid, b.msgid) > 0 && Strcmp(b.msgid, c.msgid) > 0 {
      StrcmpTransitive(a.msgid, b.msgid, c.msgid);
    }
    if Strcmp(a.domainname, b.domainname) > 0 && Strcmp(b.domainname, c.domainname) > 0 {
      StrcmpTransitive(a.domainname, b.domainname, c.domainname);
    }
  }

  /** `struct known_translation_t`. */
  datatype Known = Known(counter: int, found: Found)

  type Root = map<Key, Known>

  // ----- answers

  /** One call. */
  datatype Call = Call(
    domainname: Option<string>, msgid1: Option<string>, msgid2: string, plural: bool, n: nat, category: int)

  function Untranslated(c: Call, msgid1: string): string {
    if !c.plural || c.n == 1 then msgid1 else c.msgid2
  }

  function Translated(w: World, c: Call, f: Found): string {
    if c.plural then w.plural(f.file, c.n, f.text) else f.text
  }

  function KeyOf(c: Call, msgid1: string, current: string): Key {
    Key(msgid1, if c.domainname.Some? then c.domainname.value else current, c.category)
  }

  /** The answer to a call for which a translation has been found or not. */
  function AnswerWith(w: World, c: Call, msgid1: string, hit: Option<Found>): string {
    if hit.Some? then Translated(w, c, hit.value) else Untranslated(c, msgid1)
  }

  /** A translation that is known as long as the counter has not moved, or else what a search finds. */
  function Cached(w: World, f: Naming, t: Table, l: Listing, root: Root, counter: int, key: Key)
    : (Option<Found>, Listing, Root)
  {
    if key in root && root[key].counter == counter then (Some(root[key].found), l, root)
    else
      var (hit, m) := Uncached(w, f, t, l, key);
      (hit, m, if hit.Some? then root[key := Known(counter, hit.value)] else root)
  }

  /** What a call of `bindtextdomain` or `bind_textdomain_codeset` leaves and returns. */
  function Bound(t: Table, domainname: Option<string>, dirname: Param, codeset: Param, defaultDirname: CString)
    : (Table, (Param, Param))
  {
    if domainname.None? || domainname.value == "" then
      (t, (if dirname.Present? then Present(None) else Absent, if codeset.Present? then Present(None) else Absent))
    else
      var u := Updated(t, domainname.value, dirname, codeset, defaultDirname);
      var a := Effective(u, domainname.value, defaultDirname);
      (u, (
        if dirname.Present? then Present(Some(a.dirname)) else Absent,
        if codeset.Present? then Present(a.codeset) else Absent))
  }

  const DEFAULT_DOMAIN := "messages"

  function NewDefault(current: string, domainname: Option<string>): string {
    if domainname.None? then current else if domainname.value == "" then DEFAULT_DOMAIN else domainname.value
  }

  // ----- two systems

  datatype Op =
    | Rebind(domainname: Option<string>, dirname: Param, codeset: Param)
    | SetDefault(domain: Option<string>)
    | Lookup(call: Call)

  datatype Out = Bindings(values: (Param, Param)) | Default(name: string) | Message(text: Option<string>)

  /** The system as it is: bindings and their counter, loaded domains, known translations, default domain. */
  datatype System = System(table: Table, counter: int, listing: Listing, root: Root, current: string)

  function Step(w: World, f: Naming, s: System, op: Op): (Out, System) {
    match op
    case Rebind(domainname, dirname, codeset) =>
      var (u, values) := Bound(s.table, domainname, dirname, codeset, w.defaultDirname);
      (Bindings(values), s.(table := u, counter := s.counter + if u == s.table then 0 else 1))
    case SetDefault(domain) =>
      var d := NewDefault(s.current, domain);
      (Default(d), s.(current := d, counter := s.counter + if domain.None? then 0 else 1))
    case Lookup(c) =>
      if c.msgid1.None? then (Message(None), s)
      else
        var (hit, l, root) := Cached(w, f, s.table, s.listing, s.root, s.counter, KeyOf(c, c.msgid1.value, s.current));
        (Message(Some(AnswerWith(w, c, c.msgid1.value, hit))), s.(listing := l, root := root))
  }

  /** A system that searches every time. */
  datatype Plainly = Plainly(table: Table, listing: Listing, current: string)

  function PlainStep(w: World, f: Naming, s: Plainly, op: Op): (Out, Plainly) {
    match op
    case Rebind(domainname, dirname, codeset) =>
      var (u, values) := Bound(s.table, domainname, dirname, codeset, w.defaultDirname);
      (Bindings(values), s.(table := u))
    case SetDefault(domain) =>
      var d := NewDefault(s.current, domain);
      (Default(d), s.(current := d))
    case Lookup(c) =>
      if c.msgid1.None? then (Message(None), s)
      else
        var (hit, l) := Uncached(w, f, s.table, s.listing, KeyOf(c, c.msgid1.value, s.current));
        (Message(Some(AnswerWith(w, c, c.msgid1.value, hit))), s.(listing := l))
  }

  function Outputs(w: World, f: Naming, s: System, ops: seq<Op>): seq<Out>
    decreases |ops|
  {
    if ops == [] then []
    else
      var (out, s') := Step(w, f, s, ops[0]);
      [out] + Outputs(w, f, s', ops[1..])
  }

  function PlainOutputs(w: World, f: Naming, s: Plainly, ops: seq<Op>): seq<Out>
    decreases |ops|
  {
    if ops == [] then []
    else
      var (out, s') := PlainStep(w, f, s, ops[0]);
      [out] + PlainOutputs(w, f, s', ops[1..])
  }

  function Start(): System {
    System(map[], 0, map[], map[], DEFAULT_DOMAIN)
  }

  function Plain(s: System): Plainly {
    Plainly(s.table, s.listing, s.current)
  }

  /** The operation names no domains but those of `doms`. */
  predicate Names(doms: string -> bool, op: Op) {
    match op
    case Rebind(_, _, _) => true
    case SetDefault(domain) => domain.Some? && domain.value != "" ==> doms(domain.value)
    case Lookup(c) => c.domainname.Some? ==> doms(c.domainname.value)
  }

  predicate AllName(doms: string -> bool, ops: seq<Op>) {
    forall op :: op in ops ==> Names(doms, op)
  }

  // ----- what the table of known translations says

  /** An entry that counts says what a search would say. */
  ghost predicate Right(w: World, f: Naming, doms: string -> bool, s: System, k: Key)
    requires k in s.root
  {
    && s.root[k].counter <= s.counter
    && (s.root[k].counter == s.counter ==>
         doms(k.domainname) && Uncached(w, f, s.table, s.listing, k) == (Some(s.root[k].found), s.listing))
  }

  ghost predicate Coherent(w: World, f: Naming, doms: string -> bool, s: System) {
    && Grown(w, doms, s.listing) && doms(s.current)
    && forall k {:trigger Right(w, f, doms, s, k)} :: k in s.root ==> Right(w, f, doms, s, k)
  }

  /** When the bindings change, the counter does, and no entry counts. */
  lemma Flushed(w: World, f: Naming, doms: string -> bool, s: System, s': System)
    requires Coherent(w, f, doms, s) && s'.counter == s.counter + 1 && s'.root == s.root && s'.listing == s.listing
    requires doms(s'.current)
    ensures Coherent(w, f, doms, s')
  {
    forall k | k in s'.root ensures Right(w, f, doms, s', k) {
      assert Right(w, f, doms, s, k);
    }
  }

  /** A search leaves the entries right. */
  lemma StillCoherent(w: World, f: Naming, doms: string -> bool, s: System, m: Listing)
    requires Genuine(f) && Steady(w, doms) && Coherent(w, f, doms, s) && Within(s.listing, m) && Grown(w, doms, m)
    ensures Coherent(w, f, doms, s.(listing := m))
  {
    forall k | k in s.root ensures Right(w, f, doms, s.(listing := m), k) {
      assert Right(w, f, doms, s, k);
      if s.root[k].counter == s.counter {
        UncachedAgain(w, f, doms, s.table, s.listing, m, k);
      }
    }
  }

  /** A new entry is right from then on. */
  lemma Entered(w: World, f: Naming, doms: string -> bool, s: System, k: Key)
    requires Genuine(f) && Steady(w, doms) && Coherent(w, f, doms, s) && doms(k.domainname)
    requires Uncached(w, f, s.table, s.listing, k).0.Some?
    ensures
      var (hit, m) := Uncached(w, f, s.table, s.listing, k);
      Coherent(w, f, doms, s.(listing := m, root := s.root[k := Known(s.counter, hit.value)]))
  {
    var (hit, m) := Uncached(w, f, s.table, s.listing, k);
    UncachedGrows(w, f, doms, s.table, s.listing, k);
    StillCoherent(w, f, doms, s, m);
    UncachedAgain(w, f, doms, s.table, s.listing, m, k);
    var s' := s.(listing := m, root := s.root[k := Known(s.counter, hit.value)]);
    forall j | j in s'.root ensures Right(w, f, doms, s', j) {
      if j != k {
        assert Right(w, f, doms, s.(listing := m), j);
      }
    }
  }

  lemma CachedRight(w: World, f: Naming, doms: string -> bool, s: System, k: Key)
    requires Genuine(f) && Steady(w, doms) && Coherent(w, f, doms, s) && doms(k.domainname)
    ensures
      var (hit, l, root) := Cached(w, f, s.table, s.listing, s.root, s.counter, k);
      (hit, l) == Uncached(w, f, s.table, s.listing, k) && Coherent(w, f, doms, s.(listing := l, root := root))
  {
    if k in s.root && s.root[k].counter == s.counter {
      assert Right(w, f, doms, s, k);
      assert s.(listing := s.listing, root := s.root) == s;
    } else {
      var (hit, m) := Uncached(w, f, s.table, s.listing, k);
      if hit.Some? {
        Entered(w, f, doms, s, k);
      } else {
        UncachedGrows(w, f, doms, s.table, s.listing, k);
        StillCoherent(w, f, doms, s, m);
        assert s.(listing := m, root := s.root) == s.(listing := m);
      }
    }
  }

  /** One operation: the same answer, and the entries stay right. */
  lemma StepRight(w: World, f: Naming, doms: string -> bool, s: System, op: Op)
    requires Genuine(f) && Steady(w, doms) && Coherent(w, f, doms, s) && Names(doms, op) && doms(DEFAULT_DOMAIN)
    ensures
      var (out, s') := Step(w, f, s, op);
      PlainStep(w, f, Plain(s), op) == (out, Plain(s')) && Coherent(w, f, doms, s')
  {
    var s' := Step(w, f, s, op).1;
    match op
    case Rebind(_, _, _) =>
      if s'.table == s.table {
        assert s' == s;
      } else {
        Flushed(w, f, doms, s, s');
      }
    case SetDefault(domain) =>
      if domain.None? {
        assert s' == s;
      } else {
        Flushed(w, f, doms, s, s');
      }
    case Lookup(c) =>
      if c.msgid1.Some? {
        CachedRight(w, f, doms, s, KeyOf(c, c.msgid1.value, s.current));
      }
  }

  /** Whatever happens, in whatever order: the answers are those of the system that searches every time. */
  lemma {:induction false} SameOutputs(w: World, f: Naming, doms: string -> bool, s: System, ops: seq<Op>)
    requires Genuine(f) && Steady(w, doms) && Coherent(w, f, doms, s) && AllName(doms, ops) && doms(DEFAULT_DOMAIN)
    ensures Outputs(w, f, s, ops) == PlainOutputs(w, f, Plain(s), ops)
    decreases |ops|
  {
    if ops != [] {
      StepRight(w, f, doms, s, ops[0]);
      SameOutputs(w, f, doms, Step(w, f, s, ops[0]).1, ops[1..]);
    }
  }

  /** In particular from the start. */
  lemma SameFromStart(w: World, f: Naming, doms: string -> bool, ops: seq<Op>)
    requires Genuine(f) && Steady(w, doms) && AllName(doms, ops) && doms(DEFAULT_DOMAIN)
    ensures Outputs(w, f, Start(), ops) == PlainOutputs(w, f, Plain(Start()), ops)
  {
    SameOutputs(w, f, doms, Start(), ops);
  }
}
