/** The bindings of message domains (intl/bindtextdom.c): a sorted list that is updated in place, and the counter
    that every change of it steps. */
module Bindings {
  import opened Options
  import opened StringOrder

  /** `struct binding`. */
  class Binding {
    const domainname: string
    var dirname: CString
    var codeset: Option<CString>
    var codesetCntr: nat

    constructor (domainname: string, dirname: CString, codeset: Option<CString>, codesetCntr: nat)
      ensures this.domainname == domainname
      ensures this.dirname == dirname && this.codeset == codeset && this.codesetCntr == codesetCntr
    {
      this.domainname, this.dirname, this.codeset, this.codesetCntr := domainname, dirname, codeset, codesetCntr;
    }

    method Assign(dirname: Param, codeset: Param) returns (modified: bool)
      modifies this
      ensures AttributesOf(this) == WithCodeset(WithDirname(old(AttributesOf(this)), dirname), codeset)
      ensures modified <==> AttributesOf(this) != old(AttributesOf(this))
    {
      modified := false;
      if dirname.New() && dirname.value.value != this.dirname {
        this.dirname := dirname.value.value;
        modified := true;
      }
      if codeset.New() && codeset.value != this.codeset {
        this.codeset := codeset.value;
        codesetCntr := codesetCntr + 1;
        modified := true;
      }
    }
  }

  /** What a domain is bound to. */
  datatype Attributes = Attributes(dirname: CString, codeset: Option<CString>, codesetCntr: nat)

  /** A pointer to a value: NULL, or to NULL, or to a new value. */
  datatype Param = Absent | Present(value: Option<CString>)
  {
    predicate New() {
      Present? && value.Some?
    }
  }

  function WithDirname(a: Attributes, dirname: Param): Attributes {
    if dirname.New() then a.(dirname := dirname.value.value) else a
  }

  function WithCodeset(a: Attributes, codeset: Param): Attributes {
    if codeset.New() && codeset.value != a.codeset then a.(codeset := codeset.value, codesetCntr := a.codesetCntr + 1)
    else a
  }

  /** What a domain without a binding is taken to be bound to. */
  function Unbound(defaultDirname: CString): Attributes {
    Attributes(defaultDirname, None, 0)
  }

  type Table = map<string, Attributes>

  function Effective(t: Table, domainname: string, defaultDirname: CString): Attributes {
    if domainname in t then t[domainname] else Unbound(defaultDirname)
  }

  /** The bindings after a call. */
  function Updated(t: Table, domainname: string, dirname: Param, codeset: Param, defaultDirname: CString): Table {
    if domainname !in t && !dirname.New() && !codeset.New() then t
    else t[domainname := WithCodeset(WithDirname(Effective(t, domainname, defaultDirname), dirname), codeset)]
  }

  /** `above` says which strings `strcmp` puts behind which. */
  ghost predicate Real(above: (string, string) -> bool) {
    forall a, b {:trigger Strcmp(a, b)} :: above(a, b) == (Strcmp(a, b) > 0)
  }

  ghost predicate Ascending(above: (string, string) -> bool, list: seq<Binding>) {
    forall i, j :: 0 <= i < j < |list| ==> above(list[j].domainname, list[i].domainname)
  }

  ghost predicate Named(list: seq<Binding>, domainname: string) {
    exists b :: b in list && b.domainname == domainname
  }

  function AttributesOf(b: Binding): Attributes
    reads b
  {
    Attributes(b.dirname, b.codeset, b.codesetCntr)
  }

  /** The list as a table. */
  ghost predicate Tabulates(list: seq<Binding>, t: Table)
    reads list
  {
    && (forall b :: b in list ==> b.domainname in t && t[b.domainname] == AttributesOf(b))
    && forall d :: d in t ==> Named(list, d)
  }

  class State {
    var list: seq<Binding>
    var catCntr: int
    const defaultDirname: CString
    ghost const above: (string, string) -> bool
    ghost var table: Table

    ghost predicate Valid()
      reads this, list
    {
      Real(above) && Ascending(above, list) && Tabulates(list, table)
    }

    constructor (defaultDirname: CString)
      ensures Valid() && list == [] && table == map[] && catCntr == 0 && this.defaultDirname == defaultDirname
    {
      this.defaultDirname := defaultDirname;
      above := (a, b) => Strcmp(a, b) > 0;
      list, catCntr, table := [], 0, map[];
    }

    /** The search of the list, which stops where the name would be. */
    method Find(domainname: string) returns (b: Binding?)
      requires Valid()
      ensures b == null <==> domainname !in table
      ensures b != null ==> b in list && b.domainname == domainname
    {
      var i := 0;
      while i < |list|
        invariant i <= |list| && forall k :: 0 <= k < i ==> list[k].domainname != domainname
      {
        var compare := Strcmp(domainname, list[i].domainname);
        if compare == 0 {
          return list[i];
        }
        if compare < 0 {
          NotFurther(above, list, i, domainname);
          return null;
        }
        i := i + 1;
      }
      b := null;
    }

    /** New values for a binding that there is. */
    method Change(b: Binding, dirname: Param, codeset: Param) returns (modified: bool)
      requires Valid() && b in list
      modifies b, this`table
      ensures Valid() && table == Updated(old(table), b.domainname, dirname, codeset, defaultDirname)
      ensures modified <==> table != old(table)
    {
      ghost var was := table;
      Alone(above, list, b);
      modified := b.Assign(dirname, codeset);
      ChangedInTable(list, b, was);
      table := was[b.domainname := AttributesOf(b)];
      if !modified {
        assert table == was;
      } else {
        assert table[b.domainname] != was[b.domainname];
      }
    }

    /** The place of a new name in the list. */
    method Place(domainname: string) returns (i: nat)
      requires Valid() && domainname !in table
      ensures i <= |list| && forall k :: 0 <= k < i ==> above(domainname, list[k].domainname)
      ensures forall k :: i <= k < |list| ==> above(list[k].domainname, domainname)
    {
      i := 0;
      if |list| > 0 && Strcmp(domainname, list[0].domainname) >= 0 {
        assert list[0] in list;
        i := 1;
        while i < |list| && Strcmp(domainname, list[i].domainname) > 0
          invariant 1 <= i <= |list| && forall k :: 0 <= k < i ==> above(domainname, list[k].domainname)
        {
          i := i + 1;
        }
      }
      if i < |list| {
        assert list[i] in list;
        AllBehind(above, list, i, domainname);
      }
    }

    method Enqueue(i: nat, b: Binding)
      requires Valid() && b.domainname !in table && i <= |list|
      requires forall k :: 0 <= k < i ==> above(b.domainname, list[k].domainname)
      requires forall k :: i <= k < |list| ==> above(list[k].domainname, b.domainname)
      modifies this`list, this`table
      ensures Valid() && table == old(table)[b.domainname := AttributesOf(b)]
      ensures list == old(list[..i]) + [b] + old(list[i..])
    {
      Enqueued(above, list, i, b);
      AddedToTable(list, i, b, table);
      list := list[..i] + [b] + list[i..];
      table := table[b.domainname := AttributesOf(b)];
    }

    /** A new binding. */
    method Add(domainname: string, dirname: Param, codeset: Param)
      requires Valid() && domainname !in table && (dirname.New() || codeset.New())
      modifies this`list, this`table
      ensures Valid() && table == Updated(old(table), domainname, dirname, codeset, defaultDirname)
      ensures forall c :: c in list ==> c in old(list) || fresh(c)
    {
      var b := new Binding(
        domainname, if dirname.New() then dirname.value.value else defaultDirname,
        if codeset.New() then codeset.value else None, if codeset.New() then 1 else 0);
      var i := Place(domainname);
      Enqueue(i, b);
    }

    /** `set_binding_values`: the counter steps exactly if something has changed. */
    method SetBindingValues(domainname: Option<string>, dirnamep: Param, codesetp: Param)
      returns (dirname: Param, codeset: Param)
      requires Valid()
      modifies this, list
      ensures Valid()
      ensures domainname.None? || domainname.value == "" ==>
                && table == old(table)
                && dirname == (if dirnamep.Present? then Present(None) else Absent)
                && codeset == (if codesetp.Present? then Present(None) else Absent)
      ensures domainname.Some? && domainname.value != "" ==>
                && table == Updated(old(table), domainname.value, dirnamep, codesetp, defaultDirname)
                && var a := Effective(table, domainname.value, defaultDirname);
                   && dirname == (if dirnamep.Present? then Present(Some(a.dirname)) else Absent)
                   && codeset == (if codesetp.Present? then Present(a.codeset) else Absent)
      ensures catCntr == old(catCntr) + if table == old(table) then 0 else 1
      ensures forall c :: c in list ==> c in old(list) || fresh(c)
    {
      dirname, codeset := dirnamep, codesetp;
      if domainname.None? || domainname.value == "" {
        if dirnamep.Present? {
          dirname := Present(None);
        }
        if codesetp.Present? {
          codeset := Present(None);
        }
        return;
      }
      var modified := false;
      var b := Find(domainname.value);
      if b != null {
        modified := Change(b, dirnamep, codesetp);
        dirname := if dirnamep.Present? then Present(Some(b.dirname)) else Absent;
        codeset := if codesetp.Present? then Present(b.codeset) else Absent;
      } else if !dirnamep.New() && !codesetp.New() {
        dirname := if dirnamep.Present? then Present(Some(defaultDirname)) else Absent;
        codeset := if codesetp.Present? then Present(None) else Absent;
      } else {
        Add(domainname.value, dirnamep, codesetp);
        var used: CString := if dirnamep.New() then dirnamep.value.value else defaultDirname;
        dirname := if dirnamep.Present? then Present(Some(used)) else Absent;
        modified := true;
      }
      if modified {
        catCntr := catCntr + 1;
      }
    }
  }

  lemma NotFurther(above: (string, string) -> bool, list: seq<Binding>, i: nat, domainname: string)
    requires Real(above) && Ascending(above, list) && i < |list| && Strcmp(domainname, list[i].domainname) < 0
    ensures forall k :: i <= k < |list| ==> list[k].domainname != domainname
  {
    AllBehind(above, list, i, domainname);
    assert !(Strcmp(domainname, domainname) > 0);
  }

  lemma AllBehind(above: (string, string) -> bool, list: seq<Binding>, i: nat, domainname: string)
    requires Real(above) && Ascending(above, list) && i < |list| && Strcmp(domainname, list[i].domainname) < 0
    ensures forall k :: i <= k < |list| ==> above(list[k].domainname, domainname)
  {
    StrcmpReversed(domainname, list[i].domainname);
    forall k | i < k < |list| ensures above(list[k].domainname, domainname) {
      assert above(list[k].domainname, list[i].domainname);
      assert Strcmp(list[k].domainname, list[i].domainname) > 0;
      StrcmpTransitive(list[k].domainname, list[i].domainname, domainname);
    }
  }

  lemma Alone(above: (string, string) -> bool, list: seq<Binding>, b: Binding)
    requires Real(above) && Ascending(above, list) && b in list
    ensures forall c :: c in list && c != b ==> c.domainname != b.domainname
  {
    assert !(Strcmp(b.domainname, b.domainname) > 0);
    forall c | c in list && c != b ensures c.domainname != b.domainname {
      var i :| 0 <= i < |list| && list[i] == b;
      var j :| 0 <= j < |list| && list[j] == c;
      assert above(list[if i < j then j else i].domainname, list[if i < j then i else j].domainname);
    }
  }

  lemma Enqueued(above: (string, string) -> bool, list: seq<Binding>, i: nat, b: Binding)
    requires Ascending(above, list) && i <= |list|
    requires forall k :: 0 <= k < i ==> above(b.domainname, list[k].domainname)
    requires forall k :: i <= k < |list| ==> above(list[k].domainname, b.domainname)
    ensures Ascending(above, list[..i] + [b] + list[i..])
  {}

  lemma ChangedInTable(list: seq<Binding>, b: Binding, t: Table)
    requires b in list && forall c :: c in list && c != b ==> c.domainname in t && t[c.domainname] == AttributesOf(c)
    requires forall c :: c in list && c != b ==> c.domainname != b.domainname
    requires forall d :: d in t ==> Named(list, d)
    ensures Tabulates(list, t[b.domainname := AttributesOf(b)])
  {}

  lemma AddedToTable(list: seq<Binding>, i: nat, b: Binding, t: Table)
    requires Tabulates(list, t) && i <= |list| && b.domainname !in t
    ensures Tabulates(list[..i] + [b] + list[i..], t[b.domainname := AttributesOf(b)])
  {
    var now := list[..i] + [b] + list[i..];
    assert list == list[..i] + list[i..] && b in now;
    assert forall c :: c in now <==> c in list || c == b;
    forall d | d in t ensures Named(now, d) {
      var c :| c in list && c.domainname == d;
      assert c in now;
    }
  }
}
