/** Lists of directories and the names of locale files (intl/l10nflist.c:85-147, 185-267). */
module LocaleFile {
  import opened LocaleMask
  import opened LocaleName
  import opened Options

  // ----- argz: strings one behind the other, each with its NUL

  /** The end of the string at `p`. */
  function EndOf(argz: string, p: nat): (e: nat)
    requires p <= |argz|
    ensures p <= e <= |argz| && (e < |argz| ==> argz[e] == '\0')
    ensures forall k :: p <= k < e ==> argz[k] != '\0'
    decreases |argz| - p
  {
    if p == |argz| || argz[p] == '\0' then p else EndOf(argz, p + 1)
  }

  /** The strings from `p` on. */
  function Entries(argz: string, p: nat): seq<string>
    requires p <= |argz|
    decreases |argz| - p
  {
    if p == |argz| then []
    else
      var e := EndOf(argz, p);
      [argz[p..e]] + if e == |argz| then [] else Entries(argz, e + 1)
  }

  /** The last string has its NUL. */
  ghost predicate Closed(argz: string) {
    argz != "" ==> argz[|argz| - 1] == '\0'
  }

  method Strlen(argz: string, p: nat) returns (n: nat)
    requires Closed(argz) && p < |argz|
    ensures p + n == EndOf(argz, p) < |argz|
  {
    n := 0;
    while argz[p + n] != '\0'
      invariant p + n < |argz| && EndOf(argz, p) == EndOf(argz, p + n)
      decreases |argz| - n
    {
      n := n + 1;
    }
  }

  method ArgzCount(argz: string) returns (count: nat)
    requires Closed(argz)
    ensures count == |Entries(argz, 0)|
  {
    count := 0;
    var p := 0;
    while p < |argz|
      invariant p <= |argz| && count + |Entries(argz, p)| == |Entries(argz, 0)|
    {
      var partLen := Strlen(argz, p);
      p := p + partLen + 1;
      count := count + 1;
    }
  }

  function EntriesAt(argz: string, entry: Option<nat>): (l: seq<string>)
    requires entry.Some? ==> entry.value < |argz|
    ensures entry.Some? <==> l != []
  {
    if entry.Some? then Entries(argz, entry.value) else []
  }

  /** The next entry, or the first: what is left are the entries from there on. */
  method ArgzNext(argz: string, entry: Option<nat>) returns (next: Option<nat>)
    requires Closed(argz) && (entry.Some? ==> entry.value < |argz|)
    ensures next.Some? ==> next.value < |argz| && (entry.Some? ==> entry.value < next.value)
    ensures EntriesAt(argz, next) == if entry.Some? then EntriesAt(argz, entry)[1..] else Entries(argz, 0)
  {
    if entry.Some? {
      var len := Strlen(argz, entry.value);
      var e := entry.value + len + 1;
      assert EntriesAt(argz, entry) == [argz[entry.value..e - 1]] + Entries(argz, e);
      next := if e >= |argz| then None else Some(e);
    } else {
      next := if |argz| > 0 then Some(0) else None;
    }
  }

  function Joined(dirs: seq<string>, sep: char): string {
    if |dirs| == 0 then "" else if |dirs| == 1 then dirs[0] else dirs[0] + [sep] + Joined(dirs[1..], sep)
  }

  /** The character at `k` when every NUL but the last has become the separator. */
  function Separated(argz: string, sep: char, k: nat): char
    requires k < |argz|
  {
    if argz[k] == '\0' && k < |argz| - 1 then sep else argz[k]
  }

  /** `j` is what becomes of the strings from `p` on. */
  ghost predicate SeparatedFrom(j: string, argz: string, sep: char, p: nat) {
    |j| == |argz| - p && forall k: nat :: k < |j| ==> j[k] == Separated(argz, sep, p + k)
  }

  lemma OneMore(argz: string, p: nat, e: nat, sep: char, rest: string)
    requires p <= e < |argz| && argz[e] == '\0' && forall k :: p <= k < e ==> argz[k] != '\0'
    requires if e + 1 < |argz| then SeparatedFrom(rest, argz, sep, e + 1) else rest == ""
    ensures SeparatedFrom(argz[p..e] + [if e + 1 < |argz| then sep else '\0'] + rest, argz, sep, p)
  {
    var j := argz[p..e] + [if e + 1 < |argz| then sep else '\0'] + rest;
    forall k: nat | k < |j| ensures j[k] == Separated(argz, sep, p + k) {
      if p + k > e {
        assert j[k] == rest[p + k - e - 1];
      }
    }
  }

  lemma {:induction false} JoinedIs(argz: string, p: nat, sep: char)
    requires Closed(argz) && p < |argz|
    ensures SeparatedFrom(Joined(Entries(argz, p), sep) + ['\0'], argz, sep, p)
    decreases |argz| - p
  {
    var e := EndOf(argz, p);
    var all, rest := Entries(argz, p), Entries(argz, e + 1);
    if e + 1 < |argz| {
      JoinedIs(argz, e + 1, sep);
      OneMore(argz, p, e, sep, Joined(rest, sep) + ['\0']);
      assert all[1..] == rest;
      assert Joined(all, sep) + ['\0'] == argz[p..e] + [sep] + (Joined(rest, sep) + ['\0']);
    } else {
      OneMore(argz, p, e, sep, "");
      assert Joined(all, sep) + ['\0'] == argz[p..e] + ['\0'] + "";
    }
  }

  /** Every NUL but the last becomes the separator. */
  method ArgzStringify(mem: array<char>, len: nat, sep: char)
    requires 0 < len <= mem.Length && Closed(mem[..len]) && sep != '\0'
    modifies mem
    ensures mem[..len] == Joined(Entries(old(mem[..len]), 0), sep) + ['\0']
    ensures forall k :: len <= k < mem.Length ==> mem[k] == old(mem[k])
  {
    ghost var argz := mem[..len];
    var p := 0;
    while p < len
      invariant p <= len
      invariant forall k :: p <= k < len ==> mem[k] == argz[k]
      invariant forall k :: 0 <= k < p ==> mem[k] == Separated(argz, sep, k)
      invariant forall k :: len <= k < mem.Length ==> mem[k] == old(mem[k])
    {
      var e := p;
      while mem[e] != '\0'
        invariant p <= e < len && forall k :: p <= k < e ==> argz[k] != '\0'
        decreases len - e
      {
        e := e + 1;
      }
      p := e + 1;
      if p < len {
        mem[e] := sep;
      }
    }
    JoinedIs(argz, 0, sep);
  }

  // ----- file names

  const PATH_SEPARATOR := ':'

  function Text(part: Option<string>): string {
    if part.Some? then part.value else ""
  }

  /** A part with its separator, if the mask has it. */
  function Optional(there: bool, sep: char, part: Option<string>): string {
    if there then [sep] + Text(part) else ""
  }

  /** Sponsor and revision share a comma. */
  function SponsorPart(m: Mask, p: Parts): string {
    if Has(m, CEN_SPONSOR | CEN_REVISION) then
      "," + (if Has(m, CEN_SPONSOR) then Text(p.sponsor) else "") + Optional(Has(m, CEN_REVISION), '_', p.revision)
    else ""
  }

  /** The locale name with the parts of the mask. */
  function LocaleWith(m: Mask, p: Parts): string {
    p.language + Optional(Has(m, TERRITORY), '_', p.territory) + Optional(Has(m, XPG_CODESET), '.', p.codeset)
    + Optional(Has(m, XPG_NORM_CODESET), '.', p.normalized)
    + Optional(Has(m, XPG_MODIFIER | CEN_AUDIENCE), if Has(m, CEN_AUDIENCE) then '+' else '@', p.modifier)
    + Optional(Has(m, CEN_SPECIAL), '+', p.special) + SponsorPart(m, p)
  }

  function Directory(dirs: seq<string>): string {
    if dirs == [] then "" else Joined(dirs, PATH_SEPARATOR) + "/"
  }

  function FileName(dirs: seq<string>, m: Mask, p: Parts, filename: string): string {
    Directory(dirs) + LocaleWith(m, p) + "/" + filename
  }

  /** The parts of the mask are there. */
  predicate Supplied(m: Mask, p: Parts) {
    && (Has(m, TERRITORY) ==> p.territory.Some?) && (Has(m, XPG_CODESET) ==> p.codeset.Some?)
    && (Has(m, XPG_NORM_CODESET) ==> p.normalized.Some?) && (Has(m, XPG_MODIFIER | CEN_AUDIENCE) ==> p.modifier.Some?)
    && (Has(m, CEN_SPECIAL) ==> p.special.Some?) && (Has(m, CEN_SPONSOR) ==> p.sponsor.Some?)
    && (Has(m, CEN_REVISION) ==> p.revision.Some?)
  }

  function PartRoom(there: bool, part: Option<string>): nat {
    if there then |Text(part)| + 1 else 0
  }

  function SponsorRoom(m: Mask, p: Parts): nat {
    if Has(m, CEN_SPONSOR) || Has(m, CEN_REVISION) then
      1 + (if Has(m, CEN_SPONSOR) then |Text(p.sponsor)| else 0) + PartRoom(Has(m, CEN_REVISION), p.revision)
    else 0
  }

  /** The size allocated for a name. */
  function RoomFor(dirlistLen: nat, m: Mask, p: Parts, filename: string): nat {
    dirlistLen + |p.language|
    + PartRoom(Has(m, TERRITORY), p.territory) + PartRoom(Has(m, XPG_CODESET), p.codeset)
    + PartRoom(Has(m, XPG_NORM_CODESET), p.normalized)
    + PartRoom(Has(m, XPG_MODIFIER) || Has(m, CEN_AUDIENCE), p.modifier)
    + PartRoom(Has(m, CEN_SPECIAL), p.special) + SponsorRoom(m, p)
    + 1 + |filename| + 1
  }

  lemma EitherBit(m: bv8, a: bv8, b: bv8)
    ensures m & (a | b) != 0 <==> m & a != 0 || m & b != 0
  {}

  lemma {:induction false} JoinedLength(argz: string)
    requires Closed(argz)
    ensures |Directory(Entries(argz, 0))| == |argz|
  {
    if argz != "" {
      JoinedIs(argz, 0, PATH_SEPARATOR);
    }
  }

  lemma SponsorLength(m: Mask, p: Parts)
    ensures |SponsorPart(m, p)| == SponsorRoom(m, p)
  {
    EitherBit(m, CEN_SPONSOR, CEN_REVISION);
  }

  lemma PartLength(there: bool, sep: char, part: Option<string>)
    ensures |Optional(there, sep, part)| == PartRoom(there, part)
  {}

  lemma Lengths(
    a: string, b: string, c: string, d: string, e: string, f: string, g: string, h: string, i: string, j: string)
    ensures |a + (b + c + d + e + f + g + h) + i + j| == |a| + |b| + |c| + |d| + |e| + |f| + |g| + |h| + |i| + |j|
  {}

  lemma NameLength(dirs: seq<string>, m: Mask, p: Parts, filename: string)
    ensures |FileName(dirs, m, p, filename)| + 1 == RoomFor(|Directory(dirs)|, m, p, filename)
  {
    var sep := if Has(m, CEN_AUDIENCE) then '+' else '@';
    var modifier := Has(m, XPG_MODIFIER | CEN_AUDIENCE);
    PartLength(Has(m, TERRITORY), '_', p.territory);
    PartLength(Has(m, XPG_CODESET), '.', p.codeset);
    PartLength(Has(m, XPG_NORM_CODESET), '.', p.normalized);
    PartLength(modifier, sep, p.modifier);
    PartLength(Has(m, CEN_SPECIAL), '+', p.special);
    EitherBit(m, XPG_MODIFIER, CEN_AUDIENCE);
    assert modifier <==> Has(m, XPG_MODIFIER) || Has(m, CEN_AUDIENCE);
    SponsorLength(m, p);
    Lengths(
      Directory(dirs), p.language, Optional(Has(m, TERRITORY), '_', p.territory),
      Optional(Has(m, XPG_CODESET), '.', p.codeset), Optional(Has(m, XPG_NORM_CODESET), '.', p.normalized),
      Optional(modifier, sep, p.modifier), Optional(Has(m, CEN_SPECIAL), '+', p.special), SponsorPart(m, p), "/",
      filename);
  }

  /** It is exactly what the name and its NUL take. */
  lemma RoomIsExact(argz: string, m: Mask, p: Parts, filename: string)
    requires Closed(argz)
    ensures RoomFor(|argz|, m, p, filename) == |FileName(Entries(argz, 0), m, p, filename)| + 1
  {
    JoinedLength(argz);
    NameLength(Entries(argz, 0), m, p, filename);
  }

  /** The memory up to `cp` is a beginning of the name, and `rest` is missing. */
  ghost predicate Missing(mem: array<char>, cp: nat, rest: string, name: string)
    reads mem
  {
    mem.Length == |name| + 1 && cp <= |name| && mem[..cp] + rest == name
  }

  method Put(mem: array<char>, cp: nat, c: char, ghost rest: string, ghost name: string) returns (next: nat)
    requires Missing(mem, cp, [c] + rest, name)
    modifies mem
    ensures next == cp + 1 && Missing(mem, next, rest, name)
  {
    ghost var was := mem[..cp];
    mem[cp] := c;
    next := cp + 1;
    assert mem[..next] == was + [c];
  }

  /** `stpcpy`; the result is where it put the NUL. */
  method Stpcpy(mem: array<char>, cp: nat, src: string, ghost rest: string, ghost name: string) returns (next: nat)
    requires Missing(mem, cp, src + rest, name)
    modifies mem
    ensures next == cp + |src| && Missing(mem, next, rest, name) && mem[next] == '\0'
  {
    ghost var was := mem[..cp];
    for k := 0 to |src|
      invariant mem[..cp + k] == was + src[..k]
    {
      mem[cp + k] := src[k];
      assert mem[..cp + k + 1] == mem[..cp + k] + [src[k]];
    }
    next := cp + |src|;
    mem[next] := '\0';
    assert mem[..next] == was + src;
  }

  method PutPart(
    mem: array<char>, cp: nat, there: bool, sep: char, part: Option<string>, ghost rest: string, ghost name: string)
    returns (next: nat)
    requires (there ==> part.Some?) && Missing(mem, cp, Optional(there, sep, part) + rest, name)
    modifies mem
    ensures Missing(mem, next, rest, name)
  {
    next := cp;
    if there {
      assert Optional(there, sep, part) + rest == [sep] + (part.value + rest);
      next := Put(mem, next, sep, part.value + rest, name);
      next := Stpcpy(mem, next, part.value, rest, name);
    } else {
      assert Optional(there, sep, part) + rest == rest;
    }
  }

  method PutSponsor(mem: array<char>, cp: nat, m: Mask, p: Parts, ghost rest: string, ghost name: string)
    returns (next: nat)
    requires Supplied(m, p) && Missing(mem, cp, SponsorPart(m, p) + rest, name)
    modifies mem
    ensures Missing(mem, next, rest, name)
  {
    next := cp;
    if Has(m, CEN_SPONSOR | CEN_REVISION) {
      ghost var revision := Optional(Has(m, CEN_REVISION), '_', p.revision) + rest;
      ghost var sponsor := (if Has(m, CEN_SPONSOR) then Text(p.sponsor) else "") + revision;
      assert SponsorPart(m, p) + rest == [','] + sponsor;
      next := Put(mem, next, ',', sponsor, name);
      if Has(m, CEN_SPONSOR) {
        next := Stpcpy(mem, next, p.sponsor.value, revision, name);
      }
      next := PutPart(mem, next, Has(m, CEN_REVISION), '_', p.revision, rest, name);
    } else {
      assert SponsorPart(m, p) + rest == rest;
    }
  }

  /** The list of directories, joined, with a slash in place of its last NUL. */
  method PutDirectory(mem: array<char>, argz: string, ghost rest: string, ghost name: string) returns (cp: nat)
    requires Closed(argz) && mem.Length == |name| + 1 && Directory(Entries(argz, 0)) + rest == name
    modifies mem
    ensures Missing(mem, cp, rest, name)
  {
    cp := 0;
    JoinedLength(argz);
    if |argz| > 0 {
      for k := 0 to |argz|
        invariant mem[..k] == argz[..k]
      {
        mem[k] := argz[k];
      }
      assert mem[..|argz|] == argz;
      ArgzStringify(mem, |argz|, PATH_SEPARATOR);
      cp := |argz|;
      ghost var joined := Joined(Entries(argz, 0), PATH_SEPARATOR);
      assert forall k :: 0 <= k < |joined| ==> mem[k] == joined[k] by {
        assert forall k :: 0 <= k < |joined| ==> mem[k] == mem[..cp][k];
      }
      mem[cp - 1] := '/';
      assert mem[..cp] == joined + "/";
    }
  }

  /** What is to be written behind the directory, one part after the other. */
  function Rests(m: Mask, p: Parts, filename: string): (r: seq<string>)
    ensures |r| == 8
  {
    var r7 := "/" + filename;
    var r6 := SponsorPart(m, p) + r7;
    var r5 := Optional(Has(m, CEN_SPECIAL), '+', p.special) + r6;
    var r4 := Optional(Has(m, XPG_MODIFIER | CEN_AUDIENCE), if Has(m, CEN_AUDIENCE) then '+' else '@', p.modifier) + r5;
    var r3 := Optional(Has(m, XPG_NORM_CODESET), '.', p.normalized) + r4;
    var r2 := Optional(Has(m, XPG_CODESET), '.', p.codeset) + r3;
    var r1 := Optional(Has(m, TERRITORY), '_', p.territory) + r2;
    [p.language + r1, r1, r2, r3, r4, r5, r6, r7]
  }

  lemma RestsAreAll(dirs: seq<string>, m: Mask, p: Parts, filename: string)
    ensures FileName(dirs, m, p, filename) == Directory(dirs) + Rests(m, p, filename)[0]
  {
    FromTheRight(
      Directory(dirs), p.language, Optional(Has(m, TERRITORY), '_', p.territory),
      Optional(Has(m, XPG_CODESET), '.', p.codeset), Optional(Has(m, XPG_NORM_CODESET), '.', p.normalized),
      Optional(Has(m, XPG_MODIFIER | CEN_AUDIENCE), if Has(m, CEN_AUDIENCE) then '+' else '@', p.modifier),
      Optional(Has(m, CEN_SPECIAL), '+', p.special), SponsorPart(m, p), "/", filename);
  }

  lemma FromTheRight(
    d: string, l: string, a: string, b: string, c: string, e: string, f: string, g: string, h: string, i: string)
    ensures d + (l + a + b + c + e + f + g) + h + i == d + (l + (a + (b + (c + (e + (f + (g + (h + i))))))))
  {}

  method PutParts(
    mem: array<char>, start: nat, m: Mask, p: Parts, ghost r: seq<string>, filename: string, ghost name: string)
    returns (cp: nat)
    requires Supplied(m, p) && r == Rests(m, p, filename) && Missing(mem, start, r[1], name)
    modifies mem
    ensures Missing(mem, cp, "/" + filename, name)
  {
    cp := PutPart(mem, start, Has(m, TERRITORY), '_', p.territory, r[2], name);
    cp := PutPart(mem, cp, Has(m, XPG_CODESET), '.', p.codeset, r[3], name);
    cp := PutPart(mem, cp, Has(m, XPG_NORM_CODESET), '.', p.normalized, r[4], name);
    cp := PutPart(
      mem, cp, Has(m, XPG_MODIFIER | CEN_AUDIENCE), if Has(m, CEN_AUDIENCE) then '+' else '@', p.modifier, r[5], name);
    cp := PutPart(mem, cp, Has(m, CEN_SPECIAL), '+', p.special, r[6], name);
    cp := PutSponsor(mem, cp, m, p, r[7], name);
  }

  method PutName(mem: array<char>, argz: string, m: Mask, p: Parts, filename: string, ghost name: string)
    requires Closed(argz) && Supplied(m, p) && mem.Length == |name| + 1
    requires name == Directory(Entries(argz, 0)) + Rests(m, p, filename)[0]
    modifies mem
    ensures mem[..] == name + ['\0']
  {
    ghost var r := Rests(m, p, filename);
    var cp := PutDirectory(mem, argz, r[0], name);
    cp := Stpcpy(mem, cp, p.language, r[1], name);
    cp := PutParts(mem, cp, m, p, r, filename, name);
    cp := Put(mem, cp, '/', filename, name);
    assert filename + "" == filename;
    cp := Stpcpy(mem, cp, filename, "", name);
    assert mem[..cp] == name;
  }

  /** The name of the file, in memory of exactly its size. */
  method BuildFileName(argz: string, m: Mask, p: Parts, filename: string) returns (mem: array<char>)
    requires Closed(argz) && Supplied(m, p)
    ensures fresh(mem) && mem[..] == FileName(Entries(argz, 0), m, p, filename) + ['\0']
  {
    mem := new char[RoomFor(|argz|, m, p, filename)];
    ghost var name := FileName(Entries(argz, 0), m, p, filename);
    RoomIsExact(argz, m, p, filename);
    RestsAreAll(Entries(argz, 0), m, p, filename);
    PutName(mem, argz, m, p, filename, name);
  }
}
