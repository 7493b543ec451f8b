/** The growing result of vasnprintf (intl/vasnprintf.c:167-205) and the calls of snprintf that fill it
    (intl/vasnprintf.c:580-851), for an snprintf that conforms to section 7.19.6.5 of ISO C99. */
module VasnprintfBuffer {
  import opened Options
  import opened PrintfSize

  /** What snprintf says through `%n` about a text of `len` characters for a buffer of `maxlen`: it may
      not understand `%n`, or count all characters, or only those that were stored. */
  type Counter = (nat, nat) -> int

  ghost predicate Conforming(nCount: Counter) {
    forall len: nat, maxlen: nat | maxlen > 0 ::
      nCount(len, maxlen) == -1 || nCount(len, maxlen) == len || nCount(len, maxlen) == Min(len, maxlen - 1)
  }

  /** The size ENSURE_ALLOCATION leaves behind. */
  function RoomFor(needed: nat, room: nat): nat {
    if needed <= room then room else Xmax(needed, if room > 0 then 2 * room else 12)
  }

  /** The enlargements it takes until a text that ends at `end` fits, behind a first buffer of `room`. */
  function Enlargements(end: nat, room: nat): nat {
    if end < room then 0 else if end < 2 * room then 1 else 2
  }

  /** The state of the loop after `k` enlargements. */
  ghost predicate Course(k: nat, room: nat, start: nat, end: nat) {
    && k <= 2 && start > 0 && (k == 0 ==> room == start)
    && (k == 1 ==> start <= end && room == Xmax(end, 2 * start))
    && (k == 2 ==> 2 * start <= end < room)
  }

  lemma CourseOn(k: nat, room: nat, start: nat, end: nat, next: nat)
    requires Course(k, room, start, end)
    ensures end < room ==> k == Enlargements(end, start)
    ensures end >= room && next == Xmax(end, 2 * room) ==> Course(k + 1, next, start, end)
  {}

  class Output {
    const resultbuf: array?<char>
    var result: array?<char>
    var room: nat                 // `allocated`
    var length: nat

    constructor (resultbuf: array?<char>, size: nat)
      requires size < SIZE_MAX && (resultbuf != null ==> size <= resultbuf.Length)
      ensures Valid() && Text() == "" && this.resultbuf == resultbuf && result == resultbuf
      ensures room == if resultbuf == null then 0 else size
    {
      this.resultbuf, result := resultbuf, resultbuf;
      room := if resultbuf == null then 0 else size;
      length := 0;
    }

    ghost predicate Valid()
      reads this
    {
      && length <= room < SIZE_MAX
      && (result == null ==> room == 0)
      && (result != null ==> room <= result.Length)
    }

    ghost function Text(): string
      reads this, result
      requires Valid()
    {
      if result == null then "" else result[..length]
    }

    /** `malloc` or `realloc`, with the text so far. */
    method Move(size: nat)
      requires Valid() && room < size < SIZE_MAX
      modifies this`result, this`room
      ensures Valid() && room == size && fresh(result) && result != null
      ensures Text() == old(Text())
    {
      var memory := new char[size](_ => '\0');
      var i := 0;
      while i < length
        invariant 0 <= i <= length && memory[..i] == Text()[..i]
        modifies memory
      {
        memory[i] := result[i];
        i := i + 1;
      }
      result, room := memory, size;
    }

    /** ENSURE_ALLOCATION. Fails only if the size cannot be expressed. */
    method Ensure(needed: size) returns (ok: bool)
      requires Valid()
      modifies this`result, this`room
      ensures Valid() && Text() == old(Text())
      ensures needed <= old(room) ==> ok && result == old(result) && room == old(room)
      ensures needed > old(room) && ok ==> fresh(result) && result != null
      ensures ok ==> room == RoomFor(needed, old(room))
      ensures !ok ==> needed == SIZE_MAX || 2 * old(room) >= SIZE_MAX
      ensures !ok ==> result == old(result)
    {
      if needed > room {
        var size := if room > 0 then Xtimes(room, 2) else 12;
        XtimesSaturates(room, 2);
        if needed > size {
          size := needed;
        }
        if size == SIZE_MAX {
          return false;
        }
        Move(size);
      }
      ok := true;
    }

    /** Puts characters behind the text; they are not counted yet. */
    method Put(s: string)
      requires Valid() && result != null && length + |s| <= room
      modifies result
      ensures Valid() && Text() == old(Text())
      ensures result[length..length + |s|] == s
      ensures result[length + |s|..] == old(result[length + |s|..])
    {
      var i := 0;
      while i < |s|
        invariant 0 <= i <= |s| && Text() == old(Text()) && result[length..length + i] == s[..i]
        invariant result[length + |s|..] == old(result[length + |s|..])
        modifies result
      {
        result[length + i] := s[i];
        assert result[length..length + i + 1] == result[length..length + i] + [s[i]];
        i := i + 1;
      }
    }

    /** Appends a piece of text, as for the literal parts of the format. */
    method Append(s: string) returns (ok: bool)
      requires Valid() && |s| <= SIZE_MAX
      modifies this, result
      ensures Valid()
      ensures ok ==> Text() == old(Text()) + s && length == old(length) + |s|
      ensures result == old(result) || fresh(result)
      ensures !ok ==> old(length) + |s| >= SIZE_MAX / 2
      ensures ok ==>
                if old(length) + |s| <= old(room) then result == old(result) && room == old(room) else fresh(result)
    {
      var augmented := Xsum(length, |s|);
      XsumSaturates(length, |s|);
      ok := Ensure(augmented);
      if ok && |s| > 0 {
        Put(s);
        length := augmented;
        assert result[..length] == old(Text()) + s;
      }
    }

    /** snprintf of a directive that yields `text`, with `maxlen` characters at the end of the result;
        `count` is set through `%n` if that is used. */
    method Snprintf(text: Option<string>, usesN: bool, nCount: Counter) returns (retcount: int, count: int)
      requires Valid() && result != null && length < room && Conforming(nCount)
      modifies result
      ensures Valid() && Text() == old(Text())
      ensures text.None? ==> retcount < 0 && count == -1
      ensures text.Some? ==> retcount == |text.value|
      ensures text.Some? ==> count == if usesN then nCount(|text.value|, room - length) else -1
      ensures text.Some? && |text.value| < room - length ==>
        result[length..length + |text.value|] == text.value && result[length + |text.value|] == '\0'
      ensures text.Some? && |text.value| >= room - length ==> result[room - 1] == '\0'
    {
      if text.None? {
        return -1, -1;
      }
      var maxlen := room - length;
      var n := if |text.value| < maxlen then |text.value| else maxlen - 1;
      Put(text.value[..n] + ['\0']);
      assert result[length..length + n + 1] == text.value[..n] + ['\0'];
      assert result[length..length + n + 1][n] == '\0'
        && result[length..length + n] == result[length..length + n + 1][..n];
      retcount := |text.value|;
      count := if usesN then nCount(|text.value|, maxlen) else -1;
    }

    /** Makes room for a result that did not fit. */
    method Enlarge(count: nat) returns (ok: bool)
      requires Valid() && length < room && count >= room - length && count <= SIZE_MAX
      modifies this`result, this`room
      ensures Valid() && Text() == old(Text()) && (fresh(result) || !ok)
      ensures ok ==> room == Xmax(length + count, 2 * old(room)) && result != null
      ensures !ok ==> length + count >= SIZE_MAX / 4 && result == old(result)
    {
      XsumSaturates(length, count);
      XtimesSaturates(room, 2);
      ok := Ensure(Xmax(Xsum(length, count), Xtimes(room, 2)));
    }

    /** One turn of the loop around snprintf. */
    method Attempt(text: Option<string>, usesN: bool, nCount: Counter) returns (outcome: Outcome)
      requires Valid() && Conforming(nCount) && result != null && length < room
      requires text.Some? ==> |text.value| <= SIZE_MAX
      modifies this, result
      ensures Valid() && (result == old(result) || fresh(result)) && (!outcome.Failed? ==> result != null)
      ensures outcome.Done? ==>
        && text.Some? && old(length) + |text.value| < room == old(room) && result == old(result)
        && Text() == old(Text()) + text.value && length == old(length) + |text.value|
      ensures !outcome.Done? ==> Text() == old(Text()) && length == old(length)
      ensures outcome == Again(false) ==> usesN && room == old(room) && result == old(result)
      ensures outcome == Again(true) ==> fresh(result) && room > old(room)
      ensures outcome == Again(true) && text.Some? ==>
        old(room) <= length + |text.value| && room == Xmax(length + |text.value|, 2 * old(room))
      ensures outcome.Failed? && text.Some? ==> length + |text.value| >= SIZE_MAX / 4
    {
      var maxlen := room - length;
      var retcount, count := Snprintf(text, usesN, nCount);
      if count >= 0 {
        assert count < maxlen ==> result[length + count] == '\0';   // or else the program aborts
        if retcount > count {
          count := retcount;
        }
      } else if usesN {
        return Again(false);
      } else if retcount < 0 {
        // An encoding error looks like an old snprintf for which the buffer is too small.
        XtimesSaturates(room, 2);
        XsumSaturates(Xtimes(room, 2), 12);
        var ok := Ensure(Xsum(Xtimes(room, 2), 12));
        return if ok then Again(true) else Failed;
      } else {
        count := retcount;
      }
      if count >= maxlen {
        var ok := Enlarge(count);
        return if ok then Again(true) else Failed;
      }
      Fits(text.value);
      return Done;
    }

    /** The snprintf result did fit. */
    method Fits(s: string)
      requires Valid() && result != null && length + |s| < room && result[length..length + |s|] == s
      modifies this`length
      ensures Valid() && Text() == old(Text()) + s && length == old(length) + |s|
    {
      length := length + |s|;
    }

    /** The loop that calls snprintf until the result fits: a text needs at most two enlargements. */
    method Retry(text: Option<string>, nCount: Counter) returns (ok: bool, ghost enlargements: nat)
      requires Valid() && Conforming(nCount) && (text.Some? ==> |text.value| <= SIZE_MAX)
      modifies this, result
      ensures Valid() && (result == old(result) || fresh(result))
      ensures text.None? ==> !ok
      ensures text.Some? ==> enlargements <= 2
      ensures ok ==> enlargements == Enlargements(length, RoomFor(old(length) + 1, old(room)))
      ensures ok ==> Text() == old(Text()) + text.value && length == old(length) + |text.value|
      ensures ok ==>
                if old(length) + |text.value| < old(room) then result == old(result) && room == old(room)
                else fresh(result)
      ensures !ok && text.Some? ==> old(length) + |text.value| >= SIZE_MAX / 4
    {
      enlargements := 0;
      XsumSaturates(length, 1);
      ok := Ensure(Xsum(length, 1));
      if !ok {
        return;
      }
      result[length] := '\0';
      ghost var start := room;
      ghost var end := if text.Some? then length + |text.value| else length;
      var usesN := true;
      while true
        invariant Valid() && result != null && Text() == old(Text()) && length == old(length) < room
        invariant if enlargements == 0 then room == start else room > start && fresh(result)
        invariant result == old(result) || fresh(result)
        invariant start == old(room) && enlargements == 0 ==> result == old(result)
        invariant start != old(room) ==> fresh(result) && old(length) == old(room)
        invariant start == RoomFor(length + 1, old(room))
        invariant text.Some? ==> Course(enlargements, room, start, end) == true
        decreases SIZE_MAX - room, usesN
      {
        ghost var before := room;
        var outcome := Attempt(text, usesN, nCount);
        if text.Some? {
          CourseOn(enlargements, before, start, end, room);
        }
        match outcome {
          case Done =>
            return;
          case Failed =>
            ok := false;
            return;
          case Again(enlarged) =>
            if enlarged {
              enlargements := enlargements + 1;
            } else {
              usesN := false;
            }
        }
      }
    }
  }

  /** What a turn of the loop comes to. */
  datatype Outcome = Done | Failed | Again(enlarged: bool)
}
