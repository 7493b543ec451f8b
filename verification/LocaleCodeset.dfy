/** What the normalized form of a codeset is, without its definition (intl/l10nflist.c:366-414). */
module LocaleCodeset {
  import opened LocaleName

  lemma {:induction false} KeptJoined(a: string, b: string)
    ensures Kept(a + b) == Kept(a) + Kept(b)
    decreases |b|
  {
    if b == "" {
      assert a + b == a;
    } else {
      var c := b[..|b| - 1];
      assert (a + b)[..|a + b| - 1] == a + c && (a + b)[|a + b| - 1] == b[|b| - 1];
      KeptJoined(a, c);
    }
  }

  predicate Lettered(s: string) {
    exists k :: 0 <= k < |s| && Alpha(s[k])
  }

  lemma LetteredJoined(a: string, b: string)
    ensures Lettered(a + b) <==> Lettered(a) || Lettered(b)
  {
    if Lettered(a) {
      var k :| 0 <= k < |a| && Alpha(a[k]);
      assert (a + b)[k] == a[k];
    }
    if Lettered(b) {
      var k :| 0 <= k < |b| && Alpha(b[k]);
      assert (a + b)[|a| + k] == b[k];
    }
  }

  lemma KeptOne(c: char)
    ensures Kept([c]) == if Alnum(c) then [Lower(c)] else ""
  {
    assert [c][..0] == "";
  }

  lemma Around(a: string, m: string, b: string)
    ensures Kept(a + m + b) == Kept(a) + Kept(m) + Kept(b)
    ensures Lettered(a + m + b) <==> Lettered(a) || Lettered(m) || Lettered(b)
  {
    KeptJoined(a + m, b);
    KeptJoined(a, m);
    LetteredJoined(a + m, b);
    LetteredJoined(a, m);
  }

  /** A character that is neither a letter nor a digit does not matter. */
  lemma SignsDropped(a: string, c: char, b: string)
    requires !('0' <= c <= '9') && !('a' <= c <= 'z') && !('A' <= c <= 'Z')
    ensures Normalize(a + [c] + b) == Normalize(a + b)
  {
    Around(a, [c], b);
    KeptJoined(a, b);
    LetteredJoined(a, b);
    KeptOne(c);
  }

  /** The case of a letter does not matter. */
  lemma CaseFolded(a: string, big: char, small: char, b: string)
    requires 'A' <= big <= 'Z' && 'a' <= small <= 'z' && small as int - 'a' as int == big as int - 'A' as int
    ensures Normalize(a + [big] + b) == Normalize(a + [small] + b)
  {
    Around(a, [big], b);
    Around(a, [small], b);
    KeptOne(big);
    KeptOne(small);
    assert Lettered([big]) && Lettered([small]) by {
      assert Alpha([big][0]) && Alpha([small][0]);
    }
  }

  lemma {:induction false} KeptSame(s: string)
    requires forall k :: 0 <= k < |s| ==> '0' <= s[k] <= '9' || 'a' <= s[k] <= 'z'
    ensures Kept(s) == s
  {
    if s != "" {
      KeptSame(s[..|s| - 1]);
      assert s == s[..|s| - 1] + [s[|s| - 1]];
    }
  }

  /** Small letters and digits stay; if there are digits only, they stand for an ISO standard. */
  lemma Stays(s: string)
    requires forall k :: 0 <= k < |s| ==> '0' <= s[k] <= '9' || 'a' <= s[k] <= 'z'
    ensures
      Normalize(s)
      == if exists k :: 0 <= k < |s| && 'a' <= s[k] <= 'z' then s else "iso" + s
  {
    KeptSame(s);
    if k :| 0 <= k < |s| && 'a' <= s[k] <= 'z' {
      assert Alpha(s[k]);
    }
  }

  /** So spellings of a codeset have one normalized form. */
  lemma Spellings()
    ensures Normalize("UTF-8") == Normalize("utf-8") == "utf8"
  {
    CaseFolded("", 'U', 'u', "TF-8");
    CaseFolded("u", 'T', 't', "F-8");
    CaseFolded("ut", 'F', 'f', "-8");
    SignsDropped("utf", '-', "8");
    assert "" + ['U'] + "TF-8" == "UTF-8" && "" + ['u'] + "TF-8" == "u" + ['T'] + "F-8";
    assert "u" + ['t'] + "F-8" == "ut" + ['F'] + "-8" && "ut" + ['f'] + "-8" == "utf" + ['-'] + "8" == "utf-8";
    assert "utf" + "8" == "utf8";
    Stays("utf8");
    assert "utf8"[0] == 'u';
  }
}
