/** C strings and their order. */
module StringOrder {

  type CString = s: string | '\0' !in s witness ""

  /** `strcmp`. */
  function Strcmp(a: string, b: string): (c: int)
    ensures c == 0 <==> a == b
  {
    if a == "" then (if b == "" then 0 else -1)
    else if b == "" then 1
    else if a[0] != b[0] then (if a[0] < b[0] then -1 else 1)
    else
      assert a == [a[0]] + a[1..] && b == [b[0]] + b[1..];
      Strcmp(a[1..], b[1..])
  }

  lemma {:induction false} StrcmpTransitive(a: string, b: string, c: string)
    requires Strcmp(a, b) > 0 && Strcmp(b, c) > 0
    ensures Strcmp(a, c) > 0
  {
    if a != "" && b != "" && c != "" && a[0] == b[0] == c[0] {
      StrcmpTransitive(a[1..], b[1..], c[1..]);
    }
  }

  lemma {:induction false} StrcmpReversed(a: string, b: string)
    ensures Strcmp(a, b) < 0 <==> Strcmp(b, a) > 0
  {
    if a != "" && b != "" && a[0] == b[0] {
      StrcmpReversed(a[1..], b[1..]);
    }
  }
}
