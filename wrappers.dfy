/** Small shared definitions: the optional value, and the first position of an entry in a sequence. */
module Wrappers {
  datatype Option<+T> = None | Some(value: T)

  /** The position of the first occurrence of `x` in `s`. */
  function FirstIndex<T(==)>(s: seq<T>, x: T): (k: nat)
    requires x in s
    ensures k < |s| && s[k] == x
    ensures forall j :: 0 <= j < k ==> s[j] != x
  {
    if s[0] == x then 0 else 1 + FirstIndex(s[1..], x)
  }

  lemma {:induction false} FirstIndexSnoc<T>(s: seq<T>, x: T, y: T)
    requires y in s
    ensures FirstIndex(s + [x], y) == FirstIndex(s, y)
  {
    var k := FirstIndex(s, y);
    var t := s + [x];
    assert t[k] == y;
    assert forall j :: 0 <= j < k ==> t[j] != y;
    FirstIndexUnique(t, y, k);
  }

  lemma FirstIndexUnique<T>(s: seq<T>, y: T, k: nat)
    requires k < |s| && s[k] == y && forall j :: 0 <= j < k ==> s[j] != y
    ensures FirstIndex(s, y) == k
  {
    var f := FirstIndex(s, y);
    assert !(f < k) && !(k < f);
  }
}
