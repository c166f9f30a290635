/** Lookup of a row by a key column: the `SELECT ... WHERE column = ?`
    followed by `fetchone()` that the store runs before every write. */
module Lookup {
  import opened Optional

  /** The position of the first row of `s` whose `key` is `k`, if any. */
  function FirstIndex<T, K(==)>(s: seq<T>, key: T -> K, k: K): (r: Option<nat>)
    ensures r.Some? ==> r.value < |s| && key(s[r.value]) == k
    ensures r.Some? ==> forall j | 0 <= j < r.value :: key(s[j]) != k
    ensures r.None? ==> forall j | 0 <= j < |s| :: key(s[j]) != k
  {
    if s == [] then None
    else if key(s[0]) == k then Some(0)
    else
      match FirstIndex(s[1..], key, k)
      case None => None
      case Some(i) => Some(i + 1)
  }

  /** Appending rows does not change where an existing key is first found. */
  lemma {:induction false} FirstIndexAppend<T, K>(s: seq<T>, t: seq<T>, key: T -> K, k: K)
    requires FirstIndex(s, key, k).Some?
    ensures FirstIndex(s + t, key, k) == FirstIndex(s, key, k)
  {
    var i := FirstIndex(s, key, k).value;
    assert (s + t)[i] == s[i];
    assert forall j | 0 <= j < i :: (s + t)[j] == s[j];
  }

  /** A scan of the rows in table order that stops at the first match. */
  method Find<T, K(==)>(s: seq<T>, key: T -> K, k: K) returns (r: Option<nat>)
    ensures r == FirstIndex(s, key, k)
  {
    var i := 0;
    while i < |s|
      invariant 0 <= i <= |s|
      invariant forall j | 0 <= j < i :: key(s[j]) != k
    {
      if key(s[i]) == k {
        return Some(i);
      }
      i := i + 1;
    }
    return None;
  }
}
