/** Sequences with one element put in or taken out. */
module Lists {
  /** s with x at position k and the rest of s behind it. */
  function Inserted<T>(s: seq<T>, k: nat, x: T): (r: seq<T>)
    requires k <= |s|
    ensures |r| == |s| + 1
    ensures r[k] == x
    ensures forall i {:trigger r[i]} :: 0 <= i < k ==> r[i] == s[i]
    ensures forall i {:trigger r[i]} :: k < i < |r| ==> r[i] == s[i - 1]
  {
    s[..k] + [x] + s[k..]
  }

  /** s without the element at position k. */
  function Removed<T>(s: seq<T>, k: nat): (r: seq<T>)
    requires k < |s|
    ensures |r| == |s| - 1
    ensures forall i :: 0 <= i < |r| ==> r[i] == s[if i < k then i else i + 1]
  {
    s[..k] + s[k + 1..]
  }

  lemma InsertedLast<T>(s: seq<T>, x: T)
    ensures Inserted(s, |s|, x) == s + [x]
  {
    assert s[..|s|] == s && s[|s|..] == [];
  }
}
