/** Generic helpers: an optional value and a first-match search over a sequence. */
module Sequences {

  /** A value that may be absent; in this model it stands for a Java reference that may be null. */
  datatype Option<+T> = None | Some(value: T)

  /** The index of the first element of `s` satisfying `p`, or None when there is none.
      This is the meaning of a for-each loop that returns on its first hit. */
  function FirstIndex<T>(s: seq<T>, p: T -> bool): (r: Option<nat>)
    ensures r.Some? ==> r.value < |s| && p(s[r.value])
    ensures r.Some? ==> forall j :: 0 <= j < r.value ==> !p(s[j])
    ensures r.None? <==> forall j :: 0 <= j < |s| ==> !p(s[j])
    decreases |s|
  {
    if s == [] then None
    else if p(s[0]) then Some(0)
    else
      match FirstIndex(s[1..], p)
      case None => None
      case Some(k) => Some(k + 1)
  }

  /** The first-match property determines the index uniquely. */
  lemma FirstIndexUnique<T>(s: seq<T>, p: T -> bool, i: nat)
    requires i < |s| && p(s[i])
    requires forall j :: 0 <= j < i ==> !p(s[j])
    ensures FirstIndex(s, p) == Some(i)
  {
  }
}
