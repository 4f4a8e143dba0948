/** Linked lists as sequences: adding after an element, unlinking, finding. */
module Lists {

  function InsertAt<T>(s: seq<T>, q: int, x: T): (r: seq<T>)
    requires 0 <= q <= |s|
  {
    s[..q] + [x] + s[q..]
  }

  function RemoveAt<T>(s: seq<T>, q: int): (r: seq<T>)
    requires 0 <= q < |s|
  {
    s[..q] + s[q + 1..]
  }

  /** Where x is in the list. */
  function IndexOf<T(==)>(s: seq<T>, x: T): (i: int)
    requires x in s
    ensures 0 <= i < |s| && s[i] == x
  {
    if s[0] == x then 0 else 1 + IndexOf(s[1..], x)
  }

  /** No element occurs twice. */
  ghost predicate Distinct(s: seq<int>) {
    forall i, j :: 0 <= i < j < |s| ==> s[i] != s[j]
  }
}
