/** Linked lists kept as sequences of the indices of their elements. */
module Links {
  const NULL := -1

  predicate Indices(list: seq<int>, n: int) {
    forall k :: 0 <= k < |list| ==> 0 <= list[k] < n
  }

  /** Element k of the list, or NULL beyond either end. */
  function At(list: seq<int>, k: int): int {
    if 0 <= k < |list| then list[k] else NULL
  }
}
