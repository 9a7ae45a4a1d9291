/** Sequences of distinct elements. */
module Seqs {
  ghost predicate NoDup<T>(list: seq<T>) {
    forall i, j | 0 <= i < j < |list| :: list[i] != list[j]
  }

  lemma NoDupCons<T>(x: T, list: seq<T>)
    requires NoDup(list) && x !in list
    ensures NoDup([x] + list)
  {
  }

  /** `list` without its first occurrence of `x`. */
  function Without<T(==)>(list: seq<T>, x: T): seq<T> {
    if list == [] then []
    else if list[0] == x then list[1..]
    else [list[0]] + Without(list[1..], x)
  }

  lemma {:induction false} WithoutMembers<T>(list: seq<T>, x: T)
    requires NoDup(list)
    ensures NoDup(Without(list, x))
    ensures forall t :: t in Without(list, x) <==> t in list && t != x
  {
    if list != [] {
      var tail := list[1..];
      assert list == [list[0]] + tail;
      assert NoDup(tail) && list[0] !in tail;
      WithoutMembers(tail, x);
    }
  }
}
