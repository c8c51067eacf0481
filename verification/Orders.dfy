/** Comparison functions in the style of C: negative, zero or positive. */
module Orders {
  type Cmp<!T> = (T, T) -> int

  /** A total preorder: what gnu_quicksort and HASH_SRT expect of their comparison functions. */
  ghost predicate TotalPreorder<T(!new)>(cmp: Cmp<T>) {
    && (forall x, y :: cmp(x, y) < 0 <==> cmp(y, x) > 0)
    && (forall x, y, z :: cmp(x, y) <= 0 && cmp(y, z) <= 0 ==> cmp(x, z) <= 0)
  }

  ghost predicate Le<T(!new)>(cmp: Cmp<T>, x: T, y: T) {
    cmp(x, y) <= 0
  }

  lemma NotLess<T(!new)>(cmp: Cmp<T>, x: T, y: T)
    requires TotalPreorder(cmp)
    ensures if cmp(x, y) < 0 then Le(cmp, x, y) else Le(cmp, y, x)
  {
  }

  lemma LeTrans<T(!new)>(cmp: Cmp<T>, x: T, y: T, z: T)
    requires TotalPreorder(cmp) && Le(cmp, x, y) && Le(cmp, y, z)
    ensures Le(cmp, x, z)
  {
  }

  lemma LeRefl<T(!new)>(cmp: Cmp<T>, x: T)
    requires TotalPreorder(cmp)
    ensures Le(cmp, x, x)
  {
    NotLess(cmp, x, x);
  }

  ghost predicate Sorted<T(!new)>(cmp: Cmp<T>, s: seq<T>) {
    forall i, j :: 0 <= i < j < |s| ==> Le(cmp, s[i], s[j])
  }
}
