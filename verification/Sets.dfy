/** Sizes of subsets. */
module Sets {

  lemma {:induction false} SizeOfSubset<T>(a: set<T>, b: set<T>)
    requires a <= b
    ensures |a| <= |b|
    ensures |a| == |b| ==> a == b
  {
    if x :| x in a {
      SizeOfSubset(a - {x}, b - {x});
    }
  }
}
