/** Sizes of finite sets. */
module SetSizes {
  lemma {:induction false} SubsetSize(a: set<nat>, b: set<nat>)
    requires a <= b
    ensures |a| <= |b|
    decreases a
  {
    if a != {} {
      var i :| i in a;
      SubsetSize(a - {i}, b - {i});
    }
  }
}
