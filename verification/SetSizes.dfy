/** Sizes of finite sets of row ids. */
module SetSizes {

  lemma {:induction false} SubsetCount(a: set<nat>, b: set<nat>)
    requires a <= b
    ensures |a| <= |b|
    decreases |a|
  {
    if a != {} {
      var x :| x in a;
      SubsetCount(a - {x}, b - {x});
    }
  }

  lemma ProperCount(a: set<nat>, b: set<nat>, extra: nat)
    requires a <= b && extra in b - a
    ensures |a| < |b|
  {
    SubsetCount(a + {extra}, b);
  }
}
