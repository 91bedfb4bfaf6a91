/**
 Cardinalities of finite sets, and lists without repetition.
 */
module Sets {
  lemma {:induction false} SubsetSize<T>(a: set<T>, b: set<T>)
    requires a <= b
    ensures |a| <= |b|
    decreases |a|
  {
    if a != {} {
      var x :| x in a;
      SubsetSize(a - {x}, b - {x});
    }
  }

  ghost predicate Distinct<T(!new)>(s: seq<T>) {
    forall i, j | 0 <= i < j < |s| :: s[i] != s[j]
  }

  /** A list without repetition is no longer than the set it is drawn from. */
  lemma {:induction false} DistinctFits<T(!new)>(s: seq<T>, t: set<T>)
    requires Distinct(s) && forall i | 0 <= i < |s| :: s[i] in t
    ensures |s| <= |t|
  {
    if s != [] {
      var n := |s| - 1;
      DistinctFits(s[..n], t - {s[n]});
    }
  }
}
