/** Facts about finite sequences used throughout the model: duplicate-freedom and
    how it relates to the set of elements. */
module Seqs {

  /** No element occurs twice. */
  ghost predicate Distinct<T>(s: seq<T>)
  {
    forall i, j :: 0 <= i < j < |s| ==> s[i] != s[j]
  }

  /** Two duplicate-free sequences with no element in common concatenate to a
      duplicate-free sequence. */
  lemma DistinctConcat<T>(a: seq<T>, b: seq<T>)
    ensures Distinct(a) && Distinct(b) && (forall x :: x in a ==> x !in b) ==> Distinct(a + b)
  {
    if Distinct(a) && Distinct(b) && (forall x :: x in a ==> x !in b) {
      var r := a + b;
      forall i, j | 0 <= i < j < |r|
        ensures r[i] != r[j]
      {
        if i < |a| <= j {
          assert r[i] in a && r[j] == b[j - |a|];
        }
      }
    }
  }

  /** A duplicate-free sequence has as many elements as its set. */
  lemma {:induction false} DistinctCard<T>(s: seq<T>)
    requires Distinct(s)
    ensures |set x | x in s| == |s|
  {
    if |s| > 0 {
      DistinctCard(s[1..]);
      assert (set x | x in s) == (set x | x in s[1..]) + {s[0]};
      assert s[0] !in (set x | x in s[1..]);
    }
  }

  /** A duplicate-free sequence drawn from a set of the same size covers the whole set. */
  lemma Covers<T>(s: seq<T>, all: set<T>)
    requires Distinct(s)
    requires forall x :: x in s ==> x in all
    requires |s| == |all|
    ensures forall x :: x in all ==> x in s
  {
    var elems := set x | x in s;
    DistinctCard(s);
    assert elems <= all;
    var missing := all - elems;
    assert |all| == |elems| + |missing|;
    assert missing == {};
  }

  /** A duplicate-free sequence shorter than a set misses one of its elements. */
  lemma Missing<T>(s: seq<T>, all: set<T>)
    requires Distinct(s)
    requires |s| < |all|
    ensures exists x :: x in all && x !in s
  {
    var elems := set x | x in s;
    DistinctCard(s);
    var missing := all - elems;
    assert |missing| >= |all| - |elems| > 0;
    var x :| x in missing;
  }
}
