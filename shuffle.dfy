/** `shuffleList`: a Fisher–Yates shuffle of a copy of the input array. */
module Shuffle {
  import opened Random
  import opened Seqs

  /** `[array[i], array[j]] = [array[j], array[i]]` on a sequence value. */
  function Swap<T>(s: seq<T>, i: nat, j: nat): (r: seq<T>)
    requires i < |s| && j < |s|
    ensures |r| == |s| && r[i] == s[j] && r[j] == s[i]
    ensures forall k :: 0 <= k < |s| && k != i && k != j ==> r[k] == s[k]
  {
    s[i := s[j]][j := s[i]]
  }

  /** Exchanging two positions keeps every element with its multiplicity. */
  lemma SwapPermutes<T>(s: seq<T>, i: nat, j: nat)
    requires i < |s| && j < |s|
    ensures multiset(Swap(s, i, j)) == multiset(s)
  {
    var t := s[i := s[j]];
    assert multiset(t) == multiset(s) - multiset{s[i]} + multiset{s[j]};
    assert multiset(t[j := s[i]]) == multiset(t) - multiset{t[j]} + multiset{s[i]};
  }

  /** Exchanging two positions of a duplicate-free sequence keeps it duplicate-free. */
  lemma SwapDistinct<T>(s: seq<T>, i: nat, j: nat)
    requires i < |s| && j < |s| && Distinct(s)
    ensures Distinct(Swap(s, i, j))
  {
    var r := Swap(s, i, j);
    forall p, q | 0 <= p < q < |r|
      ensures r[p] != r[q]
    {
      var p' := if p == i then j else if p == j then i else p;
      var q' := if q == i then j else if q == j then i else q;
      assert r[p] == s[p'] && r[q] == s[q'] && p' != q';
    }
  }

  /** The loop iterations for `i`, `i - 1`, ..., 1: step `i` swaps position `i` with the
      position `Math.floor(Math.random() * (i + 1))` drawn for it. */
  function ShuffleSteps<T>(s: seq<T>, draws: Stream, i: nat): (r: seq<T>)
    requires i < |s|
    ensures |r| == |s|
    decreases i
  {
    if i == 0 then s
    else ShuffleSteps(Swap(s, i, Index(draws(i), i + 1)), draws, i - 1)
  }

  /** The list `shuffleList(list)` returns when `Math.random()` yields `draws(i)` at step i. */
  function Shuffled<T>(list: seq<T>, draws: Stream): (r: seq<T>)
    ensures |r| == |list|
  {
    if |list| == 0 then list else ShuffleSteps(list, draws, |list| - 1)
  }

  /** The swap steps only move elements around: the result is a permutation of `s`. */
  lemma {:induction false} ShuffleStepsPermutes<T>(s: seq<T>, draws: Stream, i: nat)
    requires i < |s|
    ensures multiset(ShuffleSteps(s, draws, i)) == multiset(s)
    decreases i
  {
    if i > 0 {
      var j := Index(draws(i), i + 1);
      SwapPermutes(s, i, j);
      ShuffleStepsPermutes(Swap(s, i, j), draws, i - 1);
    }
  }

  /** A shuffle of a duplicate-free list is duplicate-free. */
  lemma {:induction false} ShuffleStepsDistinct<T>(s: seq<T>, draws: Stream, i: nat)
    requires i < |s| && Distinct(s)
    ensures Distinct(ShuffleSteps(s, draws, i))
    decreases i
  {
    if i > 0 {
      var j := Index(draws(i), i + 1);
      SwapDistinct(s, i, j);
      ShuffleStepsDistinct(Swap(s, i, j), draws, i - 1);
    }
  }

  /** Shuffling returns a permutation of the list (same length, same elements with the same
      multiplicities), so it keeps exactly the elements of the list, each once if it was
      there once. */
  lemma ShuffledFacts<T>(list: seq<T>, draws: Stream)
    ensures multiset(Shuffled(list, draws)) == multiset(list)
    ensures forall x :: x in Shuffled(list, draws) <==> x in list
    ensures Distinct(list) ==> Distinct(Shuffled(list, draws))
  {
    var r := Shuffled(list, draws);
    if |list| > 0 {
      ShuffleStepsPermutes(list, draws, |list| - 1);
    }
    forall x
      ensures x in r <==> x in list
    {
      assert x in r <==> x in multiset(r);
      assert x in list <==> x in multiset(list);
    }
    if Distinct(list) && |list| > 0 {
      ShuffleStepsDistinct(list, draws, |list| - 1);
    }
  }

  /** `shuffleList`: copies the list into a fresh array and runs the swap loop from the
      last index down to 1, leaving the caller's list untouched. */
  method ShuffleList<T>(list: seq<T>, draws: Stream) returns (r: seq<T>)
    ensures r == Shuffled(list, draws)
    ensures multiset(r) == multiset(list)
  {
    var a := new T[|list|](k requires 0 <= k < |list| => list[k]);
    assert a[..] == list;
    if a.Length == 0 {
      return a[..];
    }
    var i: nat := a.Length - 1;
    ghost var cur := a[..];
    while i > 0
      invariant a.Length == |list| && i < a.Length && cur == a[..]
      invariant ShuffleSteps(cur, draws, i) == Shuffled(list, draws)
    {
      var j := Index(draws(i), i + 1);
      a[i], a[j] := a[j], a[i];
      cur := Swap(cur, i, j);
      i := i - 1;
    }
    r := a[..];
    ShuffledFacts(list, draws);
  }
}
