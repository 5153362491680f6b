/** The available pool `availableIds`: adding ids at the back (new participants) and at
    the front (released or rerolled group members), and taking a drawn group out. */
module Pool {
  import opened Seqs
  import opened Roster

  /** The pool after `appendAvailableEntries`: each id not yet present, in first-seen order,
      is added once at the back. */
  function AppendFresh(current: seq<Id>, ids: seq<Id>): seq<Id>
    decreases |ids|
  {
    if |ids| == 0 then current
    else if ids[0] in current then AppendFresh(current, ids[1..])
    else AppendFresh(current + [ids[0]], ids[1..])
  }

  /** Appending keeps the pool as a prefix, adds exactly the ids not yet in it, each once,
      and keeps the pool free of duplicates. */
  lemma {:induction false} AppendFreshFacts(current: seq<Id>, ids: seq<Id>)
    ensures var r := AppendFresh(current, ids);
      && |current| <= |r| && r[..|current|] == current
      && (forall x :: x in r <==> x in current || x in ids)
      && (forall k :: |current| <= k < |r| ==> r[k] !in current)
      && (Distinct(current) ==> Distinct(r))
    decreases |ids|
  {
    if |ids| > 0 {
      assert forall x :: x in ids <==> x == ids[0] || x in ids[1..];
      if ids[0] in current {
        AppendFreshFacts(current, ids[1..]);
      } else {
        var grown := current + [ids[0]];
        AppendFreshFacts(grown, ids[1..]);
        var r := AppendFresh(grown, ids[1..]);
        assert grown[..|current|] == current;
        assert r[..|current|] == r[..|grown|][..|current|];
        assert r[|current|] == ids[0];
        DistinctConcat(current, [ids[0]]);
      }
    }
  }

  /** With ids free of duplicates, appending puts exactly the ids not yet in the pool
      behind it, in their own order. */
  lemma {:induction false} AppendFreshOrder(current: seq<Id>, ids: seq<Id>)
    requires Distinct(ids)
    ensures AppendFresh(current, ids) == current + Unseen(ids, current)
    decreases |ids|
  {
    if |ids| > 0 {
      assert Distinct(ids[1..]);
      if ids[0] in current {
        AppendFreshOrder(current, ids[1..]);
      } else {
        AppendFreshOrder(current + [ids[0]], ids[1..]);
        assert ids[0] !in ids[1..];
        UnseenIgnores(ids[1..], current, ids[0]);
      }
    }
  }

  /** Adding to the excluded ids one that does not occur changes nothing. */
  lemma {:induction false} UnseenIgnores(ids: seq<Id>, current: seq<Id>, x: Id)
    requires x !in ids
    ensures Unseen(ids, current + [x]) == Unseen(ids, current)
    decreases |ids|
  {
    if |ids| > 0 {
      assert ids[0] != x && x !in ids[1..];
      UnseenIgnores(ids[1..], current, x);
    }
  }

  /** `appendAvailableEntries(entries)`: copies the pool, keeps a `seen` set of the ids
      already in it, and pushes each entry's id that has not been seen. */
  method AppendAvailable(current: seq<Id>, entries: seq<Participant>) returns (next: seq<Id>)
    ensures next == AppendFresh(current, Ids(entries))
    ensures |entries| == 0 ==> next == current
  {
    if |entries| == 0 {
      return current;
    }
    var ids := Ids(entries);
    next := current;
    var seen := set x | x in current;
    var k := 0;
    while k < |entries|
      invariant 0 <= k <= |entries|
      invariant seen == set x | x in next
      invariant AppendFresh(next, ids[k..]) == AppendFresh(current, ids)
    {
      var id := entries[k].id;
      assert ids[k..] == [id] + ids[k + 1..];
      if id !in seen {
        next := next + [id];
        seen := seen + {id};
      }
      k := k + 1;
    }
  }

  /** The ids of `ids` that are not in `current`, in order. */
  function Unseen(ids: seq<Id>, current: seq<Id>): (r: seq<Id>)
    ensures forall x :: x in r <==> x in ids && x !in current
    ensures Distinct(ids) ==> Distinct(r)
  {
    if |ids| == 0 then []
    else
      var rest := Unseen(ids[1..], current);
      assert forall x :: x in ids <==> x == ids[0] || x in ids[1..];
      if ids[0] !in current then [ids[0]] + rest else rest
  }

  /** `prependAvailableEntries(entries)`: the entries' ids that are not in the pool go in
      front of it, in the entries' order; with none, the pool is returned as it is. */
  function PrependAvailable(current: seq<Id>, entries: seq<Participant>): (r: seq<Id>)
    ensures |current| <= |r| && r[|r| - |current|..] == current
    ensures r[..|r| - |current|] == Unseen(Ids(entries), current)
    ensures forall k :: 0 <= k < |r| - |current| ==> r[k] !in current
    ensures forall x :: x in r <==> x in current || x in Ids(entries)
    ensures Distinct(current) && UniqueIds(entries) ==> Distinct(r)
  {
    var ids := Ids(entries);
    var added := Unseen(ids, current);
    if |added| == 0 then current
    else
      var r := added + current;
      assert r[|r| - |current|..] == current;
      assert r[..|r| - |current|] == added;
      assert forall k :: 0 <= k < |added| ==> r[k] == added[k];
      DistinctConcat(added, current);
      r
  }

  /** `availableIds.filter((id) => !members.some((member) => member.id === id))`. */
  function RemoveMembers(ids: seq<Id>, members: seq<Participant>): (r: seq<Id>)
    ensures forall x :: x in r <==> x in ids && x !in Ids(members)
    ensures Distinct(ids) ==> Distinct(r)
  {
    Unseen(ids, Ids(members))
  }

  /** `prev.filter((entry) => entry !== id)`. */
  function RemoveId(ids: seq<Id>, id: Id): (r: seq<Id>)
    ensures forall x :: x in r <==> x in ids && x != id
    ensures Distinct(ids) ==> Distinct(r)
  {
    Unseen(ids, [id])
  }
}
