/** The drawn groups (`pairs`) next to the available pool: finding and filtering groups,
    and the invariant the handlers keep between the two — every group has two or three
    distinct members, no participant is in two groups, and nobody in a group is in the
    pool. */
module Groups {
  import opened Seqs
  import opened Roster
  import opened Pool

  /** `pairs.find((group) => group.id === pairId)`. */
  function FindGroup(pairs: seq<PairGroup>, pairId: Id): (r: Option<PairGroup>)
    ensures r.Some? ==> r.value in pairs && r.value.id == pairId
    ensures r.None? ==> forall g :: g in pairs ==> g.id != pairId
  {
    if |pairs| == 0 then None
    else if pairs[0].id == pairId then Some(pairs[0])
    else
      assert forall g :: g in pairs ==> g == pairs[0] || g in pairs[1..];
      FindGroup(pairs[1..], pairId)
  }

  /** `prev.filter((group) => group.id !== pairId)`. */
  function WithoutGroup(pairs: seq<PairGroup>, pairId: Id): (r: seq<PairGroup>)
    ensures forall g :: g in r <==> g in pairs && g.id != pairId
    ensures Distinct(pairs) ==> Distinct(r)
  {
    if |pairs| == 0 then []
    else
      var rest := WithoutGroup(pairs[1..], pairId);
      assert forall g :: g in pairs <==> g == pairs[0] || g in pairs[1..];
      if pairs[0].id != pairId then [pairs[0]] + rest else rest
  }

  /** `prev.filter((group) => !group.members.some((member) => member.id === id))`: the
      groups that do not contain the participant. */
  function WithoutMember(pairs: seq<PairGroup>, id: Id): (r: seq<PairGroup>)
    ensures forall g :: g in r <==> g in pairs && !HasId(g.members, id)
    ensures Distinct(pairs) ==> Distinct(r)
  {
    if |pairs| == 0 then []
    else
      var rest := WithoutMember(pairs[1..], id);
      assert forall g :: g in pairs <==> g == pairs[0] || g in pairs[1..];
      if !HasId(pairs[0].members, id) then [pairs[0]] + rest else rest
  }

  /** `members.filter((member) => participants.some((entry) => entry.id === member.id))`:
      the members that are still on the roster. */
  function Listed(members: seq<Participant>, ps: seq<Participant>): (r: seq<Participant>)
    ensures forall m :: m in r <==> m in members && HasId(ps, m.id)
  {
    if |members| == 0 then []
    else
      var rest := Listed(members[1..], ps);
      assert forall m :: m in members <==> m == members[0] || m in members[1..];
      if HasId(ps, members[0].id) then [members[0]] + rest else rest
  }

  /** Keeping only the listed members keeps the ids unique. */
  lemma {:induction false} ListedUnique(members: seq<Participant>, ps: seq<Participant>)
    requires UniqueIds(members)
    ensures UniqueIds(Listed(members, ps))
  {
    if |members| > 0 {
      UniqueAfterFirst(members);
      ListedUnique(members[1..], ps);
      if HasId(ps, members[0].id) {
        UniqueIdsCons(members[0], Listed(members[1..], ps));
      }
    }
  }

  /** In a list with unique ids, the first entry's id is nowhere in the rest, and the rest
      has unique ids too. */
  lemma UniqueAfterFirst(ps: seq<Participant>)
    requires UniqueIds(ps) && |ps| > 0
    ensures UniqueIds(ps[1..]) && forall q :: q in ps[1..] ==> q.id != ps[0].id
  {
    forall q | q in ps[1..]
      ensures q.id != ps[0].id
    {
      var k :| 0 <= k < |ps| - 1 && ps[1..][k] == q;
      assert ps[k + 1] == q;
    }
  }

  /** A group the component can hold: two or three members with different ids. */
  ghost predicate GroupShape(g: PairGroup)
  {
    2 <= |g.members| <= 3 && UniqueIds(g.members)
  }

  /** Two groups share neither their id nor a member. */
  ghost predicate Apart(g: PairGroup, h: PairGroup)
  {
    g.id != h.id && forall m, n :: m in g.members && n in h.members ==> m.id != n.id
  }

  /** The pool holds each id once, and only ids of participants on the roster. */
  ghost predicate PoolOk(ps: seq<Participant>, avail: seq<Id>)
  {
    Distinct(avail) && forall id :: id in avail ==> HasId(ps, id)
  }

  /** Every group is well shaped and made of participants on the roster who are not in the
      pool, and different groups are apart. */
  ghost predicate GroupsOk(ps: seq<Participant>, pairs: seq<PairGroup>, avail: seq<Id>)
  {
    && Distinct(pairs)
    && (forall g :: g in pairs ==> GroupShape(g))
    && (forall g, m :: g in pairs && m in g.members ==> HasId(ps, m.id) && m.id !in avail)
    && (forall g, h :: g in pairs && h in pairs && g != h ==> Apart(g, h))
  }

  /** An id of `Ids(ms)` is the id of some entry of `ms`. */
  lemma IdsMember(ms: seq<Participant>, x: Id)
    requires x in Ids(ms)
    ensures exists m :: m in ms && m.id == x
  {
    var k :| 0 <= k < |ms| && Ids(ms)[k] == x;
    assert ms[k] in ms;
  }

  /** An entry's id is among the ids. */
  lemma MemberIds(ms: seq<Participant>)
    ensures forall m :: m in ms ==> m.id in Ids(ms) && HasId(ms, m.id)
  {
    forall m | m in ms
      ensures m.id in Ids(ms) && HasId(ms, m.id)
    {
      var k :| 0 <= k < |ms| && ms[k] == m;
      assert Ids(ms)[k] == m.id;
    }
  }

  /** `handleSpin`: the new group, fresh and well shaped and drawn from the pool, is
      appended, and exactly its members leave the pool; the pool and the groups stay
      consistent. */
  lemma SpinKeeps(ps: seq<Participant>, pairs: seq<PairGroup>, avail: seq<Id>, g: PairGroup)
    requires PoolOk(ps, avail) && GroupsOk(ps, pairs, avail)
    requires GroupShape(g) && forall m :: m in g.members ==> HasId(ps, m.id) && m.id in avail
    requires forall h :: h in pairs ==> h.id != g.id
    ensures PoolOk(ps, RemoveMembers(avail, g.members))
    ensures GroupsOk(ps, pairs + [g], RemoveMembers(avail, g.members))
  {
    var next := RemoveMembers(avail, g.members);
    MemberIds(g.members);
    assert g !in pairs;
    DistinctConcat(pairs, [g]);
    assert forall h :: h in pairs + [g] <==> h in pairs || h == g;
    forall h | h in pairs
      ensures Apart(g, h) && Apart(h, g)
    {
    }
  }

  /** `handleReleasePair`: the released group leaves the list and its members go back to
      the front of the pool; the pool and the groups stay consistent. */
  lemma ReleaseKeeps(ps: seq<Participant>, pairs: seq<PairGroup>, avail: seq<Id>, target: PairGroup)
    requires PoolOk(ps, avail) && GroupsOk(ps, pairs, avail) && target in pairs
    ensures PoolOk(ps, PrependAvailable(avail, target.members))
    ensures GroupsOk(ps, WithoutGroup(pairs, target.id), PrependAvailable(avail, target.members))
  {
    ReturnKeeps(ps, pairs, avail, target, target.members, WithoutGroup(pairs, target.id));
  }

  /** Putting back some members of one group while that group leaves the list keeps the
      pool and the remaining groups consistent. */
  lemma ReturnKeeps(ps: seq<Participant>, pairs: seq<PairGroup>, avail: seq<Id>, target: PairGroup,
                    back: seq<Participant>, kept: seq<PairGroup>)
    requires PoolOk(ps, avail) && GroupsOk(ps, pairs, avail) && target in pairs
    requires UniqueIds(back) && forall m :: m in back ==> m in target.members
    requires Distinct(kept) && forall h :: h in kept ==> h in pairs && h != target
    ensures PoolOk(ps, PrependAvailable(avail, back))
    ensures GroupsOk(ps, kept, PrependAvailable(avail, back))
  {
    forall x | x in Ids(back)
      ensures HasId(ps, x)
      ensures forall h, n :: h in kept && n in h.members ==> n.id != x
    {
      IdsMember(back, x);
      var m :| m in back && m.id == x;
      forall h, n | h in kept && n in h.members
        ensures n.id != x
      {
        assert Apart(target, h);
      }
    }
  }

  /** `handleRerollLatest`: the latest group leaves the list and those of its members still
      on the roster go back to the front of the pool; the pool and the groups stay
      consistent. */
  lemma RerollKeeps(ps: seq<Participant>, pairs: seq<PairGroup>, avail: seq<Id>)
    requires PoolOk(ps, avail) && GroupsOk(ps, pairs, avail) && |pairs| > 0
    ensures var last := pairs[|pairs| - 1];
      && PoolOk(ps, PrependAvailable(avail, Listed(last.members, ps)))
      && GroupsOk(ps, pairs[..|pairs| - 1], PrependAvailable(avail, Listed(last.members, ps)))
  {
    var last := pairs[|pairs| - 1];
    var kept := pairs[..|pairs| - 1];
    assert last in pairs;
    ListedUnique(last.members, ps);
    forall h | h in kept
      ensures h in pairs && h != last
    {
      var k :| 0 <= k < |kept| && kept[k] == h;
      assert pairs[k] == h;
    }
    ReturnKeeps(ps, pairs, avail, last, Listed(last.members, ps), kept);
  }

  /** A participant whose id is not the removed one keeps being found on the roster. */
  lemma StillOnRoster(ps: seq<Participant>, id: Id, x: Id)
    requires HasId(ps, x) && x != id
    ensures HasId(WithoutId(ps, id), x)
  {
    var k :| 0 <= k < |ps| && ps[k].id == x;
    assert ps[k] in WithoutId(ps, id);
    MemberIds(WithoutId(ps, id));
  }

  /** Dropping the entries with one id keeps the ids unique. */
  lemma {:induction false} WithoutIdUnique(ps: seq<Participant>, id: Id)
    requires UniqueIds(ps)
    ensures UniqueIds(WithoutId(ps, id))
  {
    if |ps| > 0 {
      UniqueAfterFirst(ps);
      WithoutIdUnique(ps[1..], id);
      if ps[0].id != id {
        UniqueIdsCons(ps[0], WithoutId(ps[1..], id));
      }
    }
  }

  /** `handleRemoveParticipant`: the participant leaves the roster, every group containing
      it is dropped, and its id leaves the pool; the roster ids stay unique and the pool
      and the remaining groups stay consistent. */
  lemma RemoveKeeps(ps: seq<Participant>, pairs: seq<PairGroup>, avail: seq<Id>, id: Id)
    requires UniqueIds(ps) && PoolOk(ps, avail) && GroupsOk(ps, pairs, avail)
    ensures UniqueIds(WithoutId(ps, id))
    ensures PoolOk(WithoutId(ps, id), RemoveId(avail, id))
    ensures GroupsOk(WithoutId(ps, id), WithoutMember(pairs, id), RemoveId(avail, id))
  {
    WithoutIdUnique(ps, id);
    forall x | x in RemoveId(avail, id)
      ensures HasId(WithoutId(ps, id), x)
    {
      StillOnRoster(ps, id, x);
    }
    forall g, m | g in WithoutMember(pairs, id) && m in g.members
      ensures HasId(WithoutId(ps, id), m.id)
    {
      MemberIds(g.members);
      StillOnRoster(ps, id, m.id);
    }
  }

  /** The removal cascade loses the removed participant's partners: a member of a group that
      contained the removed participant, if it is someone else, stays on the roster but is
      neither in the pool nor in any group. */
  lemma PartnersLost(ps: seq<Participant>, pairs: seq<PairGroup>, avail: seq<Id>, id: Id, g: PairGroup, q: Participant)
    requires GroupsOk(ps, pairs, avail) && g in pairs && HasId(g.members, id) && q in g.members && q.id != id
    ensures HasId(WithoutId(ps, id), q.id)
    ensures q.id !in RemoveId(avail, id)
    ensures forall h, n :: h in WithoutMember(pairs, id) && n in h.members ==> n.id != q.id
  {
    StillOnRoster(ps, id, q.id);
    forall h, n | h in WithoutMember(pairs, id) && n in h.members
      ensures n.id != q.id
    {
      assert h != g;
      assert Apart(g, h);
    }
  }

  /** Ids of new entries that keep the roster's ids unique are not ids of the old roster. */
  lemma FreshEntries(ps: seq<Participant>, entries: seq<Participant>)
    requires UniqueIds(ps + entries)
    ensures forall x :: HasId(ps, x) ==> x !in Ids(entries) && HasId(ps + entries, x)
    ensures forall x :: x in Ids(entries) ==> HasId(ps + entries, x)
  {
    var all := ps + entries;
    forall x | HasId(ps, x)
      ensures x !in Ids(entries) && HasId(all, x)
    {
      var i :| 0 <= i < |ps| && ps[i].id == x;
      assert all[i] == ps[i];
      forall j | 0 <= j < |entries|
        ensures Ids(entries)[j] != x
      {
        assert all[|ps| + j] == entries[j];
      }
    }
    forall x | x in Ids(entries)
      ensures HasId(all, x)
    {
      var j :| 0 <= j < |entries| && Ids(entries)[j] == x;
      assert all[|ps| + j] == entries[j];
    }
  }

  /** `handleAddParticipant` and `handleCsvUpload`: new entries with fresh ids join the
      roster and the back of the pool; the pool and the groups stay consistent. */
  lemma AddKeeps(ps: seq<Participant>, pairs: seq<PairGroup>, avail: seq<Id>, entries: seq<Participant>)
    requires PoolOk(ps, avail) && GroupsOk(ps, pairs, avail) && UniqueIds(ps + entries)
    ensures PoolOk(ps + entries, AppendFresh(avail, Ids(entries)))
    ensures GroupsOk(ps + entries, pairs, AppendFresh(avail, Ids(entries)))
  {
    AppendFreshFacts(avail, Ids(entries));
    FreshEntries(ps, entries);
  }
}
