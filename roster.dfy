/** The engine's data: participants, preference rules, settings and groups, and the
    derived views the component computes from them. */
module Roster {
  import opened Text
  import opened Seqs
  import opened Shuffle
  import opened Random

  /** Ids come from `crypto.randomUUID()`; the model only compares them. */
  type Id = string

  datatype Option<T> = None | Some(value: T)

  datatype Participant = Participant(id: Id, attribute: string, name: string)

  /** A preference rule: members of attribute `from` are preferred to be paired with (or,
      in the relay, to give to) members of attribute `to`. */
  datatype Preference = Preference(id: Id, from: string, to: string)

  datatype Settings = Settings(avoidSameAttribute: bool, preferredCombos: seq<Preference>, preferredHitRate: int)

  /** A drawn pair or trio; `createdAt` is left out. */
  datatype PairGroup = PairGroup(id: Id, members: seq<Participant>, isTrio: bool)

  /** The settings the component starts with and returns to on reset. */
  const DefaultSettings := Settings(true, [], 100)

  /** The ids of a list of participants, in order. */
  function Ids(ps: seq<Participant>): (r: seq<Id>)
    ensures |r| == |ps|
    ensures forall k :: 0 <= k < |ps| ==> r[k] == ps[k].id
  {
    if |ps| == 0 then [] else [ps[0].id] + Ids(ps[1..])
  }

  /** `id` belongs to some participant of `ps`. */
  predicate HasId(ps: seq<Participant>, id: Id)
  {
    exists k :: 0 <= k < |ps| && ps[k].id == id
  }

  /** No two entries share an id. */
  ghost predicate UniqueIds(ps: seq<Participant>)
  {
    forall i, j :: 0 <= i < j < |ps| ==> ps[i].id != ps[j].id
  }

  /** `ps.find((entry) => entry.id === id) || null`: the first participant with that id. */
  function Find(ps: seq<Participant>, id: Id): (r: Option<Participant>)
    ensures r.Some? <==> HasId(ps, id)
    ensures r.Some? ==> r.value in ps && r.value.id == id
    ensures UniqueIds(ps) ==> forall p :: p in ps && p.id == id ==> r == Some(p)
  {
    if |ps| == 0 then None
    else if ps[0].id == id then Some(ps[0])
    else
      var r := Find(ps[1..], id);
      assert HasId(ps, id) ==> HasId(ps[1..], id) by {
        if HasId(ps, id) {
          var k :| 0 <= k < |ps| && ps[k].id == id;
          assert ps[1..][k - 1].id == id;
        }
      }
      assert HasId(ps[1..], id) ==> HasId(ps, id) by {
        if HasId(ps[1..], id) {
          var k :| 0 <= k < |ps| - 1 && ps[1..][k].id == id;
          assert ps[k + 1].id == id;
        }
      }
      r
  }

  /** `ids.map(find).filter(Boolean)`: the participants the ids stand for, in the ids' order,
      ids without a participant dropped.  This is how the component derives both the
      available pool (`availableParticipants`) and the relay chain (`giftChain`). */
  function Resolve(ps: seq<Participant>, ids: seq<Id>): (r: seq<Participant>)
    ensures |r| <= |ids|
    ensures forall p :: p in r ==> p in ps && p.id in ids
  {
    if |ids| == 0 then []
    else
      var rest := Resolve(ps, ids[1..]);
      match Find(ps, ids[0])
      case Some(p) => [p] + rest
      case None => rest
  }

  /** Every id that names a participant is resolved to it. */
  lemma {:induction false} ResolveComplete(ps: seq<Participant>, ids: seq<Id>, id: Id)
    requires id in ids && HasId(ps, id)
    ensures Find(ps, id).value in Resolve(ps, ids)
  {
    if ids[0] != id {
      ResolveComplete(ps, ids[1..], id);
    }
  }

  /** Resolving a duplicate-free id list gives entries with unique ids. */
  lemma {:induction false} ResolveUnique(ps: seq<Participant>, ids: seq<Id>)
    requires Distinct(ids)
    ensures UniqueIds(Resolve(ps, ids))
  {
    if |ids| > 0 {
      var rest := Resolve(ps, ids[1..]);
      assert Distinct(ids[1..]);
      ResolveUnique(ps, ids[1..]);
      var f := Find(ps, ids[0]);
      if f.Some? {
        assert ids[0] !in ids[1..];
        UniqueIdsCons(f.value, rest);
      }
    }
  }

  /** A participant whose id no later entry has can be put in front of a list with unique
      ids. */
  lemma UniqueIdsCons(p: Participant, rest: seq<Participant>)
    requires UniqueIds(rest) && forall q :: q in rest ==> q.id != p.id
    ensures UniqueIds([p] + rest)
  {
    var r := [p] + rest;
    forall i, j | 0 <= i < j < |r|
      ensures r[i].id != r[j].id
    {
      assert r[j] == rest[j - 1];
      if i > 0 {
        assert r[i] == rest[i - 1];
      }
    }
  }

  /** Resolving ids that all name a participant loses none of them and keeps their order. */
  lemma {:induction false} ResolveAllKnown(ps: seq<Participant>, ids: seq<Id>)
    requires forall id :: id in ids ==> HasId(ps, id)
    ensures Ids(Resolve(ps, ids)) == ids
  {
    if |ids| > 0 {
      assert ids[0] in ids;
      ResolveAllKnown(ps, ids[1..]);
      assert Ids(Resolve(ps, ids)) == [ids[0]] + Ids(Resolve(ps, ids[1..]));
      assert ids == [ids[0]] + ids[1..];
    }
  }

  /** Unique ids is the same as: no element twice, and equal ids mean equal entries.
      The second form only speaks of membership, so it carries over to permutations. */
  lemma UniqueIdsByMembership(ps: seq<Participant>)
    ensures UniqueIds(ps) <==> Distinct(ps) && (forall p, q :: p in ps && q in ps && p.id == q.id ==> p == q)
  {
    if Distinct(ps) && (forall p, q :: p in ps && q in ps && p.id == q.id ==> p == q) {
      forall i, j | 0 <= i < j < |ps|
        ensures ps[i].id != ps[j].id
      {
        assert ps[i] in ps && ps[j] in ps;
      }
    }
    if UniqueIds(ps) {
      forall p, q | p in ps && q in ps && p.id == q.id
        ensures p == q
      {
        var i :| 0 <= i < |ps| && ps[i] == p;
        var j :| 0 <= j < |ps| && ps[j] == q;
        assert i == j;
      }
    }
  }

  /** A shuffled pool with unique ids still has unique ids and the same members. */
  lemma ShuffledUniqueIds(pool: seq<Participant>, draws: Stream)
    requires UniqueIds(pool)
    ensures UniqueIds(Shuffled(pool, draws))
    ensures forall p :: p in Shuffled(pool, draws) <==> p in pool
  {
    UniqueIdsByMembership(pool);
    ShuffledFacts(pool, draws);
    UniqueIdsByMembership(Shuffled(pool, draws));
  }

  /** Two participants fall in the same category when their normalised attributes agree. */
  predicate SameAttribute(a: Participant, b: Participant)
  {
    Normalize(a.attribute) == Normalize(b.attribute)
  }

  /** Every member of `pool` has the same normalised attribute. */
  ghost predicate OneAttribute(pool: seq<Participant>)
  {
    forall p, q :: p in pool && q in pool ==> SameAttribute(p, q)
  }

  /** `pool.filter((member) => normalize(member.attribute) === normalize(attr))`. */
  function WithAttribute(pool: seq<Participant>, attr: string): (r: seq<Participant>)
    ensures forall p :: p in r <==> p in pool && Normalize(p.attribute) == Normalize(attr)
    ensures Distinct(pool) ==> Distinct(r)
  {
    if |pool| == 0 then []
    else
      var rest := WithAttribute(pool[1..], attr);
      assert forall p :: p in pool <==> p == pool[0] || p in pool[1..];
      if Normalize(pool[0].attribute) == Normalize(attr) then [pool[0]] + rest else rest
  }

  /** `pool.filter((member) => normalize(member.attribute) !== normalize(attr))`. */
  function WithoutAttribute(pool: seq<Participant>, attr: string): (r: seq<Participant>)
    ensures forall p :: p in r <==> p in pool && Normalize(p.attribute) != Normalize(attr)
  {
    if |pool| == 0 then []
    else
      var rest := WithoutAttribute(pool[1..], attr);
      assert forall p :: p in pool <==> p == pool[0] || p in pool[1..];
      if Normalize(pool[0].attribute) != Normalize(attr) then [pool[0]] + rest else rest
  }

  /** `participants.filter((member) => ids.includes(member.id))`. */
  function WithIdIn(ps: seq<Participant>, ids: seq<Id>): (r: seq<Participant>)
    ensures forall p :: p in r <==> p in ps && p.id in ids
    ensures Distinct(ps) ==> Distinct(r)
  {
    if |ps| == 0 then []
    else
      var rest := WithIdIn(ps[1..], ids);
      assert forall p :: p in ps <==> p == ps[0] || p in ps[1..];
      if ps[0].id in ids then [ps[0]] + rest else rest
  }

  /** `giftRemainingParticipants`: the participants whose id is not in the relay chain, in
      roster order. */
  function RemainingParticipants(ps: seq<Participant>, chain: seq<Id>): (r: seq<Participant>)
    ensures forall p :: p in r <==> p in ps && p.id !in chain
    ensures |r| <= |ps|
  {
    if |ps| == 0 then []
    else
      var rest := RemainingParticipants(ps[1..], chain);
      assert forall p :: p in ps <==> p == ps[0] || p in ps[1..];
      if ps[0].id !in chain then [ps[0]] + rest else rest
  }

  /** `pool.filter((member) => member.id !== id)`. */
  function WithoutId(pool: seq<Participant>, id: Id): (r: seq<Participant>)
    ensures forall p :: p in r <==> p in pool && p.id != id
  {
    if |pool| == 0 then []
    else
      var rest := WithoutId(pool[1..], id);
      assert forall p :: p in pool <==> p == pool[0] || p in pool[1..];
      if pool[0].id != id then [pool[0]] + rest else rest
  }

  /** `Math.min(100, Math.max(0, value))`: the hit rate kept within 0..100, unchanged when
      already inside, and the nearest bound otherwise. */
  function ClampHitRate(value: int): (r: int)
    ensures 0 <= r <= 100
    ensures 0 <= value <= 100 ==> r == value
    ensures value < 0 ==> r == 0
    ensures value > 100 ==> r == 100
  {
    if value > 100 then 100 else if value < 0 then 0 else value
  }
}
