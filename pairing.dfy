/** The pairing engine: `pickPreferredPair`, `pickDifferentAttributePair`, `buildTrio`
    and `createNextGroup`. */
module Pairing {
  import opened Random
  import opened Seqs
  import opened Text
  import opened Shuffle
  import opened Roster

  /** The `Math.random()` results one call of `createNextGroup` consumes, by call site:
      the trio's shuffle, the preference gate, the first and second member drawn for
      rule k of `pickPreferredPair`, and the shuffles of the different-attribute and the
      fallback attempts. */
  datatype PairDraws = PairDraws(
    trio: Stream, gate: Unit, firsts: Stream, seconds: Stream, different: Stream, fallback: Stream)

  /** A rule can produce a pair from `pool`: its `from` attribute has a member, and its `to`
      attribute has a member other than that one (at least one member when the two
      attributes normalise differently, at least two when they normalise alike). */
  predicate Viable(pool: seq<Participant>, rule: Preference)
  {
    && |WithAttribute(pool, rule.from)| > 0
    && |WithAttribute(pool, rule.to)| > (if Normalize(rule.from) == Normalize(rule.to) then 1 else 0)
  }

  /** One iteration of the rule loop of `pickPreferredPair`: the members of the `from` group
      and of the `to` group, a random first member from the former, and a random second
      member among the latter that is not the first.  A pair it returns follows the rule
      and consists of two different pool members. */
  function RuleAttempt(pool: seq<Participant>, rule: Preference, u1: Unit, u2: Unit): (r: Option<seq<Participant>>)
    ensures r.Some? ==> |r.value| == 2 && r.value[0] in pool && r.value[1] in pool
    ensures r.Some? ==> Normalize(r.value[0].attribute) == Normalize(rule.from)
    ensures r.Some? ==> Normalize(r.value[1].attribute) == Normalize(rule.to)
    ensures r.Some? ==> r.value[0].id != r.value[1].id
  {
    var groupA := WithAttribute(pool, rule.from);
    var groupB := WithAttribute(pool, rule.to);
    if |groupA| == 0 || |groupB| == 0 then None
    else
      var first := groupA[Index(u1, |groupA|)];
      var candidates := WithoutId(groupB, first.id);
      if |candidates| == 0 then None
      else
        var second := candidates[Index(u2, |candidates|)];
        assert second in candidates;
        Some([first, second])
  }

  /** In a pool with unique ids, whether a rule yields a pair does not depend on the draws:
      it does exactly when the rule is viable. */
  lemma RuleAttemptViable(pool: seq<Participant>, rule: Preference, u1: Unit, u2: Unit)
    requires UniqueIds(pool)
    ensures RuleAttempt(pool, rule, u1, u2).Some? <==> Viable(pool, rule)
  {
    var groupA := WithAttribute(pool, rule.from);
    var groupB := WithAttribute(pool, rule.to);
    if |groupA| > 0 && |groupB| > 0 {
      var first := groupA[Index(u1, |groupA|)];
      var candidates := WithoutId(groupB, first.id);
      assert first in groupA;
      UniqueIdsByMembership(pool);
      if Normalize(rule.from) == Normalize(rule.to) {
        assert first in groupB;
        if |groupB| > 1 {
          assert groupB[0] in groupB && groupB[1] in groupB && groupB[0] != groupB[1];
          if groupB[0].id != first.id {
            assert groupB[0] in candidates;
          } else {
            assert groupB[1] in candidates;
          }
        }
      } else {
        assert groupB[0] in groupB;
        assert groupB[0] in candidates;
      }
    }
  }

  /** The rule loop of `pickPreferredPair` from rule `k` on: rules are tried in declaration
      order and the first attempt that yields a pair is returned. */
  function PreferredPairFrom(pool: seq<Participant>, combos: seq<Preference>, k: nat, firsts: Stream, seconds: Stream)
    : (r: Option<seq<Participant>>)
    requires k <= |combos|
    ensures r.Some? ==> |r.value| == 2 && r.value[0] in pool && r.value[1] in pool && r.value[0].id != r.value[1].id
    decreases |combos| - k
  {
    if k == |combos| then None
    else
      var attempt := RuleAttempt(pool, combos[k], firsts(k), seconds(k));
      if attempt.Some? then attempt else PreferredPairFrom(pool, combos, k + 1, firsts, seconds)
  }

  /** First rule wins: over a pool with unique ids, the loop from rule `k` finds nothing
      exactly when no rule from `k` on is viable, and otherwise returns the attempt of the
      first viable rule. */
  lemma {:induction false} PreferredPairFromFacts(
    pool: seq<Participant>, combos: seq<Preference>, k: nat, firsts: Stream, seconds: Stream)
    requires UniqueIds(pool) && k <= |combos|
    ensures PreferredPairFrom(pool, combos, k, firsts, seconds).None?
        <==> forall i :: k <= i < |combos| ==> !Viable(pool, combos[i])
    ensures PreferredPairFrom(pool, combos, k, firsts, seconds).Some? ==>
      exists j :: k <= j < |combos| && Viable(pool, combos[j]) && (forall i :: k <= i < j ==> !Viable(pool, combos[i]))
        && PreferredPairFrom(pool, combos, k, firsts, seconds) == RuleAttempt(pool, combos[j], firsts(j), seconds(j))
    decreases |combos| - k
  {
    if k < |combos| {
      RuleAttemptViable(pool, combos[k], firsts(k), seconds(k));
      PreferredPairFromFacts(pool, combos, k + 1, firsts, seconds);
      if !Viable(pool, combos[k]) && PreferredPairFrom(pool, combos, k, firsts, seconds).Some? {
        var j :| k + 1 <= j < |combos| && Viable(pool, combos[j]) && (forall i :: k + 1 <= i < j ==> !Viable(pool, combos[i]))
          && PreferredPairFrom(pool, combos, k + 1, firsts, seconds) == RuleAttempt(pool, combos[j], firsts(j), seconds(j));
        assert forall i :: k <= i < j ==> !Viable(pool, combos[i]);
      }
    }
  }

  /** `pickPreferredPair(pool)`; rule k draws its members with `firsts(k)` and `seconds(k)`. */
  function PickPreferredPair(pool: seq<Participant>, combos: seq<Preference>, firsts: Stream, seconds: Stream)
    : Option<seq<Participant>>
  {
    if |combos| == 0 then None else PreferredPairFrom(pool, combos, 0, firsts, seconds)
  }

  /** What `pickPreferredPair` promises over a pool with unique ids: nothing without rules
      or without a viable rule; otherwise two different members that follow the first
      viable rule in declaration order. */
  lemma PreferredPairFacts(pool: seq<Participant>, combos: seq<Preference>, firsts: Stream, seconds: Stream)
    requires UniqueIds(pool)
    ensures |combos| == 0 ==> PickPreferredPair(pool, combos, firsts, seconds).None?
    ensures PickPreferredPair(pool, combos, firsts, seconds).None? <==> forall i :: 0 <= i < |combos| ==> !Viable(pool, combos[i])
    ensures PickPreferredPair(pool, combos, firsts, seconds).Some? ==>
      exists j :: 0 <= j < |combos| && Viable(pool, combos[j]) && (forall i :: 0 <= i < j ==> !Viable(pool, combos[i]))
        && var m := PickPreferredPair(pool, combos, firsts, seconds).value;
           |m| == 2 && m[0] in pool && m[1] in pool && m[0].id != m[1].id
           && Normalize(m[0].attribute) == Normalize(combos[j].from)
           && Normalize(m[1].attribute) == Normalize(combos[j].to)
  {
    if |combos| > 0 {
      PreferredPairFromFacts(pool, combos, 0, firsts, seconds);
      if PickPreferredPair(pool, combos, firsts, seconds).Some? {
        var j :| 0 <= j < |combos| && Viable(pool, combos[j]) && (forall i :: 0 <= i < j ==> !Viable(pool, combos[i]))
          && PreferredPairFrom(pool, combos, 0, firsts, seconds) == RuleAttempt(pool, combos[j], firsts(j), seconds(j));
      }
    }
  }

  /** The first index from `k` on whose member's normalised attribute is not `a`
      (`|s|` when there is none). */
  function FirstOther(s: seq<Participant>, a: string, k: nat): (j: nat)
    requires k <= |s|
    ensures k <= j <= |s|
    ensures j < |s| ==> Normalize(s[j].attribute) != a
    ensures forall i :: k <= i < j ==> Normalize(s[i].attribute) == a
    decreases |s| - k
  {
    if k == |s| || Normalize(s[k].attribute) != a then k else FirstOther(s, a, k + 1)
  }

  /** The pair the nested loops of `pickDifferentAttributePair` find in an already shuffled
      list: the first pair (i, j), i < j, in scan order whose attributes differ.  Such a
      pair always starts at position 0, since any member differing from some other one
      differs from the first one or is the first one. */
  function DiversePair(s: seq<Participant>): (r: Option<seq<Participant>>)
    ensures r.None? <==> OneAttribute(s)
    ensures r.Some? ==> |r.value| == 2 && r.value[0] == s[0] && r.value[1] in s
    ensures r.Some? ==> !SameAttribute(r.value[0], r.value[1])
  {
    if |s| == 0 then None
    else
      var j := FirstOther(s, Normalize(s[0].attribute), 1);
      if j < |s| then
        assert s[0] in s && s[j] in s && !SameAttribute(s[0], s[j]);
        Some([s[0], s[j]])
      else
        assert forall p :: p in s ==> SameAttribute(p, s[0]) by {
          forall p | p in s
            ensures SameAttribute(p, s[0])
          {
            var i :| 0 <= i < |s| && s[i] == p;
          }
        }
        None
  }

  /** `pickDifferentAttributePair(pool)` with the pool shuffled by `draws`. */
  function DifferentAttributePair(pool: seq<Participant>, avoid: bool, draws: Stream): Option<seq<Participant>>
  {
    if !avoid then None else DiversePair(Shuffled(pool, draws))
  }

  /** `pickDifferentAttributePair` returns nothing exactly when the toggle is off or the
      whole pool shares one normalised attribute; otherwise two pool members with
      different normalised attributes (and so different ids). */
  lemma DifferentAttributePairFacts(pool: seq<Participant>, avoid: bool, draws: Stream)
    requires UniqueIds(pool)
    ensures DifferentAttributePair(pool, avoid, draws).None? <==> !avoid || OneAttribute(pool)
    ensures DifferentAttributePair(pool, avoid, draws).Some? ==>
      var m := DifferentAttributePair(pool, avoid, draws).value;
      |m| == 2 && m[0] in pool && m[1] in pool && !SameAttribute(m[0], m[1]) && m[0].id != m[1].id
  {
    var s := Shuffled(pool, draws);
    ShuffledUniqueIds(pool, draws);
    assert OneAttribute(s) <==> OneAttribute(pool);
    if avoid && DiversePair(s).Some? {
      var m := DiversePair(s).value;
      UniqueIdsByMembership(pool);
      assert m[0] != m[1];
    }
  }

  /** `pickDifferentAttributePair`: shuffles the pool, then scans the pairs (i, j), i < j,
      in order and returns the first whose normalised attributes differ. */
  method PickDifferentAttributePair(pool: seq<Participant>, avoid: bool, draws: Stream)
    returns (r: Option<seq<Participant>>)
    ensures r == DifferentAttributePair(pool, avoid, draws)
  {
    if !avoid {
      return None;
    }
    var shuffled := ShuffleList(pool, draws);
    var n := |shuffled|;
    var i := 0;
    while i < n
      invariant 0 <= i <= n
      invariant i > 0 ==> FirstOther(shuffled, Normalize(shuffled[0].attribute), 1) == n
    {
      var j := i + 1;
      while j < n
        invariant i + 1 <= j <= n
        invariant forall q :: i < q < j ==> Normalize(shuffled[q].attribute) == Normalize(shuffled[i].attribute)
      {
        if Normalize(shuffled[i].attribute) != Normalize(shuffled[j].attribute) {
          assert FirstOther(shuffled, Normalize(shuffled[0].attribute), 1) == j;
          return Some([shuffled[i], shuffled[j]]);
        }
        j := j + 1;
      }
      i := i + 1;
    }
    assert n > 0 ==> FirstOther(shuffled, Normalize(shuffled[0].attribute), 1) == n;
    return None;
  }

  /** `list.slice(0, count)`. */
  function Take<T>(list: seq<T>, count: nat): (r: seq<T>)
    ensures |r| == if |list| < count then |list| else count
    ensures r == list[..|r|]
  {
    if |list| <= count then list else list[..count]
  }

  /** `buildTrio(pool)`: the first three of the shuffled pool, flagged as a trio.  For the
      three-member pool it is called with, the trio holds exactly those three. */
  function BuildTrio(pool: seq<Participant>, draws: Stream, groupId: Id): (g: PairGroup)
    ensures g.id == groupId && g.isTrio
    ensures forall p :: p in g.members ==> p in pool
    ensures |pool| == 3 ==> multiset(g.members) == multiset(pool)
  {
    var shuffled := Shuffled(pool, draws);
    ShuffledFacts(pool, draws);
    PairGroup(groupId, Take(shuffled, 3), true)
  }

  /** The group `createNextGroup` produces, or None. */
  function NextGroup(pool: seq<Participant>, settings: Settings, draws: PairDraws, groupId: Id): Option<PairGroup>
  {
    if |pool| < 2 then None
    else if |pool| == 3 then Some(BuildTrio(pool, draws.trio, groupId))
    else
      var usePreferred := |settings.preferredCombos| > 0 && Gate(draws.gate, settings.preferredHitRate);
      var preferred :=
        if usePreferred then PickPreferredPair(pool, settings.preferredCombos, draws.firsts, draws.seconds) else None;
      var different := DifferentAttributePair(pool, settings.avoidSameAttribute, draws.different);
      var fallback := Take(Shuffled(pool, draws.fallback), 2);
      var members := if preferred.Some? then preferred.value else if different.Some? then different.value else fallback;
      Some(PairGroup(groupId, members, false))
  }

  /** The two members `createNextGroup` falls back to when no preferred pair is drawn:
      the different-attribute pair when there is one, else the first two of a shuffle. */
  function UnpreferredMembers(pool: seq<Participant>, avoid: bool, draws: PairDraws): seq<Participant>
  {
    var different := DifferentAttributePair(pool, avoid, draws.different);
    if different.Some? then different.value else Take(Shuffled(pool, draws.fallback), 2)
  }

  /** The shape of every group: none from fewer than two available participants; from
      exactly three, a trio of exactly those three; otherwise a pair of two different
      available participants. */
  lemma NextGroupShape(pool: seq<Participant>, settings: Settings, draws: PairDraws, groupId: Id)
    requires UniqueIds(pool)
    ensures NextGroup(pool, settings, draws, groupId).None? <==> |pool| < 2
    ensures |pool| == 3 ==>
      var g := NextGroup(pool, settings, draws, groupId).value;
      g.isTrio && multiset(g.members) == multiset(pool)
    ensures |pool| >= 2 && |pool| != 3 ==>
      var g := NextGroup(pool, settings, draws, groupId).value;
      !g.isTrio && |g.members| == 2 && g.members[0] in pool && g.members[1] in pool
      && g.members[0].id != g.members[1].id
    ensures NextGroup(pool, settings, draws, groupId).Some? ==>
      var g := NextGroup(pool, settings, draws, groupId).value;
      g.id == groupId && UniqueIds(g.members) && forall p :: p in g.members ==> p in pool
  {
    if |pool| == 3 {
      NextGroupTrio(pool, settings, draws, groupId);
    } else if |pool| >= 2 {
      NextGroupPair(pool, settings, draws, groupId);
      TwoFromFacts(NextGroup(pool, settings, draws, groupId).value.members, pool);
    }
  }

  /** Two members of `pool` with different ids. */
  ghost predicate TwoFrom(m: seq<Participant>, pool: seq<Participant>)
  {
    |m| == 2 && m[0] in pool && m[1] in pool && m[0].id != m[1].id
  }

  /** Two members with different ids have unique ids and come from the pool. */
  lemma TwoFromFacts(m: seq<Participant>, pool: seq<Participant>)
    requires TwoFrom(m, pool)
    ensures UniqueIds(m) && forall p :: p in m ==> p in pool
  {
    assert forall p :: p in m ==> p == m[0] || p == m[1];
  }

  /** From exactly three available participants, the group is a trio of exactly those. */
  lemma NextGroupTrio(pool: seq<Participant>, settings: Settings, draws: PairDraws, groupId: Id)
    requires UniqueIds(pool) && |pool| == 3
    ensures NextGroup(pool, settings, draws, groupId).Some?
    ensures var g := NextGroup(pool, settings, draws, groupId).value;
      && g.id == groupId && g.isTrio && multiset(g.members) == multiset(pool)
      && UniqueIds(g.members) && forall p :: p in g.members ==> p in pool
  {
    var trio := BuildTrio(pool, draws.trio, groupId);
    ShuffledUniqueIds(pool, draws.trio);
    assert trio.members == Shuffled(pool, draws.trio);
  }

  /** From two or more available participants other than three, the group is a pair of
      two different available participants. */
  lemma NextGroupPair(pool: seq<Participant>, settings: Settings, draws: PairDraws, groupId: Id)
    requires UniqueIds(pool) && |pool| >= 2 && |pool| != 3
    ensures NextGroup(pool, settings, draws, groupId).Some?
    ensures var g := NextGroup(pool, settings, draws, groupId).value;
      g.id == groupId && !g.isTrio && TwoFrom(g.members, pool)
  {
    var g := NextGroup(pool, settings, draws, groupId).value;
    PreferredPairFacts(pool, settings.preferredCombos, draws.firsts, draws.seconds);
    DifferentAttributePairFacts(pool, settings.avoidSameAttribute, draws.different);
    var s := Shuffled(pool, draws.fallback);
    ShuffledUniqueIds(pool, draws.fallback);
    assert s[0] in s && s[1] in s;
    assert g.members[0].id != g.members[1].id;
  }

  /** When the gate opens and some rule is viable, the pair follows the first viable rule
      (first-rule-wins); with a rate of 100 the gate always opens. */
  lemma NextGroupPreferred(pool: seq<Participant>, settings: Settings, draws: PairDraws, groupId: Id, k: nat)
    requires UniqueIds(pool) && |pool| >= 2 && |pool| != 3
    requires k < |settings.preferredCombos| && Viable(pool, settings.preferredCombos[k])
    requires settings.preferredHitRate >= 100 || Gate(draws.gate, settings.preferredHitRate)
    ensures exists j :: (0 <= j <= k && Viable(pool, settings.preferredCombos[j])
      && (forall i :: 0 <= i < j ==> !Viable(pool, settings.preferredCombos[i]))
      && var m := NextGroup(pool, settings, draws, groupId).value.members;
         Normalize(m[0].attribute) == Normalize(settings.preferredCombos[j].from)
         && Normalize(m[1].attribute) == Normalize(settings.preferredCombos[j].to))
  {
    GateExtremes(draws.gate, settings.preferredHitRate);
    PreferredPairFacts(pool, settings.preferredCombos, draws.firsts, draws.seconds);
  }

  /** A rate of 0 never tries the preferred pair, whatever the rules. */
  lemma NextGroupAtZeroRate(pool: seq<Participant>, settings: Settings, draws: PairDraws, groupId: Id)
    requires |pool| >= 2 && |pool| != 3 && settings.preferredHitRate <= 0
    ensures NextGroup(pool, settings, draws, groupId).value.members
         == UnpreferredMembers(pool, settings.avoidSameAttribute, draws)
  {
    GateExtremes(draws.gate, settings.preferredHitRate);
  }

  /** With avoidance on and no preferred pair drawn, a pool holding two different
      normalised attributes always gives a pair of different attributes. */
  lemma NextGroupDiverse(pool: seq<Participant>, settings: Settings, draws: PairDraws, groupId: Id)
    requires UniqueIds(pool) && |pool| >= 2 && |pool| != 3
    requires settings.avoidSameAttribute && !OneAttribute(pool)
    requires settings.preferredHitRate <= 0 || !Gate(draws.gate, settings.preferredHitRate)
             || forall i :: 0 <= i < |settings.preferredCombos| ==> !Viable(pool, settings.preferredCombos[i])
    ensures var m := NextGroup(pool, settings, draws, groupId).value.members;
            |m| == 2 && !SameAttribute(m[0], m[1])
  {
    GateExtremes(draws.gate, settings.preferredHitRate);
    PreferredPairFacts(pool, settings.preferredCombos, draws.firsts, draws.seconds);
    DifferentAttributePairFacts(pool, settings.avoidSameAttribute, draws.different);
  }

  /** `createNextGroup()`: the same order of attempts, calling the shuffle and the nested
      scan as the component does. */
  method CreateNextGroup(pool: seq<Participant>, settings: Settings, draws: PairDraws, groupId: Id)
    returns (g: Option<PairGroup>)
    ensures g == NextGroup(pool, settings, draws, groupId)
  {
    if |pool| < 2 {
      return None;
    }
    if |pool| == 3 {
      var shuffled := ShuffleList(pool, draws.trio);
      return Some(PairGroup(groupId, Take(shuffled, 3), true));
    }
    var usePreferred := |settings.preferredCombos| > 0 && Gate(draws.gate, settings.preferredHitRate);
    var preferred :=
      if usePreferred then PickPreferredPair(pool, settings.preferredCombos, draws.firsts, draws.seconds) else None;
    var different := PickDifferentAttributePair(pool, settings.avoidSameAttribute, draws.different);
    var shuffled := ShuffleList(pool, draws.fallback);
    var fallback := Take(shuffled, 2);
    var members := if preferred.Some? then preferred.value else if different.Some? then different.value else fallback;
    return Some(PairGroup(groupId, members, false));
  }
}
