/** The gift relay of the "gift" mode: one spin appends the next giver to the chain of
    ids (`giftChainIds`), each new giver handing a present to the previous one, until
    every participant is in the chain; `giftChainEdges` lists the hand-overs. */
module Relay {
  import opened Random
  import opened Seqs
  import opened Text
  import opened Roster
  import opened Pool

  /** The `Math.random()` results one relay spin may consume, by call site: the starter
      draw, the preference gate, and the index draws of the preferred, the
      different-attribute and the fallback giver. */
  datatype RelayDraws = RelayDraws(starter: Unit, gate: Unit, preferred: Unit, different: Unit, fallback: Unit)

  /** `giver` may give to `recipient` under some rule: a rule whose `to` attribute is the
      recipient's and whose `from` attribute is the giver's. */
  ghost predicate Follows(giver: Participant, recipient: Participant, combos: seq<Preference>)
  {
    exists m :: m in combos && Normalize(m.to) == Normalize(recipient.attribute)
                            && Normalize(giver.attribute) == Normalize(m.from)
  }

  /** `matchingCombos`: the rules whose normalised `to` attribute is `attr`, in order. */
  function RulesTo(combos: seq<Preference>, attr: string): (r: seq<Preference>)
    ensures forall m :: m in r <==> m in combos && Normalize(m.to) == attr
  {
    if |combos| == 0 then []
    else
      var rest := RulesTo(combos[1..], attr);
      assert forall m :: m in combos <==> m == combos[0] || m in combos[1..];
      if Normalize(combos[0].to) == attr then [combos[0]] + rest else rest
  }

  /** The candidate list of `pickPreferredGiver`: rule by rule, every pool member with the
      rule's `from` attribute.  A member matching several rules is listed once per rule,
      which weights the draw towards it. */
  function GiverCandidates(pool: seq<Participant>, rules: seq<Preference>): seq<Participant>
  {
    if |rules| == 0 then [] else WithAttribute(pool, rules[0].from) + GiverCandidates(pool, rules[1..])
  }

  /** The candidates are exactly the pool members that have the `from` attribute of one
      of the rules. */
  lemma {:induction false} GiverCandidatesMembers(pool: seq<Participant>, rules: seq<Preference>)
    ensures forall p :: p in GiverCandidates(pool, rules) <==>
      p in pool && exists m :: m in rules && Normalize(p.attribute) == Normalize(m.from)
  {
    if |rules| > 0 {
      GiverCandidatesMembers(pool, rules[1..]);
      assert forall m :: m in rules <==> m == rules[0] || m in rules[1..];
    }
  }

  /** `pickPreferredGiver(recipient, pool)` with the index draw `u`. */
  function PreferredGiver(recipient: Participant, pool: seq<Participant>, combos: seq<Preference>, u: Unit)
    : Option<Participant>
  {
    if |combos| == 0 then None
    else
      var rules := RulesTo(combos, Normalize(recipient.attribute));
      if |rules| == 0 then None
      else
        var candidates := GiverCandidates(pool, rules);
        if |candidates| == 0 then None else Some(candidates[Index(u, |candidates|)])
  }

  /** The preferred giver is a pool member that follows a rule towards the recipient, and
      there is none exactly when no pool member does. */
  lemma PreferredGiverFacts(recipient: Participant, pool: seq<Participant>, combos: seq<Preference>, u: Unit)
    ensures PreferredGiver(recipient, pool, combos, u).Some? ==>
      PreferredGiver(recipient, pool, combos, u).value in pool
      && Follows(PreferredGiver(recipient, pool, combos, u).value, recipient, combos)
    ensures PreferredGiver(recipient, pool, combos, u).None? <==>
      forall p :: p in pool ==> !Follows(p, recipient, combos)
  {
    var rules := RulesTo(combos, Normalize(recipient.attribute));
    GiverCandidatesMembers(pool, rules);
    var candidates := GiverCandidates(pool, rules);
    if PreferredGiver(recipient, pool, combos, u).Some? {
      var g := PreferredGiver(recipient, pool, combos, u).value;
      assert g in candidates;
      var m :| m in rules && Normalize(g.attribute) == Normalize(m.from);
    }
  }

  /** `pickPreferredGiver`: filters the matching rules, then pushes each rule's hits onto
      the candidate list before drawing one candidate. */
  method PickPreferredGiver(recipient: Participant, pool: seq<Participant>, combos: seq<Preference>, u: Unit)
    returns (r: Option<Participant>)
    ensures r == PreferredGiver(recipient, pool, combos, u)
  {
    if |combos| == 0 {
      return None;
    }
    var recipientAttr := Normalize(recipient.attribute);
    var rules := RulesTo(combos, recipientAttr);
    if |rules| == 0 {
      return None;
    }
    var candidates: seq<Participant> := [];
    var k := 0;
    while k < |rules|
      invariant 0 <= k <= |rules|
      invariant candidates + GiverCandidates(pool, rules[k..]) == GiverCandidates(pool, rules)
    {
      var hits := WithAttribute(pool, rules[k].from);
      GiverCandidatesStep(pool, rules, k, candidates);
      candidates := candidates + hits;
      k := k + 1;
    }
    assert rules[k..] == [];
    if |candidates| == 0 {
      return None;
    }
    return Some(candidates[Index(u, |candidates|)]);
  }

  /** Pushing rule k's hits moves them from the rules still to read to the candidates. */
  lemma GiverCandidatesStep(pool: seq<Participant>, rules: seq<Preference>, k: nat, candidates: seq<Participant>)
    requires k < |rules|
    ensures candidates + GiverCandidates(pool, rules[k..])
      == (candidates + WithAttribute(pool, rules[k].from)) + GiverCandidates(pool, rules[k + 1..])
  {
    assert rules[k..][1..] == rules[k + 1..];
  }

  /** `pickDifferentAttributeGiver(recipient, pool)` with the index draw `u`: nothing when
      avoidance is off or every pool member shares the recipient's attribute; otherwise a
      pool member whose attribute differs from the recipient's. */
  function DifferentAttributeGiver(recipient: Participant, pool: seq<Participant>, avoid: bool, u: Unit)
    : (r: Option<Participant>)
    ensures r.None? <==> !avoid || forall p :: p in pool ==> SameAttribute(p, recipient)
    ensures r.Some? ==> r.value in pool && !SameAttribute(r.value, recipient)
  {
    if !avoid then None
    else
      var candidates := WithoutAttribute(pool, recipient.attribute);
      if |candidates| == 0 then None
      else
        assert candidates[0] in candidates;
        Some(candidates[Index(u, |candidates|)])
  }

  /** `cleanedChain`: the chain ids that still belong to a participant. */
  function KnownIds(chain: seq<Id>, ps: seq<Participant>): seq<Id>
  {
    if |chain| == 0 then []
    else
      var rest := KnownIds(chain[1..], ps);
      if HasId(ps, chain[0]) then [chain[0]] + rest else rest
  }

  /** Cleaning keeps exactly the chain ids that name a participant, keeps a duplicate-free
      chain duplicate-free, and leaves a chain of known ids as it is. */
  lemma {:induction false} KnownIdsFacts(chain: seq<Id>, ps: seq<Participant>)
    ensures forall id :: id in KnownIds(chain, ps) <==> id in chain && HasId(ps, id)
    ensures Distinct(chain) ==> Distinct(KnownIds(chain, ps))
    ensures (forall id :: id in chain ==> HasId(ps, id)) ==> KnownIds(chain, ps) == chain
  {
    if |chain| > 0 {
      KnownIdsFacts(chain[1..], ps);
      assert forall id :: id in chain <==> id == chain[0] || id in chain[1..];
      assert [chain[0]] + chain[1..] == chain;
    }
  }

  /** How a relay spin ended.  `Interrupted` stands for the component's defensive
      branches (recipient or pool not found), which never run. */
  datatype RelayOutcome = TooFew | Complete | Started(starter: Id) | Extended(giver: Id, recipient: Id) | Interrupted

  /** The outcome of a spin and the chain it leaves behind. */
  datatype RelayResult = RelayResult(outcome: RelayOutcome, chain: seq<Id>)

  /** `handleGiftSpin`, the spinning flag and the messages left out: fewer than two
      participants changes nothing; otherwise stale ids are dropped from the chain, a
      chain that already holds everyone is complete, an empty chain gets a random
      starter, and any other chain gets a giver for its last member, chosen among the
      participants not in the chain: a preferred giver when the gate opens and one
      exists, else one of a different attribute, else any. */
  function GiftStep(ps: seq<Participant>, chain: seq<Id>, settings: Settings, draws: RelayDraws): RelayResult
  {
    if |ps| < 2 then RelayResult(TooFew, chain)
    else
      var cleaned := KnownIds(chain, ps);
      var remaining := Unseen(Ids(ps), cleaned);
      if |cleaned| > 0 && |remaining| == 0 then RelayResult(Complete, cleaned)
      else if |cleaned| == 0 then
        var starter := ps[Index(draws.starter, |ps|)];
        RelayResult(Started(starter.id), [starter.id])
      else
        match Find(ps, cleaned[|cleaned| - 1])
        case None => RelayResult(Interrupted, cleaned)
        case Some(recipient) =>
          var pool := WithIdIn(ps, remaining);
          if |pool| == 0 then RelayResult(Interrupted, cleaned)
          else
            var giver := Giver(recipient, pool, settings, draws);
            RelayResult(Extended(giver.id, recipient.id), cleaned + [giver.id])
  }

  /** `preferredGiver || differentAttrGiver || fallbackGiver`: the preferred giver is only
      tried when there are rules and the gate opens; the fallback is a uniform draw from
      the pool, so a giver always exists and is a pool member. */
  function Giver(recipient: Participant, pool: seq<Participant>, settings: Settings, draws: RelayDraws): Participant
    requires |pool| > 0
  {
    var usePreferred := |settings.preferredCombos| > 0 && Gate(draws.gate, settings.preferredHitRate);
    var preferred :=
      if usePreferred then PreferredGiver(recipient, pool, settings.preferredCombos, draws.preferred) else None;
    var different := DifferentAttributeGiver(recipient, pool, settings.avoidSameAttribute, draws.different);
    var fallback := pool[Index(draws.fallback, |pool|)];
    if preferred.Some? then preferred.value else if different.Some? then different.value else fallback
  }

  /** Whichever rule picks the giver, it is a member of the pool. */
  lemma GiverInPool(recipient: Participant, pool: seq<Participant>, settings: Settings, draws: RelayDraws)
    requires |pool| > 0
    ensures Giver(recipient, pool, settings, draws) in pool
  {
    PreferredGiverFacts(recipient, pool, settings.preferredCombos, draws.preferred);
  }

  /** The participant that receives from the next giver: the one the last known chain id
      names. */
  function Recipient(ps: seq<Participant>, chain: seq<Id>): Option<Participant>
  {
    var cleaned := KnownIds(chain, ps);
    if |cleaned| == 0 then None else Find(ps, cleaned[|cleaned| - 1])
  }

  /** The relay pool: a participant is in it exactly when its id is not in the chain. */
  lemma RelayPoolMembers(ps: seq<Participant>, chain: seq<Id>)
    ensures forall p :: p in WithIdIn(ps, Unseen(Ids(ps), KnownIds(chain, ps))) <==> p in ps && p.id !in chain
  {
    KnownIdsFacts(chain, ps);
    var cleaned := KnownIds(chain, ps);
    forall p | p in ps
      ensures p.id in Ids(ps) && (p.id in cleaned <==> p.id in chain)
    {
      var k :| 0 <= k < |ps| && ps[k] == p;
      assert Ids(ps)[k] == p.id;
      assert HasId(ps, p.id);
    }
  }

  /** The defensive branches of `handleGiftSpin` never run: the last chain id always names
      a participant, and a chain that is not complete always leaves someone to draw. */
  lemma GiftStepNeverInterrupted(ps: seq<Participant>, chain: seq<Id>, settings: Settings, draws: RelayDraws)
    ensures GiftStep(ps, chain, settings, draws).outcome != Interrupted
  {
    if |ps| >= 2 {
      var cleaned := KnownIds(chain, ps);
      var remaining := Unseen(Ids(ps), cleaned);
      if |cleaned| > 0 && |remaining| > 0 {
        assert Find(ps, cleaned[|cleaned| - 1]).Some? by {
          KnownIdsFacts(chain, ps);
          assert cleaned[|cleaned| - 1] in cleaned;
        }
        assert |WithIdIn(ps, remaining)| > 0 by {
          var x := remaining[0];
          assert x in remaining;
          var k :| 0 <= k < |ps| && Ids(ps)[k] == x;
          assert ps[k] in WithIdIn(ps, remaining);
        }
      }
    }
  }

  /** Every participant's id is among the roster's ids and names a participant. */
  lemma RosterIds(ps: seq<Participant>)
    ensures forall p :: p in ps ==> p.id in Ids(ps) && HasId(ps, p.id)
  {
    forall p | p in ps
      ensures p.id in Ids(ps) && HasId(ps, p.id)
    {
      var k :| 0 <= k < |ps| && ps[k] == p;
      assert Ids(ps)[k] == p.id;
    }
  }

  /** A relay spin leaves no stale id in the chain and keeps a duplicate-free chain
      duplicate-free; what it appends is a participant not yet in the chain. */
  lemma GiftStepChain(ps: seq<Participant>, chain: seq<Id>, settings: Settings, draws: RelayDraws)
    requires |ps| >= 2
    ensures forall id :: id in GiftStep(ps, chain, settings, draws).chain ==> HasId(ps, id)
    ensures Distinct(chain) ==> Distinct(GiftStep(ps, chain, settings, draws).chain)
    ensures GiftStep(ps, chain, settings, draws).outcome.Extended? ==>
      && GiftStep(ps, chain, settings, draws).chain == KnownIds(chain, ps) + [GiftStep(ps, chain, settings, draws).outcome.giver]
      && GiftStep(ps, chain, settings, draws).outcome.giver !in chain
  {
    KnownIdsFacts(chain, ps);
    var r := GiftStep(ps, chain, settings, draws);
    var cleaned := KnownIds(chain, ps);
    var remaining := Unseen(Ids(ps), cleaned);
    GiftStepNeverInterrupted(ps, chain, settings, draws);
    if r.outcome.Started? {
      var starter := ps[Index(draws.starter, |ps|)];
      assert HasId(ps, starter.id);
    }
    if r.outcome.Extended? {
      var giverId := r.outcome.giver;
      var pool := WithIdIn(ps, remaining);
      RelayPoolMembers(ps, chain);
      var g := Giver(Recipient(ps, chain).value, pool, settings, draws);
      GiverInPool(Recipient(ps, chain).value, pool, settings, draws);
      RosterIds(ps);
      assert g in ps && g.id !in chain;
      DistinctConcat(cleaned, [giverId]);
    }
  }

  /** A relay spin reports completion exactly when the chain already names every
      participant (and names at least one), and then only drops stale ids. */
  lemma GiftStepComplete(ps: seq<Participant>, chain: seq<Id>, settings: Settings, draws: RelayDraws)
    requires |ps| >= 2
    ensures GiftStep(ps, chain, settings, draws).outcome == Complete
        <==> |KnownIds(chain, ps)| > 0 && forall p :: p in ps ==> p.id in chain
    ensures GiftStep(ps, chain, settings, draws).outcome == Complete ==>
        GiftStep(ps, chain, settings, draws).chain == KnownIds(chain, ps)
  {
    KnownIdsFacts(chain, ps);
    var cleaned := KnownIds(chain, ps);
    var remaining := Unseen(Ids(ps), cleaned);
    GiftStepNeverInterrupted(ps, chain, settings, draws);
    RosterIds(ps);
    if |cleaned| > 0 && |remaining| == 0 {
      forall p | p in ps
        ensures p.id in chain
      {
        assert p.id !in remaining;
      }
    }
    if |cleaned| > 0 && |remaining| > 0 {
      var x := remaining[0];
      assert x in remaining;
      var k :| 0 <= k < |ps| && Ids(ps)[k] == x;
      assert ps[k] in ps && ps[k].id !in chain;
    }
  }

  /** A spin on an empty (or wholly stale) chain starts it with one participant; a spin on
      any other chain that is not complete extends it with a giver for the participant
      the chain's last known id names. */
  lemma GiftStepShape(ps: seq<Participant>, chain: seq<Id>, settings: Settings, draws: RelayDraws)
    requires |ps| >= 2
    ensures GiftStep(ps, chain, settings, draws).outcome.Started? <==> |KnownIds(chain, ps)| == 0
    ensures GiftStep(ps, chain, settings, draws).outcome.Started? ==>
      var s := GiftStep(ps, chain, settings, draws).outcome.starter;
      GiftStep(ps, chain, settings, draws).chain == [s] && HasId(ps, s)
    ensures GiftStep(ps, chain, settings, draws).outcome.Extended? ==>
      && Recipient(ps, chain).Some?
      && GiftStep(ps, chain, settings, draws).outcome.recipient == Recipient(ps, chain).value.id
  {
    KnownIdsFacts(chain, ps);
    GiftStepNeverInterrupted(ps, chain, settings, draws);
    if |KnownIds(chain, ps)| == 0 {
      var starter := ps[Index(draws.starter, |ps|)];
      assert HasId(ps, starter.id);
    }
  }

  /** The chain after `n` applications of `spin` to an empty chain; application k is
      given k. */
  function Iterate(spin: (seq<Id>, nat) -> seq<Id>, n: nat): seq<Id>
  {
    if n == 0 then [] else spin(Iterate(spin, n - 1), n - 1)
  }

  /** The chain after `n` spins from an empty chain, spin k using `draws(k)`. */
  function Run(ps: seq<Participant>, settings: Settings, draws: nat -> RelayDraws, n: nat): seq<Id>
  {
    Iterate((c: seq<Id>, k: nat) => GiftStep(ps, c, settings, draws(k)).chain, n)
  }

  /** A spin on a duplicate-free chain of known ids that does not name everyone appends
      exactly one new participant. */
  lemma GiftStepGrows(ps: seq<Participant>, c: seq<Id>, settings: Settings, d: RelayDraws)
    requires UniqueIds(ps) && |ps| >= 2 && |c| < |ps|
    requires Distinct(c) && forall id :: id in c ==> HasId(ps, id)
    ensures |GiftStep(ps, c, settings, d).chain| == |c| + 1
    ensures Distinct(GiftStep(ps, c, settings, d).chain)
    ensures forall id :: id in GiftStep(ps, c, settings, d).chain ==> HasId(ps, id)
  {
    KnownIdsFacts(c, ps);
    GiftStepChain(ps, c, settings, d);
    GiftStepShape(ps, c, settings, d);
    GiftStepNeverInterrupted(ps, c, settings, d);
    assert KnownIds(c, ps) == c;
    if |c| > 0 {
      var all := set p | p in ps :: p.id;
      IdsCard(ps);
      Missing(c, all);
      var x :| x in all && x !in c;
      var p :| p in ps && p.id == x;
      GiftStepComplete(ps, c, settings, d);
    }
  }

  /** `c` holds `n` distinct ids, each naming a participant. */
  ghost predicate Grown(ps: seq<Participant>, c: seq<Id>, n: nat)
  {
    |c| == n && Distinct(c) && forall id :: id in c ==> HasId(ps, id)
  }

  /** Each of the first `|ps|` spins adds one new participant to the chain. */
  lemma RunGrows(ps: seq<Participant>, settings: Settings, draws: nat -> RelayDraws, n: nat)
    requires UniqueIds(ps) && |ps| >= 2 && n <= |ps|
    ensures Grown(ps, Run(ps, settings, draws, n), n)
  {
    var spin := (c: seq<Id>, k: nat) => GiftStep(ps, c, settings, draws(k)).chain;
    forall c: seq<Id>, k: nat | k < |ps| && Grown(ps, c, k)
      ensures Grown(ps, spin(c, k), k + 1)
    {
      GiftStepGrows(ps, c, settings, draws(k));
    }
    IterateGrows(ps, spin, n, |ps|);
  }

  /** A spin that grows every grown chain shorter than `limit` by one grows the empty
      chain, `n` times over, into a grown chain of `n` ids. */
  lemma {:induction false} IterateGrows(ps: seq<Participant>, spin: (seq<Id>, nat) -> seq<Id>, n: nat, limit: nat)
    requires n <= limit
    requires forall c: seq<Id>, k: nat :: k < limit && Grown(ps, c, k) ==> Grown(ps, spin(c, k), k + 1)
    ensures Grown(ps, Iterate(spin, n), n)
  {
    if n > 0 {
      IterateGrows(ps, spin, n - 1, limit);
    }
  }

  /** The ids of a roster with unique ids are as many as its entries. */
  lemma IdsCard(ps: seq<Participant>)
    requires UniqueIds(ps)
    ensures |set p | p in ps :: p.id| == |ps|
  {
    var ids := Ids(ps);
    assert Distinct(ids);
    DistinctCard(ids);
    assert (set p | p in ps :: p.id) == (set x | x in ids) by {
      forall x | x in ids
        ensures x in (set p | p in ps :: p.id)
      {
        var k :| 0 <= k < |ids| && ids[k] == x;
        assert ps[k] in ps;
      }
    }
  }

  /** N spins on N participants (N at least 2) put every participant in the chain exactly
      once, and the next spin reports the relay complete and leaves the chain as it is. */
  lemma RelayCoversAll(ps: seq<Participant>, settings: Settings, draws: nat -> RelayDraws, next: RelayDraws)
    requires UniqueIds(ps) && |ps| >= 2
    ensures var c := Run(ps, settings, draws, |ps|);
      && |c| == |ps| && Distinct(c)
      && (forall p :: p in ps ==> p.id in c)
      && (forall id :: id in c ==> HasId(ps, id))
      && GiftStep(ps, c, settings, next) == RelayResult(Complete, c)
  {
    var c := Run(ps, settings, draws, |ps|);
    RunGrows(ps, settings, draws, |ps|);
    var all := set p | p in ps :: p.id;
    IdsCard(ps);
    forall x | x in c
      ensures x in all
    {
      var k :| 0 <= k < |ps| && ps[k].id == x;
      assert ps[k] in ps;
    }
    Covers(c, all);
    assert forall p :: p in ps ==> p.id in all;
    KnownIdsFacts(c, ps);
    GiftStepComplete(ps, c, settings, next);
  }

  /** With the gate open (a rate of 100 always opens it) and some participant outside the
      chain following a rule towards the recipient, the giver follows such a rule. */
  lemma GiftStepPreferred(ps: seq<Participant>, chain: seq<Id>, settings: Settings, draws: RelayDraws, q: Participant)
    requires |ps| >= 2 && Recipient(ps, chain).Some?
    requires settings.preferredHitRate >= 100 || Gate(draws.gate, settings.preferredHitRate)
    requires q in ps && q.id !in chain && Follows(q, Recipient(ps, chain).value, settings.preferredCombos)
    ensures GiftStep(ps, chain, settings, draws).outcome.Extended?
    ensures exists g :: g in ps && g.id == GiftStep(ps, chain, settings, draws).outcome.giver
                     && Follows(g, Recipient(ps, chain).value, settings.preferredCombos)
  {
    var cleaned := KnownIds(chain, ps);
    var remaining := Unseen(Ids(ps), cleaned);
    var pool := WithIdIn(ps, remaining);
    var recipient := Recipient(ps, chain).value;
    assert q in pool by { RelayPoolMembers(ps, chain); }
    assert |remaining| > 0;
    GateExtremes(draws.gate, settings.preferredHitRate);
    GiftStepNeverInterrupted(ps, chain, settings, draws);
    assert |settings.preferredCombos| > 0;
    PreferredGiverFacts(recipient, pool, settings.preferredCombos, draws.preferred);
  }

  /** With avoidance on, no preferred giver drawn (a rate of 0 never draws one), and some
      participant outside the chain of another attribute than the recipient's, the giver's
      attribute differs from the recipient's. */
  lemma GiftStepDiverse(ps: seq<Participant>, chain: seq<Id>, settings: Settings, draws: RelayDraws, q: Participant)
    requires |ps| >= 2 && Recipient(ps, chain).Some? && settings.avoidSameAttribute
    requires settings.preferredHitRate <= 0 || !Gate(draws.gate, settings.preferredHitRate)
    requires q in ps && q.id !in chain && !SameAttribute(q, Recipient(ps, chain).value)
    ensures GiftStep(ps, chain, settings, draws).outcome.Extended?
    ensures exists g :: g in ps && g.id == GiftStep(ps, chain, settings, draws).outcome.giver
                     && !SameAttribute(g, Recipient(ps, chain).value)
  {
    var cleaned := KnownIds(chain, ps);
    var remaining := Unseen(Ids(ps), cleaned);
    var pool := WithIdIn(ps, remaining);
    var recipient := Recipient(ps, chain).value;
    assert q in pool by { RelayPoolMembers(ps, chain); }
    assert |remaining| > 0;
    GateExtremes(draws.gate, settings.preferredHitRate);
    GiftStepNeverInterrupted(ps, chain, settings, draws);
    var different := DifferentAttributeGiver(recipient, pool, true, draws.different);
    assert different.Some?;
    var g := Giver(recipient, pool, settings, draws);
    assert g == different.value;
    assert GiftStep(ps, chain, settings, draws).outcome.giver == g.id;
  }

  /** One hand-over: `from` gives a present to `to`. */
  datatype Edge = Edge(from: Participant, to: Participant)

  /** The hand-overs between consecutive members of a resolved chain: the later one gives
      to the earlier one. */
  function Consecutive(mapped: seq<Participant>): (r: seq<Edge>)
  {
    if |mapped| < 2 then []
    else seq(|mapped| - 1, i requires 0 <= i < |mapped| - 1 => Edge(mapped[i + 1], mapped[i]))
  }

  /** The hand-overs `giftChainEdges` lists: a chain of fewer than two ids has none;
      otherwise the chain is resolved, stale ids dropped, and consecutive members linked. */
  function ChainEdges(ps: seq<Participant>, chain: seq<Id>): seq<Edge>
  {
    if |chain| < 2 then [] else Consecutive(Resolve(ps, chain))
  }

  /** `giftChainEdges`: resolves the chain and pushes an edge for each position from 1 on. */
  method GiftChainEdges(ps: seq<Participant>, chain: seq<Id>) returns (edges: seq<Edge>)
    ensures edges == ChainEdges(ps, chain)
  {
    edges := [];
    if |chain| < 2 {
      return;
    }
    var mapped := Resolve(ps, chain);
    var i := 1;
    while i < |mapped|
      invariant 1 <= i <= |mapped| || |mapped| < 1
      invariant |edges| == (if |mapped| == 0 then 0 else i - 1)
      invariant forall k :: 0 <= k < |edges| ==> edges[k] == Edge(mapped[k + 1], mapped[k])
    {
      edges := edges + [Edge(mapped[i], mapped[i - 1])];
      i := i + 1;
    }
    assert edges == Consecutive(mapped);
  }

  /** Over a duplicate-free chain, nobody gives to themselves, and nobody gives or receives
      twice; stale ids are dropped by the resolution and leave no edge of their own. */
  lemma ChainEdgesFacts(ps: seq<Participant>, chain: seq<Id>)
    requires Distinct(chain)
    ensures var e := ChainEdges(ps, chain);
      && (forall k :: 0 <= k < |e| ==> e[k].from.id != e[k].to.id)
      && (forall j, k :: 0 <= j < k < |e| ==> e[j].from.id != e[k].from.id && e[j].to.id != e[k].to.id)
  {
    var e := ChainEdges(ps, chain);
    if |chain| >= 2 {
      var mapped := Resolve(ps, chain);
      ResolveUnique(ps, chain);
      ConsecutiveIds(mapped, Ids(mapped));
      var ids := Ids(mapped);
      forall k | 0 <= k < |e|
        ensures e[k].from.id != e[k].to.id
      {
        assert ids[k + 1] != ids[k];
      }
      forall j, k | 0 <= j < k < |e|
        ensures e[j].from.id != e[k].from.id && e[j].to.id != e[k].to.id
      {
        assert ids[j + 1] != ids[k + 1] && ids[j] != ids[k];
      }
    }
  }

  /** Over a chain of known ids, the relay has one hand-over
      per chain member after the first: edge k goes from the participant named by chain
      id k + 1 to the one named by chain id k, and consecutive edges link up (each
      receiver gave the previous present). */
  lemma ChainEdgesIds(ps: seq<Participant>, chain: seq<Id>)
    requires forall id :: id in chain ==> HasId(ps, id)
    ensures var e := ChainEdges(ps, chain);
      && |e| == (if |chain| == 0 then 0 else |chain| - 1)
      && (forall k :: 0 <= k < |e| ==> e[k].from.id == chain[k + 1] && e[k].to.id == chain[k])
      && (forall k :: 0 <= k < |e| - 1 ==> e[k].from == e[k + 1].to)
  {
    ResolveAllKnown(ps, chain);
    if |chain| >= 2 {
      ConsecutiveIds(Resolve(ps, chain), chain);
    }
  }

  /** The edges between consecutive members of a sequence whose ids are `chain`. */
  lemma ConsecutiveIds(mapped: seq<Participant>, chain: seq<Id>)
    requires Ids(mapped) == chain
    ensures var e := Consecutive(mapped);
      && |e| == (if |chain| == 0 then 0 else |chain| - 1)
      && (forall k :: 0 <= k < |e| ==> e[k].from.id == chain[k + 1] && e[k].to.id == chain[k])
      && (forall k :: 0 <= k < |e| - 1 ==> e[k].from == e[k + 1].to)
  {
    var e := Consecutive(mapped);
    forall k | 0 <= k < |e|
      ensures e[k].from.id == chain[k + 1] && e[k].to.id == chain[k]
    {
      assert Ids(mapped)[k] == mapped[k].id;
      assert Ids(mapped)[k + 1] == mapped[k + 1].id;
    }
  }
}
