/** The component's state and what its handlers do to it: the roster, the drawn groups,
    the available pool, the relay chain and the settings, updated in place.  Timers,
    animation, dialogs, status messages and storage are not part of this model; a
    handler's delayed part is taken to run at once, on the state it was started on. */
module App {
  import opened Random
  import opened Seqs
  import opened Text
  import opened Roster
  import opened Pool
  import opened Pairing
  import opened Relay
  import opened Csv
  import opened Groups

  /** The two fields a participant row can edit. */
  datatype Field = AttributeField | NameField

  /** `{ ...participant, [key]: value }` for the attribute or the name. */
  function Edit(p: Participant, field: Field, value: string): (r: Participant)
    ensures r.id == p.id
    ensures field == AttributeField ==> r.attribute == value && r.name == p.name
    ensures field == NameField ==> r.name == value && r.attribute == p.attribute
  {
    match field
    case AttributeField => p.(attribute := value)
    case NameField => p.(name := value)
  }

  /** `prev.map((participant) => participant.id === id ? { ...participant, [key]: value } :
      participant)`: every entry with that id edited, the others as they were. */
  function Edited(ps: seq<Participant>, id: Id, field: Field, value: string): (r: seq<Participant>)
    ensures |r| == |ps|
    ensures forall k :: 0 <= k < |ps| ==> r[k].id == ps[k].id
    ensures forall k :: 0 <= k < |ps| && ps[k].id != id ==> r[k] == ps[k]
  {
    seq(|ps|, k requires 0 <= k < |ps| => if ps[k].id == id then Edit(ps[k], field, value) else ps[k])
  }

  /** Editing a name or an attribute keeps the roster's ids, so the pool and the groups stay
      consistent. */
  lemma EditKeeps(ps: seq<Participant>, pairs: seq<PairGroup>, avail: seq<Id>, id: Id, field: Field, value: string)
    requires UniqueIds(ps) && PoolOk(ps, avail) && GroupsOk(ps, pairs, avail)
    ensures var edited := Edited(ps, id, field, value);
      UniqueIds(edited) && PoolOk(edited, avail) && GroupsOk(edited, pairs, avail)
  {
    var edited := Edited(ps, id, field, value);
    forall x | HasId(ps, x)
      ensures HasId(edited, x)
    {
      var k :| 0 <= k < |ps| && ps[k].id == x;
      assert edited[k].id == x;
    }
  }

  /** `prev.preferredCombos.filter((pref) => pref.id !== id)`. */
  function WithoutPreference(combos: seq<Preference>, prefId: Id): (r: seq<Preference>)
    ensures forall c :: c in r <==> c in combos && c.id != prefId
    ensures |r| <= |combos|
  {
    if |combos| == 0 then []
    else
      var rest := WithoutPreference(combos[1..], prefId);
      assert forall c :: c in combos <==> c == combos[0] || c in combos[1..];
      if combos[0].id != prefId then [combos[0]] + rest else rest
  }

  /** Entries with unique ids, none of which the roster has, keep the roster's ids
      unique. */
  lemma FreshBatch(ps: seq<Participant>, entries: seq<Participant>)
    requires UniqueIds(ps) && UniqueIds(entries)
    requires forall k :: 0 <= k < |entries| ==> !HasId(ps, entries[k].id)
    ensures UniqueIds(ps + entries)
  {
    var all := ps + entries;
    forall i, j | 0 <= i < j < |all|
      ensures all[i].id != all[j].id
    {
      if j >= |ps| {
        assert all[j] == entries[j - |ps|];
        if i < |ps| {
          assert ps[i] == all[i];
        } else {
          assert all[i] == entries[i - |ps|];
        }
      }
    }
  }

  /** Entries numbered by an id source that never repeats an id and never yields one the
      roster has keep the roster's ids unique. */
  lemma FreshNumbered(ps: seq<Participant>, entries: seq<Participant>, newId: nat -> Id)
    requires UniqueIds(ps)
    requires forall k :: 0 <= k < |entries| ==> entries[k].id == newId(k)
    requires forall k :: !HasId(ps, newId(k))
    requires forall j, k :: j != k ==> newId(j) != newId(k)
    ensures UniqueIds(ps + entries)
  {
    FreshBatch(ps, entries);
  }

  /** The group a spin draws from a consistent state holds two or three participants of
      the pool with different ids, and carries the id it was given. */
  lemma DrawnGroupFits(ps: seq<Participant>, avail: seq<Id>, settings: Settings, draws: PairDraws, groupId: Id)
    requires UniqueIds(ps) && PoolOk(ps, avail) && |Resolve(ps, avail)| >= 2
    ensures var g := NextGroup(Resolve(ps, avail), settings, draws, groupId).value;
      && g.id == groupId && GroupShape(g)
      && forall m :: m in g.members ==> HasId(ps, m.id) && m.id in avail
  {
    var pool := Resolve(ps, avail);
    ResolveUnique(ps, avail);
    NextGroupShape(pool, settings, draws, groupId);
    var g := NextGroup(pool, settings, draws, groupId).value;
    if |pool| == 3 {
      assert |multiset(g.members)| == |multiset(pool)|;
    }
    MemberIds(ps);
  }

  /** The component's state. */
  class RouletteState {
    var participants: seq<Participant>
    var pairs: seq<PairGroup>
    var availableIds: seq<Id>
    var giftChainIds: seq<Id>
    var settings: Settings

    /** Participant ids are unique; the pool holds each id once and only ids of participants;
        every group has two or three distinct participants, none of them in the pool or in
        another group; the relay chain names nobody twice; the hit rate is within 0..100. */
    ghost predicate Valid()
      reads this
    {
      && UniqueIds(participants)
      && PoolOk(participants, availableIds)
      && GroupsOk(participants, pairs, availableIds)
      && Distinct(giftChainIds)
      && 0 <= settings.preferredHitRate <= 100
    }

    /** `availableParticipants`: the pool's ids resolved to participants. */
    function AvailableParticipants(): seq<Participant>
      reads this
    {
      Resolve(participants, availableIds)
    }

    /** `giftRemainingParticipants`: the participants not yet in the relay chain. */
    function GiftRemaining(): seq<Participant>
      reads this
    {
      RemainingParticipants(participants, giftChainIds)
    }

    /** In a consistent state the available participants are the pool, in the pool's
        order, with unique ids. */
    lemma AvailableIsPool()
      requires Valid()
      ensures Ids(AvailableParticipants()) == availableIds
      ensures UniqueIds(AvailableParticipants())
    {
      ResolveAllKnown(participants, availableIds);
      ResolveUnique(participants, availableIds);
    }

    /** The initial state: nobody, no groups, an empty pool and chain, default settings. */
    constructor ()
      ensures Valid()
      ensures participants == [] && pairs == [] && availableIds == [] && giftChainIds == []
      ensures settings == DefaultSettings
    {
      participants := [];
      pairs := [];
      availableIds := [];
      giftChainIds := [];
      settings := DefaultSettings;
    }

    /** `handleAddParticipant`: with a blank attribute or name nothing happens; otherwise
        the trimmed entry, under a fresh id, joins the roster and the back of the pool. */
    method AddParticipant(attribute: string, name: string, newId: Id)
      requires Valid() && !HasId(participants, newId)
      modifies this
      ensures Valid()
      ensures Trim(attribute) == [] || Trim(name) == [] ==>
        participants == old(participants) && availableIds == old(availableIds)
      ensures Trim(attribute) != [] && Trim(name) != [] ==>
        var entry := Participant(newId, Trim(attribute), Trim(name));
        participants == old(participants) + [entry] && availableIds == old(availableIds) + [newId]
      ensures pairs == old(pairs) && giftChainIds == old(giftChainIds) && settings == old(settings)
    {
      if Trim(attribute) == [] || Trim(name) == [] {
        return;
      }
      var entry := Participant(newId, Trim(attribute), Trim(name));
      var entries := [entry];
      assert Ids(entries) == [newId];
      FreshBatch(participants, entries);
      assert newId !in availableIds;
      assert AppendFresh(availableIds, [newId]) == availableIds + [newId] by {
        assert AppendFresh(availableIds + [newId], []) == availableIds + [newId];
      }
      AddEntries(entries);
    }

    /** `handleCsvUpload` once the file is read: text without a usable row is an error and
        changes nothing; otherwise the parsed entries join the roster and the back of the
        pool. */
    method ImportCsv(raw: string, newId: nat -> Id) returns (error: bool)
      requires Valid()
      requires forall k :: !HasId(participants, newId(k))
      requires forall j, k :: j != k ==> newId(j) != newId(k)
      modifies this
      ensures Valid()
      ensures error <==> |CsvEntries(raw, newId)| == 0
      ensures error ==> participants == old(participants) && availableIds == old(availableIds)
      ensures !error ==>
        && participants == old(participants) + CsvEntries(raw, newId)
        && availableIds == AppendFresh(old(availableIds), Ids(CsvEntries(raw, newId)))
      ensures pairs == old(pairs) && giftChainIds == old(giftChainIds) && settings == old(settings)
    {
      var parsed := ParseCsv(raw, newId);
      if |parsed| == 0 {
        return true;
      }
      CsvEntriesFacts(raw, newId);
      FreshNumbered(participants, parsed, newId);
      AddEntries(parsed);
      return false;
    }

    /** The state change of both: the entries join the roster, and their ids the back of
        the pool (`appendAvailableEntries`). */
    method AddEntries(entries: seq<Participant>)
      requires Valid() && UniqueIds(participants + entries)
      modifies this
      ensures Valid()
      ensures participants == old(participants) + entries
      ensures availableIds == AppendFresh(old(availableIds), Ids(entries))
      ensures pairs == old(pairs) && giftChainIds == old(giftChainIds) && settings == old(settings)
    {
      AddKeeps(participants, pairs, availableIds, entries);
      var next := AppendAvailable(availableIds, entries);
      var grown := participants + entries;
      assert UniqueIds(grown) && PoolOk(grown, next) && GroupsOk(grown, pairs, next);
      participants, availableIds := grown, next;
    }

    /** `handleParticipantUpdate`: edits the attribute or the name of the entries with that
        id; groups keep the copies they were drawn with. */
    method UpdateParticipant(id: Id, field: Field, value: string)
      requires Valid()
      modifies this
      ensures Valid()
      ensures participants == Edited(old(participants), id, field, value)
      ensures pairs == old(pairs) && availableIds == old(availableIds)
      ensures giftChainIds == old(giftChainIds) && settings == old(settings)
    {
      EditKeeps(participants, pairs, availableIds, id, field, value);
      var edited := Edited(participants, id, field, value);
      assert UniqueIds(edited) && PoolOk(edited, availableIds) && GroupsOk(edited, pairs, availableIds);
      participants := edited;
    }

    /** `handleRemoveParticipant`: the participant leaves the roster, every group containing
        it is dropped (its partners are not returned to the pool), and its id leaves the
        pool; the relay chain keeps the id until the next relay spin drops it. */
    method RemoveParticipant(id: Id)
      requires Valid()
      modifies this
      ensures Valid()
      ensures participants == WithoutId(old(participants), id)
      ensures pairs == WithoutMember(old(pairs), id)
      ensures availableIds == RemoveId(old(availableIds), id)
      ensures giftChainIds == old(giftChainIds) && settings == old(settings)
    {
      RemoveKeeps(participants, pairs, availableIds, id);
      var roster, kept, pool := WithoutId(participants, id), WithoutMember(pairs, id), RemoveId(availableIds, id);
      assert UniqueIds(roster) && PoolOk(roster, pool) && GroupsOk(roster, kept, pool);
      participants, pairs, availableIds := roster, kept, pool;
    }

    /** `handleAddPreference`: with a blank side nothing happens; otherwise the trimmed rule
        is added after the others. */
    method AddPreference(from: string, to: string, prefId: Id)
      requires Valid()
      modifies this
      ensures Valid()
      ensures Trim(from) == [] || Trim(to) == [] ==> settings == old(settings)
      ensures Trim(from) != [] && Trim(to) != [] ==>
        settings == old(settings).(preferredCombos := old(settings).preferredCombos + [Preference(prefId, Trim(from), Trim(to))])
      ensures participants == old(participants) && pairs == old(pairs)
      ensures availableIds == old(availableIds) && giftChainIds == old(giftChainIds)
    {
      if Trim(from) == [] || Trim(to) == [] {
        return;
      }
      settings := settings.(preferredCombos := settings.preferredCombos + [Preference(prefId, Trim(from), Trim(to))]);
    }

    /** `handleRemovePreference`: drops the rules with that id. */
    method RemovePreference(prefId: Id)
      requires Valid()
      modifies this
      ensures Valid()
      ensures settings == old(settings).(preferredCombos := WithoutPreference(old(settings).preferredCombos, prefId))
      ensures participants == old(participants) && pairs == old(pairs)
      ensures availableIds == old(availableIds) && giftChainIds == old(giftChainIds)
    {
      settings := settings.(preferredCombos := WithoutPreference(settings.preferredCombos, prefId));
    }

    /** `handlePreferredHitRateChange`: the rate is clamped into 0..100. */
    method SetHitRate(value: int)
      requires Valid()
      modifies this
      ensures Valid()
      ensures settings == old(settings).(preferredHitRate := ClampHitRate(value))
      ensures participants == old(participants) && pairs == old(pairs)
      ensures availableIds == old(availableIds) && giftChainIds == old(giftChainIds)
    {
      settings := settings.(preferredHitRate := ClampHitRate(value));
    }

    /** `toggleAvoidSame`. */
    method ToggleAvoidSame()
      requires Valid()
      modifies this
      ensures Valid()
      ensures settings == old(settings).(avoidSameAttribute := !old(settings).avoidSameAttribute)
      ensures participants == old(participants) && pairs == old(pairs)
      ensures availableIds == old(availableIds) && giftChainIds == old(giftChainIds)
    {
      settings := settings.(avoidSameAttribute := !settings.avoidSameAttribute);
    }

    /** `handleSpin`: with fewer than two available participants nothing happens; otherwise
        the group `createNextGroup` draws from them, under a fresh group id, is appended to
        the groups and exactly its members leave the pool. */
    method Spin(draws: PairDraws, groupId: Id) returns (group: Option<PairGroup>)
      requires Valid() && forall g :: g in pairs ==> g.id != groupId
      modifies this
      ensures Valid()
      ensures group == NextGroup(old(AvailableParticipants()), old(settings), draws, groupId)
      ensures group.None? <==> |old(AvailableParticipants())| < 2
      ensures group.None? ==> pairs == old(pairs) && availableIds == old(availableIds)
      ensures group.Some? ==>
        && pairs == old(pairs) + [group.value]
        && availableIds == RemoveMembers(old(availableIds), group.value.members)
      ensures participants == old(participants) && giftChainIds == old(giftChainIds) && settings == old(settings)
    {
      var pool := Resolve(participants, availableIds);
      if |pool| < 2 {
        return None;
      }
      group := CreateNextGroup(pool, settings, draws, groupId);
      DrawnGroupFits(participants, availableIds, settings, draws, groupId);
      AddGroup(group.value);
    }

    /** The state change of a spin: the drawn group is appended and exactly its members
        leave the pool. */
    method AddGroup(g: PairGroup)
      requires Valid() && forall h :: h in pairs ==> h.id != g.id
      requires GroupShape(g) && forall m :: m in g.members ==> HasId(participants, m.id) && m.id in availableIds
      modifies this
      ensures Valid()
      ensures pairs == old(pairs) + [g] && availableIds == RemoveMembers(old(availableIds), g.members)
      ensures participants == old(participants) && giftChainIds == old(giftChainIds) && settings == old(settings)
    {
      SpinKeeps(participants, pairs, availableIds, g);
      var grown, pool := pairs + [g], RemoveMembers(availableIds, g.members);
      assert PoolOk(participants, pool) && GroupsOk(participants, grown, pool);
      pairs, availableIds := grown, pool;
    }

    /** `handleReleasePair`: an unknown group id changes nothing; otherwise the group is
        dropped and its members go back to the front of the pool. */
    method Release(pairId: Id)
      requires Valid()
      modifies this
      ensures Valid()
      ensures FindGroup(old(pairs), pairId).None? ==> pairs == old(pairs) && availableIds == old(availableIds)
      ensures FindGroup(old(pairs), pairId).Some? ==>
        && pairs == WithoutGroup(old(pairs), pairId)
        && availableIds == PrependAvailable(old(availableIds), FindGroup(old(pairs), pairId).value.members)
      ensures participants == old(participants) && giftChainIds == old(giftChainIds) && settings == old(settings)
    {
      var target := FindGroup(pairs, pairId);
      if target.None? {
        return;
      }
      ReleaseKeeps(participants, pairs, availableIds, target.value);
      var kept, pool := WithoutGroup(pairs, pairId), PrependAvailable(availableIds, target.value.members);
      assert PoolOk(participants, pool) && GroupsOk(participants, kept, pool);
      pairs, availableIds := kept, pool;
    }

    /** `handleRerollLatest` before it spins again: with no group, or none of the latest
        group's members still on the roster, nothing happens; otherwise the latest group is
        dropped and its members still on the roster go back to the front of the pool. */
    method RerollLatest() returns (rerolled: bool)
      requires Valid()
      modifies this
      ensures Valid()
      ensures rerolled <==> |old(pairs)| > 0 && |Listed(old(pairs)[|old(pairs)| - 1].members, old(participants))| > 0
      ensures !rerolled ==> pairs == old(pairs) && availableIds == old(availableIds)
      ensures rerolled ==>
        && pairs == old(pairs)[..|old(pairs)| - 1]
        && availableIds == PrependAvailable(old(availableIds), Listed(old(pairs)[|old(pairs)| - 1].members, old(participants)))
      ensures participants == old(participants) && giftChainIds == old(giftChainIds) && settings == old(settings)
    {
      if |pairs| == 0 {
        return false;
      }
      var restored := Listed(pairs[|pairs| - 1].members, participants);
      if |restored| == 0 {
        return false;
      }
      DropLatest(restored);
      return true;
    }

    /** The state change of a reroll: the latest group is dropped and `restored`, its
        members still on the roster, go back to the front of the pool. */
    method DropLatest(restored: seq<Participant>)
      requires Valid() && |pairs| > 0 && restored == Listed(pairs[|pairs| - 1].members, participants)
      modifies this
      ensures Valid()
      ensures pairs == old(pairs)[..|old(pairs)| - 1] && availableIds == PrependAvailable(old(availableIds), restored)
      ensures participants == old(participants) && giftChainIds == old(giftChainIds) && settings == old(settings)
    {
      RerollKeeps(participants, pairs, availableIds);
      var kept := pairs[..|pairs| - 1];
      var back := PrependAvailable(availableIds, restored);
      assert PoolOk(participants, back) && GroupsOk(participants, kept, back);
      pairs, availableIds := kept, back;
    }

    /** `handleGiftSpin`: the relay chain becomes the one `GiftStep` computes. */
    method GiftSpin(draws: RelayDraws) returns (outcome: RelayOutcome)
      requires Valid()
      modifies this
      ensures Valid()
      ensures outcome == GiftStep(old(participants), old(giftChainIds), old(settings), draws).outcome
      ensures giftChainIds == GiftStep(old(participants), old(giftChainIds), old(settings), draws).chain
      ensures participants == old(participants) && pairs == old(pairs)
      ensures availableIds == old(availableIds) && settings == old(settings)
    {
      var r := GiftStep(participants, giftChainIds, settings, draws);
      if |participants| >= 2 {
        GiftStepChain(participants, giftChainIds, settings, draws);
      }
      outcome := r.outcome;
      giftChainIds := r.chain;
    }

    /** `handleGiftReroll` before it spins again: with an empty chain, or a last id that no
        longer names a participant, nothing happens; otherwise the last id is dropped. */
    method GiftReroll() returns (rerolled: bool)
      requires Valid()
      modifies this
      ensures Valid()
      ensures rerolled <==> |old(giftChainIds)| > 0 && HasId(old(participants), old(giftChainIds)[|old(giftChainIds)| - 1])
      ensures !rerolled ==> giftChainIds == old(giftChainIds)
      ensures rerolled ==> giftChainIds == old(giftChainIds)[..|old(giftChainIds)| - 1]
      ensures participants == old(participants) && pairs == old(pairs)
      ensures availableIds == old(availableIds) && settings == old(settings)
    {
      if |giftChainIds| == 0 {
        return false;
      }
      var last := Find(participants, giftChainIds[|giftChainIds| - 1]);
      if last.None? {
        return false;
      }
      giftChainIds := giftChainIds[..|giftChainIds| - 1];
      return true;
    }

    /** `handleReset`: everything back to the initial state. */
    method Reset()
      requires Valid()
      modifies this
      ensures Valid()
      ensures participants == [] && pairs == [] && availableIds == [] && giftChainIds == []
      ensures settings == DefaultSettings
    {
      participants := [];
      pairs := [];
      availableIds := [];
      giftChainIds := [];
      settings := DefaultSettings;
    }

    /** `handleGiftReset`: clears the relay chain only. */
    method GiftReset()
      requires Valid()
      modifies this
      ensures Valid()
      ensures giftChainIds == []
      ensures participants == old(participants) && pairs == old(pairs)
      ensures availableIds == old(availableIds) && settings == old(settings)
    {
      giftChainIds := [];
    }
  }
}
