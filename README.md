# Roulette matching and ordering engine

A model of the engine inside `app/components/RouletteApp.tsx`, a single-page "pair
roulette". A roster of participants (attribute, name) is imported from CSV or typed in.
Two modes then use it:

- **Pair mode.** Each spin draws a pair from the pool of participants not yet drawn, or a
  trio when exactly three remain. The draw follows the organiser's preference rules
  (attribute A with attribute B, tried with a configurable hit rate), otherwise prefers two
  different attributes, and otherwise takes any two. Groups can be released back into the
  pool, and the latest group can be rerolled.
- **Gift mode.** A relay chain is built one giver at a time. Each new giver hands a present
  to the previous chain member. The chain grows until every participant is in it.

The model is split into modules that follow the program's own layers:

| module | what it models |
|---|---|
| `Random` (random.dfy) | every `Math.random()` result as a parameter in [0, 1); index draws `Math.floor(u * n)` and the preference gate `u * 100 < rate` |
| `Text` (text.dfy) | `trim`, ASCII `toLowerCase`, `normalize`, one-character `split` |
| `Seqs` (seqs.dfy) | duplicate-freedom and counting helpers |
| `Shuffle` (shuffle.dfy) | `shuffleList` (Fisher–Yates) as a method proved equal to a function, and that function proved a permutation |
| `Roster` (roster.dfy) | participants, rules, settings, groups; `find`, the id-resolving views, filters, the hit-rate clamp |
| `Pool` (pool.dfy) | `appendAvailableEntries`, `prependAvailableEntries` and the filters on `availableIds` |
| `Pairing` (pairing.dfy) | `pickPreferredPair`, `pickDifferentAttributePair`, `buildTrio`, `createNextGroup` |
| `Relay` (relay.dfy) | `pickPreferredGiver`, `pickDifferentAttributeGiver`, one `handleGiftSpin` step, runs of steps, `giftChainEdges` |
| `Csv` (csv.dfy) | `parseCsv`, with round-trip properties for files written in the expected format |
| `Groups` (groups.dfy) | group look-ups and filters; the invariant tying groups to the pool and the roster, and its preservation by every handler |
| `App` (app.dfy) | the component state as a class `RouletteState` (participants, pairs, availableIds, giftChainIds, settings), one method per handler |

Randomness is a parameter everywhere. `createNextGroup` receives a `PairDraws` record and
a relay spin a `RelayDraws` record. Each holds the value `Math.random()` returns at each
call site. Loops (the shuffle, the rule loop) take a stream of values. `generateId()`
becomes a parameter (`groupId`, `newId`) that the caller must supply fresh. The model
says which outcome every draw gives; it says nothing about probabilities.

The component state is one invariant, `RouletteState.Valid`:

- participant ids are unique;
- every available id names a participant and appears once;
- every group has two or three members with distinct ids, each naming a participant and
  none available;
- two groups never share a member;
- the gift chain holds no id twice;
- the preferred hit rate lies in 0..100.

Every handler keeps this invariant. `handleRemoveParticipant` keeps it because every
group containing the removed participant is dropped: the partners are then neither pooled
nor grouped (`Groups.PartnersLost`), as the code does. The gift chain may keep the
removed id; `giftChainEdges` and the relay steps skip ids that name nobody.

The import hint in the UI (`ヘッダ: attribute,name`, RouletteApp.tsx:1033) shows the
header word in the first column. The code (`firstRow.some(...)`, RouletteApp.tsx:80-81)
accepts it in any cell of the first row. The model follows the code; `Csv.HasHeaderMeans`
and `Csv.HasHeaderPair` state the header test exactly.

## Model

| member | source | states |
|---|---|---|
| Random.Index | app/components/RouletteApp.tsx:403-405 | an index drawn as `Math.floor(u * n)` for `n > 0` candidates is always a valid position |
| Random.GateExtremes | app/components/RouletteApp.tsx:455-456 | a hit rate of 100 or more always opens the preference gate, and 0 or less never does |
| Random.IndexReachable | app/components/RouletteApp.tsx:403-405 | every candidate position is selected by some draw, so no candidate is excluded by the index formula |
| Text.Trim | app/components/RouletteApp.tsx:74 | `String.prototype.trim`: drops leading and trailing ECMAScript white space; `TrimFacts` proves the result is an unpadded slice of the input, `TrimOfTrimmed` that trimming is idempotent, `TrimAllWhite` that an all-blank string trims to empty, `TrimPadded` that padding around a trimmed string is removed exactly |
| Text.TrimFacts | app/components/RouletteApp.tsx:74 | a trimmed line has no white space at either end and is a contiguous slice of the input |
| Text.TrimOfTrimmed | app/components/RouletteApp.tsx:74 | trimming a string without outer white space leaves it unchanged |
| Text.TrimAllWhite | app/components/RouletteApp.tsx:74-75 | a line made only of white space trims to empty, so it is dropped |
| Text.TrimPadded | app/components/RouletteApp.tsx:74 | trimming removes exactly the white padding around a trimmed core |
| Text.TrimStartFacts | app/components/RouletteApp.tsx:69 | the leading trim removes exactly a white prefix, and what is left does not start with white space |
| Text.TrimEndFacts | app/components/RouletteApp.tsx:69 | the trailing trim removes exactly a white suffix, and what is left does not end with white space |
| Text.TrimStartAt | app/components/RouletteApp.tsx:69 | the leading trim stops at the first non-white character |
| Text.TrimEndAt | app/components/RouletteApp.tsx:69 | the trailing trim stops at the last non-white character |
| Text.ToLower | app/components/RouletteApp.tsx:69 | ASCII `toLowerCase`; `ToLowerFacts` proves it keeps the length, maps each character on its own and leaves no capital, `LowerOfLower` that it is idempotent |
| Text.ToLowerFacts | app/components/RouletteApp.tsx:69 | lower-casing keeps the length, leaves no upper-case ASCII letter and keeps white space where it was |
| Text.LowerOfLower | app/components/RouletteApp.tsx:69 | lower-casing a string without upper-case letters changes nothing |
| Text.Normalize | app/components/RouletteApp.tsx:69 | `normalize`: trim, then lower-case; `NormalizeFacts`, `NormalizeIdempotent` and `NormalizeIgnoresCaseAndPadding` state that the result is canonical and which differences the comparison ignores |
| Text.NormalizeFacts | app/components/RouletteApp.tsx:69 | a normalised attribute has no outer white space and no upper-case ASCII letter |
| Text.NormalizeIdempotent | app/components/RouletteApp.tsx:69 | normalising twice is the same as normalising once |
| Text.NormalizeIgnoresCaseAndPadding | app/components/RouletteApp.tsx:69 | attributes that differ only in ASCII case and surrounding white space normalise alike |
| Text.Split | app/components/RouletteApp.tsx:73 | a split always yields at least one piece |
| Text.SplitPieces | app/components/RouletteApp.tsx:80 | no piece of a split contains the separator |
| Text.JoinSplit | app/components/RouletteApp.tsx:80 | joining the pieces with the separator gives back the original text |
| Text.SplitJoin | app/components/RouletteApp.tsx:80 | splitting pieces without separators that were joined with it gives back the pieces |
| Text.SplitNoSeparator | app/components/RouletteApp.tsx:80 | text without a separator splits into itself alone |
| Text.SplitAfterPiece | app/components/RouletteApp.tsx:80 | a leading piece followed by the separator is split off as the first piece |
| Shuffle.Swap | app/components/RouletteApp.tsx:64 | the swap exchanges positions i and j and leaves every other position as it was |
| Shuffle.SwapPermutes | app/components/RouletteApp.tsx:64 | a swap keeps the multiset of elements |
| Shuffle.SwapDistinct | app/components/RouletteApp.tsx:64 | a swap keeps a duplicate-free list duplicate-free |
| Shuffle.ShuffleSteps | app/components/RouletteApp.tsx:62-65 | the swaps from position i down to 1 keep the list's length |
| Shuffle.Shuffled | app/components/RouletteApp.tsx:60-67 | the shuffled copy has the list's length |
| Shuffle.ShuffleStepsPermutes | app/components/RouletteApp.tsx:62-65 | every run of the swap loop yields a permutation (same multiset) |
| Shuffle.ShuffleStepsDistinct | app/components/RouletteApp.tsx:62-65 | the swap loop keeps a duplicate-free list duplicate-free |
| Shuffle.ShuffledFacts | app/components/RouletteApp.tsx:60-67 | `shuffleList` returns a permutation of its input: the same multiset and the same members, and a duplicate-free input stays duplicate-free |
| Shuffle.ShuffleList | app/components/RouletteApp.tsx:60-67 | the in-place Fisher–Yates loop computes the shuffled copy and returns a permutation of the input |
| Roster.Ids | app/components/RouletteApp.tsx:508-510 | the id list has one id per participant, in order |
| Roster.Find | app/components/RouletteApp.tsx:181-182 | `find` succeeds exactly when some participant has the id and returns a participant with that id; with unique ids it returns *the* participant |
| Roster.Resolve | app/components/RouletteApp.tsx:180-184 | the resolved view is no longer than the ids and holds only roster members whose id is listed |
| Roster.ResolveComplete | app/components/RouletteApp.tsx:180-184 | every listed id that names a participant appears in the resolved view |
| Roster.ResolveUnique | app/components/RouletteApp.tsx:180-184 | resolving a duplicate-free id list gives participants with unique ids |
| Roster.ResolveAllKnown | app/components/RouletteApp.tsx:186-189 | when every listed id names a participant, the view loses no id and keeps the order |
| Roster.ShuffledUniqueIds | app/components/RouletteApp.tsx:60-67 | shuffling a pool with unique ids keeps its members and its unique ids |
| Roster.WithAttribute | app/components/RouletteApp.tsx:398-399 | the filter keeps exactly the pool members whose normalised attribute equals the given one |
| Roster.WithoutAttribute | app/components/RouletteApp.tsx:443-445 | the filter keeps exactly the pool members whose normalised attribute differs from the given one |
| Roster.WithIdIn | app/components/RouletteApp.tsx:554 | the relay pool holds exactly the participants whose id is listed |
| Roster.RemainingParticipants | app/components/RouletteApp.tsx:190-193 | `giftRemainingParticipants` holds exactly the participants whose id is not in the chain |
| Roster.WithoutId | app/components/RouletteApp.tsx:353 | removal keeps exactly the entries with another id |
| Roster.ClampHitRate | app/components/RouletteApp.tsx:381-384 | the stored hit rate lies in 0..100; an in-range value is kept and an out-of-range one becomes the nearest bound |
| Pool.AppendFresh | app/components/RouletteApp.tsx:153-167 | the pool after `appendAvailableEntries`; `AppendFreshFacts` and `AppendFreshOrder` state the kept prefix, the added ids and their order, and duplicate-freedom; `AppendAvailable` is proved to compute it |
| Pool.AppendFreshFacts | app/components/RouletteApp.tsx:153-167 | appending keeps the current pool as a prefix, adds only ids not already pooled, ends with exactly the old and the new ids, and keeps the pool duplicate-free |
| Pool.AppendAvailable | app/components/RouletteApp.tsx:153-167 | the loop with its `seen` set computes the appended pool; no entries leave the pool unchanged |
| Pool.Unseen | app/components/RouletteApp.tsx:171-173 | exactly the ids not already present are kept, without adding duplicates |
| Pool.PrependAvailable | app/components/RouletteApp.tsx:168-178 | the current pool stays as a suffix; in front of it come exactly the entries' ids not already pooled, in the entries' order; the result holds exactly the old and the returned ids and stays duplicate-free |
| Pool.AppendFreshOrder | app/components/RouletteApp.tsx:153-167 | for entries with distinct ids, the pool grows by exactly the ids not already pooled, at the back, in the entries' order |
| Pool.UnseenIgnores | app/components/RouletteApp.tsx:160-163 | marking as seen an id that does not occur among the entries leaves the ids that get added unchanged |
| Pool.RemoveMembers | app/components/RouletteApp.tsx:486 | exactly the ids of the drawn members leave the pool |
| Pool.RemoveId | app/components/RouletteApp.tsx:355 | exactly the removed id leaves the pool |
| Pairing.Viable | app/components/RouletteApp.tsx:399-404 | a rule can yield a pair exactly when its `from` group is non-empty and its `to` group has a member other than the first pick; `RuleAttemptViable` proves a rule attempt succeeds exactly then |
| Pairing.PickPreferredPair | app/components/RouletteApp.tsx:396-409 | `pickPreferredPair`; `PreferredPairFacts` states the pair is two distinct pool members matching the first viable rule in order, and that no pair comes back exactly when no rule is viable |
| Pairing.RuleAttempt | app/components/RouletteApp.tsx:398-407 | a pair produced by one rule is two different pool members, the first of the rule's `from` attribute and the second of its `to` attribute |
| Pairing.RuleAttemptViable | app/components/RouletteApp.tsx:398-407 | with unique ids, a rule yields a pair exactly when it is viable, whatever the draws |
| Pairing.PreferredPairFrom | app/components/RouletteApp.tsx:397-408 | a pair found from rule k on is two different pool members |
| Pairing.PreferredPairFromFacts | app/components/RouletteApp.tsx:396-409 | the rule loop finds nothing exactly when no remaining rule is viable; otherwise it returns the pair of the first viable rule |
| Pairing.PreferredPairFacts | app/components/RouletteApp.tsx:396-409 | the first rule that can produce a pair wins: no rules means no pair, no pair means no rule is viable, and a pair follows the first viable rule |
| Pairing.FirstOther | app/components/RouletteApp.tsx:413-419 | the inner scan stops at the first later member of another attribute, or at the end |
| Pairing.DiversePair | app/components/RouletteApp.tsx:413-421 | the nested scan finds nothing exactly when all members share one attribute; otherwise it finds two members of different attributes |
| Pairing.DifferentAttributePair | app/components/RouletteApp.tsx:411-422 | `pickDifferentAttributePair`; `DifferentAttributePairFacts` states it gives two distinct pool members of different attributes, and none exactly when the switch is off or all attributes normalise alike |
| Pairing.DifferentAttributePairFacts | app/components/RouletteApp.tsx:411-422 | there is no different-attribute pair exactly when avoidance is off or the pool has one attribute; otherwise the pair is two different pool members of different attributes |
| Pairing.PickDifferentAttributePair | app/components/RouletteApp.tsx:411-422 | the double loop over the shuffled pool computes the different-attribute pair |
| Pairing.Take | app/components/RouletteApp.tsx:459 | `slice(0, count)` is the prefix of length min(count, length) |
| Pairing.BuildTrio | app/components/RouletteApp.tsx:386-394 | the trio carries the given id and the trio flag, holds only pool members, and from a pool of three holds exactly those three |
| Pairing.NextGroup | app/components/RouletteApp.tsx:450-467 | `createNextGroup`; `NextGroupShape`, `NextGroupPreferred`, `NextGroupAtZeroRate` and `NextGroupDiverse` state its group sizes, its members and which rule picks them, and `CreateNextGroup` is proved to compute it |
| Pairing.NextGroupShape | app/components/RouletteApp.tsx:450-467 | no group from fewer than two; a trio of exactly the pool from three; otherwise a pair of two different pool members; every group has the given id and unique member ids |
| Pairing.NextGroupTrio | app/components/RouletteApp.tsx:452-454 | three available participants always give a trio of exactly those three |
| Pairing.NextGroupPair | app/components/RouletteApp.tsx:455-466 | two, or four or more, available participants always give a non-trio pair of two different pool members |
| Pairing.TwoFromFacts | app/components/RouletteApp.tsx:460 | a pair of two different pool members has unique ids and only pool members |
| Pairing.NextGroupPreferred | app/components/RouletteApp.tsx:455-460 | with the gate open (always at rate 100) and a viable rule k, the pair follows the first viable rule, which is rule k or an earlier one |
| Pairing.NextGroupAtZeroRate | app/components/RouletteApp.tsx:455-460 | at rate 0 the rules are never consulted: the pair is the different-attribute pair, or the fallback |
| Pairing.NextGroupDiverse | app/components/RouletteApp.tsx:455-460 | with avoidance on, no preferred pair drawn and two attributes in the pool, the pair has two different attributes |
| Pairing.CreateNextGroup | app/components/RouletteApp.tsx:450-467 | the method computes the group the specification function describes |
| Relay.GiverCandidates | app/components/RouletteApp.tsx:431-436 | the candidates `pickPreferredGiver` collects, rule by rule; `GiverCandidatesMembers` states they are exactly the pool members whose attribute matches the `from` side of some rule |
| Relay.PreferredGiver | app/components/RouletteApp.tsx:424-439 | `pickPreferredGiver`; `PreferredGiverFacts` states it returns a pool member that some rule sends to the recipient, and none exactly when no pool member does |
| Relay.RulesTo | app/components/RouletteApp.tsx:427-429 | `matchingCombos` holds exactly the rules whose normalised `to` is the recipient's attribute |
| Relay.GiverCandidatesMembers | app/components/RouletteApp.tsx:431-436 | the candidate list holds exactly the pool members that have the `from` attribute of a matching rule |
| Relay.PreferredGiverFacts | app/components/RouletteApp.tsx:424-439 | a preferred giver is a pool member that follows a rule towards the recipient, and there is none exactly when no pool member does |
| Relay.PickPreferredGiver | app/components/RouletteApp.tsx:424-439 | the `forEach` that pushes each rule's hits computes the preferred giver |
| Relay.GiverCandidatesStep | app/components/RouletteApp.tsx:432-436 | pushing one rule's hits moves that rule from the rules still to read to the candidates |
| Relay.DifferentAttributeGiver | app/components/RouletteApp.tsx:441-448 | there is no different-attribute giver exactly when avoidance is off or every pool member shares the recipient's attribute; otherwise the giver is a pool member of another attribute |
| Relay.KnownIds | app/components/RouletteApp.tsx:507 | `cleanedChain`; `KnownIdsFacts` states it keeps exactly the chain ids naming a participant, duplicate-free when the chain is, and the whole chain when every id is known |
| Relay.Recipient | app/components/RouletteApp.tsx:545-546 | the recipient of the next hand-over, the participant the last known chain id names; `GiftStepShape` ties every extended chain to it |
| Relay.Giver | app/components/RouletteApp.tsx:561-566 | `preferredGiver || differentAttrGiver || fallbackGiver`; `GiverInPool` states it is always a pool member, `GiftStepPreferred` and `GiftStepDiverse` when a rule or a different attribute picks it |
| Relay.KnownIdsFacts | app/components/RouletteApp.tsx:507 | cleaning keeps exactly the chain ids that name a participant, keeps a duplicate-free chain duplicate-free, and leaves a chain of known ids unchanged |
| Relay.GiverInPool | app/components/RouletteApp.tsx:561-566 | the chosen giver (preferred, else different, else fallback) is always a member of the relay pool |
| Relay.RelayPoolMembers | app/components/RouletteApp.tsx:508-510 | the relay pool holds exactly the participants not in the chain |
| Relay.GiftStep | app/components/RouletteApp.tsx:505-594 | one `handleGiftSpin`; `GiftStepChain`, `GiftStepComplete`, `GiftStepShape`, `GiftStepGrows` and `GiftStepNeverInterrupted` state the new chain, when it is complete, that a valid step never aborts and that it adds one new id |
| Relay.GiftStepNeverInterrupted | app/components/RouletteApp.tsx:546-560 | the defensive branches (no recipient, empty pool) never run |
| Relay.RosterIds | app/components/RouletteApp.tsx:508-510 | every participant's id is on the id list and names a participant |
| Relay.GiftStepChain | app/components/RouletteApp.tsx:505-594 | a spin leaves only known ids in the chain, keeps it duplicate-free, and extends it by one giver who was not in it yet |
| Relay.GiftStepComplete | app/components/RouletteApp.tsx:511-527 | a spin reports completion exactly when the cleaned chain is non-empty and names every participant, and then only drops stale ids |
| Relay.GiftStepShape | app/components/RouletteApp.tsx:538-546 | an empty or wholly stale chain is started with one participant; a longer one is extended with a giver for its last known member |
| Relay.GiftStepGrows | app/components/RouletteApp.tsx:573 | a spin on a duplicate-free chain of known ids that is shorter than the roster makes the chain exactly one id longer, still duplicate-free and known |
| Relay.RunGrows | app/components/RouletteApp.tsx:505-594 | the first n spins (n at most the roster size) build a duplicate-free chain of n known ids |
| Relay.IterateGrows | app/components/RouletteApp.tsx:573 | a spin that grows every grown chain by one grows the empty chain into one of n ids after n spins |
| Relay.IdsCard | app/components/RouletteApp.tsx:508-510 | a roster with unique ids has as many distinct ids as entries |
| Relay.RelayCoversAll | app/components/RouletteApp.tsx:505-594 | N spins on N participants put every participant in the chain exactly once, and the next spin reports the relay complete and leaves the chain as it is |
| Relay.GiftStepPreferred | app/components/RouletteApp.tsx:561-566 | with the gate open and some participant outside the chain following a rule towards the recipient, the giver follows such a rule |
| Relay.GiftStepDiverse | app/components/RouletteApp.tsx:561-566 | with avoidance on, no preferred giver drawn and someone of another attribute left, the giver's attribute differs from the recipient's |
| Relay.Consecutive | app/components/RouletteApp.tsx:144-146 | the edges between consecutive resolved chain members; `ConsecutiveIds` states edge k goes from member k+1 to member k and consecutive edges link up |
| Relay.ChainEdges | app/components/RouletteApp.tsx:137-147 | `giftChainEdges`; `ChainEdgesFacts` and `ChainEdgesIds` state that nobody gives to themselves or twice and that the edges follow the chain, and `GiftChainEdges` is proved to compute it |
| Relay.GiftChainEdges | app/components/RouletteApp.tsx:137-147 | the loop computes the hand-overs between consecutive resolved chain members |
| Relay.ChainEdgesFacts | app/components/RouletteApp.tsx:137-147 | for any duplicate-free chain, stale ids included (they are skipped by the resolution), nobody gives to themselves, and nobody gives or receives twice |
| Relay.ChainEdgesIds | app/components/RouletteApp.tsx:137-147 | for a chain of known ids there is one edge per consecutive pair: edge k goes from chain member k+1 to member k, and each receiver of one edge is the giver of the previous |
| Relay.ConsecutiveIds | app/components/RouletteApp.tsx:144-146 | the edges of a resolved list link member k+1 to member k and form a path |
| Csv.StripQuotes | app/components/RouletteApp.tsx:80 | `cell.replace(/^"|"$/g, "")`; `StripQuotesFacts` states a cell wrapped in quotes loses exactly those two, and a cell with no quote at either end is unchanged |
| Csv.Clean | app/components/RouletteApp.tsx:80 | a cell with its quotes stripped, then trimmed; `CleanFacts` states the result is trimmed and holds only characters of the cell, `CleanPlain` that a plain cell comes back as it is |
| Csv.Cells | app/components/RouletteApp.tsx:80 | the cleaned cells of a line; `CellsOfRendered` states a written `attribute,name` line gives back its two cells |
| Csv.StripQuotesFacts | app/components/RouletteApp.tsx:80 | a quoted cell loses exactly its enclosing quotes, and a cell without quotes at its ends is kept |
| Csv.HasHeader | app/components/RouletteApp.tsx:81 | the header test; `HasHeaderMeans` states it holds exactly when some cell of the first row normalises to `attribute` |
| Csv.HasHeaderMeans | app/components/RouletteApp.tsx:81 | the first row is a header exactly when some cell of it normalises to `attribute` |
| Csv.HasHeaderPair | app/components/RouletteApp.tsx:81 | a two-cell first row is a header exactly when either cell normalises to `attribute` |
| Csv.ParseCsv | app/components/RouletteApp.tsx:71-91 | the method computes the participants the specification function describes |
| Csv.ReadLines | app/components/RouletteApp.tsx:82-88 | the row loop yields, in order, one numbered participant per accepted line from the start line on |
| Csv.ReadLine | app/components/RouletteApp.tsx:84-86 | reading line i yields that line's row, or nothing when the line is skipped |
| Csv.ReadRow | app/components/RouletteApp.tsx:84-87 | one iteration appends a participant with the next generated id exactly when the line has a row |
| Csv.NumberedSnoc | app/components/RouletteApp.tsx:87 | appending a row appends a participant with the next generated id |
| Csv.NonBlank | app/components/RouletteApp.tsx:74-75 | `.map(trim).filter(Boolean)`; `NonBlankFacts` states every kept line is the trimmed form of a piece and is non-empty, `BlankLines` that blank pieces give no line, `PlainLines` that trimmed non-empty lines are kept as they are |
| Csv.Lines | app/components/RouletteApp.tsx:72-75 | the lines of the file; `LinesOfRender` states a written file gives back its own lines |
| Csv.NonBlankFacts | app/components/RouletteApp.tsx:72-75 | every kept line is the trimmed form of some split piece, and is non-empty and trimmed |
| Csv.BlankLines | app/components/RouletteApp.tsx:72-75 | pieces that are all blank leave no line |
| Csv.PlainLines | app/components/RouletteApp.tsx:72-75 | lines that are already non-empty and trimmed are kept as they are |
| Csv.CleanFacts | app/components/RouletteApp.tsx:80 | a cleaned cell is trimmed and uses only characters of the raw cell |
| Csv.CleanPlain | app/components/RouletteApp.tsx:80 | a plain cell (no quote, comma, line break or outer white space) is kept as it is |
| Csv.RowOf | app/components/RouletteApp.tsx:84-86 | the row one line gives, or none; `RowOfFacts` states every row read is well formed, `RowOfRendered` and `RowOfExtraColumns` which lines give which rows |
| Csv.RowOfFacts | app/components/RouletteApp.tsx:84-86 | an accepted row has a non-empty, trimmed attribute and name |
| Csv.ParsedRows | app/components/RouletteApp.tsx:77-88 | the rows `parseCsv` keeps, header skipped; `ParsedRowsFacts` states each is well formed, `RowsOfRendered` that a written file gives back its rows |
| Csv.CsvEntries | app/components/RouletteApp.tsx:71-91 | `parseCsv`; `CsvEntriesFacts` states the participants carry the generated ids in order and well-formed attributes and names, `ParseRendered` the round trip, and `ParseCsv` is proved to compute it |
| Csv.ParsedRowsFacts | app/components/RouletteApp.tsx:71-91 | every row the parser accepts is well formed |
| Csv.RowOptionsWellFormed | app/components/RouletteApp.tsx:84-86 | every present row of a list of lines is well formed |
| Csv.PresentWellFormed | app/components/RouletteApp.tsx:84-87 | keeping the present rows keeps their well-formedness |
| Csv.CsvEntriesFacts | app/components/RouletteApp.tsx:71-91 | the k-th imported participant gets the k-th generated id and a non-empty, trimmed attribute and name |
| Csv.CsvBlank | app/components/RouletteApp.tsx:77 | a file whose lines are all blank imports nobody |
| Csv.CellsOfRendered | app/components/RouletteApp.tsx:80 | the line `attribute,name` of plain cells splits into exactly those two cells |
| Csv.RowOfRendered | app/components/RouletteApp.tsx:84-86 | a line `attribute,name` of plain cells is read back as that row |
| Csv.RowOfExtraColumns | app/components/RouletteApp.tsx:84-85 | columns after the second are ignored |
| Csv.RowOfQuoted | app/components/RouletteApp.tsx:80 | quoting both cells does not change the row read |
| Csv.RenderAll | app/components/RouletteApp.tsx:73 | rendering gives one line per row, in order |
| Csv.RenderedLine | app/components/RouletteApp.tsx:72-75 | a rendered row is one non-empty, trimmed line |
| Csv.PlainAll | app/components/RouletteApp.tsx:72-75 | every rendered line is one non-empty, trimmed line |
| Csv.LinesOfRender | app/components/RouletteApp.tsx:72-75 | the lines of a rendered file are exactly its rendered rows |
| Csv.StandardHeader | app/components/RouletteApp.tsx:81 | the header `attribute,name` is a recognised header |
| Csv.HeaderDetected | app/components/RouletteApp.tsx:80-82 | the first line of a rendered file is taken as a header exactly when the file was written with one |
| Csv.RowsOfRendered | app/components/RouletteApp.tsx:82-88 | reading the rendered lines after the header gives back the rows |
| Csv.ParseRendered | app/components/RouletteApp.tsx:71-91 | a file written as `attribute,name` lines, with or without a header, imports exactly its rows, in order, numbered by the generated ids; without a header the first row must have no cell that normalises to `attribute`, since the code would take it for a header |
| Groups.FindGroup | app/components/RouletteApp.tsx:729 | the found group is in the list and has the id; no group is found only when none has the id |
| Groups.WithoutGroup | app/components/RouletteApp.tsx:731 | exactly the groups with that id are dropped, and the list stays duplicate-free |
| Groups.WithoutMember | app/components/RouletteApp.tsx:354 | exactly the groups containing the removed participant are dropped |
| Groups.Listed | app/components/RouletteApp.tsx:683-685 | the restored members are exactly the last group's members still on the roster |
| Groups.ListedUnique | app/components/RouletteApp.tsx:683-685 | restoring from a group with unique ids gives unique ids |
| Groups.IdsMember | app/components/RouletteApp.tsx:486 | an id on a member list belongs to some member |
| Groups.MemberIds | app/components/RouletteApp.tsx:486 | every member's id is on the member list |
| Groups.SpinKeeps | app/components/RouletteApp.tsx:485-486 | adding a drawn group of available participants and removing them from the pool keeps the invariant |
| Groups.ReleaseKeeps | app/components/RouletteApp.tsx:728-735 | releasing a group puts its members back in front of the pool and keeps the invariant |
| Groups.ReturnKeeps | app/components/RouletteApp.tsx:687-688 | returning members of one group to the pool and keeping the other groups keeps the invariant |
| Groups.RerollKeeps | app/components/RouletteApp.tsx:679-688 | dropping the last group and returning its members still on the roster keeps the invariant |
| Groups.StillOnRoster | app/components/RouletteApp.tsx:353 | removing one participant keeps every other participant |
| Groups.WithoutIdUnique | app/components/RouletteApp.tsx:353 | removing a participant keeps ids unique |
| Groups.RemoveKeeps | app/components/RouletteApp.tsx:352-356 | the removal cascade (roster, groups containing the id, pool) keeps the invariant |
| Groups.PartnersLost | app/components/RouletteApp.tsx:352-356 | a partner of a removed participant stays on the roster but is neither in the pool nor in any remaining group |
| Groups.FreshEntries | app/components/RouletteApp.tsx:320-321 | after appending fresh entries, old ids are still known and are not among the new ones, and new ids are known |
| Groups.AddKeeps | app/components/RouletteApp.tsx:320-321 | appending participants with fresh ids and adding them to the pool keeps the invariant |
| App.Edit | app/components/RouletteApp.tsx:347 | an edit replaces the chosen field, keeps the other field and keeps the id |
| App.Edited | app/components/RouletteApp.tsx:344-350 | an update keeps the roster's length and ids and changes only the entries with that id |
| App.EditKeeps | app/components/RouletteApp.tsx:344-350 | editing an attribute or a name keeps the invariant |
| App.WithoutPreference | app/components/RouletteApp.tsx:374-379 | exactly the rules with that id are removed |
| App.FreshBatch | app/components/RouletteApp.tsx:328-336 | appending entries with unique ids unknown to the roster keeps ids unique |
| App.FreshNumbered | app/components/RouletteApp.tsx:314-321 | imported entries carrying fresh, pairwise different generated ids keep ids unique |
| App.DrawnGroupFits | app/components/RouletteApp.tsx:469-486 | the group drawn from the available participants has the given id, two or three members with distinct ids, each on the roster and available |
| App.RouletteState.Valid | app/components/RouletteApp.tsx:94-102 | the state invariant listed above; every handler method states that it keeps it |
| App.RouletteState.AvailableIsPool | app/components/RouletteApp.tsx:180-184 | in a valid state the available view loses no pooled id and keeps the order |
| App.RouletteState.constructor | app/components/RouletteApp.tsx:94-102 | the initial state is empty, with the default settings, and valid |
| App.RouletteState.AddParticipant | app/components/RouletteApp.tsx:328-338 | blank input changes nothing; otherwise the trimmed entry is appended to the roster and its id to the pool |
| App.RouletteState.ImportCsv | app/components/RouletteApp.tsx:312-322 | an import without valid rows reports an error and changes nothing; otherwise the parsed participants are appended and pooled |
| App.RouletteState.AddEntries | app/components/RouletteApp.tsx:320-321 | entries are appended to the roster and their ids to the pool, keeping the invariant |
| App.RouletteState.UpdateParticipant | app/components/RouletteApp.tsx:344-350 | only the roster changes, as `Edited` says, and the state stays valid |
| App.RouletteState.RemoveParticipant | app/components/RouletteApp.tsx:352-356 | the participant leaves the roster, every group containing them is dissolved, and their id leaves the pool |
| App.RouletteState.AddPreference | app/components/RouletteApp.tsx:358-368 | blank input changes nothing; otherwise the trimmed rule is appended |
| App.RouletteState.RemovePreference | app/components/RouletteApp.tsx:374-379 | the rules with that id are removed and nothing else changes |
| App.RouletteState.SetHitRate | app/components/RouletteApp.tsx:381-384 | the hit rate becomes the clamped value and nothing else changes |
| App.RouletteState.ToggleAvoidSame | app/components/RouletteApp.tsx:658-663 | avoidance flips and nothing else changes |
| App.RouletteState.Spin | app/components/RouletteApp.tsx:469-486 | with fewer than two available nothing happens; otherwise the drawn group is appended and its members leave the pool, keeping the invariant |
| App.RouletteState.AddGroup | app/components/RouletteApp.tsx:485-486 | the group is appended and its members leave the pool |
| App.RouletteState.Release | app/components/RouletteApp.tsx:728-735 | an unknown group id changes nothing; otherwise the group is removed and its members go back in front of the pool |
| App.RouletteState.RerollLatest | app/components/RouletteApp.tsx:679-688 | without a last group, or with none of its members still on the roster, nothing happens; otherwise the last group is dropped and its remaining members go back in front of the pool |
| App.RouletteState.DropLatest | app/components/RouletteApp.tsx:687-688 | the last group is dropped and the given members go back in front of the pool |
| App.RouletteState.GiftSpin | app/components/RouletteApp.tsx:505-594 | the chain and outcome are those of one relay step; nothing else changes and the chain stays duplicate-free |
| App.RouletteState.GiftReroll | app/components/RouletteApp.tsx:709-716 | the last chain id is dropped exactly when it names a participant; otherwise nothing changes |
| App.RouletteState.Reset | app/components/RouletteApp.tsx:607-615 | everything is emptied and the settings return to their defaults |
| App.RouletteState.GiftReset | app/components/RouletteApp.tsx:634-646 | the chain is emptied and nothing else changes |

## Left out

- The user interface is left out: rendering, the slot animation, spotlights, sparkles, modals, timers, status and error texts, and the `isSpinning`/`isGiftSpinning` flags that disable buttons while an animation runs.
- Persistence is left out: the `localStorage` hydration and saving effects, and the storage key.
- `generateId()` is a parameter. The caller supplies fresh group ids, participant ids and CSV ids: `Spin` requires a group id no group has, `AddParticipant` an id no participant has, and `ImportCsv` an injective id source that avoids every existing id. `crypto.randomUUID` makes collisions practically impossible, but the model does not show that.
- `Date.now()` and the `createdAt` field are left out. They do not affect any decision.
- The probabilities of `Math.random()` are left out. Every draw is a parameter, so the model proves what happens for every draw, not how likely each outcome is.
- Text.ToLower: only ASCII letters are lowered; `toLowerCase` also lowers other Unicode letters, so attributes that differ only in non-ASCII case normalise differently in the model.
- Csv.Lines: `raw.split(/\r?\n/)` is modelled as a split on line feeds followed by the trim. This gives the same lines, because the trim removes the carriage return that ends a CRLF line.
- App.RouletteState.ImportCsv: the `FileReader` (opening the file, reading errors, resetting the input element) is left out; the method starts from the text.
- App.RouletteState.RerollLatest and App.RouletteState.GiftReroll: the follow-up spin the handlers schedule with `setTimeout(..., 0)` is left out; a caller makes it by calling `Spin` or `GiftSpin` next.
- App.RouletteState.GiftSpin: the separate `setGiftChainIds(cleanedChain)` before the timer and the final chain are merged into one step, because nothing reads the chain in between. The status message about who hands over to whom is left out.
- Relay.GiftStep: the defensive branches (no recipient, empty pool, no giver) are one `Interrupted` outcome; `Relay.GiftStepNeverInterrupted` shows they cannot occur.
- Relay.GiftStepPreferred: states that the giver follows some rule, not how candidates matching several rules are weighted in the draw.
- The handlers read state through React closures, which can be stale between renders; the model applies each handler to the current state.
- The `view` switch (`handleGoToRoulette`) and the handlers that only forward to others (`handleOpenRouletteModal`, `handleOpenGiftModal`) are left out.
