# Subsumption-mapping generator

A Dafny model of `SubsumptionMappingGenerator` from DeepOnto's
`src/deeponto/data/align/subs_maps.py`. It starts from equivalence mappings
`(src, tgt)` between a source and a target ontology and derives subsumption
mappings `(src, n)`. Each `n` is found by a hop-bounded breadth-first walk from
`tgt` through the target hierarchy: to super-classes for `"<"`, to sub-classes
for `">"`.

The generator keeps a generation record of four fields:

- `subPairs`: the pair list.
- `hopRecord`: the hop at which each pair was accepted.
- `deleteStatus`: the target classes marked for deletion.
- `constructStatus`: the target classes used as subsumption targets.

Two policies decide which targets are marked deleted:

- **Static**: every equivalence target that has a neighbour is marked before any search.
- **Online**: after each search, its target is marked when the search found something. A pair whose target is already marked constructed is skipped.

Two read-only queries sit on the record:

- `PreservedTgtIris` lists the classes not marked deleted.
- `ValidateSubs` checks a candidate pair against the equivalences.

Files:

- `collections.dfy` (module `Collections`): duplicate-freedom, the order-preserving de-duplication `uniqify`, and flattening.
- `hierarchy.dfy` (module `Hierarchy`): the target ontology as a value.
  - `Move` gives the immediate super- or sub-classes.
  - `Related` gives the ancestors or descendants.
  - `Reach(o, rel, x, k)` is the set of classes reached from `x` by exactly `k` moves.
- `subs_maps.dfy` (module `SubsMaps`): the class `Generator`, with the record as mutable fields and the configuration as constants. Every method is proved against ghost specification predicates:
  - `SearchOutcome` and `SearchRecorded` specify one search; `LastRound` is the hop it leaves recorded for a class.
  - `StaticRun` specifies a static run.
  - `OnlineRun` specifies an online run.
  - `RunHops` is the hop record either run leaves.
  - `RecordMatches` relates the record to the pair list.

Properties proved:

- **Search.** Each round visits its frontier, a set, in some order. For every such choice of orders, the result is exactly what the code computes: `SearchOutcome` follows the rounds one by one (`Layers`, `RoundAccepted`, `RunAccepted`).
  - Soundness: every result pair is `(src, n)` with `n` eligible, meaning not marked deleted when deletion is on, and reached by a walk of 1..maxHop moves.
  - Completeness: every eligible class reached in fewer moves than the rounds run is found. When the search ends below the ratio, every eligible class within maxHop moves is found.
  - The loop stops only when the ratio is met or maxHop rounds ran.
  - The result has no duplicates. A non-positive ratio, or `maxHop < 1`, gives nothing.
  - The first round's acceptances are a prefix of the accepted list. When they meet the ratio they are the whole result, each at hop 1.
  - The hop record gains exactly the result pairs. Each pair's hop is the last round that accepted its target (`LastRound`), because line 156 overwrites the entry at every acceptance. That hop lies in 1..maxHop and is the length of a walk to the target. Every other entry is unchanged.
  - The construct status gains exactly the result targets. The delete status is not written.
- **Static policy.** The marks are exactly the equivalence targets with a neighbour (none when deletion is off). The main pass leaves them unchanged, each per-pair result is that pair's search outcome, and no produced pair targets a marked class.
- **Online policy.** A pair is skipped exactly when deletion is on and its target is already a target of an earlier result. Otherwise its result is its search outcome under the marks made so far.
  - A target is marked exactly when deletion is on and its own search produced something.
  - With deletion off nothing is marked, and every class is preserved.
  - On a hierarchy in which no equivalence target lies on a cycle of at most maxHop moves, no produced pair targets a marked class.
- **Both policies.** The final pair list is the de-duplicated concatenation of the per-pair results. The hop record is `RunHops`: each search, in order, overwrites the entries of its result pairs. So a pair has an entry exactly when some search produced it, and its hop is the one recorded by the last search that produced it. The record stays consistent: each hop entry belongs to a pair, each pair is derivable from some equivalence, and the construct status marks exactly the targets.
- **Validation.** `ValidateSubs` returns true exactly when some ranked equivalent of the source has the target among its ancestors (`"<"`) or descendants (`">"`). When the hierarchy is coherent and every equivalence is among the ranked equivalences of its source, every pair the generator records validates.
- **Worked examples.** On the chain B -> C -> D with two hops:
  - with C marked deleted and ratio 1, the search from (A, B) yields exactly `[(A, D)]`;
  - with nothing deleted and ratio 5, it yields exactly `[(A, C), (A, D)]`.
  - On the diamond B -> {C, D}, C -> D, with nothing deleted, ratio 5 and two hops, D is accepted in both rounds. The search records hop 1 for (A, C) and hop 2 for (A, D).

Two things the code does not guarantee:

- **The cap is not a hard bound.** The `break` at lines 162-163 leaves only the current node's neighbour scan, and it tests `==`. At hop 2 or later, a later frontier node scans with the count already at or above the ratio and accepts all its admissible neighbours. `Accepted` models exactly this, so the model does not bound a result's length by `max_subs_ratio`.
- **A hop is not a minimum depth.** `hop_record` is overwritten at each acceptance (line 156), and a class already accepted can be accepted again in a later round. The recorded hop is therefore the last round that accepted the class, which can exceed its depth. The model states exactly that value (`LastRound`); the diamond example shows it.

The model follows the code on both points.

## Model

| member | source | states |
|---|---|---|
| SubsMaps.ParseRelation | src/deeponto/data/align/subs_maps.py:51-56 | succeeds exactly for "<" (Broader) and ">" (Narrower); any other relation is an UnknownRelation error carrying it |
| SubsMaps.Marked | src/deeponto/data/align/subs_maps.py:154 | defines a status read: a name is marked exactly when it has an entry and that entry is true, so an absent name reads as false like the `defaultdict(lambda: False)` reads at lines 121, 154 and 185 |
| SubsMaps.MarkedSet | src/deeponto/data/align/subs_maps.py:154 | defines the set of names a status map marks, the names whose read at line 154 (or 121, 185) gives True |
| SubsMaps.Generator.Create | src/deeponto/data/align/subs_maps.py:47-77 | the relation check comes first; an empty pair list cannot be sampled; the picked pair must have both endpoints in their class indexes; on success the generator holds the configuration and an empty record |
| SubsMaps.Generator.constructor | src/deeponto/data/align/subs_maps.py:66-77 | stores the configuration and starts with an empty record: no pairs, no hops, no status entries |
| SubsMaps.Generator.RenewSubs | src/deeponto/data/align/subs_maps.py:79-87 | empties the record; afterwards no class reads as marked deleted or constructed |
| SubsMaps.Generator.LookupsSucceed | src/deeponto/data/align/subs_maps.py:139 | defines when the `search(...)[0]` lookups of the equivalence targets succeed (line 139, and line 101 in the pre-pass): every equivalence target is a class of the target ontology |
| SubsMaps.Accepted | src/deeponto/data/align/subs_maps.py:161-163 | below the ratio a scan takes exactly min(ratio - count, number admitted) admitted neighbours, at or above the ratio it takes all of them; the result is always a prefix of the admitted ones, so it is fully determined |
| SubsMaps.AcceptedAll | src/deeponto/data/align/subs_maps.py:161-163 | a scan that leaves the count below the ratio accepted every admitted neighbour |
| SubsMaps.Eligible | src/deeponto/data/align/subs_maps.py:154 | defines the skip test of line 154: a neighbour may be accepted unless deletion is on and it is marked deleted |
| SubsMaps.Take | src/deeponto/data/align/subs_maps.py:161-163 | the first k elements, a prefix of length min(k, length) and empty for k <= 0; it is how the `num_added == max_subs_ratio` break cuts a scan below the ratio |
| SubsMaps.Admitted | src/deeponto/data/align/subs_maps.py:150-155 | defines the neighbours a scan may accept, in scan order: with deletion on, those not marked deleted |
| SubsMaps.AdmittedMembers | src/deeponto/data/align/subs_maps.py:150-155 | a neighbour is admitted exactly when it is scanned and is not skipped as marked deleted |
| SubsMaps.ScanResult | src/deeponto/data/align/subs_maps.py:150-163 | whether the scan runs out of neighbours or stops at the ratio, what it accepted is Accepted of the admitted neighbours, all of them eligible neighbours, and all eligible neighbours when it ends below the ratio |
| SubsMaps.AcceptNeighbours | src/deeponto/data/align/subs_maps.py:150-163 | the scan accepts exactly Accepted(count, admitted neighbours, ratio), appends them to the accepted list, records each with the current hop and marks each constructed, leaving every other map entry unchanged |
| SubsMaps.PairWith | src/deeponto/data/align/subs_maps.py:171 | pairs the source with each accepted neighbour, in order: same length, and (s, n) is in the result iff s is the source and n was accepted |
| Hierarchy.StepAdd | src/deeponto/data/align/subs_maps.py:148-164 | scanning one more frontier node adds exactly its neighbours to the next hop's neighbours |
| Hierarchy.Step | src/deeponto/data/align/subs_maps.py:164 | defines the classes one move away from a set of classes, what `cur_hop_neighbours += neighbours_of_ent` collects over a round |
| Hierarchy.Reach | src/deeponto/data/align/subs_maps.py:164-167 | defines the classes reached from a class by walks of exactly k moves, which bound the frontier of round k + 1 |
| Hierarchy.Related | src/deeponto/data/align/subs_maps.py:194-197 | defines the ancestors ("<", `thing_class_ancestors_of`) or descendants (">", `thing_class_descendants_of`) of a class, empty for a class the hierarchy does not list |
| Hierarchy.Move | src/deeponto/data/align/subs_maps.py:51-54 | defines one move of the search: the immediate super-classes for "<" and the immediate sub-classes for ">", as `self.move` is applied at line 149 |
| Hierarchy.StepSingle | src/deeponto/data/align/subs_maps.py:142-149 | the neighbours met from the one-class first frontier are exactly that class's moves |
| Hierarchy.StepMono | src/deeponto/data/align/subs_maps.py:164-167 | stepping from a larger frontier reaches at least as many classes |
| Hierarchy.ReachStep | src/deeponto/data/align/subs_maps.py:164-167 | a neighbour of a node reached in k moves is reached in k + 1 moves, so the renewed frontier stays within the next hop |
| Collections.EnumeratesSnoc | src/deeponto/data/align/subs_maps.py:148 | visiting one more, not yet visited, frontier class extends an order that visits each class once |
| Collections.EnumeratesSingle | src/deeponto/data/align/subs_maps.py:142 | an order visiting each class of a one-class frontier once is that class alone |
| SubsMaps.Generator.RoundAcceptedSnoc | src/deeponto/data/align/subs_maps.py:148-163 | visiting one more frontier class appends exactly the scan of its neighbours, started at the count the earlier scans left |
| SubsMaps.Generator.Layers | src/deeponto/data/align/subs_maps.py:164-167 | defines the frontier and explored set before round r: {tgt} and nothing at round 1, then the neighbours of the frontier that are not explored, and the explored set plus the frontier |
| SubsMaps.Generator.RoundAccepted | src/deeponto/data/align/subs_maps.py:148-163 | defines what a round accepts when it visits its frontier in a given order: the scans of the visited classes in turn, each starting from the count the scans before it left |
| SubsMaps.Generator.FirstRound | src/deeponto/data/align/subs_maps.py:146-163 | defines what the first round accepts: the first maxSubsRatio admitted immediate neighbours of the equivalence target, since that round visits the target alone |
| SubsMaps.Generator.RunAccepted | src/deeponto/data/align/subs_maps.py:146-168 | defines what the rounds accept, in order: each round's acceptances, starting from the count the earlier rounds left |
| SubsMaps.Generator.RoundsRan | src/deeponto/data/align/subs_maps.py:146-148 | defines the rounds that ran: each visited each class of its frontier once, and began with fewer than the ratio accepted and its hop at most maxHop |
| SubsMaps.Generator.SearchOutcome | src/deeponto/data/align/subs_maps.py:146-178 | defines a search's result: rounds that ran under the loop condition until it failed, and the de-duplicated pairs of what they accepted |
| SubsMaps.Generator.SearchRecorded | src/deeponto/data/align/subs_maps.py:146-178 | defines a search's effect on the record: SearchOutcome, the hop record gaining exactly the result pairs with their LastRound as hop, the construct status gaining exactly the result targets, nothing else changing |
| SubsMaps.Generator.Rounds | src/deeponto/data/align/subs_maps.py:146-168 | one acceptance list per round that ran |
| SubsMaps.Generator.LastRound | src/deeponto/data/align/subs_maps.py:156 | defines the hop a search leaves recorded for a class: the last round that accepted it, 0 when none did |
| SubsMaps.Generator.RoundsAt | src/deeponto/data/align/subs_maps.py:146-168 | entry k of the rounds is what round k + 1 accepted, starting from the count the earlier rounds left |
| SubsMaps.Generator.RoundsFirst | src/deeponto/data/align/subs_maps.py:142-163 | the first entry of the rounds is what the first round accepted |
| SubsMaps.Generator.RoundsFlatten | src/deeponto/data/align/subs_maps.py:146-168 | the rounds' acceptances, one after the other, are exactly what the search accepts |
| SubsMaps.Generator.LastRoundSnoc | src/deeponto/data/align/subs_maps.py:156 | after one more round a class's LastRound is that round when it accepted the class, and unchanged otherwise |
| SubsMaps.Generator.LastRoundAccepted | src/deeponto/data/align/subs_maps.py:156-157 | LastRound is positive exactly when the search accepted the class; that round accepted it, and no later round did |
| SubsMaps.Generator.SearchHops | src/deeponto/data/align/subs_maps.py:156 | defines the hop entries a search leaves for its result: each pair with the LastRound of its target |
| SubsMaps.Generator.SearchRecordedHops | src/deeponto/data/align/subs_maps.py:156 | a search's hop record is the one it started from overwritten by SearchHops of its result |
| SubsMaps.Generator.RunAcceptedSnoc | src/deeponto/data/align/subs_maps.py:146-168 | one more round appends exactly what that round accepts, started at the count the earlier rounds left |
| SubsMaps.Generator.RunAcceptedPrefix | src/deeponto/data/align/subs_maps.py:146-168 | what the first rounds accept is a prefix of what the whole search accepts |
| SubsMaps.Generator.RoundsRanSnoc | src/deeponto/data/align/subs_maps.py:146-168 | a round begun while the loop condition holds and visiting each class of its frontier once extends the rounds run |
| SubsMaps.Generator.RoundsRanAt | src/deeponto/data/align/subs_maps.py:146-148 | every recorded round visited each class of its frontier exactly once and began with fewer than the ratio accepted and its hop at most maxHop |
| SubsMaps.Generator.RoundAcceptedMembers | src/deeponto/data/align/subs_maps.py:148-163 | every class a round accepts is an eligible neighbour of a class the round visited |
| SubsMaps.Generator.RoundAcceptedAll | src/deeponto/data/align/subs_maps.py:148-163 | a round that ends below the ratio accepted every eligible neighbour of every class it visited |
| SubsMaps.Generator.LayersReach | src/deeponto/data/align/subs_maps.py:164-167 | the frontier before round r is reached from the equivalence target in r - 1 moves |
| SubsMaps.Generator.SearchCoverStep | src/deeponto/data/align/subs_maps.py:146-168 | a whole round run below the ratio keeps the breadth-first layering: every class reached in fewer moves is explored, the next layer is explored or on the frontier, and every eligible neighbour of an explored class was accepted |
| SubsMaps.Generator.RunCover | src/deeponto/data/align/subs_maps.py:146-168 | the layering holds before the round after any sequence of rounds run under the loop condition |
| SubsMaps.Generator.RunSound | src/deeponto/data/align/subs_maps.py:146-163 | every class the rounds accept is eligible and reached within maxHop moves |
| SubsMaps.Generator.SearchSound | src/deeponto/data/align/subs_maps.py:139-178 | soundness: every result pair has the source and an eligible target reached within maxHop moves |
| SubsMaps.Generator.SearchComplete | src/deeponto/data/align/subs_maps.py:139-178 | completeness: every eligible class reached in fewer moves than the rounds run is a result target, and when the search ends below the ratio so is every eligible class within maxHop moves |
| SubsMaps.Generator.SearchStop | src/deeponto/data/align/subs_maps.py:146 | the loop stops only when the ratio is met or maxHop rounds ran, and never runs more than maxHop rounds |
| SubsMaps.Generator.SearchSingleCandidate | src/deeponto/data/align/subs_maps.py:139-178 | when exactly one eligible class lies within maxHop moves and the ratio is at least 1, the result is exactly the pair with that class, however many rounds it takes |
| SubsMaps.Generator.RunFirstRound | src/deeponto/data/align/subs_maps.py:142-163 | the first round visits the equivalence target alone and accepts exactly FirstRound, the first maxSubsRatio admitted immediate neighbours |
| SubsMaps.Generator.SearchFirstRound | src/deeponto/data/align/subs_maps.py:139-178 | a non-positive ratio or maxHop < 1 runs no round and gives nothing; otherwise the first round's acceptances are a prefix of the accepted list, and when they meet the ratio no further round runs and the result is exactly their pairs |
| SubsMaps.Generator.RoundStep | src/deeponto/data/align/subs_maps.py:148-164 | scanning one more frontier node keeps the round's accepted list, hop record and construct status extended by exactly what the round accepted; each acceptance's hop entry is the current hop, and its class is reached by a walk of that length |
| SubsMaps.Generator.VisitOrderStep | src/deeponto/data/align/subs_maps.py:148-163 | visiting one more frontier class extends the visit order and what the round accepted by that class's scan |
| SubsMaps.Generator.VisitStep | src/deeponto/data/align/subs_maps.py:148-165 | visiting one more frontier class keeps the round's invariant: neighbours seen, record extension and accepted list as RoundAccepted of the visit order |
| SubsMaps.Generator.ExpandHop | src/deeponto/data/align/subs_maps.py:147-165 | one round: the neighbours seen are exactly one move from the frontier; it visits each frontier class exactly once, in some order, and accepts exactly RoundAccepted of that order; every acceptance has the current hop as its hop entry and is reached by a walk of that length; the maps are extended by exactly what was accepted |
| SubsMaps.Generator.SearchInvStep | src/deeponto/data/align/subs_maps.py:146-168 | a round run while fewer than the ratio are accepted and hop <= maxHop keeps the search invariant for hop + 1 |
| SubsMaps.Generator.SearchEndHops | src/deeponto/data/align/subs_maps.py:156-168 | at loop exit every result pair has a recorded hop in 1..maxHop that is the length of a walk to its target, and hop 1 when at most one round ran |
| SubsMaps.Generator.SearchEndRecord | src/deeponto/data/align/subs_maps.py:156-178 | the hop record gains exactly the result pairs and the construct status exactly their targets; all other entries keep their values |
| SubsMaps.Generator.SearchHopStep | src/deeponto/data/align/subs_maps.py:146-168 | after one more round every accepted class's hop entry is its LastRound: the round's acceptances carry the round's hop, the others keep theirs |
| SubsMaps.Generator.SearchEpilogue | src/deeponto/data/align/subs_maps.py:146-178 | the loop's exit state gives SearchRecorded: the result is the de-duplicated pairs of what the rounds accepted, with the rounds stopped by the loop condition |
| SubsMaps.Generator.Search | src/deeponto/data/align/subs_maps.py:139-178 | the result is exactly Uniqify of the source paired with what the breadth-first rounds accept, for the order in which each round visited its frontier, the rounds running while below the ratio and within maxHop; the hop record gains exactly the result pairs, each with the last round that accepted its target as its hop; the construct status gains exactly the result targets; nothing else changes |
| SubsMaps.Generator.SubsFromAnEquiv | src/deeponto/data/align/subs_maps.py:133-178 | runs the search on the generator's record, giving SearchRecorded: the exact result, each result pair's hop entry the last round that accepted its target, and the construct status extended by the result targets; the delete status is not written |
| SubsMaps.Generator.BuiltStep | src/deeponto/data/align/subs_maps.py:159-160 | appending one search's result keeps the construct status marking exactly the targets of the pair list |
| SubsMaps.Generator.RecordStep | src/deeponto/data/align/subs_maps.py:154-160 | appending one search's result keeps the record in agreement with the pair list |
| SubsMaps.Generator.RecordMatchesUniqify | src/deeponto/data/align/subs_maps.py:131 | de-duplicating the pair list keeps the agreement with the record |
| SubsMaps.Generator.ConstructedIffTarget | src/deeponto/data/align/subs_maps.py:121 | under the agreement, a class is marked constructed exactly when it is the target of a pair produced so far |
| SubsMaps.Generator.FlattenSnoc | src/deeponto/data/align/subs_maps.py:106-107 | appending one more result to the pair list is flattening the results with it appended |
| SubsMaps.Generator.MarksAfter | src/deeponto/data/align/subs_maps.py:99-127 | defines the marks in place during a run: the pre-pass marks for the static policy, DeletedBy of the results so far for the online one |
| SubsMaps.Generator.RunHops | src/deeponto/data/align/subs_maps.py:106-129 | defines the hop record a run leaves: each search, in order, overwrites the entries of its result pairs |
| SubsMaps.Generator.RunHopsSnoc | src/deeponto/data/align/subs_maps.py:106-129 | one more search overwrites the run's hop record with its entries |
| SubsMaps.Generator.RunHopsLast | src/deeponto/data/align/subs_maps.py:106-129 | a pair has a hop entry exactly when some search produced it, and its hop is the LastRound recorded by the last search that produced it |
| SubsMaps.Generator.HopSkip | src/deeponto/data/align/subs_maps.py:121-122 | a skipped online pair leaves the run's hop record as it was |
| SubsMaps.Generator.HopStep | src/deeponto/data/align/subs_maps.py:106-129 | a search from the next pair under the run's marks, started from the run's hop record, leaves RunHops of the run extended by it |
| SubsMaps.Generator.PrePassMarks | src/deeponto/data/align/subs_maps.py:99-104 | defines the pre-pass marks over the first i pairs: the targets with at least one neighbour |
| SubsMaps.Generator.StaticDeleted | src/deeponto/data/align/subs_maps.py:99-104 | defines the static marks: the pre-pass marks over all pairs when deletion is on, none otherwise |
| SubsMaps.Generator.StaticRun | src/deeponto/data/align/subs_maps.py:99-107 | defines a static run: search j's result is its search outcome under the static marks |
| SubsMaps.Generator.PrePassStep | src/deeponto/data/align/subs_maps.py:100-104 | visiting one more equivalence pair adds its target to the pre-pass marks exactly when it has a neighbour |
| SubsMaps.Generator.MarkEquivTargets | src/deeponto/data/align/subs_maps.py:99-104 | the pre-pass marks (with true) exactly the equivalence targets that have a neighbour |
| SubsMaps.Generator.StaticPrefixSnoc | src/deeponto/data/align/subs_maps.py:106-107 | one more search outcome under the fixed marks extends a static run |
| SubsMaps.Generator.StaticStep | src/deeponto/data/align/subs_maps.py:106-107 | one static search extends the run, keeps the record in agreement, appends its result to the pair list and overwrites the hop record with that search's entries |
| SubsMaps.Generator.OutcomesAvoidDeleted | src/deeponto/data/align/subs_maps.py:106-107 | searches run under fixed marks never produce a pair whose target is marked, when deletion is on |
| SubsMaps.Generator.DeletedBy | src/deeponto/data/align/subs_maps.py:126-127 | defines the online marks after the steps so far: with deletion on, the target of every step whose result is not empty |
| SubsMaps.Generator.OnlineStep | src/deeponto/data/align/subs_maps.py:119-129 | defines one online step: skipped exactly when deletion is on and its target is a target of an earlier result, yielding nothing; otherwise the search outcome under DeletedBy of the earlier results |
| SubsMaps.Generator.OnlineRun | src/deeponto/data/align/subs_maps.py:119-131 | defines an online run: one step per equivalence pair, in order |
| SubsMaps.Generator.StaticSubsConstruct | src/deeponto/data/align/subs_maps.py:90-109 | marks exactly StaticDeleted (nothing when deletion is off) and never changes them in the main pass; the result of pair j is exactly the search outcome from that pair under those marks; the final list is the duplicate-free Uniqify of their concatenation; the hop record is RunHops, each search in order overwriting the entries of its result; no pair targets a marked class; with deletion off every class is preserved; the record stays consistent |
| SubsMaps.Generator.DeletedBySnoc | src/deeponto/data/align/subs_maps.py:126-127 | after one more step the marks are those before it plus its target exactly when deletion is on and its result is not empty |
| SubsMaps.Generator.OnlinePrefixSnoc | src/deeponto/data/align/subs_maps.py:119-129 | one more online step extends an online run |
| SubsMaps.Generator.OnlineSearchStep | src/deeponto/data/align/subs_maps.py:124-129 | a search under the marks made so far gives an online step's exact outcome, keeps the record consistent and overwrites the hop record with that search's entries |
| SubsMaps.Generator.MarkStep | src/deeponto/data/align/subs_maps.py:126-127 | marking the target when deletion is on and the search produced something keeps the delete status equal to DeletedBy |
| SubsMaps.Generator.OnlineVisit | src/deeponto/data/align/subs_maps.py:119-129 | a pair is skipped exactly when deletion is on and its target is a target of an earlier result; a skipped pair adds nothing and leaves the hop record as it was; otherwise its result is exactly the search outcome under the current marks, appended to the list, with its hop entries overwriting the record; its target is marked iff deletion is on and that result is not empty |
| SubsMaps.Generator.OnlineSubsConstruct | src/deeponto/data/align/subs_maps.py:111-131 | the run is an OnlineRun, each step's result exact; the marks are exactly DeletedBy of the results (none when deletion is off, every class then preserved); the final list is the duplicate-free Uniqify of the concatenated results; the hop record is RunHops of the steps; the record stays consistent |
| SubsMaps.Generator.OnlineStepTargets | src/deeponto/data/align/subs_maps.py:119-129 | the targets of a step's result were not marked before the step and are reached from its equivalence target within maxHop moves |
| SubsMaps.Generator.OnlineProducerFresh | src/deeponto/data/align/subs_maps.py:120-127 | with deletion on, a step that produced something had a target that was not a target of an earlier result |
| SubsMaps.Generator.OnlineNeverTargetsDeleted | src/deeponto/data/align/subs_maps.py:111-131 | with deletion on and no equivalence target on a short cycle, no produced pair targets a class the online policy marked deleted |
| SubsMaps.Unmarked | src/deeponto/data/align/subs_maps.py:183-187 | keeps exactly the names not marked, in order; an absent name reads as not marked |
| SubsMaps.NothingMarkedKeepsAll | src/deeponto/data/align/subs_maps.py:183-187 | with nothing marked every class is preserved, in index order |
| SubsMaps.Generator.PreservedTgtIris | src/deeponto/data/align/subs_maps.py:180-187 | returns the class-index names not marked deleted, in index order: a name is in the result iff it is in the index and not marked |
| SubsMaps.Generator.RankedTargets | src/deeponto/data/align/subs_maps.py:199 | defines the equivalent target classes of a source in rank order, `equiv_maps.ranked[src]`, empty for a source without equivalences |
| SubsMaps.Generator.Entailed | src/deeponto/data/align/subs_maps.py:199-204 | defines the property ValidateSubs decides: some equivalent target class of the pair's source has the pair's target among its Related classes. It deliberately drops the rank order and the early return of lines 201-202, which change which name is found first but not whether one is |
| SubsMaps.Generator.ValidateSubs | src/deeponto/data/align/subs_maps.py:189-204 | returns true iff some ranked equivalent target of the pair's source has the pair's target among its ancestors ("<") or descendants (">"); lookups are required to succeed only for the names scanned before the first match |
| Hierarchy.ReachWithinRelated | src/deeponto/data/align/subs_maps.py:194-197 | in a coherent hierarchy every class reached by one or more moves is an ancestor ("<") or descendant (">") |
| SubsMaps.Generator.DerivedPairIsEntailed | src/deeponto/data/align/subs_maps.py:189-204 | a pair the search can derive from an equivalence passes validation when every equivalence is ranked and the hierarchy is coherent |
| SubsMaps.Generator.GeneratedPairsValidate | src/deeponto/data/align/subs_maps.py:189-204 | when the hierarchy is coherent and every equivalence is among the ranked equivalences of its source, every pair of a consistent record passes validation |
| Collections.Uniqify | src/deeponto/data/align/subs_maps.py:109 | the de-duplicated list has no duplicates, the same elements, and is no longer |
| Collections.UniqifyDistinct | src/deeponto/data/align/subs_maps.py:178 | a duplicate-free list is left unchanged by de-duplication |
| Collections.Flatten | src/deeponto/data/align/subs_maps.py:106-107 | the concatenated results hold exactly the elements of the per-pair results |
| SubsMaps.ExampleSearch | src/deeponto/data/align/subs_maps.py:139-178 | with B marked deleted, B's only super-class C and a ratio of 1, the search from (A, B) yields exactly (A, C) |
| SubsMaps.ChainReach | src/deeponto/data/align/subs_maps.py:164-167 | in the chain B -> C -> D one move from B reaches exactly C and two reach exactly D |
| SubsMaps.ChainCandidates | src/deeponto/data/align/subs_maps.py:150-155 | in the chain with C marked deleted and two hops, D is the only eligible class within reach of B |
| SubsMaps.ChainSearchPastDeleted | src/deeponto/data/align/subs_maps.py:139-178 | in the chain with C marked deleted, ratio 1 and two hops, the first round accepts nothing and the search yields exactly [(A, D)] |
| SubsMaps.ChainSecondFrontier | src/deeponto/data/align/subs_maps.py:164-167 | in the chain, the second round's frontier from B is {C} |
| SubsMaps.ChainFirstRound | src/deeponto/data/align/subs_maps.py:142-163 | in the chain with nothing deleted and ratio 5, the first round accepts exactly C |
| SubsMaps.ChainSecondRound | src/deeponto/data/align/subs_maps.py:148-163 | in the chain with ratio 5, a round visiting C after one acceptance accepts exactly D |
| SubsMaps.ChainSecondVisit | src/deeponto/data/align/subs_maps.py:164-167 | in the chain, a second round visits exactly C |
| SubsMaps.ChainTwoRounds | src/deeponto/data/align/subs_maps.py:146-168 | in the chain with nothing deleted and ratio 5, two rounds accept exactly C and then D |
| SubsMaps.ChainSearchBelowRatio | src/deeponto/data/align/subs_maps.py:139-178 | in the chain with nothing deleted, ratio 5 and two hops, the search yields exactly [(A, C), (A, D)] |
| SubsMaps.ChainBelowRatioRounds | src/deeponto/data/align/subs_maps.py:146 | in the chain with nothing deleted, ratio 5 and two hops, exactly two rounds run |
| SubsMaps.ChainPairs | src/deeponto/data/align/subs_maps.py:171-178 | pairing A with the accepted [C, D] and de-duplicating gives [(A, C), (A, D)] |
| SubsMaps.DiamondFirstRound | src/deeponto/data/align/subs_maps.py:142-163 | on the diamond B -> {C, D}, C -> D with nothing deleted and ratio 5, the first round accepts exactly C and D |
| SubsMaps.DiamondRoundsRun | src/deeponto/data/align/subs_maps.py:146 | on the diamond with ratio 5 and two hops, exactly two rounds run |
| SubsMaps.DiamondSecondVisit | src/deeponto/data/align/subs_maps.py:164-167 | on the diamond, a second round visits C and D, in one order or the other |
| SubsMaps.DiamondSecondRound | src/deeponto/data/align/subs_maps.py:148-163 | on the diamond with ratio 5, a round visiting C and D (in either order) after two acceptances accepts exactly D |
| SubsMaps.DiamondRounds | src/deeponto/data/align/subs_maps.py:146-168 | on the diamond, the first round accepts C and D and the second accepts D again |
| SubsMaps.DiamondLastRounds | src/deeponto/data/align/subs_maps.py:156 | on the diamond, the last round accepting C is 1 and the last round accepting D is 2 |
| SubsMaps.DiamondHops | src/deeponto/data/align/subs_maps.py:139-178 | on the diamond with nothing deleted, ratio 5 and two hops, the search from (A, B) records (A, C) with hop 1 and (A, D) with hop 2, the hop of its last acceptance |
| SubsMaps.StaticExample | src/deeponto/data/align/subs_maps.py:90-109 | the static run on equivalence (A, B), "<", ratio 1 and deletion on yields exactly [(A, C)] and marks exactly B deleted |

## Left out

- The BERT classifier module (`src/deeponto/subs/bertsubs/bert_classifier.py`) is not part of this model: it is model loading, fine-tuning and floating-point statistics.
- Reading the equivalence mappings from a TSV file (line 59) is file I/O; the equivalence pairs and the ranked equivalents are parameters.
- The `random.choice` sanity check (lines 62-64) takes the index of the sampled pair as a parameter `pick`. An empty list, which makes `random.choice` raise, is the `NoEquivalences` error.
- The `print` logging (lines 88 and 158) is not modelled.
- Ontology lookups and the hierarchy accessors are not shown in the repository. Class names and entities are taken to be the same thing, so `abbr_iri` and `unfold_iri` are the identity. A lookup that indexes the first search hit becomes a precondition that the name is in the class index (`LookupsSucceed`, and the requires of `SubsFromAnEquiv` and `ValidateSubs`).
- Status maps are `defaultdict(lambda: False)`. The model reads an absent key as false. The model does not capture that such a read inserts a false entry: no operation observes those entries.
- `equiv_maps.ranked[src]` is read as empty for a source with no ranked equivalents. The mapping store is not part of this model.
- The ranked equivalents are a sequence of names; their scores are not modelled.
- The frontier is a Python set, so its iteration order is unspecified. The model picks frontier nodes in an arbitrary order and records the order each round used (`visits`). Every property holds for every order, and the result is exact for the order used; the model does not fix which order that is.
- `explored` is extended by the whole frontier after each round rather than node by node. It is read only when the frontier is renewed, after the round.
- SubsMaps.Generator.OnlineNeverTargetsDeleted: holds only for hierarchies in which no equivalence target lies on a cycle of at most `max_hop` moves. On a cycle, a search can reach its own target, and that target is then marked after being produced.
- SubsMaps.Generator.Search: no bound on the result's length by `max_subs_ratio`, and no claim that a recorded hop is a minimum depth. The code guarantees neither (lines 156 and 162-163); the contract states the exact result and the exact hop instead.
- SubsMaps.Generator.Create: the constructor's default arguments (`max_subs_ratio=1`, `is_delete_equiv_tgt=True`, `max_hop=3`, lines 41-44) are not modelled. `Create` and the constructor take all three as required parameters.
