# Verified model of the validator health collector

The collector polls a Cosmos chain through interchangeable public endpoints and publishes gauges that alerts
read. Most of it is queries and metric declarations. Underneath are several algorithms that keep state across
polls or draw conclusions from partial answers, and an alert is only as good as they are. This project models
those algorithms in Dafny, in the form they have in the collector (classes with fields where the collector
mutates objects, loops where it loops, functions where it computes), and proves what they promise. The main
results, one for each part:

* **The redelegation window.** The incrementally refreshed event map equals a full rebuild from the transaction
  index after every successful scan of every run, whatever scans failed in between; the page scan is complete
  or fails while new rows shift the list between pages; the threshold states and crossing times follow from the
  window. A page from an endpoint that lags behind is the case that the scan does not notice.
* **Proposal discovery.** Whatever list page or single read fails, a discovery that succeeds reports nothing false
  and nothing twice, and it reports a proposal that matters if and only if no run of ten missing IDs hides it from
  the upward probe. The probe is used only when the first list page and the one-proposal request both fail. The
  hand-over from list to walk changes nothing under a condition of the same kind.
* **The memory of decoded proposals.** Over every run, a scan recorded without an error hides no vote that can
  still be cast; what it leaves out that the chain still reports as voting is past its end.
* **The collection cycle and its live gate.** At every intermediate step of every cycle, only proposals that this
  cycle listed, tallied and measured are live; over every run, a cycle that advances its success time shows as
  live exactly the proposals in their voting period on the chain that it could decode and that no such run of
  missing IDs hides. Those it could not decode have ended. `DiscoveryGap` gives the input at which a cycle completes
  although a vote that can still be cast is hidden.
* **Concentration.** The greedy halt and safety counts are least over all sets of entities, and no grouping of
  validators into entities raises them.
* **Attribution and veto.** Votes and non-votes partition the validator set and its power; veto rows are exact,
  few, and mean what they say.
* **Managed delegations.** Aggregates conserve every delegated amount, split exactly into locked and
  redelegatable, and depend on no iteration order.
* **Slashing and endpoint rotation.** The rounded signing minimum is the nearest integer for every ratio and
  gives a sound headroom; the shared endpoint selection stays usable under any interleaving.

Queries are oracles: a function or a sequence of replies, each of which may be a failure. Instants are integer
nanoseconds since the first instant of year 1, so that 0 is Go's zero time. Amounts are exact non-negative
reals and ratios are exact fractions. A gauge vector is a map from its identifying label to its value.

## Modules

| file | role |
|---|---|
| `Basics`, `Sums`, `Sorting` | shared vocabulary, order-free totals over maps and groups, the contract of sorting |
| `RedelegationQuery`, `RedelegationWindow`, `RedelegationScanner`, `RedelegationRuns` | the page scan, the window and its threshold states, the scanner object, whole runs |
| `ProposalScan`, `ProposalDiscovery`, `ProposalHandOver`, `ProposalProgress`, `ProposalMemory` | discovery as loops and as functions, exactly when it is complete, the hand-over from list to walk, when the loops succeed, the memory over runs |
| `Collector`, `CollectorRuns`, `DiscoveryGap` | the collection cycle and its gate, runs of cycles against the chain, the input at which an open vote is hidden |
| `Concentration`, `Governance`, `Slashing`, `Rotator` | coefficients, vote attribution and veto, jail arithmetic, endpoint selection |
| `ManagedDelegation`, `ManagedScanner` | positions, locks and unlock times, the scan that publishes them |

`dafny verify dfyconfig.toml` checks all of it.

## Model

| member | source | states |
|---|---|---|
| `RedelegationQuery.QueryRedelegations` | collector/redelegation_query.go:53-145 | The page loop returns, oldest first and each once, exactly the events that the reply-by-reply function gives, and fails exactly when it does, with the same error |
| `RedelegationQuery.SortedRedelegationEvents` | collector/redelegation_query.go:158-174 | The sorted list holds every event of the map once, in time order |
| `RedelegationQuery.ScanIsExact` | collector/redelegation_query.go:53-145 | For any endpoint that may fail and an index that may grow between pages: on success every qualifying message at or after the cutoff that was indexed when page 1 was read is returned under its upper-cased hash and its position, with the row's time and the message's validators and amount, and nothing that was not indexed by the end |
| `RedelegationQuery.PageIsRefused` | collector/redelegation_query.go:62-140 | A page ends the scan with an error if and only if it is missing or malformed, holds a row whose time is unreadable or above that of the row before it, holds an incomplete redelegation inside the window, or stops short of its own total before the cutoff |
| `RedelegationQuery.GrowthKeepsEvents` | collector/redelegation_query.go:53-145 | A grown index keeps every event under its key |
| `RedelegationQuery.FixedIndexSucceeds` | collector/redelegation_query.go:57-145 | With a well-formed index that holds still, the scan succeeds if and only if it fits the page bound |
| `RedelegationQuery.GrowthIsRefused` | collector/redelegation_query.go:93-102 | Two strictly newer rows arriving between pages make the next page start above the last row read, and the scan fails rather than guess |
| `RedelegationQuery.LaggingEndpointSkips` | collector/redelegation_query.go:57-145 | If page 2 comes from an endpoint that has not indexed the newest rows yet, the scan succeeds without the events of the rows that fall between the pages |
| `RedelegationWindow.Merge` | collector/redelegation.go:118-131 | The new window is the retained part of the old one overlaid with the found events, nothing older than the window |
| `RedelegationWindow.CrossingIsUnique` | collector/redelegation.go:287-304 | The crossing time is determined by the window and the threshold, whatever order equal times are read in |
| `RedelegationWindow.ReconstructCrossing` | collector/redelegation.go:287-304 | When a source's window sum reaches the threshold the reconstruction gives the time of the first event at which the running sum does; otherwise the zero time |
| `RedelegationWindow.FirstReach` | collector/redelegation.go:294-302 | The running-sum loop finds a time if and only if the whole sum reaches the threshold, and it is the crossing |
| `RedelegationWindow.FirstReachIsCrossing` | collector/redelegation.go:287-304 | The first prefix of the time-ordered events that reaches the threshold ends at the crossing time |
| `RedelegationWindow.RefreshAll` | collector/redelegation.go:266-284 | Every source of the window gets its threshold state: below, still above with its old time, or newly above at the crossing |
| `RedelegationWindow.Aggregate` | collector/redelegation.go:195-210 | The two aggregation loops give each source and each pair its total, its newest time and its count |
| `RedelegationWindow.PublishSources` | collector/redelegation.go:214-229 | The per-source series hold each source's outflow over the bonded pool and in ATOM, its newest event, and its crossing time if it has one |
| `RedelegationWindow.PublishPairs` | collector/redelegation.go:231-254 | The per-pair series hold each pair's flow over the bonded pool and in ATOM and its number of events |
| `RedelegationScanner.Scanner.Scan` | collector/redelegation.go:78-89 | A failed scan leaves the window, the success time, the threshold states and all flow series unchanged; a successful one refreshes all of them together, and a source is then above if and only if it occurs in the window and moved out at least the configured part of the bonded pool |
| `RedelegationScanner.Scanner.ScanOnce` | collector/redelegation.go:91-140 | The scan fails exactly when the page scan fails or the bonded pool is missing or not positive, and otherwise installs the refreshed window, with the sources above that moved out at least the configured part of the pool |
| `RedelegationScanner.Scanner.UpdateThresholdStates` | collector/redelegation.go:257-285 | Absent sources stop being above and keep their time; a present one is above if and only if its window sum is at least the bonded pool times the configured ratio |
| `RedelegationScanner.Scanner.MarkAbsentSources` | collector/redelegation.go:260-266 | Only the above flag of absent sources changes |
| `RedelegationScanner.Scanner.Publish` | collector/redelegation.go:186-255 | Every flow series is derived from the current window and the updated states |
| `RedelegationScanner.RunScans` | collector/collector.go:1512-1534 | The scanning loop produces a run of the state machine that the run theorems are about |
| `RedelegationRuns.EveryScanIsExact` | collector/redelegation.go:91-140 | Over every run with any failed scans: after each success the window holds every event of the rolling window indexed when the scan began and none that was not indexed when it ended |
| `RedelegationRuns.RunIsAccounted` | collector/redelegation.go:91-140 | Before every scan of a run, the window holds everything that was indexed in its range when the last success began, and nothing that is not indexed |
| `RedelegationRuns.IncrementalEqualsRebuild` | collector/redelegation.go:91-140 | With an index that holds still during the scan, the incremental window equals the one a fresh full backfill gives |
| `RedelegationRuns.StepAgrees` | collector/redelegation.go:257-285 | After a refresh a source is above if and only if it is present with a sum that reaches the threshold; the time does not change while it stays above, and is the crossing time when it newly is |
| `RedelegationRuns.AboveIffPublishedRatio` | collector/redelegation.go:214-278 | After a success the sources above are exactly those whose published share of the bonded pool reaches the configured ratio |
| `RedelegationRuns.RunAgrees` | collector/redelegation.go:257-285 | Between scans of every run the states agree with the window, measured at the last success |
| `RedelegationRuns.RunAgreesWithRatio` | collector/redelegation.go:257-285 | Between scans of every run a source is above if and only if its window sum is at least the configured ratio of the pool that the last success read; before the first success nothing is |
| `RedelegationRuns.RecrossingIsNew` | collector/redelegation.go:257-304 | If a source was below and the threshold did not fall, its crossing is at or after an event not held before, and at the time of one when new events are no earlier than kept ones |
| `RedelegationRuns.RunRecrossing` | collector/redelegation.go:118-139 | The same for every re-crossing in every run |
| `RedelegationRuns.WindowsAgree` | collector/redelegation.go:118-131 | Successive windows of a run give a shared key the same event |
| `RedelegationRuns.FlowsConserve` | collector/redelegation.go:186-255 | A source's destination series add up to its outflow, the outflows to the whole window, and the counts to the number of events |
| `RedelegationRuns.PairsOfSource` | collector/redelegation.go:195-210 | The pair totals of one source sum to its total |
| `ProposalScan.Earliest` | collector/proposal_scan.go:89-104 | The earliest lifecycle time is the least one that can be read, and there is none exactly if none can be read |
| `ProposalScan.SubmittedBefore` | collector/proposal_scan.go:89-104 | The answer is certain if and only if one of the four lifecycle times is set, and it is yes if and only if one of those that are set lies before the given time |
| `ProposalScan.TooOldMeans` | collector/proposal_scan.go:113-137 | A proposal is too old if and only if one of its four lifecycle times is set and lies before the floor |
| `ProposalScan.ProposalScan.Add` | collector/proposal_scan.go:109-138 | Adding a proposal changes each list of the scan as specified and stops exactly at one submitted before the floor |
| `ProposalScan.FindNewestProposalID` | collector/proposal_scan.go:241-268 | The one-proposal request or the probing loop computes the newest ID as specified |
| `ProposalScan.WalkProposals` | collector/proposal_scan.go:190-237 | The walk, with its start, its step limit and its error cases, computes the specified fallback |
| `ProposalScan.QueryRelevantProposals` | collector/proposal_scan.go:146-171 | The paging loop with its early stop and its hand-over computes the specified discovery |
| `ProposalDiscovery.DiscoveryIsComplete` | collector/proposal_scan.go:146-268 | Under any failures, success means that each ID is listed at most once and nothing that is not stored; every voting-period proposal and every closed one ending at or after the cutoff is reported if and only if no long gap hides one of them from the probe. Of a reply only this is assumed: a decoded one is what is stored, gRPC code 5 means not stored, HTTP 500 with code 13 or 2 means stored |
| `ProposalDiscovery.DiscoveryIsExact` | collector/proposal_scan.go:146-268 | The same for each proposal: it is reported exactly if no long gap above the known ID hides it, where the probe is used at all |
| `ProposalDiscovery.ProbedDiscovery` | collector/proposal_scan.go:190-268 | A discovery that starts from the probe reports exactly the relevant proposals up to the first long gap |
| `ProposalDiscovery.WalkCoversBelow` | collector/proposal_scan.go:190-237 | A walk from any ID covers the store as far as it reaches, and lists nothing above its start |
| `ProposalDiscovery.DiscoveryIsGrounded` | collector/proposal_scan.go:109-138 | Under any failures, and with no assumption on submit times or gaps, a discovery reports nothing that the store does not hold |
| `ProposalHandOver.HandOverPreserves` | collector/proposal_scan.go:154-170 | If every proposal decodes on its own, list-then-walk gives the same lists in the same order as an uninterrupted list, or an error, whichever page fails, if and only if nothing is stored above the first long gap or neither side of it has anything to report |
| `ProposalHandOver.DiscoveryFinds` | collector/proposal_scan.go:146-268 | The same for the lists of one discovery against those of the whole listing |
| `ProposalHandOver.CutOffShows` | collector/proposal_scan.go:190-268 | With something stored above the start of the walk, its lists are those of the whole listing only if both are empty |
| `ProposalDiscovery.WalkCovers` | collector/proposal_scan.go:190-237 | A walk that succeeds covers everything at or below its start |
| `ProposalHandOver.WalkIsFold` | collector/proposal_scan.go:190-237 | The walk over a decodable store gives the lists of reading the listing from the same ID |
| `ProposalDiscovery.ListCovers` | collector/proposal_scan.go:109-138 | Reading any part of the list leaves a scan that covers everything above its lowest ID, and everything at all if it stopped early |
| `ProposalDiscovery.OldEndsTheScan` | collector/proposal_scan.go:113-137 | Nothing below a proposal submitted before the floor is relevant, so the early stop loses nothing |
| `ProposalHandOver.LowestIsLast` | collector/proposal_scan.go:109-138 | The lowest ID of a scan is that of the last list entry read, so the walk starts without a gap or an overlap |
| `ProposalDiscovery.ProbeReaches` | collector/proposal_scan.go:248-268 | A successful probe returns at least the known ID with the next ten missing, and reaches every stored ID if and only if no run of ten missing IDs hides one |
| `ProposalDiscovery.ProbesAreBounded` | collector/proposal_scan.go:248-268 | The probe asks for at most the distance to the highest stored ID plus ten |
| `ProposalProgress.WalkSucceeds` | collector/proposal_scan.go:219-237 | A walk succeeds if and only if every ID it visits on its way down has an answer that says something, within the step limit; an unreadable or a missing one does not end it |
| `ProposalProgress.ProbeSucceeds` | collector/proposal_scan.go:248-268 | With truthful replies the probe gives the first long gap if and only if every answer up to its end says something, and an error otherwise |
| `ProposalProgress.HighestIsNewest` | collector/proposal_scan.go:146-268 | The highest ID of a successful discovery is the newest stored one, or the first long gap where the probe decides |
| `ProposalMemory.MemoryIsSafe` | collector/collector.go:1245-1279 | Over every run: when recording a scan reports nothing possibly open, every unreadable ID is out of its deposit period on the chain, and in its voting period only past its end |
| `ProposalMemory.ClosedStaysClosed` | collector/collector.go:1282-1292 | A proposal remembered as closed is not in deposit now, and voting only past its end; one remembered with a final status is not voting at all |
| `ProposalMemory.ClosedLeavesVotingIffFinal` | collector/collector.go:1282-1292 | Being remembered as closed means being out of the voting period, on every chain, if and only if the remembered status is final |
| `ProposalMemory.EndedVoteMayStillBeVoting` | collector/collector.go:1286-1288 | The failing case: a chain that still reports an ended vote as voting while the memory counts it as closed |
| `ProposalMemory.MemoryIsReported` | collector/collector.go:1253-1262 | Whatever is remembered was reported by the chain at some time up to now |
| `ProposalMemory.RememberSeen` | collector/collector.go:1253-1257 | After a scan every ID it has seen is remembered as it was seen last |
| `ProposalMemory.RememberUnseen` | collector/collector.go:1253-1257 | Every other ID is remembered as before |
| `ProposalMemory.PruneIs` | collector/collector.go:1258-1262 | Exactly the proposals with a lifecycle time that is set and lies before the floor are forgotten, and the others keep their entry |
| `ProposalMemory.OpenOrClosed` | collector/collector.go:1267-1274 | An unreadable ID is reported as possibly open if and only if it is not remembered as closed |
| `ProposalMemory.NoOpenVoteIsMissed` | collector/collector.go:1245-1279 | A cycle whose discovery and record both succeed lists a proposal in its voting period, or reports it unreadable, exactly if no long gap hides it; an unreadable one is over when the scan is recorded |
| `Collector.Collector.RetireLiveProposalSeries` | collector/collector.go:1297-1302 | The gate is emptied live series first, so no step shows an ID as live |
| `Collector.Collector.PublishLive` | collector/collector.go:1459-1466 | Turnout and quorum are set before the ID becomes live, and every step in between is safe |
| `Collector.Collector.AnalyzeProposals` | collector/collector.go:1330-1481 | Every step of the analysis is safe; without errors every open proposal is live, and an error means some open one could not be analysed; afterwards exactly the live proposals have turnout and quorum series, and none has a seconds-remaining series |
| `Collector.Targets` | collector/collector.go:1339-1353 | What is analysed are the active proposals and after them one for each other ID of the recently closed ones |
| `Collector.Collector.SetSecondsRemaining` | collector/collector.go:1084-1092 | The seconds-remaining series become those of the listed proposals, and nothing is live meanwhile |
| `Collector.RemainingOfListed` | collector/collector.go:1084-1092 | A label with a readable voting end gets the time its last listed entry leaves, never below zero |
| `Collector.RemainingOfOthers` | collector/collector.go:1084-1092 | Every other label keeps the series it had |
| `Collector.Collector.AnalyzeCycle` | collector/collector.go:1211-1218 | The analysis fails exactly when some open proposal cannot be analysed, or when there is one and no bonded pool; otherwise the live IDs are exactly the open ones |
| `Collector.Collector.CollectSnapshot` | collector/collector.go:792-1235 | At every step of the cycle, under any failures, live IDs are listed as voting, tallied and measured in this cycle. If the endpoints, the validators or the consensus set fail or the set is empty, the cycle fails and changes neither the carried state nor the success flags; which of four ends the cycle has fixes the returned error, the governance section gauge and the success time; if it completes, the live IDs are exactly the scan's active ones; the carried state is fully determined |
| `Collector.CompletedIffAnswered` | collector/collector.go:792-1235 | A cycle completes if and only if the endpoints, the validators, a consensus set that is not empty, and the governance parameters answered, the slashing parameters did in this or an earlier cycle, no open vote could be hidden, and each open proposal has its voting times, its tally and a positive pool |
| `Collector.Collector.ListProposals` | collector/collector.go:889-900 | Discovery and its record together say whether an open vote could be hidden |
| `Collector.Collector.RecordProposalScan` | collector/collector.go:1245-1279 | The highest ID, the memory and the possibly open IDs after a scan |
| `Collector.Collector.ForgetOld` | collector/collector.go:1258-1262 | Exactly the remembered proposals submitted before the floor are forgotten |
| `Collector.LiveIsOpenOnChain` | collector/collector.go:1459-1466 | Whatever a safe gate shows as live is in its voting period on the chain, in every cycle, complete or not |
| `Collector.DiscoveryKinds` | collector/proposal_scan.go:109-138 | The active list holds only voting-period proposals and the recently closed list none |
| `CollectorRuns.RunCycles` | collector/collector.go:1488-1509 | The polling loop produces a run of the carried state, and each completed cycle's gate shows exactly its open votes |
| `CollectorRuns.CompletedCycleIsExact` | collector/collector.go:792-1235 | Over every run, with any queries failing in any cycle, a cycle that completes shows as live exactly the proposals that are in their voting period on the chain, that it could decode, and that no long gap hides; a vote that it neither shows nor misses to a gap has ended by the time of the record |
| `DiscoveryGap.CompletedCycleMissesOpenVote` | collector/proposal_scan.go:253-268 | The failing case: under every assumption of completeness, with ten missing IDs above the known one and the first list page and the one-proposal request failing, the cycle completes and an open, readable vote is not listed |
| `DiscoveryGap.HandOverLosesOpenVote` | collector/proposal_scan.go:190-268 | At the same store an uninterrupted list and list-then-walk both succeed with different lists |
| `DiscoveryGap.OpenVoteIsMissed` | collector/proposal_scan.go:248-268 | The vote of the failing case is open, can be read, and is hidden by the gap |
| `CollectorRuns.OpenVotesAreExact` | collector/proposal_scan.go:146-268 | The active list of a discovery that succeeds is exactly the open votes that it could decode and that no long gap hides |
| `CollectorRuns.UnreadableIsOver` | collector/collector.go:1266-1278 | If nothing is hidden, no proposal that could not be decoded is in its deposit period, or in its voting period before its end, judged by the clock at the record, as the chain had it at the start of the cycle and as it has it at the record |
| `CollectorRuns.SeenIsReported` | collector/proposal_scan.go:109-138 | Everything a discovery has seen is what the chain holds at that time |
| `CollectorRuns.RunIsReported` | collector/collector.go:1253-1262 | Throughout a run the memory holds only what the chain has reported |
| `CollectorRuns.KnownNeverFalls` | collector/collector.go:1246-1248 | The highest known ID never decreases |
| `Concentration.ComputeCoefficients` | collector/collector.go:1036-1068 | The published counts are the least numbers of entities, named as by `Concentration.GroupByEntity`, that hold a third and two thirds of all power, the share is that of a largest entity, and halt is at most safety; nothing is published without bonded power |
| `Concentration.CountUntil` | collector/collector.go:1043-1066 | The greedy loop over the sorted entities gives a count that no smaller set of entities, however chosen, can match |
| `Concentration.TopIsBest` | collector/collector.go:991-993 | The first entities of the sorted list hold at least as much as any other choice of as many |
| `Concentration.LeastCountIsUnique` | collector/collector.go:1036-1068 | The least count is determined by the powers and the threshold |
| `Concentration.HigherThresholdNeedsMore` | collector/collector.go:1036-1068 | A higher threshold never needs fewer entities |
| `Concentration.GroupByEntity` | collector/collector.go:967-978 | The grouping loop gives a name the tokens of exactly those validators that the entity map sends to it, or that the map does not hold and whose moniker it is |
| `Concentration.MappedTogether` | collector/collector.go:967-978 | Two validators that the map holds share an entity if and only if it gives them the same name |
| `Concentration.SortEntities` | collector/collector.go:982-993 | The sorted list holds every entity once, with its power, in descending order |
| `Concentration.TotalBonded` | collector/collector.go:948-952 | The total is the sum over all validators |
| `Concentration.GroupingConserves` | collector/collector.go:967-978 | Grouping conserves total power, so both thresholds are reached |
| `Concentration.CoarserNeedsNoMore` | collector/collector.go:1036-1068 | However members are grouped, no more groups than members are needed to reach a threshold |
| `Concentration.GroupingNeverRaises` | collector/collector.go:967-1068 | For every entity assignment the counts are at most those with each validator alone, and the largest entity holds at least what the largest validator holds |
| `Concentration.PublishedCountsNeverRise` | collector/collector.go:1041-1066 | Counts with each validator alone exist at a third and two thirds, and neither published count is above its own |
| `Concentration.LeastCountExists` | collector/collector.go:1041-1066 | Every threshold up to the total has a least count |
| `Governance.AnalyzeProposal` | collector/governance.go:87-199 | Analysis fails exactly when a voting time or an open proposal's tally is missing; attribution is complete exactly when a live proposal's votes were read and are consistent with the tally, and then it is a correct attribution |
| `Governance.Attribute` | collector/governance.go:149-197 | A validator is listed with its tokens and its entity, as voted with the option and weights of the record of an account that votes for it, or as absent if there is none; both lists are sorted by power |
| `Governance.CollectVoted` | collector/governance.go:149-172 | The record loop casts exactly the votes that belong to known validators, in any iteration order |
| `Governance.CollectNonVoters` | collector/governance.go:174-190 | Exactly the validators without a vote are listed as absent |
| `Governance.AttributionPartitionsPower` | collector/governance.go:144-190 | Voted and absent validators are disjoint and together are the whole set with all its power |
| `Governance.EntityTotalsAreEntityPower` | collector/proposal_veto.go:51-61 | The veto analysis credits every entity with exactly the power its validators have, and the totals sum to the power of the set |
| `Governance.UnvotedPower` | collector/proposal_veto.go:78 | What the subtraction leaves is the power of the entity's absent validators |
| `Governance.AnalyzeProposalVeto` | collector/proposal_veto.go:29-94 | The veto state follows quorum and the strict threshold on the authoritative tally; rows are exact with one for each entity, and absent unless the vote is valid and attributed |
| `Governance.VerdictMeans` | collector/proposal_veto.go:33-49 | Quorum is met if and only if the turnout is at least it, the state is a veto if and only if the veto is more than a positive threshold of all four vote kinds, and rows are looked for if and only if quorum, complete attribution, votes and a positive threshold are all there |
| `Governance.WeightsAre` | collector/proposal_veto.go:16-25 | A vote counts with its weights, or in full for its option if it has none; the two placeholders count for nothing |
| `Governance.RatiosAre` | collector/proposal_veto.go:54-86 | The actual ratio is the entity's weighted veto over all votes; the potential one is all its power over the votes that there would be with those of its absent validators |
| `Governance.ActualRowMeansVetoed` | collector/proposal_veto.go:63-72 | While the attributed veto is at most the authoritative one, any actual row implies veto state 1 |
| `Governance.ActualRowsAreFew` | collector/proposal_veto.go:63-72 | Under the same premise the number of rows for an actual veto times the threshold is below 1 |
| `Governance.OneRowForEachEntity` | collector/proposal_veto.go:63-72 | There are as many rows for an actual veto as entities with one |
| `Governance.PotentialIsActualAfterSwitch` | collector/proposal_veto.go:78-90 | The potential ratio of an entity is its actual ratio after exactly its own votes, those of its absent validators among them, have become full vetoes |
| `Governance.VetoAtEveryTurnout` | collector/collector.go:1483-1485 | For every share and threshold the check says yes if and only if the threshold lies strictly between none and all and the power exceeds it at every turnout from itself up to everything bonded |
| `Slashing.MinimumIsNearest` | collector/queries.go:554-577 | For every ratio from 0 to 1 and every window the rounded minimum is the nearest integer, ties up, and lies in the window |
| `Slashing.NearestIsUnique` | collector/queries.go:565-572 | The rounding is determined by the product |
| `Slashing.NearestScales` | collector/queries.go:565-572 | It does not depend on how the fraction is reduced |
| `Slashing.ParseSlashingParams` | collector/queries.go:299-334 | Accepted parameters carry both slash ratios as read, the integer nearest to the signed share of the window as minimum, and its complement, which is positive, as maximum of missed blocks |
| `Slashing.AcceptedIffRoom` | collector/queries.go:299-334 | Parameters are accepted if and only if the window is positive, all three ratios read as ratios, and the signing minimum stays more than half a block below the window |
| `Slashing.HeadroomIsLeast` | collector/collector.go:46-53 | The headroom is the least number of increments that passes the strict check |
| `Slashing.HeadroomIsSound` | collector/collector.go:46-53 | For any content of the sliding window and any future signing, fewer blocks than the headroom never pass the maximum |
| `Slashing.HeadroomIsReached` | collector/collector.go:46-53 | The bound is reached by missing every block while signed ones fall out |
| `Slashing.JailedIffTooFewSigned` | collector/queries.go:299-334 | The counter is past the maximum exactly when fewer blocks are signed than the rounded ratio asks for |
| `Rotator.Rotator.Set` | collector/rotator.go:36-56 | The cleaned candidates replace the list, and the selection is the first position of the URL selected before, or the start |
| `Rotator.CleanIs` | collector/rotator.go:39-44 | A candidate loses exactly the white space around it and then its trailing slashes |
| `Rotator.CleanedInOrder` | collector/rotator.go:37-46 | The candidates keep their order, and exactly the blank ones are dropped |
| `Rotator.Rotator.Base` | collector/rotator.go:59-70 | The selected URL, or none |
| `Rotator.Rotator.Advance` | collector/rotator.go:73-79 | The selection moves one step around the list |
| `Rotator.Rotator.Budget` | collector/rotator.go:90-95 | At most three attempts and at most one for each candidate |
| `Rotator.Rotator.FetchJSONUnless` | collector/rotator.go:113-133 | Without interference the attempts follow the cycle from the selection, only failures are retried, and the selection stays on the endpoint that answered or gave the final error |
| `Rotator.RequestIsFair` | collector/rotator.go:113-133 | No endpoint is asked twice, and after exhausting its attempts a request is back at its start exactly when there are at most three endpoints |
| `Rotator.AlwaysInRange` | collector/rotator.go:36-79 | From a new rotator on and under any interleaving of the atomic operations, the selection is in range or the list is empty, no candidate is blank, and a URL is selected exactly when there is one |
| `Rotator.SetKeepsSelection` | collector/rotator.go:36-56 | A refresh keeps the selected URL if it is still listed, and otherwise selects the first candidate |
| `ManagedDelegation.MergingConserves` | collector/managed_delegation.go:142-145 | Merging an account's delegations by validator loses nothing |
| `ManagedDelegation.MergedByOperator` | collector/managed_delegation.go:142-145 | Merging gives exactly the validators that occur, each with the sum of the account's delegations to it |
| `ManagedDelegation.AppendPositions` | collector/managed_delegation.go:142-154 | An account adds one position for each validator it delegates to, with the sum of its delegations there, and the total grows by all of them |
| `ManagedDelegation.CollectAccounts` | collector/managed_delegation.go:137-175 | The account loop gathers exactly what the replies say, and fails exactly if some reply is missing |
| `ManagedDelegation.LatestOfIs` | collector/managed_delegation.go:161-170 | A pair has an unlock time exactly if an entry came back for it, and it is the latest completion |
| `ManagedDelegation.LatestIsUnique` | collector/managed_delegation.go:161-170 | The unlock times are determined by the entries, in any order |
| `ManagedDelegation.LockedPart` | collector/managed_delegation.go:294-313 | The loop adds up exactly the positions with a returned entry and folds their unlock times |
| `ManagedDelegation.LockedAndFree` | collector/managed_delegation.go:425-427 | Locked and redelegatable add up to the amount |
| `ManagedDelegation.NextIsLeast` | collector/managed_delegation.go:307-309 | For non-negative times the next unlock is the earliest one if and only if the zero time does not occur or comes last |
| `ManagedDelegation.ZeroTimeBreaksNext` | collector/managed_delegation.go:307-309 | With the zero time among them the order of the positions changes the next unlock |
| `ManagedDelegation.FinalIsGreatest` | collector/managed_delegation.go:310-312 | The final unlock is the latest one if and only if some time is not before the zero time |
| `ManagedDelegation.AmountsConserve` | collector/managed_delegation.go:228-237 | A validator's amount is what its positions hold, and all amounts sum to the total |
| `ManagedScanner.Aggregate` | collector/managed_delegation.go:239-330 | Every validator with a position gets its row, or the scan fails because one is unknown |
| `ManagedScanner.RowMeans` | collector/managed_delegation.go:244-313 | A row holds the amount, share, locked and redelegatable part, earliest and latest unlock, holders and headroom that the replies imply |
| `ManagedScanner.ManagedScanner.Scan` | collector/managed_delegation.go:116-130 | A scan fails exactly if an answer or a validator is missing, and then changes nothing but its success flag; otherwise it publishes exactly what the replies say |
| `ManagedScanner.ManagedScanner.Publish` | collector/managed_delegation.go:389-457 | Every series is reset and filled from this scan's result |
| `ManagedScanner.PublishedConserves` | collector/managed_delegation.go:224-330 | The rows' amounts sum to all delegations of all accounts, and each splits into locked and redelegatable |
| `ManagedScanner.OrderDoesNotMatter` | collector/managed_delegation.go:132-330 | Neither the order of the accounts nor that of any map changes what is published |

## Assumptions of the main results

* `RedelegationRuns`: during one scan the pages come from an index that only gains rows at the newest end, so
  from no endpoint that lags behind an earlier page (`RedelegationQuery.LaggingEndpointSkips`). Between scans the
  index only has to keep every event under its key, so a late event may land anywhere. Time does not run
  backwards, and what is indexed after a successful scan began is stamped no earlier than that success minus the
  overlap. A reported total is exact for the page it came with.
* `ProposalDiscovery`, completeness: the store holds still during one scan, submit times do not decrease with the
  ID, no lifecycle time precedes submission, a vote ends at most one lifespan and margin after submission and,
  while open, not before the cutoff. Gaps between IDs are not assumed away: the results say exactly what they
  hide. `DiscoveryIsGrounded` needs only truthful replies.
* `ProposalMemory` and `CollectorRuns`: final statuses stay final, a vote does not return to its deposit period,
  and a voting end once seen is not extended. Nothing is assumed about when the chain closes a vote that has
  ended. Completeness is assumed only of the cycle that a result is about; every other cycle may meet any replies
  that are truthful or failures. The record of a scan has its own instant, no relation to the start being assumed
  for what the chain had at the start.
* `Governance`: the conversion of accounts to operator addresses gives no two voting accounts the same validator,
  and operator addresses of validators are distinct.
* `ManagedScanner`: account addresses are distinct, which the configuration enforces (config/config.go:115-122).
  The unlock times of a published row are claimed for completion times after the zero time; exactly when they are
  right for other times is stated by `ManagedDelegation.NextIsLeast` and `ManagedDelegation.FinalIsGreatest`.

## Left out

- HTTP, TLS, JSON, URL building, retries inside the HTTP client, logging, flags, timers: every query is an oracle; a parsed field appears as the outcome of its parse.
- Prometheus label text, monikers, help text and the moment of a scrape: a series is keyed by the IDs that identify it; the redelegation and managed series change under one lock, so no step inside a publication is observable.
- Floating point: the collector sums `float64` in map order; amounts here are exact reals, so rounding and its dependence on order are not modelled.
- The key order that breaks ties between events of one time: sorting is modelled by its contract, and no result depends on the order of equal times.
- `RedelegationScanner.Scanner.Scan`: does not model the moniker refresh, which is a query whose failure is ignored.
- A list endpoint that hands out next keys without end: the replies to one scan are a finite sequence.
- `ProposalScan.FindNewestProposalID`: the store is finite through a ghost bound, without which the probing loop need not end.
- `Collector.Collector.CollectSnapshot`: models the governance path; status, upgrade plan, signing, slashing and validator-set series are left out except for the failures and the missing slashing parameters that end the cycle, and the remaining time of every listed proposal is taken at the instant of the record.
- Expedited proposals whose voting end is extended after it has been seen: excluded by the assumption on the timeline.
- A seconds-remaining series for live proposals: the collector sets it during the cycle, but the reset at the start of the analysis (collector/collector.go:1297-1302, 1323) clears it again, so the model keeps to the code and proves that none is left after an analysis.
- Closed-proposal series when the bonded pool is unavailable: the reset that refreshes them is then skipped together with the analysis.
- False alarms of the memory: it forgets proposals at the floor, while the walk can still meet an older unreadable one.
- Agreement of the rounding with the Cosmos SDK: what the code computes is stated, ties up.
- `Concentration.ComputeCoefficients`: the per-entity and per-validator share series repeat the grouped powers and are not modelled.
- `Governance.AnalyzeProposalVeto`: rows come in any order, as the map gives them; the published vote, non-voter and participation series are not modelled.
- `ManagedDelegation.CollectAccounts`: pagination and field checks of the two account queries appear as one reply or failure.
- `ManagedScanner.Aggregate`: the rows are kept as a map instead of a list sorted by operator, and the metadata, consensus address and signing record of a validator are one oracle answer.
- `ManagedScanner.RowMeans`: rows hold the accounts, amount, share, locked and redelegatable part, unlock times and blocks to jail; the series of `ManagedScanner.ManagedScanner.Publish` are these.
- `ManagedScanner.ManagedScanner.Publish`: the series for missed blocks and their ratio, jail progress, seconds to jail, recent miss rate, active, jailed and tombstoned state, downtime and double-sign slash exposure, and estimated lost rewards are left out: each is one field or one product of the validator's signing record.
- Bech32 conversion: an abstract partial function.
- `Rotator.Rotator.FetchJSONUnless`: stated without interference; under interference only `Rotator.AlwaysInRange` and `Rotator.SetKeepsSelection` are claimed. Trimming covers ASCII white space.
- Completeness of the consensus set pages: false of the code, which takes an early empty page for the end (collector/queries.go:252); the size of the set is an input here.
- Endpoint probing, ranking and registry caching: they decide which candidates `Rotator.Rotator.Set` receives and in which order, and its contract holds for any list.
- Configuration validation and entity-map flattening: every entity map is covered, and of the accounts only distinct addresses are used.
- Alignment of runs to the clock: the runs here take any times that do not run backwards.
