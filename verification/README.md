# KernelEye: models and proofs

KernelEye is an agent on Linux hosts and a backend that detect, score and block hostile
IP addresses. These Dafny files model the parts of it that carry state over time or
define a byte format, and prove what they keep over whole runs. `dafny verify
dfyconfig.toml` checks everything.

| files | what they model |
|---|---|
| `AnalyzerModel`, `AnalyzerRefinement`, `AnalyzerProperties`, `Analyzer` | the agent's sliding-window analyzer: a SYN ring and a port map per IP, an LRU list with a map beside it |
| `Bytes`, `CmdSigning`, `CommandProtocol`, `CommandNonces` | signed commands from the backend's command map over the stream to the agent's checks, signed block lists, nonces and the nonce file |
| `Escalation`, `BlockManager` | the backend's escalation matrix and its set of active blocks |
| `ProbeLimiter` | the two-tier event limiter of the eBPF probe |
| `Blocklist`, `XdpFirewall`, `XdpVerdicts` | blocklist maps with lazy expiry, their sweep, and the XDP packet path with its rate limiter |
| `Telemetry`, `TelemetryLedger`, `TelemetryReplies`, `TelemetryAgent` | event counters, flushes, and the bounded buffer of unsent batches |
| `HistoryStore`, `Scorer`, `ScorerLaws` | metric buckets with retention, and the threat scorer |
| `Common` | options, durations and unsigned words that the others share |

Most parts have the same shape. A datatype holds the state as a value, a function gives
the state after one step, and lemmas about that function speak of every run. A class
holds the fields the program updates, and each method's contract ties the new fields to
the step function, so the lemmas apply to it. What the environment decides (the order in
which a map is walked, replies, database outcomes, the clock) is a part of the step.

## Where the code differs from what is said about it

- The analyzer counts `protocol == 6 && flags & 0x02` as a SYN, while the aggregator takes
  bit 0x01 for SYN and 0x02 for ACK. Both are modelled as written.
- The comment in the analyzer's cleanup says that blocked states are kept for an hour. They
  leave after ten idle minutes (`BlockedStatesLeaveAfterTenMinutes`).
- With times out of order the SYN ring forgets times that the window still covers
  (`OutOfOrderTimesHideAFlood`). `BlockExactly` says when it blocks in any order,
  `AgreesWithLogIff` when that is what the whole log demands, and `Refinement` that it is exact
  for each IP whose times do not decrease.
- `BlockManager.Unblock` sends a command without a block type. It is signed with type 0 and
  streamed with type 1, so every agent that has a key refuses it (`ManagerUnblocksAreRefused`).
- Commands carry whole seconds, and the agent takes zero seconds for a block without end. So
  the enforcement intervals of one IP are disjoint exactly when the configured base duration is
  at least a second (`EnforcementsAreDisjoint`). The active set is keyed by IP alone, whichever user
  a row belongs to, and so is the model.
- A duration that is not positive means a block without end, so decisions inside one score band
  never weaken exactly when the base duration is positive and at most six hours
  (`NeverWeakensIff`). A higher score never gives a weaker decision exactly when it lies between
  two and six hours, so not for the configured hour (`StrengthIsMonotoneIff`). Both are stated
  for the decision and for the whole seconds that the agent is told.
- The block-list format has separators and no lengths. It can be read back exactly when no IP
  holds a NUL byte, no reason holds a newline and every block type fits a byte
  (`BlockListRoundTrip`), and letting in any of the three makes two different lists share a
  payload (`UnambiguousIffClean`).
- The agent computes expiry times and sweeps from the boot-time clock, the packet path reads
  the monotonic clock, and a comment calls the two aligned. The sweep is harmless exactly when
  its clock is not ahead (`SweepIsHarmlessIffNotAhead`). In the runs of `XdpFirewall` packets
  share one clock, and sweeps and commands may read others.
- An expired CIDR entry hides a shorter live one until the sweep deletes it
  (`LookupMissesIffShadowed`). So a sweep does not settle it: a source inside a live range is
  dropped from the sweep on exactly as long as the longest of its live ranges lasts
  (`SweptRangeBlocksIff`, `EndedRangeHidesALiveOne`).
- The map of statistics keeps to its maximum when events come before the clock that looks for the
  oldest entry (`StatsAreBounded`); a full map grows exactly when no entry was first seen before
  that clock (`FullMapGrowsIff`).
- A retry pass that stops early keeps batches that the backend has acknowledged, and sends them
  again (`AcceptedTwice`). `AcknowledgedAgainIff` says exactly when a batch can be acknowledged
  again, `AcknowledgedAtMostOnce` that none is without an interrupted pass. A reply that is lost
  after the backend processed a batch also has it sent again; the model knows replies only.
- When no buffer is configured, a failed batch stays in memory, although the message says it
  will be lost.
- A lost write of the nonce file allows a replay after a restart, exactly when the file then
  gives back less than the last accepted nonce (`OrderSurvivesRestartIff`,
  `LostWriteAllowsReplay`).
- The same SYN count can score less in a shorter window: exactly when the suspicious rate is more
  than six times the normal one and in reach of the count, and not most packets are
  acknowledgements (`RisesAsWindowShrinksIff`). With the default rates that takes eleven SYNs,
  with adjusted rates it never happens (`AdjustedRatesRise`).
- One more SYN can score less even with adjusted rates, when it is the eleventh packet and starts
  the suppression (`RisesWithSynsIff`, `ThirdSynScoresNothing`).

## Model

| member | source | states |
|---|---|---|
| AnalyzerRefinement.Refinement | agent/remediation/analyzer.go:95-193 | over every run of evaluations and prunes in which the times of each IP do not decrease, the analyzer that keeps threshold + 1 times and a pruned port map tracks the same IPs in the same order, and answers the same at every step, as one that keeps every event |
| AnalyzerRefinement.EvaluateRelated | agent/remediation/analyzer.go:111-193 | one event on one IP: bounded state and full log give the same decision and stay related |
| AnalyzerRefinement.SuffixDecides | agent/remediation/analyzer.go:125-152 | in a sorted log more than `threshold` times lie in the window exactly when more than `threshold` of the last threshold + 1 do |
| AnalyzerRefinement.PushKeepsRing | agent/remediation/analyzer.go:118-123 | after every push the ring holds exactly the last threshold + 1 times, rotated at the write index |
| AnalyzerRefinement.FloodAgrees | agent/remediation/analyzer.go:116-152 | the flood test on the ring equals the flood test on all counted events |
| AnalyzerRefinement.PortsAreThoseHit | agent/remediation/analyzer.go:154-171 | the pruned port map holds exactly the distinct ports hit inside the window |
| AnalyzerRefinement.ActivityRelated | agent/remediation/analyzer.go:46-65 | the latest time found in ring and port map is the time of the last processed event |
| AnalyzerRefinement.StaleRelated | agent/remediation/analyzer.go:264-283 | a state is stale exactly when its log is |
| AnalyzerRefinement.PruneRelated | agent/remediation/analyzer.go:247-296 | pruning both analyzers keeps them related entry by entry |
| AnalyzerModel.LastActivityUnique | agent/remediation/analyzer.go:46-65 | only one time is the last activity, so any order of search finds it |
| AnalyzerProperties.StatesAreIsolated | agent/remediation/analyzer.go:197-225 | in every run the state of an IP is what its own events since its creation make of a new state, whatever other IPs do |
| AnalyzerRefinement.CountedIsSyn | agent/remediation/analyzer.go:116-117 | an event counts exactly when its protocol is 6 and the second bit of its flags, as a number, is set |
| AnalyzerRefinement.RecentCount | agent/remediation/analyzer.go:125-137 | counting times one by one gives the number of such events of the log at a known time inside the window |
| AnalyzerProperties.EventLeavesTrace | agent/remediation/analyzer.go:111-190 | only such an event on an unblocked IP is recorded, at the write index and nowhere else; nothing else blocks; an answer carries the event's own fields, for an hour or ten minutes |
| AnalyzerProperties.BlockExactly | agent/remediation/analyzer.go:116-152 | with times in any order: BLOCK exactly for a TCP event with the second flag bit when the last threshold + 1 such events all lie in the window |
| AnalyzerProperties.AnswersAreSound | agent/remediation/analyzer.go:116-190 | with times in any order: BLOCK implies more than the threshold of all counted events in the window, RATE_LIMIT more than the threshold of distinct ports |
| AnalyzerProperties.AgreesWithLogIff | agent/remediation/analyzer.go:116-152 | with times in any order the BLOCK answer is the one the whole log demands if and only if a flood, where there is one, shows in the last threshold + 1 counted events |
| AnalyzerProperties.OutOfOrderTimesHideAFlood | agent/remediation/analyzer.go:116-152 | an input with decreasing times for which the full log exceeds the threshold and the analyzer does not answer |
| AnalyzerProperties.AtMostLimitThenBlock | agent/remediation/analyzer.go:111-190 | while an IP stays tracked, of two answers the first is RATE_LIMIT and the second BLOCK; so at most one of each and nothing after BLOCK |
| AnalyzerProperties.ListIsByRecency | agent/remediation/analyzer.go:95-110 | in every run, prunes included, the list is ordered by last evaluation and holds no IP twice |
| AnalyzerProperties.LruIsMostRecent | agent/remediation/analyzer.go:197-225 | without prunes the list holds exactly the MaxStates most recently evaluated IPs, most recent first |
| AnalyzerProperties.DroppedIsLast | agent/remediation/analyzer.go:207-215 | an evaluation pushes out only the back entry and only from a full list |
| AnalyzerProperties.PruneIsExact | agent/remediation/analyzer.go:247-296 | a cleanup pass removes exactly the states that meet the three-way test and keeps the others in order |
| AnalyzerProperties.BlockedStatesLeaveAfterTenMinutes | agent/remediation/analyzer.go:264-283 | in every reachable state the one-hour clause never decides: blocked states leave after ten idle minutes |
| TrafficAnalyzer.IpState.constructor | agent/remediation/analyzer.go:217-222 | a new record has an empty ring of threshold + 1 slots, no ports and no flags |
| TrafficAnalyzer.IpState.RecordSyn | agent/remediation/analyzer.go:118-123 | writing the ring in place is the push of the model |
| TrafficAnalyzer.IpState.CountSyns | agent/remediation/analyzer.go:125-137 | the loop counts the recorded times inside the window |
| TrafficAnalyzer.IpState.ExpirePorts | agent/remediation/analyzer.go:154-171 | the loop that deletes while it iterates leaves exactly the live ports and counts them |
| TrafficAnalyzer.IpState.GetLastActivity | agent/remediation/analyzer.go:46-65 | the two loops find the latest time in ring and port map, zero when there is none |
| TrafficAnalyzer.Analyzer.constructor | agent/remediation/analyzer.go:82-93 | an empty analyzer for every configuration; a zero threshold selects the default one, and with a positive threshold the analyzer is ready |
| TrafficAnalyzer.Analyzer.MoveToFront | agent/remediation/analyzer.go:199-203 | taking a known record to the front keeps list and map in bijection and all records unchanged |
| TrafficAnalyzer.Analyzer.GetOrCreateState | agent/remediation/analyzer.go:195-225 | lookup, eviction and creation equal the list function of the model, with list and map in bijection |
| TrafficAnalyzer.Analyzer.EvaluateRecord | agent/remediation/analyzer.go:111-193 | the in-place update of one record and the decision equal those of the model |
| TrafficAnalyzer.Analyzer.Evaluate | agent/remediation/analyzer.go:95-193 | the whole new analyzer state and the decision equal those of the model; no other record changes |
| TrafficAnalyzer.Analyzer.ShouldEvict | agent/remediation/analyzer.go:264-283 | the staleness test on a record is the three-way predicate |
| TrafficAnalyzer.Analyzer.PruneStates | agent/remediation/analyzer.go:247-296 | the back-to-front deletion loop terminates, is the filter of the model, and keeps list and map in bijection |
| Bytes.Int32RoundTrip | shared/cmdsigning/signing.go:97-98 | four big-endian bytes give back every 32-bit integer, negative ones included |
| Bytes.Int64RoundTrip | shared/cmdsigning/signing.go:94-125 | eight big-endian bytes give back every 64-bit integer, negative ones included |
| Bytes.DecimalRoundTrip | agent/block_command_sync.go:20-42 | the decimal form of every 64-bit integer parses back to it |
| Bytes.TrimKeepsDecimal | agent/block_command_sync.go:25-27 | trimming space does not change a written nonce |
| Bytes.TrimDropsSpace | agent/block_command_sync.go:25-27 | space around a written nonce is dropped |
| Bytes.OnlyDecimalsParse | agent/block_command_sync.go:25-28 | only digits with at most one sign in front are read as a number |
| CmdSigning.CanonicalRoundTrip | shared/cmdsigning/signing.go:94-125 | a decoder recovers all seven fields of every command with strings below 2^32 bytes, and exactly what follows the payload |
| CmdSigning.CanonicalPrefixFree | shared/cmdsigning/signing.go:94-125 | no payload is a prefix of the payload of another command |
| CmdSigning.BuildBlockListPayload | shared/cmdsigning/signing.go:144-161 | the loop over entries produces the entries joined by newlines |
| CmdSigning.EntryRoundTrip | shared/cmdsigning/signing.go:148-158 | a clean entry followed by nothing or a newline is read back with exactly its rest |
| CmdSigning.BlockListRoundTrip | shared/cmdsigning/signing.go:144-161 | a decoder recovers a list of any length if every entry is clean, and no list with an entry that is not |
| CmdSigning.UnambiguousIffClean | shared/cmdsigning/signing.go:144-161 | whatever the reader: no two lists share a payload if and only if none of NUL bytes in addresses, newlines in reasons and types wider than a byte is let in |
| CmdSigning.HiddenEntry | shared/cmdsigning/signing.go:144-161 | for all entries a and b: a with b written into its reason has the payload of the list of both |
| CmdSigning.HiddenAddress | shared/cmdsigning/signing.go:148-158 | for all entries a and b: b with a written into its address has the bytes of a with a longer reason |
| CmdSigning.BlockListInjective | shared/cmdsigning/signing.go:144-161 | clean lists with the same payload are equal |
| CmdSigning.OnlyTheDigestIsAccepted | shared/cmdsigning/signing.go:35-57 | whatever is presented: accepted exactly when the nonce is positive and it is the digest of the nonce followed by the payload |
| CmdSigning.SignatureBinds | shared/cmdsigning/signing.go:35-57 | a signature is accepted exactly for its own positive nonce and its own command, unless the two digests collide |
| CmdSigning.ListIsNoCommand | shared/cmdsigning/signing.go:94-161 | no command with an action code below 2^24 has the payload of a list whose addresses are not empty and do not start with NUL |
| CmdSigning.SignaturesDoNotCross | shared/cmdsigning/signing.go:35-57 | the signature of a list is never accepted for a command, nor that of a command for a list, with the same or different nonces, unless two digests collide |
| CommandProtocol.SignHubCommand | backend/internal/api/block_grpc.go:440-489 | the map built for an API command, stamped with the signature over its own fields when there is a key |
| CommandProtocol.StreamCommand | backend/internal/api/block_grpc.go:243-311 | the branchy reading of a map into a command equals its specification; maps without an IP are skipped |
| CommandProtocol.TimestampRoundTrip | agent/block_command_verify.go:42-49 | seconds and nanoseconds give back every 64-bit time, negative ones included |
| CommandProtocol.StampedStream | backend/internal/api/block_grpc.go:287-311 | the four stamps of a signed map arrive unchanged and nothing else depends on them |
| CommandProtocol.CommandIsAcceptedIff | agent/block_command_verify.go:16-64 | any command is accepted exactly when there is a key, its nonce is positive and above the last, its time, if any, is within five minutes either way, and its signature is the digest of that nonce and its own seven fields |
| CommandProtocol.AcceptedIffFreshAndSame | agent/block_command_verify.go:16-64 | a streamed command is accepted exactly when nonce and age are fresh and the rebuilt fields are the signed ones, and fails on its signature exactly when they differ |
| CommandProtocol.EnforcementFields | backend/internal/analysis/block_manager.go:560-579 | field by field what is signed and what arrives for an enforcement, block id and type numbers included |
| CommandProtocol.BlockMapAgrees | backend/internal/analysis/block_manager.go:511-579 | for every enforcement map the agent rebuilds the signed fields if and only if the block type is one of the three known ones |
| CommandProtocol.UnsignedIsRefused | backend/internal/api/block_grpc.go:243-311 | without a key in the backend the command arrives without nonce and signature, and no agent accepts it |
| CommandProtocol.HubMapAgrees | backend/internal/api/block_grpc.go:440-489 | for every API command it does so if and only if the type is known, the duration is not negative and it is not a block of rate-limit type |
| CommandProtocol.UnblockFields | backend/internal/analysis/block_manager.go:581-600 | field by field what is signed and what arrives for the manager's unblock |
| CommandProtocol.UnblockMapNeverAgrees | backend/internal/analysis/block_manager.go:581-600 | the manager's own unblock is signed with block type 0 and rebuilt with 1, everything else equal |
| CommandProtocol.EnforcementsAreAccepted | backend/internal/analysis/block_manager.go:511-579 | signed, streamed and rebuilt, an enforcement is accepted exactly when nonce and age are fresh |
| CommandProtocol.HubCommandsAreAccepted | backend/internal/api/block_grpc.go:243-311 | the same for API commands inside the condition of HubMapAgrees |
| CommandProtocol.ManagerUnblocksAreRefused | backend/internal/analysis/block_manager.go:581-600 | every fresh unblock of the manager is refused for its signature, unless two digests collide |
| CommandProtocol.EnforcementsTakeEffect | agent/block_command_verify.go:67-164 | an enforcement reaches the rate-limit handler exactly when its type is rate limit, the block handler otherwise, with the same IP, duration and reason |
| CommandProtocol.UnblocksTakeEffect | agent/block_command_verify.go:67-164 | an API unblock of a known type reaches the unblock handler with type 1, 2 or 3 for blocklist, rate limit and CIDR |
| CommandProtocol.HubCommandsTakeEffect | agent/block_command_verify.go:67-164 | API blocks and rate limits reach their handlers with their duration; a plain block of rate-limit type becomes a rate limit |
| CommandNonces.BlockCommandClient.constructor | agent/block_command_sync.go:20-31 | a new client starts from the nonce in the file, or from zero when there is none or it does not parse |
| CommandNonces.BlockCommandClient.LoadNonce | agent/block_command_sync.go:20-31 | restores a saved positive nonce |
| CommandNonces.FileGivesBack | agent/block_command_sync.go:20-31 | a file with a number and any space around it gives back that number when positive; any other file, or none, gives back zero |
| CommandNonces.WrittenNonceComesBack | agent/block_command_sync.go:20-42 | an accepted and written nonce is exactly what a restart gives back |
| CommandNonces.BlockCommandClient.PersistNonce | agent/block_command_sync.go:34-42 | replaces the file by the decimal nonce, or by what a failed write leaves |
| CommandNonces.BlockCommandClient.VerifyCommand | agent/block_command_verify.go:16-64 | the verdict of the checks, and the whole new tracker and file |
| CommandNonces.BlockCommandClient.FetchBlockList | agent/block_command_sync.go:109-160 | accepted exactly by the check, or when there is no key, with the whole new tracker and file in either case |
| CommandNonces.ListIsAcceptedIff | agent/block_command_sync.go:128-157 | a list is accepted exactly when there is a key, its nonce is positive and above the last, and its signature is the digest of that nonce and those entries |
| CommandNonces.ListSignatureBinds | agent/block_command_sync.go:128-157 | a list passes with a signature exactly when nonce and clean entries are the signed ones and the nonce is new |
| CommandNonces.RefusedLeavesNoTrace | agent/block_command_verify.go:16-64 | a step is refused exactly when it leaves the tracker; then it leaves the file as well |
| CommandNonces.NoncesIncrease | shared/cmdsigning/signing.go:60-88 | over any interleaving of commands and list fetches, from any state and whatever the writes do, accepted nonces strictly increase |
| CommandNonces.KeptRunsIncrease | agent/block_command_sync.go:20-42 | the same over every run with restarts at which the file gives back at least the last accepted nonce |
| CommandNonces.NoncesIncreaseAcrossRestarts | agent/block_command_sync.go:20-42 | the same across any number of restarts when every write succeeds |
| CommandNonces.LostWriteAllowsReplay | agent/block_command_sync.go:34-42 | for every key, state, list and new nonce: after a failed write and a restart the same signed list is accepted again exactly when what the write left gives back less than its nonce |
| CommandNonces.AcceptableAfterRestartIff | agent/block_command_sync.go:20-31 | after a restart some command or list is accepted with a given nonce if and only if the file gives back less |
| CommandNonces.OrderSurvivesRestartIff | agent/block_command_sync.go:20-42 | any run in order so far stays in order through a restart, whatever follows until the next one, if and only if the file gives back at least the last accepted nonce |
| Escalation.DecisionIsRung | backend/internal/analysis/block_manager.go:267-356 | for every score, lookup and base: permanent from 90 on whatever the lookup, then the base block for a failed lookup, then permanent after a permanent row, then the rung of the score band that the earlier offences reach |
| Escalation.KindIsMonotone | backend/internal/analysis/block_manager.go:267-356 | rate limit, block, permanent: the kind never gets milder with a higher score or a longer history |
| Escalation.StrengthIsMonotoneIff | backend/internal/analysis/block_manager.go:267-356 | for the same history a higher score never gives a weaker decision, if and only if the base duration lies between two and six hours; in the agent's whole seconds, below six hours and a second |
| Escalation.NeverWeakensIff | backend/internal/analysis/block_manager.go:267-356 | along every run of offences later decisions of the same score band are never weaker, an unending block being the longest, if and only if the base duration is positive and at most six hours; in the agent's whole seconds, from one second to below six hours and a second |
| Escalation.HistoryGrows | backend/internal/database/blocks.sql.go:525-536 | the counted history only grows along a run |
| Escalation.RepeatOffendersBecomePermanent | backend/internal/analysis/block_manager.go:267-356 | from any history, scores of at least 50 are permanent from the fourth offence on, and a score of at least 70 already on the third |
| Escalation.PermanentSticks | backend/internal/analysis/block_manager.go:299-309 | after one permanent decision every later one is permanent |
| Escalation.LowScoresSettleAtTwoHours | backend/internal/analysis/block_manager.go:342-354 | scores below 50 on a new IP: half an hour, one hour, then two-hour blocks without end |
| Escalation.ModerateLadder | backend/internal/analysis/block_manager.go:325-340 | scores 50 to 69 on a new IP: base, 6 h, 24 h, then permanent |
| Escalation.FastLadder | backend/internal/analysis/block_manager.go:311-323 | scores 70 to 89 on a new IP: 6 h, 24 h, then permanent |
| BlockManagement.BlockManager.constructor | backend/internal/analysis/block_manager.go:79-158 | a manager starts with any loaded active blocks and any recorded history |
| BlockManagement.BlockManager.Create | backend/internal/analysis/block_manager.go:358-506 | a successful insert adds one history row, one active block and one command with its end on the agent; a failed one changes nothing |
| BlockManagement.AgentEnd | backend/internal/analysis/block_manager.go:560-579 | the block ends on the agent exactly for durations of at least a second, and then less than a second before the end the backend keeps |
| BlockManagement.BlockManager.EvaluateAndBlock | backend/internal/analysis/block_manager.go:215-263 | the loop over candidates equals the fold of single candidates, each seeing the effect of those before it; the two counts are the rows that were not active at their turn and cleared, or listed, by the whitelist |
| BlockManagement.BlockManager.CleanupExpiredBlocks | backend/internal/analysis/block_manager.go:192-213 | the loop that deletes while it iterates removes exactly the expired temporary blocks and counts them |
| BlockManagement.BlockManager.RemoveBlock | backend/internal/analysis/block_manager.go:581-600 | an active IP is removed and unblocked, any other leaves everything as it is |
| BlockManagement.RowsAreSteps | backend/internal/analysis/block_manager.go:215-263 | a pass over candidate rows is a run of single candidates |
| BlockManagement.HistoryFollowsScores | backend/internal/analysis/block_manager.go:280-298 | over every run with a working database the history of each IP of each user is the one the matrix builds from the scores at which it was enforced, whatever happens to other IPs and however often it expires or is unblocked |
| BlockManagement.RepeatOffendersStayBlocked | backend/internal/analysis/block_manager.go:267-356 | so along every such run an IP enforced four times from score 50, or three times from score 70, is blocked permanently at any later score |
| BlockManagement.CleanupIsExact | backend/internal/analysis/block_manager.go:192-213 | a cleanup keeps exactly the blocks that are permanent or whose end has not passed |
| BlockManagement.UnblockIsExact | backend/internal/analysis/block_manager.go:581-600 | an unblock removes that IP alone and is written down exactly when it was active |
| BlockManagement.EnforcementIsExact | backend/internal/analysis/block_manager.go:358-506 | one enforcement writes the decided kind, its end in nanoseconds here and in whole seconds for the agent, and one row of that kind |
| BlockManagement.FailedLookupBlocksForBase | backend/internal/analysis/block_manager.go:284-297 | a failed lookup below 90 gives a block for the base duration on both sides |
| BlockManagement.HighScoresNeverEnd | backend/internal/analysis/block_manager.go:271-278 | a candidate of score 90 or more is enforced without end whatever its lookup, stays active through every cleanup, and is not enforced again along any run without its unblock |
| BlockManagement.CandidateIsEnforcedUnlessRunning | backend/internal/analysis/block_manager.go:192-263 | after a cleanup a candidate is enforced once, and becomes active, exactly unless its block still runs, the whitelist check does not clear it, or the insert fails |
| BlockManagement.EnforcementsAreDisjoint | backend/internal/analysis/block_manager.go:436-450 | in every run two enforcements of an IP with no unblock between never overlap on the agent and none follows an unending one, if and only if the base duration is at least a second |
| BlockManagement.ForgottenBlock | backend/internal/analysis/block_manager.go:366-371 | for every base below a second a run in which a block without end on the agent is forgotten and followed by another |
| ProbeLimiter.Limiter.CheckRateLimit | agent/ebpf/traffic_helpers.h:105-154 | the in-place update of the per-CPU and the shared counter, with their widths, equals the step of the model |
| ProbeLimiter.WindowsAreBounded | agent/ebpf/traffic_maps.h:43-50 | per window a CPU emits at most 9,999 events and the system at most 200,000 |
| ProbeLimiter.EmissionIsBounded | agent/ebpf/traffic_helpers.h:105-154 | in any second at any offset a CPU emits at most 19,998 events and all CPUs together at most 400,000 |
| ProbeLimiter.DropsAreNeeded | agent/ebpf/traffic_helpers.h:105-154 | before a dropped event its CPU was called at least 9,999 times, or 200,000 calls passed the first tier, within the second |
| ProbeLimiter.CountsStayReal | agent/ebpf/traffic_helpers.h:105-154 | along every ordered trace neither counter exceeds the calls its window has really seen |
| ProbeLimiter.DropsAreCounted | agent/ebpf/traffic_helpers.h:105-154 | on every trace the drop counter of a CPU is the number of its events that either tier dropped, modulo 2^32 |
| Blocklist.LongestMatch | agent/ebpf/xdp_firewall.c:247-257 | the lookup finds the longest prefix of the source that is in the map, expired or not |
| Blocklist.CleanupMap | agent/remediation/xdp_cleanup.go:98-114 | whatever keys iteration misses and deletions fail for, exactly the visited expired entries go, and they are counted |
| Blocklist.ListBlocked | agent/remediation/xdp_maps.go:138-189 | the listing holds exactly the keys blocked at that time |
| Blocklist.SweepKeepsVerdicts | agent/remediation/xdp_cleanup.go:69-134 | on an exact map no sweep changes any verdict, hence any listing, at its own time or later |
| Blocklist.SweepIsHarmlessIffNotAhead | agent/remediation/xdp_helpers.go:139-147 | the sweep unblocks nothing in any map if and only if its clock is not ahead of the packet's |
| Blocklist.SweepNeverUnblocksRange | agent/remediation/xdp_cleanup.go:137-152 | on the CIDR map no sweep turns a drop into a pass, at its own time or later |
| Blocklist.SweptRangesAreExact | agent/remediation/xdp_cleanup.go:137-152 | right after a complete sweep the lookup blocks exactly the sources inside a live range |
| Blocklist.LookupMissesIffShadowed | agent/ebpf/xdp_firewall.c:247-257 | before the sweep the lookup errs if and only if the longest match is expired and a shorter live range exists |
| Blocklist.ExpiredRangeShadowsLiveOne | agent/ebpf/xdp_firewall.c:247-257 | such a map, for which the sweep turns a pass into a drop |
| XdpFirewall.Firewall.TripLimit | agent/ebpf/xdp_firewall.c:201-226 | a trip writes the saturated expiry when a block time is set, and nothing otherwise |
| XdpFirewall.Firewall.LimitPacket | agent/ebpf/xdp_firewall.c:179-243 | the in-place limiter with its window reset equals the model, blocklist entry included |
| XdpFirewall.Firewall.FilterPacket | agent/ebpf/xdp_firewall.c:369-394 | blocklist, ranges, then limiter: verdict and whole new state |
| XdpFirewall.Firewall.Block | agent/remediation/xdp_block.go:13-61 | replaces the entry of the address by the wrapped sum of clock and duration, zero for never |
| XdpFirewall.Firewall.Unblock | agent/remediation/xdp_block.go:103-131 | removes the entry of the address, if any |
| XdpFirewall.Firewall.CleanupExpiredEntries | agent/remediation/xdp_cleanup.go:69-95 | sweeps both maps |
| XdpVerdicts.BlockedIsDropped | agent/ebpf/xdp_firewall.c:369-383 | under any limiter a packet whose address has a live entry, or whose longest range is live, is dropped and changes nothing |
| XdpVerdicts.VerdictWithoutLimiter | agent/ebpf/xdp_firewall.c:369-394 | without a limiter exactly those packets are dropped |
| XdpVerdicts.VerdictWithLimiter | agent/ebpf/xdp_firewall.c:179-243 | with a limiter the others pass exactly when they are the first, open a new window, or stay within the counters of the running one |
| XdpVerdicts.PacketTouchesItsSource | agent/ebpf/xdp_firewall.c:179-243 | a packet changes the entries of its own source only, and the blocklist only by a trip with a block time, to the saturated end |
| XdpVerdicts.BlockTakesEffect | agent/remediation/xdp_block.go:13-61 | after a block the address is blocked exactly up to the expiry or by its ranges; other addresses get the same verdicts |
| XdpVerdicts.UnblockTakesEffect | agent/remediation/xdp_block.go:103-131 | after an unblock only ranges block the address; other addresses get the same verdicts |
| XdpVerdicts.RangeBlocksTheSource | agent/ebpf/xdp_firewall.c:376-383 | over every run no packet of a source passes or changes anything while its longest range lasts |
| XdpVerdicts.SweptRangeBlocksTheSource | agent/remediation/xdp_cleanup.go:137-152 | from a complete sweep on no packet of a source inside a live range passes until the longest of its live ranges ends |
| XdpVerdicts.SweptRangeBlocksIff | agent/remediation/xdp_cleanup.go:137-152 | without a limiter every packet up to a time is dropped after the sweep if and only if the longest live range lasts until then |
| XdpVerdicts.EndedRangeHidesALiveOne | agent/ebpf/xdp_firewall.c:247-257 | a live range whose source passes after a complete sweep, because a longer one ended |
| XdpFirewall.Expiry | agent/ebpf/xdp_firewall.c:201-226 | the wrap test makes the 64-bit sum saturate |
| XdpFirewall.TripBlocksTheSource | agent/ebpf/xdp_firewall.c:369-391 | after a trip at t no packet of the source passes up to the saturating t + block time, across packets, window resets, commands that do not unblock it or shorten its entry, and sweeps by any clock that has not passed that time |
| XdpFirewall.WindowsAreWithinLimits | agent/ebpf/xdp_firewall.c:179-243 | per source and window at most max(1, max_pps - 1) packets and at most max(max_bps, one packet) bytes pass, over every run |
| XdpFirewall.TripsAreNeeded | agent/ebpf/xdp_firewall.c:179-243 | a source is found over the limit only when its own packets of the last second reach a limit |
| XdpFirewall.SweepNeverLetsThrough | agent/ebpf/xdp_firewall.c:369-391 | on the whole packet path a sweep before the packet never turns a drop into a pass |
| Telemetry.BatchCarriesTotal | agent/flush_proto.go:15-104 | whatever the order of iteration, a batch carries exactly the counters in memory, or, beyond 32 bits, the same up to multiples of 2^32 |
| Telemetry.AcceptedPrefix | agent/flush.go:208-257 | the batches sent in one pass are the longest prefix that the backend accepts in full |
| Telemetry.KeepAndGone | agent/buffer.go:226-255 | deleting ids splits the rows into kept and removed ones, losing none |
| TelemetryLedger.CountsAreConserved | agent/flush.go:33-187 | over every run: counts in memory plus counts that left into acknowledged batches, saved batches and evictions equal the first, second and fourth flag bits that events brought in |
| TelemetryLedger.BatchesCarryTheirCounts | agent/flush.go:142-205 | over every run the counts that left with an acknowledged or saved batch are those the batch carries: exactly while the counters in memory fit 32 bits, else up to multiples of 2^32 |
| TelemetryLedger.RowsAreConserved | agent/buffer.go:110-268 | over every run: rows in the buffer plus rows deleted, evicted and expired are exactly the initial and the saved rows |
| TelemetryLedger.RowsAreDeletedAfterAcknowledgement | agent/flush.go:208-257 | over every run a deleted row was itself loaded and sent before, and answered with success and the number of its events; every acknowledged batch has such a reply |
| TelemetryReplies.RetryDeletesExactly | agent/flush.go:208-257 | a retry pass deletes exactly the loaded rows, and only when every reply is success with the number of events and the deletion works |
| TelemetryReplies.PartialReplyKeepsRows | agent/flush.go:19-30 | one partial, failed or missing reply leaves the buffer as it is |
| TelemetryReplies.ReplyDecides | agent/flush.go:139-187 | memory is emptied by success for all events, with the buffer left alone, or by a save, with the batch as the last row under the next id and the time of the save; else it is kept |
| TelemetryReplies.NothingToFlush | agent/flush.go:33-39 | with nothing in memory a flush is a retry pass and no more |
| TelemetryReplies.EventCountsForItsIp | agent/aggregator_event.go:219-251 | an event adds its bits to its own IP, keeps when it was first seen, and leaves every other entry but the victim |
| TelemetryReplies.StatsAreBounded | agent/safemap.go:67-94 | over every run in which events come before the clock the map keeps to its maximum |
| TelemetryReplies.FullMapGrowsIff | agent/safemap.go:74-89 | a full map grows if and only if the IP is new and no entry was first seen before the clock |
| TelemetryLedger.RunKeepsTable | agent/buffer.go:75-82 | over every run ids in the table stay distinct and below the next one, and no saved batch is empty |
| TelemetryLedger.EvictionTakesOldest | agent/buffer.go:110-156 | over every run a row is evicted only while a batch is saved to a full buffer, only as many as the computed number, which leaves room for exactly one more, and none younger than a row that stays |
| TelemetryLedger.ExpiryIsExact | agent/aggregator_connect.go:17-38 | over every run a row expires exactly in a working maintenance pass that finds it older than its cutoff |
| TelemetryLedger.BufferIsBounded | agent/buffer.go:21-27 | with working statements the number of rows the code evicts keeps the buffer within 500 rows, over every run |
| TelemetryLedger.AcceptedTwice | agent/flush.go:208-257 | a run in which the backend accepts the same batch twice |
| TelemetryLedger.AcknowledgedAgainIff | agent/flush.go:208-257 | an acknowledged batch can be acknowledged again if and only if it is still in the buffer; that is so if and only if the pass was interrupted, unless the flush saves to a full buffer and the row is among those selected for eviction |
| TelemetryLedger.AcceptedRowStays | agent/flush.go:208-257 | after a retry pass an accepted row is still there if and only if a later batch failed or the deletion did |
| TelemetryLedger.AcknowledgedAtMostOnce | agent/flush.go:208-257 | over every run without an interrupted pass no saved batch is acknowledged twice |
| TelemetryAgent.Aggregator.constructor | agent/buffer.go:187-223 | an agent starts with empty counters and the rows an earlier one left |
| TelemetryAgent.Aggregator.FindOldest | agent/safemap.go:74-86 | the search loop finds an entry first seen before all others and before now, if there is one |
| TelemetryAgent.Aggregator.GetOrCreate | agent/safemap.go:67-94 | a known IP keeps its entry; a new one gets an empty one, after an oldest entry left a full map |
| TelemetryAgent.Aggregator.ProcessEvent | agent/aggregator_event.go:219-258 | the event's flags are added to the counters of its IP and to no other |
| TelemetryAgent.Aggregator.BuildEvents | agent/flush_proto.go:15-104 | one event per IP with its counters in 32 bits |
| TelemetryAgent.Aggregator.RetryPendingBatches | agent/flush.go:208-257 | the loop with its early return deletes the accepted batches after a complete pass only |
| TelemetryAgent.Aggregator.Save | agent/buffer.go:110-156 | computes how many rows to evict, evicts the selected ones, then inserts; eviction stands when the insert fails |
| TelemetryAgent.Aggregator.BufferEvents | agent/flush.go:191-205 | memory is cleared exactly when the batch was saved |
| TelemetryAgent.Aggregator.FlushToBackend | agent/flush.go:33-187 | retry, send, then clear or buffer: the whole new state for every reply |
| TelemetryAgent.Aggregator.EvictExpiredBatches | agent/buffer.go:258-268 | removes the rows created before the cutoff |
| HistoryStore.UpsertSummarises | agent/history_store.go:148-197 | one more upsert keeps a row the summary of all writes to its bucket |
| HistoryStore.RowsSummariseWrites | agent/history_store.go:148-197 | every row is the sum and maximum of exactly the writes to its bucket, with the primary port of the last write that attains the maximum of hits |
| HistoryStore.CutoffIsSafe | agent/history_store.go:148-197 | with retention of at least lookback plus one bucket the delete stays below every present and later read |
| HistoryStore.SafeRetentionInSeconds | agent/history_store.go:148-197 | for whole seconds the delete is safe if and only if retention >= lookback + bucket size - 1 s |
| HistoryStore.SignalsMatchIff | agent/history_store.go:119-197 | for whole seconds: over every run from every faithful table the signals are those of the table that never deletes, if and only if retention >= lookback + bucket size - 1 s |
| HistoryStore.RetentionIsInvisible | agent/history_store.go:119-146 | with a safe retention, over every run with periodic deletes, continued from any table an earlier run left, the rows that signals read, now or later, are those of a table that never deletes |
| HistoryStore.RunIsFaithful | agent/history_store.go:148-197 | every run, from a faithful table, leaves a table that misses only what lies below the present cutoff; so restarts compose |
| HistoryStore.NewTableIsFaithful | agent/history_store.go:71-117 | an empty table is faithful to an empty log at any time |
| HistoryStore.LoadSignals | agent/history_store.go:119-146 | maxima, sum and count over the selected rows, zero when there are none |
| HistoryStore.SignalsAreExact | agent/history_store.go:119-146 | with a safe retention, over every run, continued from any table an earlier run left, the signals are the maxima, the connection sum and the bucket count over all single writes ever made in the lookback window |
| HistoryStore.Store.PersistBucket | agent/history_store.go:148-197 | upsert, write counter and the periodic delete: the whole new state, unchanged when the write fails |
| HistoryStore.Configured | agent/history_store.go:45-48 | a configuration of positive durations is used as it is, any other is replaced by a minute, half an hour and a day |
| HistoryStore.SignalsReadIff | agent/history_store.go:119-146 | for whole seconds: what was written at a time is read exactly when its bucket is not before that of now less the lookback and before that of now |
| HistoryStore.DeletesEvery120 | agent/history_store.go:148-197 | every 120th write deletes exactly the rows of buckets before now less the retention, other writes delete nothing |
| ScorerLaws.FinalScoreIs | shared/scoring/scorer.go:67-164 | the final score out of the components: weights, the discount and its condition, decayed history by seven and three tenths, and the cap of the traffic |
| ScorerLaws.FinalScoreRises | shared/scoring/scorer.go:67-164 | the final score never falls when components rise, and rises strictly below its cap |
| ScorerLaws.EachComponentCounts | shared/scoring/scorer.go:104-109 | without history, discount and low caps every component alone carries the score, by 10, 2, 15, 8 and 1, up to 100 |
| ScorerLaws.FloodsAreMalicious | shared/scoring/scorer.go:202-226 | any rate above the suspicious one without history is Malicious, unless it is low-volume outbound traffic |
| ScorerLaws.KindIs | shared/scoring/scorer.go:427-474 | the type is exactly the eligible component of greatest positive value, ties in the order of the candidates |
| ScorerLaws.PortScoreIs | shared/scoring/scorer.go:228-284 | the port component in full: the fast scan of the window or the slow one over hours, with rates multiplied out |
| ScorerLaws.FailedScoreIs | shared/scoring/scorer.go:286-334 | the failed component in full, by numbers of failed and established handshakes |
| ScorerLaws.OutboundFailuresAreMilder | shared/scoring/scorer.go:286-334 | the same handshakes never score more outbound than inbound |
| ScorerLaws.ServiceScoreIs | shared/scoring/scorer.go:336-381 | the tiers of the service component, each exactly by hits per second or by hits |
| ScorerLaws.BurstScoreIs | shared/scoring/scorer.go:83-102 | the burst component in full, with its tiers, its threshold and the resets |
| ScorerLaws.DefaultRatesScore | shared/scoring/scorer.go:202-226 | with default rates SYNs score from more than three a minute on, unless moderate and fewer than the acknowledgements among more than ten packets |
| Scorer.ComponentsAreNonNegative | shared/scoring/scorer.go:202-416 | every component is non-negative for all metrics, for the default and every adjusted pair of rates |
| Scorer.FinalInRange | shared/scoring/scorer.go:67-188 | the final score lies in 0..100, at most 30 for low-volume outbound traffic, at most 40 at low confidence |
| Scorer.Blend | shared/scoring/scorer.go:126-140 | blending lies between new and decayed score, nearer to the new one when rising and to the old one when falling |
| Scorer.DecayedInRange | shared/scoring/scorer.go:573-593 | decay never raises a score and never makes it negative |
| Scorer.Confidence | shared/scoring/scorer.go:190-200 | between 0.1 and 1, and 1 exactly from the minimum window on |
| Scorer.ServiceScore | shared/scoring/scorer.go:336-381 | between 0 and 10 |
| Scorer.CountServiceHits | shared/scoring/scorer.go:111-116 | the loop counts the hits on ports 80, 443, 22 and 53 |
| Scorer.ClassifyThreatType | shared/scoring/scorer.go:427-474 | the loop finds the eligible candidate of highest score, priority deciding ties |
| Scorer.BestIgnoresOrder | shared/scoring/scorer.go:427-474 | the chosen type does not depend on the order of the candidates |
| Scorer.CalculateScore | shared/scoring/scorer.go:67-188 | an integer score in 0..100 with the level that belongs to it, the caps and the best type |
| Scorer.Adjusted | shared/scoring/scorer.go:565-568 | adjusted rates stay in the order the components need |
| Scorer.RisesAsWindowShrinksIff | shared/scoring/scorer.go:67-92 | for fixed counts the SYN component never falls as the window shrinks, if and only if the suspicious rate is at most six times the normal one, most packets are acknowledgements, or the shortest window leaves the count at or below the suspicious rate |
| Scorer.RisesWithSynsIff | shared/scoring/scorer.go:202-226 | with everything else fixed one more SYN never lowers the component, if and only if neither the eleventh packet starts the suppression of a scoring count nor the step above the suspicious rate falls back |
| Scorer.AdjustedRatesRise | shared/scoring/scorer.go:565-568 | with adjusted rates the component always rises as the window shrinks, and with the count exactly unless the eleventh packet stops it; with the default rates it rises as the window shrinks exactly up to ten SYNs or when most packets are acknowledgements |
| Scorer.ThirdSynScoresNothing | shared/scoring/scorer.go:207-217 | adjusted rates, eight acknowledgements in ten seconds: two SYNs score a third, three score nothing |

## Left out

- Sliding-window analyzer: `container/list` is a sequence of references to the records, not a linked structure; the mutex is one atomic step per call; event times are not before the zero time; the saturation of time differences, which no window test can notice.
- TrafficAnalyzer.Analyzer.constructor: with a negative SYN threshold the first event panics in the ring allocation or the index arithmetic; such an analyzer is built but not followed further.
- Keyed hash, base64 and protobuf: any function from key and message to 32 bytes stands for HMAC; that two digests differ is a hypothesis about the two messages concerned and no more.
- CmdSigning.CanonicalRoundTrip: strings of 2^32 bytes or more, whose length field wraps, are excluded.
- Nonce file: a failed write leaves any content; only ASCII space is trimmed; creation of the directory is not part of this model.
- Interleavings of two goroutines inside one verification, one fetch, one flush or one limiter call: each is one step.
- Application of a fetched list (`SyncBlockList`, `Reconcile`) and the overflow of seconds into a duration in `processCommand`.
- The whitelist snapshot at the start of a stream and block-list paging.
- BlockManagement.AgentEnd: the delay until a command arrives, and the rounding of seconds to a floating-point number, which can only show beyond a hundred days.
- Threat levels, escalation texts, alerts and notifications of the block manager; its candidate query and configuration.
- `auto_blocker.go`: a simpler relative of the block manager.
- Probe limiter: counters do wrap in the step, and the bounds are for traces in which they do not.
- XDP firewall: header parsing and the IPv6 path, which repeats the IPv4 one with another key; eviction of rate states; window counters are unbounded because 64 bits cannot overflow in one second.
- XDP commands: the refusals of a detached program, a frozen map, an invalid or an internal address, which change no map; blocking callbacks.
- `FlushBlocklistMaps`, `traffic_tcp.h`, ipset and iptables.
- Telemetry: the filters before counting (own process, control plane, host, private addresses), which drop an event whole; byte, ICMP and port counters, scores and history attached to a batch, `trackedPortForEvent`, the log of metrics, and the exit on a permission error; loading failures appear as an empty load.
- Buffer times: SQLite compares two texts; here creation time and cutoff are instants.
- TelemetryLedger.CountsAreConserved: `FlushToAPI` is one step; events that arrive between its snapshot and its clear are wiped by the code and not modelled.
- Telemetry.BatchCarriesTotal: a counter above 2^32 is truncated by the code, so equality holds only up to multiples of 2^32 there.
- History store: the SQL engine is a map from keys to rows; `GetContext` is not part of this model.
- Scorer: rounding; `log10`, `sqrt` and `pow` are known by sign and range only, and `log10` over window and count by rising from one without a jump; reason texts, the block-worthiness helper and batch scoring.
- SQL, gRPC transport, web interface, reports, configuration and command line.
