# Nitella, modelled and proved in Dafny

Nitella is a reverse proxy that can hold a connection until a person approves it,
and that takes remote commands through a hub. This project models the parts of it
whose correctness is hardest to see from any one function, and proves what they
promise for every input and every run.

`dafny verify dfyconfig.toml` checks all of it.

| files | what they model |
|---|---|
| `Replay.dfy` | the hub client's command loop: timestamp window, replay cache, eviction, reconnects |
| `Pending.dfy`, `DecisionCache.dfy`, `ApprovalCache.dfy` | the approval manager: capped pending requests, cached decisions, traffic per decision |
| `Stats.dfy`, `StatsService.dfy`, `Tallies.dfy` | connection statistics at three levels |
| `Gate.dfy`, `GateDesk.dfy`, `GateCache.dfy`, `GateSafety.dfy`, `GateTraffic.dfy`, `GateOutcome.dfy` | the whole path of a connection through approval, cache, statistics and clean-up, as one state machine whose steps interleave freely |
| `Matching.dfy`, `RuleEngine.dfy` | compiled rules, the sorted engine, local-then-global lookup |
| `GlobalRules.dfy`, `GlobalRuns.dfy`, `GlobalStore.dfy` | global rules with deadlines: single calls, calls that overlap, and the rows that a start loads again |
| `RuleStore.dfy`, `RuleRuns.dfy`, `RuleManager.dfy` | rules in memory and in the table: single calls, calls that overlap, and the manager's methods |
| `Modular.dfy`, `ByteNumbers.dfy`, `Curve.dfy`, `SmallOrder.dfy`, `Envelope.dfy` | Ed25519 to X25519 keys (sections 4.1 and 5 of RFC 7748), the packed envelope |
| `GeoCache.dfy` | GeoIP lookup through a strategy of steps and a persistent cache |
| `TextTools.dfy`, `Expression.dfy`, `Header.dfy` | rule expressions and configuration headers: scanning, printing, evaluation, checksums |

How the model is built. Code that updates an object becomes a class with the same
fields; each method is tied to a function on values, and the laws are proved of
those functions over all runs. Where calls overlap, a section that runs under one
lock is one step, and so is one statement on the table: in the gate, for the global
rules, and for the rules of proxies. A run is any sequence of steps: a step that
cannot happen leaves the state alone. Clocks, digests, text parsing and outside sources are parameters. Some states
carry history (who owns a request, which decision wrote an entry) that no step
consults.

Properties that turned out not to hold in general are stated with the exact
condition under which they do:

- A replayed command is caught whenever the clock falls back by less than 180 s, and
  not beyond (`Replay.ReplayFreeIff`, `Replay.FallOf180`); a command without a
  request id is never caught (`Replay.RepeatableIff`).
- Reusing the id of a pending request breaks the counters (`Pending.ReusedBreaksExact`).
- The network conditions of a rule are pooled, so that each is tested as written only
  if they all name the same addresses (`Matching.ConditionsAgreeIff`); a rule that
  has a plain and a negated one never matches.
- The rule table is keyed by rule id alone: memory and table agree after a call
  exactly when the id is not another loaded proxy's (`RuleStore.AddConsistentIff`,
  `RuleStore.RemoveConsistentIff`, `RuleStore.ReloadConsistentIff`). The calls on
  global rules write the same table: removing a global rule deletes the row of a
  loaded proxy's rule of that id, whether there is such a global rule or not
  (`RuleStore.RemoveGlobalConsistentIff`).
- A call changes memory in one step and the table statement by statement: calls that
  overlap on one rule id may leave a row without a rule, and so may two reloads of
  one proxy, since each deletes only the rows that it listed
  (`RuleRuns.OverlapBreaks`, `RuleRuns.ReloadsOverlap`, `RuleRuns.AgreeIff`).
- A deadline names a rule that is there only if no removal falls between the two
  halves of the addition (`GlobalRuns.SplitAddition`, `GlobalRuns.SoundIff`); and a
  temporary rule keeps its deadline exactly when no removal of its id was half done
  as it got it (`GlobalRuns.KeepsDeadlineIff`, `GlobalRuns.LateRemoval`).
- A global rule made permanent keeps an older deadline of its id
  (`GlobalRules.PermanentSurvivesIff`), and one renewed, or removed and put back,
  while a sweep is under way is dropped (`GlobalRuns.StillExpiredIff`,
  `GlobalRuns.RenewalIsLost`, `GlobalRuns.PutBackIsDropped`).
- A temporary addition over a permanent global rule leaves its row, and so does a
  sweep: the old rule is back, for good, after the next start. The rows are the
  permanent rules exactly when neither happened since a row was written
  (`GlobalStore.AgreesIff`, `GlobalStore.ReplacedComesBack`,
  `GlobalStore.SweptComesBack`).
- A rule expression has one operator for its whole text: it is read as usual exactly
  when it does not mix operators (`Expression.ReadAsUsualIff`), and a conjunction one
  of whose values holds `||` is read as a disjunction (`Expression.HiddenOperator`,
  `Expression.PrintedMeansUsualIff`).

Where comments and code disagree the model follows the code. The comments on the
list of small-order points call the third entry a point of order 8 and the last two
p-1 and p; the bytes are p-1, p and p+1 (`SmallOrder.NearModulus`), and none of these
three can come out of a conversion (`SmallOrder.RejectedIff`).

## Model

| member | source | states |
|---|---|---|
| `Replay.HubClient.CommandLoop` | nitellad-rs/src/hub.rs:1033-1129 | one connection's loop gives every message its verdict and leaves the cache of the events up to the end of the stream |
| `Replay.HubClient.Receive` | nitellad-rs/src/hub.rs:1062-1129 | the checks on one message, and the cache afterwards |
| `Replay.ReconnectKeepsRun` | nitellad-rs/src/main.rs:474-486 | connections one after the other behave as one run |
| `Replay.Retained` | nitellad-rs/src/hub.rs:1054-1060 | an id that passed stays cached with its time until a tick 300 s later |
| `Replay.Remembered` | nitellad-rs/src/hub.rs:1054-1129 | whatever is cached is an id that passed and that no tick has evicted |
| `Replay.PassesIff` | nitellad-rs/src/hub.rs:1070-1129 | on every run a message passes exactly when it is encrypted, names a key, is signed, decrypts, lies within 60 s and no earlier pass of its id survives; it is dispatched exactly when its payload decodes too |
| `Replay.NoRepeat` | nitellad-rs/src/hub.rs:1054-1129 | on a clock that falls by less than 180 s no command with an id passes twice |
| `Replay.ReplayFreeIff` | nitellad-rs/src/hub.rs:1054-1129 | runs whose clock falls by at most d are free of replays exactly when d < 180 |
| `Replay.FallOf180` | nitellad-rs/src/hub.rs:1054-1129 | a run with a fall of 180 s in which a command passes twice |
| `Replay.RepeatableIff` | nitellad-rs/src/hub.rs:1122-1129 | on a steady clock a command can pass twice exactly when its request id is empty |
| `Pending.PendingState.RequestApproval` | nitellad-rs/src/approval.rs:138-178 | admission exactly when the three true counts are below their caps; counters stay exact unless a pending id is reused |
| `Pending.PendingState.Take` | nitellad-rs/src/approval.rs:205-262 | the one who takes a request frees its slots and gets it; everyone later gets nothing and changes nothing |
| `Pending.FreshStaysExact` | nitellad-rs/src/approval.rs:141-178 | a fresh request keeps a counter map equal to the true counts, without zero entries |
| `Pending.UnlabelledStaysExact` | nitellad-rs/src/approval.rs:158-178 | a request without a proxy leaves the proxy counters exact |
| `Pending.ReusedBreaksExact` | nitellad-rs/src/approval.rs:141-178 | a reused pending id always breaks the per-address counters |
| `Pending.ReleaseStaysExact` | nitellad-rs/src/approval.rs:205-225 | a release finds a positive counter, so that the saturating subtraction never saturates, and keeps the counters exact |
| `Pending.FitsIffRoom` | nitellad-rs/src/approval.rs:143-168 | admission by exact counters is admission by the true counts |
| `Pending.AdmitWithinCaps` | nitellad-rs/src/approval.rs:12-15 | admission keeps 1000 in all, 10 per address, 200 per proxy |
| `Pending.ReleaseWithinCaps` | nitellad-rs/src/approval.rs:205-225 | so does a release |
| `DecisionCache.KeysCollideIff` | nitellad-rs/src/approval.rs:114-116 | exactly when two pairs of address and rule share a key |
| `DecisionCache.KeysDistinct` | nitellad-rs/src/approval.rs:114-116 | address texts without NUL never share a key across pairs |
| `DecisionCache.NulCollides` | nitellad-rs/src/approval.rs:114-116 | two pairs that do share a key |
| `DecisionCache.EntryIsLatest` | nitellad-rs/src/approval.rs:96-134 | after any run an entry is the latest uncancelled write; a missing one expired |
| `DecisionCache.CheckIsLatest` | nitellad-rs/src/approval.rs:120-134 | a check answers with the latest uncancelled write, strictly before its deadline, whenever sweeps ran |
| `DecisionCache.ApplyVisible` | nitellad-rs/src/approval.rs:264-437 | what is visible after a call depends only on what was visible before |
| `DecisionCache.SweepsInvisible` | nitellad-rs/src/approval.rs:96-112 | taking out all sweeps changes nothing visible, live connections and traffic included |
| `DecisionCache.SweepsAnywhere` | nitellad-rs/src/approval.rs:96-134 | runs that differ in sweeps only answer every check alike |
| `DecisionCache.SweepInvisibleIff` | nitellad-rs/src/approval.rs:96-134 | a sweep is invisible to a query exactly when it read no later a clock |
| `DecisionCache.StoredAnswers` | nitellad-rs/src/approval.rs:264-310 | a decision just stored answers for its seconds, or for 300 when it names none, begins without traffic and changes no other answer |
| `ApprovalCache.ApprovalCache.CheckCache` | nitellad-rs/src/approval.rs:120-134 | refines the check on values |
| `ApprovalCache.ApprovalCache.StoreDecision` | nitellad-rs/src/approval.rs:264-310 | connection-only decisions leave no trace, all others are cached and answer for their seconds, or for 300 |
| `ApprovalCache.ApprovalCache.SetConnId` | nitellad-rs/src/approval.rs:363-388 | attaches a connection while fewer than 1000 are live |
| `ApprovalCache.ApprovalCache.RemoveConnId` | nitellad-rs/src/approval.rs:392-402 | moving the final bytes into the entry changes no entry's report |
| `ApprovalCache.ApprovalCache.ListActive` | nitellad-rs/src/approval.rs:416-432 | lists the entries in force, each with live bytes added to closed ones |
| `ApprovalCache.AddLive` | nitellad-rs/src/approval.rs:416-432 | the loop over live counters adds up to the report |
| `Stats.RegisterBalanced` | nitellad-rs/src/stats.rs:59-113 | a registration keeps the three levels of totals in agreement |
| `Stats.UpdateBalanced` | nitellad-rs/src/stats.rs:181-195 | so does counted traffic |
| `Stats.AlwaysBalanced` | nitellad-rs/src/stats.rs:59-195 | after any calls, reused ids included, the global tally is the sum over proxies and over every registration |
| `Stats.LiveAddUp` | nitellad-rs/src/stats.rs:217-243 | the live counts of the owners add up to all live connections |
| `Stats.SummaryIsVolume` | nitellad-rs/src/stats.rs:217-243 | a summary is what the registrations of the proxy ever amounted to, with its live connections; an unknown proxy has nothing |
| `Stats.SummariesAddUp` | nitellad-rs/src/stats.rs:217-243 | the summary of all is the component-wise sum of the summaries, live counts included |
| `Stats.SummaryOfRun` | nitellad-rs/src/stats.rs:59-243 | after any calls a summary counts the ids registered and not unregistered since, the registrations, and the bytes in and the bytes out that were counted on registered connections |
| `StatsService.StatsService.RegisterConnection` | nitellad-rs/src/stats.rs:59-113 | refines registration; the counters handed out are new and shared |
| `StatsService.StatsService.UnregisterConnection` | nitellad-rs/src/stats.rs:115-136 | refines unregistration; totals stay |
| `StatsService.StatsService.UpdateBytes` | nitellad-rs/src/stats.rs:181-195 | refines counting at connection, proxy and global level |
| `StatsService.StatsService.GetSummary` | nitellad-rs/src/stats.rs:217-243 | refines the summary |
| `StatsService.CountActive` | nitellad-rs/src/stats.rs:217-243 | the loop counts the live connections of the proxy asked for |
| `GateDesk.NextKeepsDesk` | nitellad-rs/src/approval.rs:138-316 | every step keeps owners, decisions and slots in order |
| `GateDesk.DeskAlwaysOk` | nitellad-rs/src/approval.rs:138-316 | in every state of every run the counters by address and by proxy are the true counts without zero entries, the caps hold, pending requests have their own waiter, and slots are freed once |
| `GateDesk.NextKeepsCounters` | nitellad-rs/src/approval.rs:138-262 | every step keeps both counter maps exact |
| `GateDesk.AdmittedIffRoom` | nitellad-rs/src/approval.rs:138-178 | on every run a request is admitted exactly when the three true counts are below their caps |
| `GateDesk.PendingHasWaiter` | nitellad-rs/src/approval.rs:138-202 | a pending request has a connection waiting for it |
| `GateDesk.NoSlotLeaks` | nitellad-rs/src/approval.rs:176-225 | once nobody waits nothing is pending |
| `GateDesk.DecidedStaysFreed` | nitellad-rs/src/approval.rs:245-262 | a decided request's slots are freed for good |
| `GateDesk.OneDecisionEach` | nitellad-rs/src/approval.rs:237-262 | at most one decision per request succeeds |
| `GateCache.CacheIsRun` | nitellad-rs/src/approval.rs:264-437 | on every run the cache of the gate is that of the writes, cancellations, attachments and sweeps that the run performed |
| `GateCache.GateCheckIsLatest` | nitellad-rs/src/approval.rs:120-134 | on every run a check answers with the latest uncancelled write for the connection's address and rule, strictly before its deadline |
| `GateCache.LatestIsStore` | nitellad-rs/src/approval.rs:264-310 | the latest write is a step of the run that no write or cancellation followed |
| `GateCache.StoreIsLatest` | nitellad-rs/src/approval.rs:264-310 | and such a step is the latest write |
| `GateCache.NoneAfterCancel` | nitellad-rs/src/approval.rs:434-437 | after a cancellation and no write there is none |
| `GateSafety.HitIsSound` | nitellad-rs/src/proxy.rs:314-330 | a positive check was answered by a decision for this address and rule, allowed and written before, neither overwritten nor cancelled since, and still in force |
| `GateSafety.GrantIsSound` | nitellad-rs/src/approval.rs:176-202 | a waiter that goes on with a grant had asked before, and its own request was allowed |
| `GateSafety.TwoWaysPast` | nitellad-rs/src/proxy.rs:314-378 | only a positive cached decision or a grant leads past the gate |
| `GateSafety.PassedAtStep` | nitellad-rs/src/proxy.rs:314-378 | every connection past the gate was let in at a step of the run, by an allow that the cache held at that moment or by a grant |
| `GateSafety.PastGateOnlyIfAllowed` | nitellad-rs/src/proxy.rs:314-389 | on every run, being past the gate means that the connection asked and its own request was allowed, or that its check found in the cache an allow for its address and rule, written after the decision and neither overwritten, cancelled nor expired |
| `GateSafety.NoHitAfterCancel` | nitellad-rs/src/approval.rs:434-437 | on every run, after a cancellation and until the next write no check of the pair finds a decision |
| `GateSafety.LatestWriteDecides` | nitellad-rs/src/approval.rs:120-134 | on every run the latest write decides every check until its deadline, a denial over an earlier allow included |
| `GateSafety.TurnedAwayForGood` | nitellad-rs/src/proxy.rs:314-378 | denial, timeout, a full desk and a cached refusal are final |
| `GateSafety.DecisionIsCarriedOut` | nitellad-rs/src/approval.rs:176-316 | a connection woken by the decision goes the way of the decision, whatever steps come in between: registered or further if allowed, refused if not |
| `GateTraffic.NextKeepsBooks` | nitellad-rs/src/stats.rs:59-136 | every step keeps connection phases and the statistics service in agreement |
| `GateTraffic.TrafficFrame` | nitellad-rs/src/proxy.rs:635-655 | only a transfer changes a connection's traffic, only while it is registered |
| `GateTraffic.NextConserves` | nitellad-rs/src/approval.rs:363-402 | joining, leaving and traffic keep an entry's report equal to its connections' traffic |
| `GateTraffic.AccountsAlwaysOk` | nitellad-rs/src/approval.rs:363-432 | on every run every entry's account is in order |
| `GateTraffic.ReportIsTrafficOfAttached` | nitellad-rs/src/approval.rs:363-432 | on every run an entry reports exactly the traffic of every connection ever attached to it, with at most 1000 live |
| `GateTraffic.TrafficIsCarried` | nitellad-rs/src/proxy.rs:635-655 | on every run the traffic of connections is the bytes in and out that the steps transferred on them |
| `GateTraffic.NothingForBlocked` | nitellad-rs/src/proxy.rs:417-465 | on every run nothing is forwarded for a blocked or mocked connection |
| `GateTraffic.OthersAreForwarded` | nitellad-rs/src/proxy.rs:635-655 | for any other that is served, what comes is forwarded and counted |
| `GateTraffic.ReportIsCarried` | nitellad-rs/src/approval.rs:363-432 | on every run an entry reports the bytes in and out that were transferred on the connections attached to it |
| `GateTraffic.ClosingKeepsReports` | nitellad-rs/src/proxy.rs:611-625 | neither step of closing a connection changes a report |
| `GateTraffic.FrozenOnceUnregistered` | nitellad-rs/src/stats.rs:115-195 | counters are frozen once a connection is unregistered |
| `GateOutcome.CheckLeads` | nitellad-rs/src/proxy.rs:317-332 | on every run a check leads past the gate, and to tracking, exactly while an allowing decision for the pair stands; to refusal exactly while a denying one does; to a request exactly when none stands |
| `GateOutcome.CleanUpLeads` | nitellad-rs/src/proxy.rs:347-376 | on every run a waiter goes on exactly if it was woken by an allowing decision, tracked exactly if that is cached; it is refused exactly if it was denied or timed out |
| `GateOutcome.TrackedIff` | nitellad-rs/src/proxy.rs:316-402 | on every run a registered connection is tracked exactly when it was let in on a decision that is cached |
| `GateOutcome.RecordedIff` | nitellad-rs/src/approval.rs:363-388 | on every run a connection takes part in an entry exactly when it was tracked, and joined it while it was there with room and since it was last written |
| `GateOutcome.EntryReports` | nitellad-rs/src/approval.rs:363-432 | on every run an entry reports the bytes in and out that were transferred on exactly these connections |
| `GateOutcome.WriteFollowsDecision` | nitellad-rs/src/approval.rs:262-310 | on every run the cache is written after the decision and after its waiter was told, and the deadline counts from a time in between |
| `GateOutcome.OneWriteEach` | nitellad-rs/src/approval.rs:246-310 | a decision is written once |
| `GateOutcome.DecisionGoesThrough` | nitellad-rs/src/approval.rs:246-268 | in any state a decision on a pending request wakes its waiter, which goes on or is refused |
| `GateOutcome.DecisionIsCached` | nitellad-rs/src/approval.rs:274-310 | and if it is to be cached, it answers the checks of its pair for its seconds, or for 300 |
| `GateOutcome.MissedMayAsk` | nitellad-rs/src/approval.rs:137-174 | on every run a connection that has to ask waits for its own request if there is room, and is refused if not |
| `GateOutcome.ArrivalIsMet` | nitellad-rs/src/proxy.rs:314-402 | an arrival is checked if its rule asks for approval, and may be registered at once if not |
| `GateOutcome.ClearedIsServed` | nitellad-rs/src/proxy.rs:380-415 | a connection past the gate is registered and served |
| `GateOutcome.ServedCanEnd` | nitellad-rs/src/proxy.rs:611-625 | and can be ended |
| `Matching.HostNetCoversItself` | nitellad-rs/src/rules.rs:13-26 | a bare address compiles to a network of exactly itself |
| `Matching.CoversIff` | nitellad-rs/src/rules.rs:46-49 | a network covers an address exactly when both lie in one aligned block of 2^(32-k), or 2^(128-k), addresses of one family |
| `Matching.NetIsRange` | nitellad-rs/src/rules.rs:46-49 | so it covers the range of its size from the multiple at or below its base |
| `Matching.ShorterCoversMore` | nitellad-rs/src/rules.rs:46-49 | a shorter prefix covers whatever a longer one does |
| `Matching.GeoHoldsIff` | nitellad-rs/src/rules.rs:50-66 | a country holds by code or by name with the case of letters left out, a provider by a part of its name; nothing else does |
| `Matching.NewMatcher` | nitellad-rs/src/rules.rs:13-26 | the loop collects the networks of all source conditions |
| `Matching.PooledNets` | nitellad-rs/src/rules.rs:13-73 | the pooled test is membership in the union of the ranges and addresses that the conditions name |
| `Matching.CompiledMeaning` | nitellad-rs/src/rules.rs:28-73 | what a compiled rule tests, for any number of source conditions, said by ranges of addresses and by texts |
| `Matching.PlainAndNegatedNeverMatch` | nitellad-rs/src/rules.rs:28-73 | a rule with a plain and a negated source condition matches nothing |
| `Matching.OneSourceAgrees` | nitellad-rs/src/rules.rs:28-73 | with at most one source condition a compiled rule is the conjunction of its conditions |
| `Matching.ConditionsAgreeIff` | nitellad-rs/src/rules.rs:46-73 | every condition is tested as written exactly when the source conditions name the same addresses |
| `RuleEngine.SortIsStable` | nitellad-rs/src/rules.rs:81-85 | descending priority, order within a priority kept |
| `RuleEngine.StableSortIsUnique` | nitellad-rs/src/rules.rs:81-85 | only one list is such a sort |
| `RuleEngine.Lookup` | nitellad-rs/src/proxy.rs:269-282 | local then global is one first-match pass over the two lists joined |
| `RuleEngine.FirstMatchAfterInsert` | nitellad-rs/src/rules.rs:81-94 | an inserted rule takes over a verdict exactly when it matches and outranks it |
| `RuleEngine.VerdictIsBest` | nitellad-rs/src/rules.rs:81-94 | the verdict is a matching rule of maximal priority, earliest supplied, and none exactly when no enabled rule matches |
| `RuleEngine.BestIsUnique` | nitellad-rs/src/rules.rs:87-94 | there is one such rule |
| `RuleEngine.RemovalFrame` | nitellad-rs/src/manager.rs:653-664 | a removal changes only the verdicts of what it removed |
| `RuleEngine.AdditionFrame` | nitellad-rs/src/manager.rs:356-371 | an added rule decides, or the engine without its id does; it loses ties |
| `RuleEngine.RefreshChangesNothing` | nitellad-rs/src/rules.rs:96-104 | writing back the rules read changes nothing |
| `RuleEngine.RuleEngine.UpdateRules` | nitellad-rs/src/rules.rs:96-100 | replaces the rules, sorted and compiled again |
| `RuleEngine.RuleEngine.Evaluate` | nitellad-rs/src/rules.rs:87-94 | the loop returns the best rule, none exactly when none matches |
| `GlobalRules.AddIsSound` | nitellad-rs/src/manager.rs:531-580 | an addition that no call overlaps keeps the engine in order and deadlines naming rules |
| `GlobalRules.RemoveIsSound` | nitellad-rs/src/manager.rs:582-599 | so does a removal, which takes rule and deadline |
| `GlobalRules.MatchesNamed` | nitellad-rs/src/manager.rs:531-550 | a global rule matches exactly the addresses that its text names |
| `GlobalRules.AddedDecides` | nitellad-rs/src/manager.rs:531-558 | once added it decides, with its action, for these addresses unless another rule of priority 1000 or more does; all other verdicts stay |
| `GlobalRules.SweepIsExact` | nitellad-rs/src/manager.rs:68-104 | a sweep that no call overlaps takes exactly the expired rules and deadlines, keeps the order and all other verdicts |
| `GlobalRules.PermanentSurvivesIff` | nitellad-rs/src/manager.rs:531-580 | a rule made permanent survives a sweep exactly when no expired deadline of its id is left |
| `GlobalRules.SurvivesIff` | nitellad-rs/src/manager.rs:68-580 | an added rule survives a sweep exactly when its own positive deadline, or else an older one of its id, is not past |
| `GlobalRuns.AdditionAlone` | nitellad-rs/src/manager.rs:552-570 | the two halves of an addition in a row are the whole addition |
| `GlobalRuns.RemovalAlone` | nitellad-rs/src/manager.rs:583-592 | the same for a removal |
| `GlobalRuns.SweepAlone` | nitellad-rs/src/manager.rs:74-102 | the same for a sweep |
| `GlobalRuns.DropTakesCollected` | nitellad-rs/src/manager.rs:85-102 | a drop takes exactly the collected ids whatever came in between, keeps the order and all other verdicts |
| `GlobalRuns.PresentIff` | nitellad-rs/src/manager.rs:552-592 | on every interleaving a rule is in the engine exactly when a step put it there and none took it since |
| `GlobalRuns.DeadlineIsGiven` | nitellad-rs/src/manager.rs:560-570 | on every interleaving a deadline was given by a temporary addition, and nothing gave or cleared one since |
| `GlobalRuns.SweptHadDeadline` | nitellad-rs/src/manager.rs:74-102 | on every interleaving what a drop takes had, when collected, a deadline given by a temporary addition and passed |
| `GlobalRuns.StillExpiredIff` | nitellad-rs/src/manager.rs:74-102 | a collected id is still expired at the drop exactly when its deadline was not touched since, or last given one that has passed |
| `GlobalRuns.NextAccountedIff` | nitellad-rs/src/manager.rs:552-592 | every step keeps deadlines naming rules or about to be cleared, and the second half of an addition exactly when the rule is there or half removed |
| `GlobalRuns.AlwaysAccountedIff` | nitellad-rs/src/manager.rs:68-104 | the same over whole runs |
| `GlobalRuns.SoundIff` | nitellad-rs/src/manager.rs:68-104 | when no call is half done, deadlines name present rules exactly when each deadline given and not cleared belongs to a rule put in and not taken |
| `GlobalRuns.UndisturbedIsSound` | nitellad-rs/src/manager.rs:531-599 | so they do if no rule is taken between the two halves of its addition |
| `GlobalRuns.SplitAddition` | nitellad-rs/src/manager.rs:552-570 | a removal between the halves of an addition leaves a deadline without a rule |
| `GlobalRuns.DropSparesPresent` | nitellad-rs/src/manager.rs:85-102 | on every interleaving none of the ids whose deadlines a drop is about to clear is a rule that is there |
| `GlobalRuns.KeepsDeadlineIff` | nitellad-rs/src/manager.rs:552-592 | when no call is half done, a temporary rule that nothing took since still has its deadline exactly when no removal of its id was half done as it was given |
| `GlobalRuns.LateRemoval` | nitellad-rs/src/manager.rs:583-592 | a temporary addition between the halves of a removal leaves its rule without a deadline |
| `GlobalRuns.PutBackIsDropped` | nitellad-rs/src/manager.rs:74-102 | a rule removed and put back for good after it was collected is dropped |
| `GlobalRuns.RenewalIsLost` | nitellad-rs/src/manager.rs:74-102 | a rule renewed after it was collected is dropped |
| `GlobalStore.AddAgreesIff` | nitellad-rs/src/manager.rs:531-580 | an addition keeps the global rows the permanent global rules exactly unless it is a temporary one over a permanent rule |
| `GlobalStore.RemoveAgrees` | nitellad-rs/src/manager.rs:582-599 | a removal keeps them so |
| `GlobalStore.SweepAgreesIff` | nitellad-rs/src/manager.rs:68-104 | a sweep keeps them so exactly when it takes no permanent rule |
| `GlobalStore.AgreesIff` | nitellad-rs/src/manager.rs:531-599 | after any calls they are so exactly when no rule was undone, by a temporary addition or a sweep, since its row was written |
| `GlobalStore.AlwaysAgrees` | nitellad-rs/src/manager.rs:531-599 | they always are so if every id is used for permanent rules only or for temporary ones only |
| `GlobalStore.ReplacedComesBack` | nitellad-rs/src/manager.rs:560-577 | a temporary rule over a permanent one: the engine holds the new, the table the old |
| `GlobalStore.SweptComesBack` | nitellad-rs/src/manager.rs:85-102 | a rule made permanent and swept by its older deadline: the engine holds none, the table the rule |
| `GlobalStore.RestartKeepsLasting` | nitellad-rs/src/manager.rs:131-135 | where they are so, the engine loaded from them decides as the old one did where no temporary rule had decided; where no tie is left by a rule with the same id, name, priority, conditions, action and back end |
| `RuleStore.RemoveConsistentIff` | nitellad-rs/src/manager.rs:653-675 | memory and table agree after a removal exactly when the id is not another loaded proxy's |
| `RuleStore.AddConsistentIff` | nitellad-rs/src/manager.rs:356-379 | the same for an addition |
| `RuleStore.ReloadConsistentIff` | nitellad-rs/src/manager.rs:677-707 | the same for a reload, which must also repeat no id |
| `RuleStore.AddGlobalConsistentIff` | nitellad-rs/src/manager.rs:572-577 | a permanent global rule keeps the agreement exactly when its id is not a loaded proxy's |
| `RuleStore.RemoveGlobalConsistentIff` | nitellad-rs/src/manager.rs:594-596 | so does the removal of a global rule, whether there is one or not |
| `RuleStore.AlwaysConsistent` | nitellad-rs/src/manager.rs:356-379 | with each id used in one place only the rows of a proxy are its rules after any calls, global ones included |
| `RuleStore.SavedDistinct` | nitellad-rs/src/db.rs:221-248 | saving a list without repeats leaves a row for each rule |
| `RuleStore.PersistedMatches` | nitellad-rs/src/db.rs:258-304 | a rule read back matches what the rule matched |
| `RuleStore.RestartKeepsVerdicts` | nitellad-rs/src/manager.rs:109-129 | an engine rebuilt from the rows, in any order of ties, has a verdict where the old one had, of the same priority, and where no tie is left by a rule with the same id, name, priority, conditions, action and back end |
| `RuleRuns.CallAlone` | nitellad-rs/src/manager.rs:356-379 | the change in memory and the statements of a call in a row are the whole call |
| `RuleRuns.ConsistentByIds` | nitellad-rs/src/manager.rs:109-129 | memory and table agree exactly when they hold the same under every rule id |
| `RuleRuns.AgreeIff` | nitellad-rs/src/manager.rs:356-379 | on every interleaving of memory changes and table statements they agree exactly when for every id the last change and the last statement leave the same |
| `RuleRuns.ApartIsConsistent` | nitellad-rs/src/manager.rs:653-707 | so they do, when no call is half done, if overlapping calls never touch the same id |
| `RuleRuns.OverlapBreaks` | nitellad-rs/src/manager.rs:356-379 | a removal within an addition of the same rule leaves a row without a rule |
| `RuleRuns.ReloadsOverlap` | nitellad-rs/src/manager.rs:677-707 | two reloads of a proxy that both list its rows first leave the rows of both, and the rules of one |
| `RuleManager.Retain` | nitellad-rs/src/manager.rs:653-664 | the filtering loop leaves the rules of the matchers that stay |
| `RuleManager.ProxyManager.AddRule` | nitellad-rs/src/manager.rs:356-379 | refines the addition in memory and table; an unknown proxy is an error that changes nothing |
| `RuleManager.ProxyManager.RemoveRule` | nitellad-rs/src/manager.rs:653-675 | refines the removal |
| `RuleManager.ProxyManager.ReloadRules` | nitellad-rs/src/manager.rs:677-707 | refines the reload, loops over old and new rows included |
| `RuleManager.ProxyManager.DeleteRows` | nitellad-rs/src/manager.rs:695-699 | deletes exactly the rows of the proxy |
| `RuleManager.ProxyManager.AddGlobalRule` | nitellad-rs/src/manager.rs:531-580 | refines the addition; a temporary rule gets no row |
| `RuleManager.ProxyManager.RemoveGlobalRule` | nitellad-rs/src/manager.rs:582-599 | refines the removal |
| `RuleManager.ProxyManager.CollectExpired` | nitellad-rs/src/manager.rs:74-83 | collects exactly the expired ids |
| `RuleManager.ProxyManager.DropExpired` | nitellad-rs/src/manager.rs:85-102 | drops the collected rules, and their deadlines if a rule went |
| `Modular.InverseUndoes` | pkg/crypto/envelope.go:288-292 | a modular inverse undoes its argument |
| `Modular.InverseExists` | pkg/crypto/envelope.go:288-292 | whatever has an inverse gets one |
| `Curve.Reverse` | pkg/crypto/envelope.go:349-355 | the loop mirrors the bytes |
| `Curve.LittleEndianBytes` | pkg/crypto/envelope.go:302-314 | the copy loop turns the minimal big-endian digits into 32 little-endian bytes of the same value |
| `Curve.IsSmallOrderPoint` | pkg/crypto/envelope.go:253-270 | the nested loops decide membership in the list |
| `Curve.MapsBack` | pkg/crypto/envelope.go:272-300 | u = (1+y)/(1-y) is the same relation as y = (u-1)/(u+1) |
| `Curve.MapIsFunction` | pkg/crypto/envelope.go:272-300 | a y has at most one u |
| `Curve.MapIsInjective` | pkg/crypto/envelope.go:272-300 | a u has at most one y modulo p |
| `Curve.MapReaches` | pkg/crypto/envelope.go:272-300 | every u whose successor is invertible comes from a y |
| `Curve.MapDefinedIff` | pkg/crypto/envelope.go:282-300 | the quotient computed is the u of y, and there is no inverse exactly when no u exists |
| `Curve.PublicKey` | pkg/crypto/envelope.go:274-322 | success gives 32 little-endian bytes of a reduced u with u(1-y) = 1+y; failure means that there is none, or that it is listed; overflow never happens |
| `Curve.ImageIsUnique` | pkg/crypto/envelope.go:274-322 | there is one such string of bytes |
| `Curve.MaskedBound` | pkg/crypto/envelope.go:276-281 | y is below 2^255, and may exceed p by up to 18 |
| `Curve.MaskedShort` | pkg/crypto/envelope.go:276-281 | a short key is padded with zeros |
| `Curve.MaskedLong` | pkg/crypto/envelope.go:276-281 | of a full or longer key only the first 32 bytes count, less the top bit |
| `Curve.SameBytesIff` | pkg/crypto/envelope.go:274-322 | two keys convert to the same bytes exactly when they agree but for the sign bit or their y differ by p |
| `SmallOrder.NearModulus` | pkg/crypto/envelope.go:243-251 | the values of the listed strings around p |
| `SmallOrder.OrderEight` | pkg/crypto/envelope.go:247-248 | three doublings and no fewer take the two other listed points to the neutral element |
| `SmallOrder.EightImages` | pkg/crypto/envelope.go:247-248 | these two strings are the images of the two y |
| `SmallOrder.RejectedIff` | pkg/crypto/envelope.go:243-270 | a conversion meets the list exactly for y = -1, y = 0, and the two opposite y of the points of order 8 |
| `Curve.PrivateKey` | pkg/crypto/envelope.go:326-342 | clamps in place, copies out, wipes the upper half |
| `Curve.ClampedScalar` | pkg/crypto/envelope.go:331-334 | a clamped scalar is a multiple of 8 in [2^254, 2^255) |
| `Curve.ClampedKeepsBits` | pkg/crypto/envelope.go:331-334 | all other bits stay |
| `Envelope.RoundTripIff` | pkg/crypto/envelope.go:31-59 | packing and unpacking returns the payload, less fingerprint and signature, exactly when key and nonce have their sizes |
| `Envelope.ReadBack` | pkg/crypto/envelope.go:31-59 | a string unpacks to a sized payload exactly when it is its packing |
| `GeoCache.WalkIsUncached` | nitellad-rs/src/geoip.rs:224-265 | a walk ends at the cached row, at the uncached answer, or nowhere together with it |
| `GeoCache.UncachedIff` | nitellad-rs/src/geoip.rs:233-265 | without a cache the answer is that of the first step whose source knows the address: the local one, or for a public address the remote one |
| `GeoCache.AnswerIff` | nitellad-rs/src/geoip.rs:233-265 | with the cache it is that of the first step to answer from its source or from a row that is there, readable and fresh; nowhere if none answers |
| `GeoCache.WritesIff` | nitellad-rs/src/geoip.rs:243-262 | exactly what was found at a source is written down |
| `GeoCache.PrivateStaysHere` | nitellad-rs/src/geoip.rs:250-256 | for an address that is not public the remote source makes no difference |
| `GeoCache.RowHasWriter` | nitellad-rs/src/geoip.rs:85-113 | a row is what an earlier lookup of its address would have answered uncached, overlapping lookups included |
| `GeoCache.AnswerHasOrigin` | nitellad-rs/src/geoip.rs:224-265 | with changing sources and overlapping lookups, an answer is the uncached one or that of an earlier lookup within the time to live |
| `GeoCache.CacheIsTransparent` | nitellad-rs/src/geoip.rs:224-265 | with fixed sources the cache changes no answer, for every time to live, step order, clock, table failure and overlap of lookups |
| `GeoCache.LookupAlone` | nitellad-rs/src/geoip.rs:224-265 | a lookup that nothing overlaps reads and writes as one step |
| `GeoCache.FoundIsServed` | nitellad-rs/src/geoip.rs:49-113 | what was found is served from the cache exactly while fresh |
| `GeoCache.GeoIpService.LookupRow` | nitellad-rs/src/geoip.rs:49-83 | a row that is there, readable and fresh |
| `GeoCache.GeoIpService.Lookup` | nitellad-rs/src/geoip.rs:224-265 | the loop over the strategy gives the walk's answer and leaves its table |
| `Expression.ValuesRoundTrip` | pkg/config/loader.go:84-96 | quoted values are recovered |
| `Expression.MatchOfShown` | pkg/config/loader.go:59-59 | the pattern matches a printed matcher, all of it, whatever follows |
| `Expression.MatchIff` | pkg/config/loader.go:59-59 | the pattern matches the head of a text exactly when it is an optional "!", a word and a parenthesis up to the next ")" |
| `Expression.FindAllIff` | pkg/config/loader.go:71-75 | the matches found are all there are, leftmost first, none overlapping |
| `Expression.MatchesOfPrinted` | pkg/config/loader.go:71-104 | all matchers of a printed text are found, in order |
| `Expression.ParseOfPrinted` | pkg/config/loader.go:62-108 | parsing a printed text gives its matchers and one operator, exactly determined |
| `Expression.OperatorRecoveredIff` | pkg/config/loader.go:64-70 | print and parse: a common operator is recovered exactly when no value hides a stronger one, none for a single matcher exactly when no value hides any |
| `Expression.HiddenOperator` | pkg/config/loader.go:64-70 | a text whose value hides an operator and that is read as a disjunction |
| `Expression.ParsedIsWellFormed` | pkg/config/loader.go:59-104 | the matchers of any text are well formed: a word, and values trimmed, not empty and free of the delimiters |
| `Expression.MatchersRecoveredIff` | pkg/config/loader.go:62-108 | print and parse: the matchers are recovered exactly when all are well formed |
| `Expression.ComplementIff` | pkg/config/loader.go:111-145 | negating all matchers and swapping the operator complements the result, exactly when there is a matcher |
| `Expression.ReadAsUsualIff` | pkg/config/loader.go:64-145 | the single operator gives the usual reading exactly when operators are not mixed |
| `Expression.PrintedMeansUsual` | pkg/config/loader.go:62-145 | print, parse, evaluate: an unmixed expression means what it says unless it is a conjunction with a value that hides "||" |
| `Expression.PrintedMeansUsualIff` | pkg/config/loader.go:62-145 | and such a conjunction does exactly when its matchers are all the same |
| `Expression.ParseValues` | pkg/config/loader.go:84-96 | refines the reading of values |
| `Expression.TrimAll` | pkg/config/loader.go:89-94 | the loop keeps the non-empty trimmed parts |
| `TextTools.TrimParts` | pkg/config/loader.go:90-90 | a trim takes off space at the ends, all of it, and nothing else |
| `TextTools.SplitRejoins` | pkg/config/loader.go:89-89 | the parts of a split, joined again, are the text |
| `TextTools.PartsAreFree` | pkg/config/loader.go:89-89 | and none holds the separator |
| `Expression.ParseRuleExpression` | pkg/config/loader.go:62-108 | refines parsing; a text without matchers is an error |
| `Expression.Evaluate` | pkg/config/loader.go:111-145 | the loops compute the disjunction, the conjunction, or the first result |
| `Header.DecimalRoundTrip` | pkg/config/header.go:46-64 | a version printed is read back |
| `Header.ParsedIsGood` | pkg/config/header.go:39-56 | every header read has a word type, a version in range and a clean checksum |
| `Header.ParsesIff` | pkg/config/header.go:30-56 | a line is read as a header exactly when, trimmed, it has the form of one: its words, blanks only where they may be, a version in range |
| `Header.HeaderText` | pkg/config/header.go:59-64 | the text of one header, letter by letter |
| `Header.HeaderRoundTripIff` | pkg/config/header.go:39-64 | a header survives printing and parsing exactly when it is of this kind |
| `Header.GenerateChecksum` | pkg/config/header.go:77-97 | the scan finds what is hashed: all after the first newline, or all of a text without one |
| `Header.WriteWithHeader` | pkg/config/header.go:125-143 | refines the writing of a file |
| `Header.ReadsOfFile` | pkg/config/header.go:100-163 | what extraction and verification make of any file with a good header |
| `Header.WriteRoundTripIff` | pkg/config/header.go:125-163 | body, type and version are read back exactly when the type is a word and the version a non-negative int |
| `Header.WrittenHeader` | pkg/config/header.go:100-163 | what is written verifies, with or without a checksum, which does not depend on the header line |
| `Header.HexIsInjective` | pkg/config/header.go:95-96 | different digests have different texts |
| `Header.HexAt` | pkg/config/header.go:95-96 | the digits of a digest: two a byte, the high one first, in lower case |
| `Header.ReplacedBodyIff` | pkg/config/header.go:77-122 | a replaced body verifies under the old header exactly when its digest is the same |

## Left out

- Machine integers: counters, byte totals and times are unbounded; the 64-bit ranges of the statistics and the clock are not modelled. The version of a header is held to the 64-bit range, and key arithmetic is on unbounded integers in the source too.
- Timers: a waiting connection may time out at any moment, a sweep or an eviction may come at any moment; the lengths of these intervals are not modelled. A waiter whose channel is dropped counts as timed out.
- Request and connection ids are fresh in the gate, as random UUIDs are; outside the gate reused ids are covered. Proxy ids are random UUIDs too, so that none is the name under which global rules are stored.
- `Gate`: one connection is one address, rule and proxy. TLS, the choice of back ends, mock and fallback responses, idle timeouts, forced closing and event broadcasts are not modelled.
- `Stats`: the separate atomic additions of one registration, and those of one transfer, are one step, in `Gate` too; a reader between them may see totals that do not add up yet.
- GateSafety.DecisionIsCarriedOut: says where a woken connection ends once its own steps have come; that they come at all, fairness of the scheduler, is not modelled.
- The variant of a decision write that carries location is called only by a test of the repository, and nothing calls the counting of blocked attempts.
- Pending.PendingState.RequestApproval: the alert that is sent to the approvers is not modelled.
- `Rule`: mock responses and the expression text are not fields of the model, and rate limits are carried but not enforced.
- Parsing of addresses and networks and lower-casing of text are parameters of `Matching`; a network is a family, an address and a prefix length.
- `RuleStore`: every statement on the table succeeds, a database is always present, and rules held in a child process are not modelled.
- `RuleManager`: each method is one call that nothing overlaps; overlapping calls are `GlobalRuns` and `RuleRuns`.
- `GlobalStore`: one call at a time, on a table that starts empty; the statement on the table that ends a call on global rules is not interleaved with other calls there.
- SHA-256 and SHA-512 are parameters; key agreement, encryption, signatures and HKDF are not modelled.
- Primality of 2^255-19 is not used: an invalid point is said to have no u, not to have y = 1.
- The remote and local GeoIP sources are oracles, and a read of the cache table fails or succeeds for a whole lookup.
- The conditions inside a rule expression (country, address, certificate and so on) are a parameter of the evaluator.
- Texts are sequences of characters; invalid UTF-8 is not modelled.
- gRPC and admin handlers, the mobile back end, command-line tools, peer-to-peer transport, pairing and certificate handling are plumbing over libraries and are not modelled.
