# NDTwin kernel, P4 edition: models and proofs

A Dafny model of the algorithms and protocols of the NDTwin kernel whose promises are the hardest to
keep, with proofs over every input, every run or every reachable state. Code that computes is modelled
by functions; loops and objects that change in place are methods and classes proved against them;
cooperating threads and greenlets are step relations whose steps end where the source yields or
releases its mutex.

| modules | what they model |
|---|---|
| `RouteWalk`, `Prefixes`, `ShortestPaths`, `PortsToward`, `EnergyPlan`, `ConsistentUpdate`, `EnergyPass`, `EnergyChoice` | the energy-saving app: longest-prefix forwarding, the route check, the search round a switch, the rewrites, what every partly written fabric does, the conversation with the kernel, and the two halves joined (`NoMomentLosesARoute`) |
| `ReinstallWorker`, `TopologyWorker` | the two greenlet protocols of the routing controller |
| `InstallInterleaved`, `InstallStatic`, `InstallQuiet`, `InstallReport` | its rule installation, while the graph changes and while it does not, that the two agree, and the paths it reports |
| `QdiscTree`, `NetemLedger`, `NetemState`, `NetemInjector` | cutting a link and taking the cut back on a machine whose queueing disciplines others edit too |
| `StopProtocol` | stopping child processes without ever signalling a reused process id |
| `FailureLog`, `FailureHistory` | the keyed failure log and what its state means in terms of the whole history |
| `FrameIdentity`, `FrameLayout`, `FlowDiff` | the flow key of a sampled frame, and the difference of two flow tables |
| `LinkTelemetry`, `TelemetryCommands`, `TelemetryEmitter` | the plan of the sampling filters, the commands that install them, the manifest, and the emitter that reads it back |

Numbers used as keys or elements of collections are wrapped (`Dpid`, `Port`, `Key`, `Handle`). Where the
source iterates in sorted, hash or insertion order, the model takes any order, and the statements hold
for all of them. Replies, command outcomes and reads are arbitrary inputs.

## Where the code does less than is written about it

- `examples/p4_energy_saving/energy_saving.py:374` says every route still works while the switch stays on,
  rewritten or not. The route check looks only at the planned tables. A route works throughout exactly when
  it worked before the first write (`WorksThroughoutIffItWorked`); `CheckIgnoresOldRoutes` is a fabric in
  which one did not, and for which planning makes a plan that is accepted all the same.
- `examples/p4_energy_saving/energy_saving.py:295-317` is written to leave no lock behind. A lock that is granted
  without a lease is never released; the pass then posts nothing more (`NothingPostedWithoutLease`).
- `intelligent_router.py:942-951` promises a complete rebuild after the last switch-enter event. In an idle
  state there has been one exactly when the last rebuild was not aborted (`IdleMeansRebuiltUnlessAborted`);
  one that aborts on a failed read leaves the switch queued and unnotified with the flag clear
  (`AbortStrandsSwitch`).
- A reinstall worker that dies of an exception leaves its change unrouted with nothing scheduled
  (`DyingWorkerLosesChange`); in every other idle state the routes are up to date (`NoChangeIsLost`), and in any
  state they are exactly when the last finished walk began at the current sequence number
  (`UpToDateBySequence`).
- `include/utils/KeyedFailureLog.hpp:113-117` says that closing a pass twice reports every open fault as
  recovered. It reports exactly the reported faults that have by the second close not been seen for
  `forgetAfter` (`SecondCloseRecovers`, `SecondCloseOfSeen`); `SecondCloseKeepsReported` is one that is kept.
- With the destination's switch disconnected, `install_all_pair_paths` installs nothing and still reports
  paths between the hosts of that switch (`ReportWithoutRules`).
- The rollback of a cut restores the tree exactly when its root is an htb shaper, or the system's default with
  nothing hanging from it (`UndoRestores`, `ShaperIsKept`, `OtherShaperIsLost`).
- Deleting this kernel's netem takes exactly that and what another party stacked onto it
  (`DeleteTakesTargetAndBelow`, `DeleteTakesOnlyTarget`).

## Model

| member | source | states |
|---|---|---|
| `Prefixes.PrefixHolds` | examples/p4_energy_saving/route_walk.py:16-22 | for 32-bit addresses an lpm match holds an address if and only if the first so many of the 32 binary digits agree, and is then that specific |
| `Prefixes.PrefixExtremes` | examples/p4_energy_saving/route_walk.py:16-22 | an exact match is one on all 32 digits, and a match on none holds every address |
| `Prefixes.EntryCovers` | examples/p4_energy_saving/route_walk.py:37-38 | an entry is followed for exactly the addresses its match holds, and for none if its match lacks the field |
| `RouteWalk.BestSelects` | examples/p4_energy_saving/route_walk.py:25-39 | the scan settles on the first entry of greatest prefix length among those that match, and on none exactly when none matches |
| `RouteWalk.NextPort` | examples/p4_energy_saving/route_walk.py:25-39 | the loop returns the port of that entry |
| `RouteWalk.SelectionIgnoresPorts` | examples/p4_energy_saving/route_walk.py:25-39 | tables with the same matches select the same index, whatever their ports |
| `RouteWalk.HopFollowsTable` | examples/p4_energy_saving/route_walk.py:42-64 | a packet is delivered if and only if the selected entry's port is where the host is plugged in, and forwarded if and only if not and that port has a link, to that neighbour |
| `RouteWalk.HopCountUnique` | examples/p4_energy_saving/route_walk.py:42-64 | a packet is delivered after at most one number of hops |
| `RouteWalk.LoopNeverDelivers` | examples/p4_energy_saving/route_walk.py:42-64 | a packet that returns to a switch is never delivered, however long one waits |
| `RouteWalk.DeadEndNeverDelivers` | examples/p4_energy_saving/route_walk.py:42-64 | a packet that stops short is never delivered |
| `RouteWalk.Walk` | examples/p4_energy_saving/route_walk.py:42-64 | ends, visits the switches forwarding visits, and says delivered exactly when unbounded forwarding delivers |
| `RouteWalk.DeliveryPathUnique` | examples/p4_energy_saving/route_walk.py:42-64 | a pair has one delivery path |
| `RouteWalk.FirstBrokenRoute` | examples/p4_energy_saving/route_walk.py:67-78 | None exactly when every host reaches every other past the avoided switch, else the first pair in order that does not |
| `RouteWalk.OffTakesNoPart` | examples/p4_energy_saving/energy_saving.py:337-348 | a switch that is off forwards nothing and no switch forwards to it |
| `RouteWalk.PowerOffKeepsRoute` | examples/p4_energy_saving/energy_saving.py:337-348 | removing a switch and its links keeps every delivery path that avoids it |
| `RouteWalk.PowerOffKeepsAllRoutes` | examples/p4_energy_saving/energy_saving.py:337-348 | after a check that finds no broken route, the power-off leaves every pair connected over exactly the paths it had |
| `ShortestPaths.LevelsAreDistances` | examples/p4_energy_saving/energy_saving.py:170-183 | levels that step down and are closed under links are the exact distances, and exist exactly where there is a way |
| `PortsToward.ScanLinks` | examples/p4_energy_saving/energy_saving.py:175-182 | the inner loops compute one round of the search |
| `PortsToward.BfsLevels` | examples/p4_energy_saving/energy_saving.py:170-183 | the finished search tree steps down a level at every switch and misses no link |
| `PortsToward.TowardIsShortest` | examples/p4_energy_saving/energy_saving.py:170-183 | the tree holds exactly the switches that reach the target without entering the avoided one, and each port starts a shortest such way |
| `PortsToward.TreePathIsShortest` | examples/p4_energy_saving/energy_saving.py:170-183 | from every switch in the tree, following the ports gives one path, and it has the fewest hops of all ways round the avoided switch |
| `PortsToward.PortsToward` | examples/p4_energy_saving/energy_saving.py:170-183 | the queue loop ends and has that result |
| `EnergyPlan.CollectPorts` | examples/p4_energy_saving/energy_saving.py:244-246 | the ports collected for an entry are those of the ways to the hosts it covers |
| `EnergyPlan.FindSingleWay` | examples/p4_energy_saving/energy_saving.py:244-248 | finds the one new port exactly when all covered hosts agree on it |
| `EnergyPlan.PlanTable` | examples/p4_energy_saving/energy_saving.py:239-254 | one table: entries that lead to the victim get their one way round, all others stay, order and matches kept |
| `EnergyPlan.PlanRewrites` | examples/p4_energy_saving/energy_saving.py:224-255 | refuses for a reason that holds, or returns exactly the rewrites of the entries that lead to the victim, on every other switch |
| `EnergyPlan.PlanMovesOffVictim` | examples/p4_energy_saving/energy_saving.py:224-255 | no planned entry leads to the victim, and each new port starts a shortest way round it to every host the entry covers |
| `EnergyPlan.PlanForwardsPastVictim` | examples/p4_energy_saving/energy_saving.py:224-255 | under the planned tables no other switch forwards any packet to the victim |
| `EnergyPlan.OnlyLeadingEntriesChange` | examples/p4_energy_saving/energy_saving.py:239-243 | an entry whose port does not lead to the victim is left as it is |
| `ConsistentUpdate.PlanIsDetour` | examples/p4_energy_saving/energy_saving.py:224-255 | an accepted plan changes only ports, only of entries that lead to the victim, and never back to it |
| `ConsistentUpdate.WritesMix` | examples/p4_energy_saving/energy_saving.py:258-263 | after any planned writes, in any order and however often, every entry is the old or the planned one |
| `ConsistentUpdate.MixtureDelivers` | examples/p4_energy_saving/energy_saving.py:372-382 | if the planned tables deliver and the old ones deliver from the victim, every mixture of the two delivers |
| `ConsistentUpdate.MixtureDeliversPair` | examples/p4_energy_saving/energy_saving.py:372-382 | if old and planned tables deliver a pair, every mixture does |
| `ConsistentUpdate.WorksThroughoutIffItWorked` | examples/p4_energy_saving/energy_saving.py:372-382 | given the check, a route works in every mixture if and only if it worked before |
| `ConsistentUpdate.EveryWritePrefixDelivers` | examples/p4_energy_saving/energy_saving.py:258-263 | the same for all pairs at once, over every sequence of writes that may have landed |
| `ConsistentUpdate.AllWritten` | examples/p4_energy_saving/energy_saving.py:258-263 | once all rewrites have landed the planned switches hold the planned tables |
| `ConsistentUpdate.PassEndsWithEveryRoute` | examples/p4_energy_saving/energy_saving.py:364-401 | with all of the plan written and the victim off, every host reaches every other |
| `ConsistentUpdate.CheckIgnoresOldRoutes` | examples/p4_energy_saving/energy_saving.py:224-255 | a concrete fabric for which planning, in every search order, makes a plan that passes the check although a pair is not delivered before the first write |
| `EnergyPass.ReplySaysNothingWritten` | examples/p4_energy_saving/energy_saving.py:61-79 | a failure counts as proof that nothing was written if and only if the interface documents it, and of all that may have become of a request so answered nothing can have had an effect |
| `EnergyPass.WriteIsRepeated` | examples/p4_energy_saving/energy_saving.py:111-128 | a write is sent again if and only if the kernel says it was not sent on, or the proxy was busy |
| `EnergyPass.ReadIsRepeated` | examples/p4_energy_saving/energy_saving.py:111-128 | a read is sent again after a 502, 503 or 504 if and only if that is not the proxy's final answer, nor a time-out of a read that was sent |
| `EnergyPass.Client.Send` | examples/p4_energy_saving/energy_saving.py:111-128 | the same request each time, repeated only after a retryable failure; of a POST every send but the last had a reply that proves nothing was written |
| `EnergyPass.OnlyLastSendTakesEffect` | examples/p4_energy_saving/energy_saving.py:111-128 | over the whole log of a pass, of all sends of one planned write, or of the power-off, every one but the last had a reply that proves nothing was done |
| `EnergyPass.NothingFollowsABadReply` | examples/p4_energy_saving/energy_saving.py:320-401 | after a reply that could not be used, or a write or power-off in doubt, nothing is sent but the release |
| `EnergyPass.NothingPostedWithoutLease` | examples/p4_energy_saving/energy_saving.py:295-317 | after a lock granted without a lease nothing is posted |
| `EnergyPass.Client.ReadAll` | examples/p4_energy_saving/energy_saving.py:215-221 | every read is sent and shows all it should, or the one that fails, shows no rows or rows that were not rendered ends the pass and is its cause |
| `EnergyPass.ConfirmsMeans` | examples/p4_energy_saving/energy_saving.py:266-269 | a table confirms a write if and only if its first row with the same match and priority has the port written |
| `EnergyPass.Client.VerifyTable` | examples/p4_energy_saving/energy_saving.py:264-270 | confirms a table exactly as it was last shown, or names a read-back that does not confirm it |
| `EnergyPass.Client.WriteEntries` | examples/p4_energy_saving/energy_saving.py:258-263 | the writes go out in plan order; exactly those before the first failure were answered, and the failing one is the last exchange |
| `EnergyPass.Client.VerifyTables` | examples/p4_energy_saving/energy_saving.py:264-270 | every table written to is confirmed as it was last shown, or the last exchange is what did not confirm it |
| `EnergyPass.Client.ApplyAndVerify` | examples/p4_energy_saving/energy_saving.py:258-270 | writes in plan order; success means all answered and all shown, failure names the write or read at fault and what was answered before |
| `EnergyPass.Client.Acquire` | examples/p4_energy_saving/energy_saving.py:302 | the pass starts by asking for the lock and knows afterwards whether it has a lease; a refusal has its cause in the log |
| `EnergyPass.Client.Renew` | examples/p4_energy_saving/energy_saving.py:273-275 | the lock counts as renewed exactly when the kernel said so |
| `EnergyPass.Client.Plan` | examples/p4_energy_saving/energy_saving.py:320-363 | only reads are sent; the pass goes on if and only if a switch was chosen, the links are not too busy, it is no dry run and every read showed all it should; otherwise the last exchange explains the outcome |
| `EnergyPass.Client.Write` | examples/p4_energy_saving/energy_saving.py:364-382 | goes on only under a lock renewed before the writes, with every write answered and shown; otherwise the last exchange explains the outcome |
| `EnergyPass.Client.OnePass` | examples/p4_energy_saving/energy_saving.py:320-401 | for every sequence of replies: with busy links or in a dry run nothing is renewed, written or turned off; otherwise nothing is without its licence; a pass that returns has read all that planning consults, says too busy if and only if the links are, dry run if and only if it is one with a switch chosen, and every outcome, exceptions included, is explained by the last exchange |
| `EnergyPass.Client.TurnOff` | examples/p4_energy_saving/energy_saving.py:383-401 | power-off is sent only under a lock renewed since the last write, with every write answered and shown |
| `EnergyPass.Client.PowerOffAndLook` | examples/p4_energy_saving/energy_saving.py:391-401 | reports the switch as off only if the power-off was sent and the read of its state says so |
| `EnergyPass.Client.GiveBack` | examples/p4_energy_saving/energy_saving.py:305-317 | whatever the pass came to, the lock's release is the last thing sent; a pass that returned and could not release raises, and one that raised keeps its own cause |
| `EnergyPass.Client.RunOnce` | examples/p4_energy_saving/energy_saving.py:295-317 | for every sequence of replies: a lock granted with a lease is followed by a release attempt, the last thing sent, and after one without nothing is posted; a pass that returns has released it; with busy links or in a dry run nothing is renewed, written or turned off, otherwise all writes and power-offs are licensed; what is returned, or raised, has its cause in the log, and says too busy or dry run if and only if that is so |
| `EnergyChoice.ChooseSwitch` | examples/p4_energy_saving/energy_saving.py:337-348 | takes the first candidate whose plan exists and passes the check; every one before it is rejected for a reason that holds |
| `EnergyChoice.NoMomentLosesARoute` | examples/p4_energy_saving/energy_saving.py:337-401 | in every conversation that keeps to an accepted choice, at every moment and for every set of writes that may have landed, each pair that was connected still is, and a power-off is sent only when doing without the switch leaves all pairs connected |
| `ReinstallWorker.StepKeepsInvariant` | intelligent_router.py:747-827 | every step of events and worker keeps the protocol's invariant |
| `ReinstallWorker.NoChangeIsLost` | intelligent_router.py:747-827 | in every reachable state with no worker running after a link event, the last finished walk started at the current sequence number, on the current graph, with no event inside it, unless the worker died |
| `ReinstallWorker.UpToDateBySequence` | intelligent_router.py:747-827 | in every state of every run, the routes are those of the present graph, from a walk no event fell into, if and only if the last finished walk started at the current sequence number |
| `ReinstallWorker.WalkStartsAfterQuiet` | intelligent_router.py:776-809 | in every run a walk starts only after a quiet period into which no link event fell, and then only with the initial install done or waited for as often as allowed |
| `ReinstallWorker.DyingWorkerLosesChange` | intelligent_router.py:764-827 | a run in which a raising walk leaves a change unrouted |
| `ReinstallWorker.WorkerProgresses` | intelligent_router.py:764-827 | each worker step decreases a rank, and a running worker always has one to take |
| `ReinstallWorker.QuietEndsUpToDate` | intelligent_router.py:764-827 | once links are quiet and the worker can do no more, the routes are those of the present graph |
| `TopologyWorker.NoEnterIsLost` | intelligent_router.py:929-964 | in every state of every run, an event no rebuild has started after leaves the flag set, and every queued switch is pending, in the batch, or notified since |
| `TopologyWorker.IdleMeansNotified` | intelligent_router.py:953-1073 | in an idle state only switches still pending can be unnotified, there are none unless the last rebuild aborted, and a rebuild has started since every event |
| `TopologyWorker.IdleMeansRebuiltUnlessAborted` | intelligent_router.py:942-964 | in every idle state of every run in which a switch has entered, a rebuild that started after the last event has run to its end if and only if the last rebuild was not aborted |
| `TopologyWorker.RebuiltMeansDone` | intelligent_router.py:953-1073 | at every moment there has been such a rebuild if and only if none is asked for and the last to end was not aborted |
| `TopologyWorker.AbortStrandsSwitch` | intelligent_router.py:953-1061 | a run that ends idle with a switch queued and unnotified, and no complete rebuild since it entered |
| `TopologyWorker.WorkerSettles` | intelligent_router.py:953-1073 | each worker step decreases a rank |
| `TopologyWorker.WorkerIsNeverStuck` | intelligent_router.py:953-1073 | a worker that is not idle has a step to take |
| `InstallInterleaved.StepKeepsInvariant` | intelligent_router.py:1611-1739 | every turn of the walk and every change of links or switches keeps each rule pointing to a switch written earlier in the walk, or to the host |
| `InstallInterleaved.WrittenSwitchArrives` | intelligent_router.py:1611-1739 | from the i-th switch written, following rules arrives within i hops |
| `InstallInterleaved.WrittenSwitchesAlwaysDeliver` | intelligent_router.py:1611-1739 | over every interleaving, at every moment, every switch written in this walk delivers, whatever stale rules others hold |
| `InstallInterleaved.OthersKeepTheirRules` | intelligent_router.py:1611-1739 | switches the walk did not write keep their entries |
| `InstallQuiet.QuietWalkInstallsAll` | intelligent_router.py:1603-1739 | a walk into which no event falls, once its queue is empty, has written exactly the switches that reach the destination over links present both ways, once each, every rule a hop of a shortest route |
| `InstallStatic.WalkIsInstalled` | intelligent_router.py:1603-1739 | the finished walk has rules at the exact distances and nowhere else |
| `InstallStatic.InstallToward` | intelligent_router.py:1603-1739 | ends; exactly the connected switches that reach the destination over links present both ways get a rule, one write each, every rule a hop of a shortest route |
| `InstallReport.RulesFixThePath` | intelligent_router.py:1742-1786 | the rules determine one path from a switch |
| `InstallReport.RulePathIsShortest` | intelligent_router.py:1603-1739 | the whole path that the rules make packets take has the fewest hops there are over links present both ways |
| `InstallReport.ReportFollowsRules` | intelligent_router.py:1742-1786 | a route reported parent by parent is the route packets take by the rules |
| `InstallReport.RouteFrom` | intelligent_router.py:1744-1767 | the inner loop ends, and its path follows the parents from the switch to the host |
| `InstallReport.ReportToward` | intelligent_router.py:1742-1786 | one entry for each host on each switch the walk reached, the destination apart |
| `InstallReport.InstallAllPairs` | intelligent_router.py:1565-1802 | exactly one path per ordered pair of different hosts whose source switch was reached |
| `InstallReport.ReportIsTrue` | intelligent_router.py:1742-1786 | with the destination's switch connected a pair is reported if and only if its source switch has a rule, and the path starts at the source's port and is the rules' path |
| `InstallReport.ReportWithoutRules` | intelligent_router.py:1742-1786 | with it disconnected no switch has a rule, and a pair is reported if and only if both hosts share that switch |
| `StopProtocol.StepKeepsInvariant` | include/utils/StopSignal.hpp:107-287 | every step of requests, runners and strangers keeps the invariant |
| `StopProtocol.NeverSignalsReapedPid` | include/utils/StopSignal.hpp:107-128 | over every interleaving every signal hits a runner's own unreaped child |
| `StopProtocol.StopReachesEveryChild` | include/utils/StopSignal.hpp:107-128 | once a request has returned, every child not released was signalled, or its runner has yet to register or to kill |
| `StopProtocol.RunnerMustSend` | include/utils/StopSignal.hpp:381-482 | such a runner can only move on to killing, and from there only by sending the signal |
| `StopProtocol.NoNewChildAfterStop` | include/utils/StopSignal.hpp:381-482 | a call that begins after the stop starts no child |
| `StopProtocol.NoSignalBeforeStop` | include/utils/StopSignal.hpp:107-128 | in every run, before a stop is requested no signal is sent and no runner has to kill its child |
| `StopProtocol.LookBeforeStopMayStart` | include/utils/StopSignal.hpp:381-482 | a call that looked before the stop may start its child under any free pid until it has tried, and one that looked after it may not |
| `StopProtocol.EveryChildWasLookedFor` | include/utils/StopSignal.hpp:381-482 | every call about to start its child looked before the stop |
| `FailureLog.KeyedFailureLog.constructor` | include/utils/KeyedFailureLog.hpp:86-91 | empty, with twice `reportAfter` as the default memory |
| `FailureLog.KeyedFailureLog.Record` | include/utils/KeyedFailureLog.hpp:103-106 | the last message of a key in a pass counts |
| `FailureLog.KeyedFailureLog.EndPass` | include/utils/KeyedFailureLog.hpp:120-203 | entries, reports and recoveries are, key for key, what the key's whole history calls for |
| `FailureLog.KeyedFailureLog.CloseAll` | include/utils/KeyedFailureLog.hpp:120-203 | the three loops close every key once |
| `FailureHistory.EntryDescribesHistory` | include/utils/KeyedFailureLog.hpp:120-203 | for every history with non-decreasing times a key is open exactly while its last run is remembered, with that run's start, end, count and verdict |
| `FailureHistory.ReportedWhenItHasLasted` | include/utils/KeyedFailureLog.hpp:120-203 | a failure is reported if and only if this sighting is the first at which its run has lasted `reportAfter` |
| `FailureHistory.RecoveredWhenItIsOver` | include/utils/KeyedFailureLog.hpp:120-203 | a recovery is reported if and only if this pass ends a reported run, with the number of passes it was seen in |
| `FailureHistory.ReportsAlternate` | include/utils/KeyedFailureLog.hpp:120-203 | for every history reports and recoveries of a key strictly alternate, a report first |
| `FailureHistory.SecondCloseRecovers` | include/utils/KeyedFailureLog.hpp:113-117 | a second close, at any later time, recovers a key if and only if its open run had been reported and was last seen `forgetAfter` or longer before |
| `FailureHistory.SecondCloseOfSeen` | include/utils/KeyedFailureLog.hpp:113-117 | for a key seen in the pass closed twice: if and only if it had been reported and `forgetAfter` lies between the closes |
| `FailureHistory.SecondCloseKeepsReported` | include/utils/KeyedFailureLog.hpp:113-117 | a reported fault that a second close at once does not recover, and a later one does |
| `QdiscTree.PlanByLines` | include/utils/NetemLinkFault.hpp:167-239 | told from the lines: the netem goes on the default class of an htb root that names one, at the root of any other, and nowhere if and only if the tree is empty, has a netem, no root, or an htb root that names no class, with that reason |
| `QdiscTree.ShaperIsKept` | include/utils/NetemLinkFault.hpp:216-229 | with an htb root that names a class and nothing on it, a cut keeps every line, adds one netem on that class of that root, and its undoing gives back the tree |
| `QdiscTree.OtherRootIsReplaced` | include/utils/NetemLinkFault.hpp:236-239 | with any other root, a cut takes its place and loses exactly the root and what hangs below it |
| `QdiscTree.PlanFindsPlace` | include/utils/NetemLinkFault.hpp:167-239 | planning finds a place exactly in the trees that have one, free exactly if nothing is on the class, and an attach there is a cut as described by the lines |
| `QdiscTree.UndoRestores` | include/utils/NetemLinkFault.hpp:167-239 | cut then undo gives back the tree if and only if the root is an htb shaper or the default with nothing hanging from it; otherwise the tree with its root reset |
| `QdiscTree.CutHasOneNetem` | include/utils/NetemLinkFault.hpp:167-239 | a tree that was cut had no netem and now has exactly the new one, which is the one found |
| `QdiscTree.DeleteTakesTargetAndBelow` | include/utils/NetemLinkFault.hpp:517-546 | a delete, at the root as anywhere, takes exactly its target and what hangs below it |
| `QdiscTree.DeleteTakesOnlyTarget` | include/utils/NetemLinkFault.hpp:517-546 | a delete, at the root as anywhere, takes nothing but its target if and only if nothing hangs from that |
| `QdiscTree.OtherShaperIsLost` | include/utils/NetemLinkFault.hpp:236-239 | a tree with another root that a cut and its undoing do not give back |
| `NetemLedger.InjectedNetemLedger.Record` | include/utils/InjectedNetemLedger.hpp:90-108 | the interface's entry is replaced or added, all others kept |
| `NetemLedger.InjectedNetemLedger.Find` | include/utils/InjectedNetemLedger.hpp:117-129 | the named handle of the interface, and nothing for an entry without one |
| `NetemLedger.InjectedNetemLedger.Forget` | include/utils/InjectedNetemLedger.hpp:133-145 | the interface's entry goes, all others stay |
| `NetemState.NotCutLeavesNoTrace` | include/utils/NetemLinkFault.hpp:734-887 | a cut that did not come off, and none of whose undoing failed, leaves every tree as if nothing had been attached, and exactly as it was under an htb root or the default root |
| `NetemState.RecoveryTakesOffOurs` | src/ndt_core/http/HttpSession.cpp:1346-1448 | with no failed read or delete, a recovery takes this kernel's netem off every end that carries one and changes no other tree |
| `NetemState.RecoveryUndoesCut` | src/ndt_core/http/HttpSession.cpp:1346-1448 | a cut that could be read back, then such a recovery, leaves every tree as if nothing had been attached, exactly as it was under an htb root or the default root, and no claim |
| `NetemInjector.Injector.Inspect` | include/utils/NetemLinkFault.hpp:455-508 | unreadable exactly for a foreign name or a failed read; of what is read, this kernel's exactly if the handle is the one the ledger names and its place is printed |
| `NetemInjector.Injector.Detach` | include/utils/NetemLinkFault.hpp:517-546 | the place is empty unless the delete failed, and success is told exactly if it went and no netem is seen afterwards |
| `NetemInjector.Injector.Restore` | include/utils/NetemLinkFault.hpp:668-709 | this kernel's netem comes off exactly unless the delete fails, nobody else's does; success gives up the claim and failure keeps it |
| `NetemInjector.Injector.CutInterface` | include/utils/NetemLinkFault.hpp:553-601 | cut if and only if the tree has a free place and neither the read nor the attach failed: one new netem on the default class of the shaper with every line kept, or in place of a root that is no shaper; otherwise unchanged, with the reason |
| `NetemInjector.Injector.PlanEnds` | include/utils/NetemLinkFault.hpp:753-834 | nothing is changed; blocked exactly by a failed read or an end that cannot be planned for, and every end then says why |
| `NetemInjector.Injector.AttachEnds` | include/utils/NetemLinkFault.hpp:836-858 | the ends are cut in order, one netem each and nothing else changed, up to the first that could not be, which says why |
| `NetemInjector.Injector.UndoEnd` | include/utils/NetemLinkFault.hpp:872-885 | the end is as if nothing had been attached, and unclaimed, if and only if no read or delete of its undoing failed |
| `NetemInjector.Injector.RollBack` | include/utils/NetemLinkFault.hpp:860-886 | every end is as if nothing had been attached, or a command of its undoing failed, its report says so and the netem is still there |
| `NetemInjector.Injector.CutLinkEnds` | include/utils/NetemLinkFault.hpp:734-887 | all ends are cut if and only if they are different interfaces that may be cut and no planning read, second read or attach failed; then each has one new netem, named in the ledger if the tree could be read back; otherwise none is and every end is accounted for |
| `NetemInjector.Injector.SightEnds` | src/ndt_core/http/HttpSession.cpp:1346-1364 | every end is read before anything is done, and seen as it is |
| `NetemInjector.Injector.RestoreEnds` | src/ndt_core/http/HttpSession.cpp:1427-1448 | end after end is taken back as it was seen, and nothing else changes |
| `NetemInjector.Injector.Recover` | src/ndt_core/http/HttpSession.cpp:1346-1448 | refuses, changing nothing, if and only if nothing is declared, nothing of this kernel's is seen and a netem of somebody's is; otherwise every end it sees as its own is taken back unless the delete fails, and no other |
| `NetemInjector.Injector.Run` | include/utils/NetemLinkFault.hpp:668-887 | over every run of cuts, recoveries and other parties' edits, each delete was of a netem this kernel attached there and lost nothing but that and what hung below it |
| `FrameIdentity.ResolveFindsTheEnd` | include/common_types/SFlowType.hpp:417-463 | the walk finds a header if and only if a chain of at most the allowed length leads to it |
| `FrameIdentity.WalkChain` | include/common_types/SFlowType.hpp:417-463 | the loop with its extra turn computes that walk with a limit of eight |
| `FrameIdentity.IdentifyFrame` | include/common_types/SFlowType.hpp:265-510 | reads only bytes that are there and computes the identity the lemmas below describe |
| `FrameIdentity.IdentifyIpv4` | include/common_types/SFlowType.hpp:326-398 | the IPv4 branch, options, fragments and truncation included |
| `FrameIdentity.IdentifyIpv6` | include/common_types/SFlowType.hpp:400-505 | the IPv6 branch |
| `FrameIdentity.Mac48` | include/common_types/SFlowType.hpp:223-232 | the six bytes, most significant first |
| `FrameIdentity.EveryKeyNamesOnlyItsFamily` | include/common_types/SFlowType.hpp:265-510 | for every byte string every field the key's family does not name is zero |
| `FrameIdentity.MacsDoNotSplitFlows` | include/common_types/SFlowType.hpp:265-510 | changing only MAC bytes changes no IPv4 or IPv6 identity, and of an L2 key only the MACs |
| `FrameIdentity.Ipv6KeyFollowsChain` | include/common_types/SFlowType.hpp:400-505 | an IPv6 key if and only if a captured chain of at most eight headers leads to a header that may be named, which is its protocol; otherwise the L2 key |
| `FrameLayout.L2RoundTrip` | include/common_types/SFlowType.hpp:287-327 | a frame of any other type, tagged or not and whatever it carries, is identified by the two addresses and the type its sender wrote, all else zero |
| `FrameLayout.EthernetCutOff` | include/common_types/SFlowType.hpp:278-281 | a capture shorter than an Ethernet header gives nothing |
| `FrameLayout.Ipv4RoundTrip` | include/common_types/SFlowType.hpp:326-398 | a frame laid out with any options, tag, flags and payload, and captured up to any byte after its header, is identified by as much of the five-tuple its sender wrote as was captured |
| `FrameLayout.Ipv4CutOff` | include/common_types/SFlowType.hpp:334-357 | a capture that ends inside the IPv4 header, or a header that states too short a length, gives the family and is not identified |
| `FrameLayout.ChainReads` | include/common_types/SFlowType.hpp:417-463 | the walk follows any laid-out chain to its end, and gives up exactly when it is longer than allowed |
| `FrameLayout.Ipv6RoundTrip` | include/common_types/SFlowType.hpp:400-505 | likewise for IPv6 with any extension headers; by the addresses and type of its Ethernet header when there are more than eight or the upper-layer header is one of seven opaque ones |
| `FrameLayout.Ipv6CutOff` | include/common_types/SFlowType.hpp:406-412 | a capture that ends inside the fixed IPv6 header gives the family and is not identified |
| `FrameLayout.Ipv6ChainCutOff` | include/common_types/SFlowType.hpp:430-470 | one that ends inside the first bytes of an extension header is identified by its Ethernet header |
| `FlowDiff.BuildMap` | include/common_types/SFlowType.hpp:1463-1474 | the map of the rules, of which the next row tells the meaning |
| `FlowDiff.MeaningOfRules` | include/common_types/SFlowType.hpp:1463-1474 | the map holds for a net, mask and priority the port of the last rule with exactly these three, and nothing if and only if there is none |
| `FlowDiff.EmptyMeansEqual` | include/common_types/SFlowType.hpp:1452-1545 | a switch's difference is empty if and only if its rules agree |
| `FlowDiff.PatchGivesNew` | include/common_types/SFlowType.hpp:1452-1545 | applying a difference to the old rules gives exactly the new |
| `FlowDiff.ReversedTakesBack` | include/common_types/SFlowType.hpp:1452-1545 | the reversed difference is the difference the other way |
| `FlowDiff.GetFlowTableDiff` | include/common_types/SFlowType.hpp:1452-1545 | one difference per switch whose rules send something elsewhere and none for others; told from the rules, its three lists hold exactly what is sent now and was not, was and is not, and is sent elsewhere, each key once |
| `FlowDiff.DisagreeByMeaning` | include/common_types/SFlowType.hpp:1452-1545 | two rule lists send everything alike if and only if their maps are equal |
| `FlowDiff.DiffIsExact` | include/common_types/SFlowType.hpp:1452-1545 | the result turns the old tables into the new, and reversed the new into the old, on every switch |
| `LinkTelemetry.PlanPort` | p4_proxy/mininet/link_telemetry.py:291-311 | a port's plan, or a refusal for a reason that holds, a collision in the sixteen bits included |
| `LinkTelemetry.KeyIsBits` | p4_proxy/mininet/link_telemetry.py:296-303 | two interface indices have the same key if and only if they agree in their low sixteen bits |
| `LinkTelemetry.PlanPorts` | p4_proxy/mininet/link_telemetry.py:289-311 | each cabled port of the switch once |
| `LinkTelemetry.PlanTelemetry` | p4_proxy/mininet/link_telemetry.py:232-325 | exactly the switches on the link path, no two interfaces with the same bits, or a refusal for a reason that holds |
| `LinkTelemetry.EgressOnlyAtHosts` | p4_proxy/mininet/link_telemetry.py:328-351 | an egress filter only where a host is attached |
| `LinkTelemetry.EveryDirectionHasOneSide` | p4_proxy/mininet/link_telemetry.py:291-311 | every direction of every cable between sampled ends is to be seen by exactly one side of one planned port |
| `TelemetryCommands.Commands` | p4_proxy/mininet/link_telemetry.py:328-351 | the loops issue, for the planned ports in order, the hook and then the filters each asks for |
| `TelemetryCommands.IssuedIsAskedFor` | p4_proxy/mininet/link_telemetry.py:328-351 | every command issued is asked for by a planned port |
| `TelemetryCommands.AskedForIsIssued` | p4_proxy/mininet/link_telemetry.py:328-351 | every command a planned port asks for is issued |
| `TelemetryCommands.HookComesFirst` | p4_proxy/mininet/link_telemetry.py:328-351 | before every filter comes the hook on its interface |
| `TelemetryCommands.CommandsAreDistinct` | p4_proxy/mininet/link_telemetry.py:328-351 | no command is issued twice |
| `TelemetryCommands.EveryDirectionIsSeenOnce` | p4_proxy/mininet/link_telemetry.py:328-351 | of all commands issued exactly one adds a filter that a frame in a given direction of a cable between sampled ends passes |
| `TelemetryEmitter.PlannedIsListed` | p4_proxy/mininet/link_telemetry.py:403-437 | the manifest lists every planned port |
| `TelemetryEmitter.ListedIsPlanned` | p4_proxy/mininet/link_telemetry.py:403-437 | and nothing else |
| `TelemetryEmitter.AgentsAreListed` | p4_proxy/mininet/link_telemetry.py:403-437 | the manifest lists the switches on the link path in order, each with the agent address the model gives it |
| `TelemetryEmitter.BuildPortMap` | p4_proxy/mininet/psample_sflow_emitter.py:282-309 | every listed side of a port has an entry under its bits, and every entry is one |
| `TelemetryEmitter.KeyLeadsBack` | p4_proxy/mininet/psample_sflow_emitter.py:282-309 | through plan, manifest and map the bits of a planned port lead back to that very port |
| `TelemetryEmitter.SampleComesBack` | p4_proxy/mininet/psample_sflow_emitter.py:391-434 | a sample of any planned filter, even if only sixteen bits of the index are reported, is attributed to exactly its switch, port and direction, with its full length and the rate the kernel states, or the planned one where it states none |
| `TelemetryEmitter.OnlyPlannedFiltersCount` | p4_proxy/mininet/psample_sflow_emitter.py:391-434 | and a sample is attributed only to a port whose planned filter took it |
| `TelemetryEmitter.DropsForTheReason` | p4_proxy/mininet/psample_sflow_emitter.py:391-434 | a sample is dropped as ambiguous, without direction, unknown or without size if and only if it reports both sides, none, no planned filter took it, or one did and the size is missing |
| `TelemetryEmitter.SentWhenPlanned` | p4_proxy/mininet/psample_sflow_emitter.py:472-492 | a message leads to an emission if and only if it is a sample of the right group, taken by a planned filter, with a size |
| `TelemetryEmitter.EveryMessageHasOneFate` | p4_proxy/mininet/psample_sflow_emitter.py:366-380 | over every run of messages each has one fate: samples are those to be sent plus the four kinds of drop, and with the other three kinds all messages |
| `TelemetryEmitter.Emitter.Convert` | p4_proxy/mininet/psample_sflow_emitter.py:391-434 | the sample, or none and the one right counter credited |
| `TelemetryEmitter.Emitter.Emit` | p4_proxy/mininet/psample_sflow_emitter.py:487-492 | a sample is emitted, and credited to its switch, or counted as failed, and never both |
| `TelemetryEmitter.Emitter.Handle` | p4_proxy/mininet/psample_sflow_emitter.py:472-492 | each counter keeps counting exactly its own kind, and what is sent is what should be |
| `TelemetryEmitter.Emitter.Take` | p4_proxy/mininet/psample_sflow_emitter.py:462-492 | a batch, a full socket buffer or an interrupted read: each message is handled once and each ENOBUFS counted once |
| `TelemetryEmitter.Emitter.CountersBalance` | p4_proxy/mininet/psample_sflow_emitter.py:366-380 | at every moment samples are emissions, failed emissions and the four kinds of drop |
| `TelemetryEmitter.Emitter.Run` | p4_proxy/mininet/psample_sflow_emitter.py:451-497 | whatever arrives, every message is handled, every ENOBUFS counted, the counters balance and what was sent, and for which switch, is what should have been |

## Left out

- HTTP, sockets, netlink, subprocesses, `/proc` and files: their outcomes are arbitrary inputs.
- `candidates` and `read_topology` of the energy app: filters and a parser; the candidate list is an input, constrained only by having no host attached.
- MAC-address parameters of rewritten entries: the route check follows ports only; confirming a write compares the port.
- Uniqueness of table keys: the theorems on landed writes take it that a table holds one entry per match and priority, as a switch does.
- `energy_saving_sdk.py`: the same policy over another library.
- EnergyPass.OnlyLastSendTakesEffect: no two rewrites of a plan are equal, as in tables with one entry per match and priority.
- Prefixes.PrefixHolds: addresses and match values are numbers of 32 bits; the dotted text is not modelled.
- Reply bodies are told apart by kind (lease, report, rows, power state, none of these); their JSON is not modelled.
- Settle times, timeouts, backoff, LLDP guards, signal-triggered dumps and all logging text.
- The `is_all_dst_biased` branch of `install_all_pair_paths`: constant false.
- The address index of `find_host_by_ip`, dynamic host learning, and more than one initial install.
- InstallInterleaved.WrittenSwitchesAlwaysDeliver: ports stay cabled as they are during a walk; a link event adds or removes graph edges, not cables.
- `StopSignal::reset`, `waitFor` and worker scopes.
- FailureLog.KeyedFailureLog.EndPass: the two report vectors are maps by key, so their order is not stated.
- FlowDiff.GetFlowTableDiff: the order of switches and of changes is not stated.
- `tc` text: trees are lists of tokenised lines, class ids are abstract, handles are never given out twice. Deleting a root gives the default root back, and adding one replaces the old root with what hangs from it.
- NetemInjector.Injector.Run: other parties' edits fall between whole calls, not inside one.
- NetemInjector.Injector.Recover: the two ends of a link are different interfaces, if they have names; the declaration flag is an input, and withdrawing it is left out.
- `restoreInterface`: deletes anybody's netem and is not called.
- `AutoRefreshQueue`, `counterDelta`, `classifyFlowLiveness`: short and independent.
- TelemetryEmitter.SampleComesBack: interface names of different planned ports are taken to differ, as they do in one network namespace.
- TelemetryCommands.EveryDirectionIsSeenOnce: likewise, and no port is taken to have both a host and a cable to a switch.
- TelemetryEmitter.Emitter.Run: switch names and the printed line are not modelled.
- The manifest's JSON text: ports are keys as numbers, not as their decimal strings.
- Topology files, launchers, port allocation, the web API and the vendored logging library.
