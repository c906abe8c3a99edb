# UMANet: a verified model of the switch core

UMANet is a userspace switch for microVMs. RX cores poll VMs and the NIC, scatter each burst into
per-destination buckets and push them into rings; TX cores drain the rings into VMs and NIC queues; a slow
path learns addresses and rebuilds the polling plans about once a second. This project models the logic those
loops share state through, and proves what holds over every run.

| file | what it models |
|---|---|
| `Plans.dfy`, `Switch.dfy` | polling plans, placement, replanning; runs of whole attach, detach and replan operations |
| `PlanTable.dfy` | the same operations as loops over arrays, proved against `Plans` and `Switch` |
| `CasProtocol.dfy` | attach and detach as single loads and compare-and-swaps, any interleaving of callbacks and address learning |
| `Races.dfy` | what a replan inside an attach or a detach does, for every place it can fall |
| `Dispatch.dfy`, `RxLoop.dfy` | routing, and the scatter and flush of a burst, with persistent bucket counters |
| `VhostTx.dfy` | sending to VMs: one retry, backoff, packet ownership |
| `Order.dfy` | VM-to-VM order through poll, scatter, ring and send together |
| `Poll.dfy`, `Window.dfy`, `Ecn.dfy` | adaptive polling, the ten-slot activity window, round-robin ECN marking |
| `Routing.dfy` | address learning and the last-octet table |
| `EthTx.dfy` | the path to the NIC: rewrite, offload fields, partial send, requeue |
| `Rng.dfy` | the 48-bit linear congruential generator |
| `Topology.dfy`, `Finite.dfy`, `Arith.dfy` | sizes, counting and division facts |

## Assumptions

- Vids are below 64 and the vhost library never hands out a live vid; there is at least one core of each kind
  and between 1 and 20 NIC TX queues.
- Two levels of concurrency are kept apart. In `Switch` attach, detach and replan are atomic. In `CasProtocol`
  loads and swaps of any number of callbacks on distinct vids interleave with one another and with the slow
  path's address learning, with no replan in flight. `Races` shows why: for each window of a callback it gives
  the exact condition under which one replan of a side leaves that side consistent. An attach tolerates a
  replan between its swap and its record exactly when the chosen core is the one already recorded, and a
  replan between listing and swap only when the 64th VM of a single core is then turned away; otherwise the VM
  is entered twice. A detach never tolerates a replan between its search and its swap: either another VM of
  that core is lost from every plan or, when the VM was alone on its core, the 16-bit count of the published
  plan wraps to 65535.
- A detach returns early, with its device still listed and planned, exactly when the slow path learns that
  device again after the detach marked it safe to remove (`CasProtocol.GivesUpExactly`,
  `CasProtocol.OnlyLearningStopsDetach`). The runs of `CasProtocol` assume that such a vid is not attached
  again; `CasProtocol.AttachNeedsFreeVid` shows that the assumption is needed.
- A published list or plan is an immutable value with a fresh version number; memory reclamation and weak
  memory ordering are outside the model.
- A ring is a FIFO whose enqueue accepts a prefix; the guest and the NIC accept any prefix of what they are
  offered or fail; the flow hash is an arbitrary function; clock readings are inputs.
- Burst dispatch is stated for devices whose address is known; the learning burst hands its first packet to
  the slow path as well.
- The statistics macros are taken as enabled; without `DATAPLANE_STATS` every window stays zero.

## Where comments and code differ

The model follows the code.

- `src/fast/poll.h:6-10` describes polling every 2nd, 4th and 8th iteration; the gate polls every 4th, 8th and
  16th (`src/fast/vhost_rx.c:117-128`).
- `src/fast/poll.h:19` gives the idle score the range -8 to 32; it never exceeds 17.
- `src/fast/eth_rx.c:14` and `src/fast/vhost_rx.c:23` announce an address or 0; the second returns a truth value.
- In `lib/utils/rng.c:48-49` the order of the two draws is unspecified in C; the model draws the high part first.
- A VM whose first frame is neither IPv4 nor ARP is marked ready under address 0
  (`src/vhost/vmdq.c:37-56`); `Routing.FirstFrameWithoutAddress` and `Routing.FirstLinkExact` give the effect
  and the exact condition under which learning is right.

## Model

| member | source | states |
|---|---|---|
| Rng.WrapIsExact | lib/utils/rng.c:36-42 | the product and sum that wrap at 64 bits give the same next state as exact arithmetic modulo 2^48, with the multiplier and increment written out |
| Rng.FullPeriod | lib/utils/rng.c:27-42 | from every seed the state returns to itself after exactly the multiples of 2^48 calls |
| Rng.OrbitInjective | lib/utils/rng.c:36-42 | two calls leave the same state exactly when their numbers agree modulo 2^48 |
| Rng.EveryStateOnce | lib/utils/rng.c:36-42 | every 48-bit state is reached by exactly one number of calls below 2^48 |
| Rng.GeoDivisibility | lib/utils/rng.c:27-42 | for a multiplier that is 1 modulo 4 the geometric sum is divisible by exactly the powers of two that divide its length |
| Rng.SeedsStayApart | lib/utils/rng.c:31-42 | generators seeded with different low 48 bits never hold the same state after the same number of calls |
| Rng.Generator.constructor | lib/utils/rng.c:31-34 | bit by bit: the low 48 bits of the seed, flipped where the multiplier has a bit |
| Rng.OutputBits | lib/utils/rng.c:41 | a call returns the state shifted right by 16 bits |
| Rng.Generator.Gen32 | lib/utils/rng.c:36-42 | the new state in exact arithmetic; bit i of the result is bit i + 16 of the state |
| Rng.Generator.GenNumerator | lib/utils/rng.c:44-51 | the numerator is below 2^53; its high part is the first state without its low 22 bits, its low part the second without its low 21 |
| Rng.Generator.Fill | lib/utils/rng.c:53-70 | every byte of the buffer and the number of draws, one more than the whole words |
| Rng.FillWord | lib/utils/rng.c:55-60 | the four bytes of a whole word are the top 32 bits of its state, little-endian |
| Rng.FillTail | lib/utils/rng.c:62-68 | the tail bytes are the top bytes of one more word |
| Rng.StoreTail | lib/utils/rng.c:62-68 | the tail bytes are the last word's bytes, most significant first |
| Plans.FirstLeast | src/vhost/plan.c:48-57 | the first core with the fewest VMs |
| Plans.ExactlyOneCore | src/vhost/plan.c:48-151 | under the plan invariant a live vid is in one plan and a dead one in none |
| Plans.AddKeepsInv | src/vhost/plan.c:48-95 | adding a free vid always fits and keeps the invariant |
| Plans.AddMeaning | src/vhost/plan.c:48-95 | an add appends to the first core with the fewest VMs and records it, changing nothing else; it fails exactly when all plans are full |
| Plans.RemoveKeepsInv | src/vhost/plan.c:97-151 | the search finds the recorded core, and removal keeps the invariant |
| Plans.RemoveMeaning | src/vhost/plan.c:97-151 | a removal takes out the vid's entry and keeps the order of the others, changing nothing else; it fails exactly when no plan has the vid |
| Plans.NewPlanPermutes | src/slow/slowpath.c:85-147 | for any statistics the new plan is the old set, active vids ascending and then the rest ascending |
| Plans.ReplanMeaning | src/slow/slowpath.c:79-198 | every RX plan becomes its busy members ascending and then the others ascending, every TX plan its members ascending |
| Plans.ReplanKeepsInv | src/slow/slowpath.c:79-150 | a replan keeps the invariant, the recorded cores and every plan's size |
| Plans.ReplanTxIdempotent | src/slow/slowpath.c:152-198 | a second TX replan changes nothing |
| Switch.StepKeepsSafe | src/slow/slowpath.c:63-68 | every attach, detach and replan keeps both sides' invariants and the list counter |
| Switch.ReplanReorders | src/slow/slowpath.c:63-68 | the state after a replan: busy members first on RX, sorted on TX, list and recorded cores unchanged |
| Switch.AttachSucceeds | src/vhost/device.c:108-191 | attaching a free vid never fails and appends it to the first least loaded core of each side |
| Switch.DetachSucceeds | src/vhost/device.c:45-105 | detaching a live vid goes through all stages and takes exactly its entry out of each side |
| Switch.RunKeepsSafe | src/vhost/device.c:45-191 | every run of attach, detach and replan keeps both sides' invariants and the list counter |
| Switch.RunLive | src/vhost/device.c:45-191 | the live set is what the run's attaches and detaches say |
| Switch.OnePollerOneSender | src/vhost/plan.c:48-256 | after every run an attached VM has exactly one poller and one sender, any other VM none |
| Switch.RoundRobin | src/vhost/plan.c:48-62 | without detach the j-th attached VM is on core j mod k of each side and plan sizes differ by at most one |
| PlanTable.IndexOf | src/vhost/plan.c:124-130 | the first position of a vid in a plan, 0 when it is not there |
| PlanTable.DropVid | src/vhost/plan.c:114-137 | the search, the shift and the 16-bit count for any vid, present or not |
| Plans.ShrinkMeaning | src/vhost/plan.c:124-137 | a listed vid is removed in place; an absent one costs the plan its first entry; the count of an empty plan wraps to 65535 |
| PlanTable.PlanWithout | src/vhost/plan.c:114-137 | for a listed vid the plan without its first occurrence, order kept |
| PlanTable.CutOffHarmless | src/slow/slowpath.c:138-145 | when the plan is full no probe is left, so the cut-off excludes no VM |
| PlanTable.Side.constructor | src/vhost/plan.c:14-46 | empty plans |
| PlanTable.Side.PlanAdd | src/vhost/plan.c:48-95 | the scan and copy append to the first least loaded core; fails exactly when every plan is full |
| PlanTable.Side.PlanRemove | src/vhost/plan.c:97-151 | the search and shift take the vid's entry out; fails exactly when the vid is in no plan |
| PlanTable.Side.BuildPlan | src/slow/slowpath.c:85-145 | the three loops build the active vids ascending and then the rest, nothing cut off |
| PlanTable.Side.ReplanSide | src/slow/slowpath.c:79-198 | all cores are rebuilt in turn from their own old plans |
| PlanTable.Devices.constructor | src/vhost/device.c:215-226 | the empty list |
| PlanTable.Devices.NewDevice | src/vhost/device.c:108-191 | the attach sequence with its early returns; succeeds for a free vid, which is then learning its address and last on its core of each side |
| PlanTable.Devices.DestroyDevice | src/vhost/device.c:45-105 | the detach sequence with its early returns; the device is marked safe to remove and its entry is gone from each side |
| PlanTable.Devices.ReplanBoth | src/slow/slowpath.c:63-68 | a replan of both sides: RX busy members first, TX sorted, nothing else changed |
| CasProtocol.FrameKeepsVid | src/vhost/plan.c:64-90 | what one callback knows survives every step of the others |
| CasProtocol.SwapKeepsSide | src/vhost/plan.c:84-87 | a successful plan swap keeps the plans the replay of all swaps and every vid in one place |
| CasProtocol.StepKeepsInv | src/vhost/device.c:45-191 | every load, check, swap, failed swap, record and learning step keeps the protocol invariant, which has a scan hold the first least of the plans it loaded |
| CasProtocol.EveryInterleaving | src/vhost/device.c:45-191 | at every point of every interleaving the list and plans are the replay of all successful swaps, the counter is the number of devices, and no callback meets a full list, a full plan or a missing vid |
| CasProtocol.AttachGoesToLeast | src/vhost/plan.c:48-90 | in every interleaving the core whose plan an attach swaps is the first with the fewest VMs among the plans its scan read, one read step per core |
| CasProtocol.CallbackAlone | src/vhost/device.c:45-191 | from every reachable state a callback that runs alone completes: the list, and on each side the first least loaded core or the vid's own, changed as by one whole operation |
| CasProtocol.GivesUpExactly | src/vhost/device.c:52-72 | a detach returns early at its check exactly when its device was learned since it was marked safe to remove |
| CasProtocol.OnlyLearningStopsDetach | src/vhost/device.c:68-72 | in every run a detach that gave up was overtaken by learning of its device, and no other give-up is reached |
| CasProtocol.LearningStopsDetach | src/vhost/vmdq.c:56 | from every state with a listed idle vid such a run exists and leaves list and plans as they were |
| CasProtocol.AttachNeedsFreeVid | src/vhost/device.c:146-147 | an attach keeps the counter and the plans right exactly when its vid is not listed yet |
| CasProtocol.SwapIsExact | src/vhost/plan.c:117-140 | a successful swap adds or removes exactly its own vid in the version it replaces |
| CasProtocol.FailuresBounded | src/vhost/plan.c:65-90 | a callback's failed swaps never exceed the other callbacks' successes since it began |
| CasProtocol.Quiescent | src/vhost/plan.c:48-256 | when no callback runs, both sides satisfy the plan invariant for the listed devices, also after a detach that gave up |
| Races.AttachWindowExact | src/vhost/device.c:149-184 | for each place a replan can fall in an attach, exactly when the side is consistent afterwards |
| Races.AttachRaceExact | src/vhost/plan.c:84-91 | with a replan between the swap and the record: exactly when the chosen core was already recorded |
| Races.AttachAfterReplan | src/vhost/plan.c:48-90 | with a replan between listing and the swap: only when the 64th VM of a single core is turned away |
| Races.AttachRaceTwice | src/vhost/plan.c:48-90 | on an empty single core that replan makes the plan list its VM twice |
| Races.ReplanFollowsList | src/slow/slowpath.c:79-150 | a replan makes the plans consistent with whatever list it sees, adopting and dropping vids |
| Races.AttachRaceTwoPollers | src/vhost/plan.c:84-91 | a concrete replan between swap and record leaves a VM with two pollers |
| Races.DetachWindowExact | src/vhost/plan.c:97-148 | a detach leaves the side consistent for every place a replan can fall, except between the search and the swap |
| Races.DetachRaceOutcome | src/vhost/plan.c:108-140 | in that window another live VM is lost from every plan, or the count wraps to 65535 when the VM was alone; never consistent |
| Races.DetachRaceCountWraps | src/vhost/plan.c:137 | a concrete detach that publishes a count of 65535 for 64 slots |
| Races.DropRemoves | src/vhost/plan.c:115-148 | without interference the same memory operations are exactly removal |
| Dispatch.Partition | src/fast/vhost_rx.c:164-237 | a packet occurs in the list of its own route as often as in the burst and in no other list |
| Dispatch.SetBitOnly | src/fast/vhost_rx.c:210-213 | setting a destination's bit in the mask changes that bit only |
| Dispatch.SetBitFits | src/fast/vhost_rx.c:151-213 | setting a destination's bit keeps the mask a word of its size |
| Dispatch.Rows.Put | src/fast/vhost_rx.c:209 | appends to one bucket and leaves the others |
| Dispatch.Rows.Flush | src/fast/vhost_rx.c:247-258 | takes the prefix that fits and resets one bucket |
| RxLoop.RxCore.constructor | src/fast/vhost_rx.c:67-79 | all counters start at zero |
| RxLoop.RxCore.PutVm | src/fast/vhost_rx.c:209-218 | bucket, 64-bit mask and destination list stay in step; the full-list branch is dead |
| RxLoop.RxCore.Scatter | src/fast/vhost_rx.c:150-237 | each bucket is the arrival-ordered sub-burst of its destination, the list holds each destination once, the mask is its set in 64 bits |
| RxLoop.RxCore.FlushQueues | src/fast/vhost_rx.c:239-259 | each queue gets a prefix, the rest is freed, counters return to zero |
| RxLoop.RxCore.FlushVms | src/fast/vhost_rx.c:261-278 | each listed VM gets a prefix, the rest is lost, counters return to zero; the early exit is dead |
| RxLoop.RxCore.Process | src/fast/vhost_rx.c:150-287 | a whole burst from clean buckets back to clean buckets |
| RxLoop.RxCore.ProcessAll | src/fast/vhost_rx.c:84-289 | any number of bursts, each starting with all counters zero |
| RxLoop.RxCore.FromVm | src/fast/vhost_rx.c:164-287 | the burst of a VM |
| RxLoop.RxCore.FromNic | src/fast/eth_rx.c:63-155 | the burst of the NIC, the same scatter without NIC queues |
| VhostTx.VisitMeaning | src/fast/vhost_tx.c:20-132 | by the guest's answer: what a visit offers, delivers, frees, counts and keeps for retry, and when it blocks |
| VhostTx.DeliveredIsReceived | src/fast/vhost_tx.c:58-132 | over every run the delivered packets are those a guest takes that is given only the offers and gives the answers |
| VhostTx.CountsAreReceived | src/fast/vhost_tx.c:99-128 | from start-up the two counters count exactly those, modulo 2^32 |
| VhostTx.RunBalanced | src/fast/vhost_tx.c:20-132 | over every run dequeued packets are freed plus pending, offers at most two, delivered is the two counters modulo 2^32, a pending retry means blocked |
| VhostTx.OwnershipOfOne | src/fast/vhost_tx.c:55-132 | a packet dequeued once is freed at most once, offered at most twice, and not freed while it waits |
| VhostTx.OwnershipFromStart | src/fast/vhost_tx.c:20-132 | the same from start-up: in every run the books balance, no packet is freed twice or offered more than twice |
| VhostTx.RetryFirst | src/fast/vhost_tx.c:27-33 | over any run with a retry pending nothing is dequeued before the retry is served, and the first attempt serves exactly the retry |
| VhostTx.BackoffHolds | src/fast/vhost_tx.c:27-28 | after a short send the next attempt is the first visit at least BACKOFF_TSC later |
| VhostTx.TxCtx.constructor | src/dataplane.c:135-146 | every VM active with no retry |
| VhostTx.TxCtx.Send | src/fast/vhost_tx.c:55-102 | the accepted prefix is freed, the rest becomes the retry, other VMs are untouched |
| VhostTx.TxCtx.Resend | src/fast/vhost_tx.c:104-132 | the retry is offered once more and freed whole |
| VhostTx.TxCtx.VisitVm | src/fast/vhost_tx.c:21-51 | one VM's turn is one step of the run model, by the guest's answer |
| Order.StepKeepsInv | src/fast/vhost_rx.c:164-278 | every poll, flush, foreign enqueue and send keeps delivered, waiting and queued packets in polling order |
| Order.DeliveryInOrder | src/ring.c:19-25 | in every run what a VM received from another VM is an in-order subsequence of what was polled from it |
| Order.NothingDisappears | src/fast/vhost_rx.c:164-278 | in every run what was polled for a VM entered its ring, is in the bucket or was lost to a full ring; what entered was delivered, waits, is queued or was dropped by a refused retry |
| Order.SendMeaning | src/fast/vhost_tx.c:20-132 | one send by the guest's answer: delivered prefix, waiting or dropped rest |
| Order.BurstArrives | src/fast/vhost_rx.c:164-278 | through an idle pipeline poll, flush and send deliver exactly the burst's packets for the VM, in order |
| Poll.FrozenExactlyAt17 | src/fast/poll.h:33-49 | frozen exactly at score 17 |
| Poll.AdvanceReachable | src/fast/poll.h:23-49 | the state is a function of the score by the five bands, the score moves by -4 or +1 within -8 to 17, the upper clamp is never used, 17 sets the deadline |
| Poll.GateExactly | src/fast/vhost_rx.c:113-133 | the exact iterations in which each score is polled |
| Poll.FreezeLasts | src/fast/poll.h:44-48 | a freeze lasts 100000 cycles from the clock of the freezing poll: none before, one at the first iteration after |
| Poll.RunReachable | src/fast/vhost_rx.c:113-137 | the same over every run |
| Poll.NinePollsPerFreeze | src/fast/vhost_rx.c:129-137 | a frozen VM polled idle any number of times is frozen exactly after every ninth poll |
| Poll.IdleFreezes | src/fast/poll.h:26-49 | from any other state exactly after 17 less the score, and then after every ninth |
| Poll.RunIsPolls | src/fast/vhost_rx.c:113-137 | a run of iterations does what its polls do |
| Poll.IdleRunCycle | src/fast/vhost_rx.c:113-137 | over any run of iterations an always-idle VM is frozen exactly at those poll counts |
| Poll.IdleRunFreezes | src/fast/vhost_rx.c:113-137 | and it freezes within 16 iterations for each poll it needs |
| Poll.BusyRunHot | src/fast/vhost_rx.c:113-137 | an always-busy VM that is not frozen is hot after 64 iterations and from then on |
| Poll.PollsAtLeast | src/fast/vhost_rx.c:113-128 | while it is not frozen a VM gets at least one poll per 16 iterations |
| Poll.BusyReachesHot | src/fast/poll.h:24-35 | hot after k busy polls exactly when 4k covers the score; four always suffice |
| Poll.PolledWithin16 | src/fast/vhost_rx.c:113-128 | a VM that is not frozen is polled within any 16 iterations, also over a counter wrap |
| Poll.FrozenUntilDeadline | src/fast/vhost_rx.c:129-133 | a frozen VM is polled in the first iteration at its deadline and in none before |
| Poll.VhostAp.constructor | src/dataplane.c:119-121 | hot, score zero |
| Poll.VhostAp.UpdateRxState | src/fast/poll.h:23-49 | the in-place update and the tally of the resulting state |
| Poll.VhostAp.Visit | src/fast/vhost_rx.c:113-137 | gate, thaw, poll and update are one step of the run model |
| Window.WindowIsLastTen | src/slow/slowpath.c:94-99 | the sum over the circular slots is the total of the last ten intervals modulo 2^32 |
| Window.RotateTracks | src/slow/slowpath.c:110-113 | a rotation starts a new interval and drops the oldest |
| Window.BumpTracks | src/fast/vhost_rx.c:176 | adding to the current slot adds to the current interval |
| Window.VdevStats.constructor | src/dataplane.c:112-118 | zeroed statistics |
| Window.VdevStats.AddPackets | src/fast/vhost_rx.c:304 | packets go to the current interval |
| Window.VdevStats.AddBytes | src/fast/vhost_rx.c:176 | bytes go to the current interval |
| Window.VdevStats.IsActive | src/slow/slowpath.c:94-107 | the verdict is the last-ten-intervals total against the thresholds |
| Window.VdevStats.Rotate | src/slow/slowpath.c:109-113 | both windows move on one interval |
| Ecn.MarkMeaning | src/fast/ecn.h:34-46 | ECN-capable IPv4 packets become CE, nothing else changes, marking twice is marking once |
| Ecn.MarkPackets | src/fast/ecn.h:13-32 | below 8192 nothing; then the j-th packet is marked exactly when the wrapped counter it meets is a multiple of 16, 4 or 1 by level; the counter advances by the burst |
| Ecn.MarkingRate | src/fast/ecn.h:19-31 | among any n consecutive packets n/16, n/4 or n are selected by level, rounded down or up, over a wrap as well |
| Ecn.RunMarkingRate | src/fast/ecn.h:13-32 | the same for the total of any run of bursts at one level |
| Ecn.HigherSelectsMore | src/fast/ecn.h:19-26 | a higher level selects a superset |
| Ecn.CounterTracks | src/fast/ecn.h:28-31 | the counter after a run has moved on by the counted packets, wrapped |
| Ecn.FlagAt | src/fast/ecn.h:28-31 | with the counter handed from burst to burst, the i-th counted packet of a run is selected exactly when its level's interval divides the start value plus i, wrapped |
| Ecn.SelectedAreFlags | src/fast/ecn.h:13-32 | the number of selected packets of a run is the number of raised flags |
| Ecn.SixteenContainMark | src/fast/ecn.h:13-32 | among the flags of a run any 16 consecutive ones include a raised one, whatever the levels |
| Routing.FirstLinkExact | src/vhost/vmdq.c:16-59 | first learning keeps the table exact exactly when the address is local and its octet free |
| Routing.RelinkExact | src/vhost/vmdq.c:36-56 | learning again keeps it exact exactly when the address is unchanged |
| Routing.FirstFrameWithoutAddress | src/vhost/vmdq.c:37-56 | a first frame without an address makes the table claim an address nobody has |
| Routing.DetachExact | src/vhost/vmdq.c:65-94 | unlinking forgets the device and its address, keeps the others and keeps the table exact |
| Routing.RoutesAreExact | src/vhost/route.c:10-39 | after every run the table finds a vid exactly when the address is its own and the events made it learned since its last attach, and nobody exactly when there is none |
| Routing.LearnedMeaning | src/vhost/vmdq.c:16-94 | learned means: some event learned it after an attach, with no detach or new attach since |
| Routing.DispatchAgrees | src/fast/vhost_rx.c:200-207 | with an exact table a packet goes to a VM exactly when that VM has the destination in its header |
| Routing.DispatchAfterRun | src/fast/vhost_rx.c:180-235 | after every run and for every header, each route of both loops: slow path, the VM that owns the destination, nobody, or the queue of the hash of addresses, ports and protocol |
| Dispatch.RouteFromVm | src/fast/vhost_rx.c:24-61 | by header kind: destination, subnet test, octet lookup, and the flow that is hashed |
| Dispatch.RouteFromNic | src/fast/eth_rx.c:15-30 | by header kind: destination, subnet test and octet lookup, address 0 excluded |
| Routing.Router.constructor | src/vhost/route.c:10-15 | all entries empty |
| Routing.Router.AddRouteEntry | src/vhost/route.c:17-27 | adds only to a free octet and says so |
| Routing.Router.RemoveRouteEntry | src/vhost/route.c:29-39 | clears the octet and says whether it was set |
| Routing.Router.LinkVmdq | src/vhost/vmdq.c:16-59 | one learning step: the device's address and state, and its octet if it was free |
| Routing.Router.UnlinkAndForget | src/vhost/vmdq.c:65-94 | one unlinking step: the device is gone and the octet of a ready one is cleared |
| EthTx.PrepareMeaning | src/include/fastpath.h:76-125 | addresses, flag bits, header lengths and segment size of a prepared packet, by packet kind |
| EthTx.PrepareIdempotent | src/fast/eth_tx.c:34-52 | a second pass of rewrite and offload setup changes nothing |
| EthTx.RequeueHarmless | src/include/fastpath.h:76-125 | any number of passes equals one |
| EthTx.TurnSplits | src/fast/eth_tx.c:86-95 | a dequeued burst splits into sent, requeued and freed |
| EthTx.TurnMeaning | src/fast/eth_tx.c:20-111 | by the NIC's answer: which packets of the first 64 are sent, requeued at the tail and freed |
| EthTx.TurnWireMeaning | src/fast/eth_tx.c:73-77 | the wire carries exactly the accepted prefix, each packet after one more pass |
| EthTx.RunConserves | src/fast/eth_tx.c:20-117 | over every run each arrived packet is in the ring, sent or freed, and the wire carries once-prepared packets |
| EthTx.TxQueue.TakeTurn | src/fast/eth_tx.c:20-117 | one turn is one step of the run model: prepared burst, sent prefix, requeued at the tail, rest freed, counters |
| EthTx.TxQueue.SendBurst | src/fast/eth_tx.c:60-117 | the burst of that turn on the ring itself |
| EthTx.RewriteAll | src/fast/eth_tx.c:34-52 | the header loop in place |
| EthTx.OffloadAll | src/include/fastpath.h:76-125 | the offload loop in place |
| EthTx.QueuesOf | src/fast/eth_tx.c:20 | a core visits exactly the queues congruent to its index, so each ring has one consumer |

## Left out

- Allocation failures in the callbacks and the slow path: an early return that leaves the structures as they are.
- Plans.ReplanTxIdempotent: stated for tables that satisfy the invariant, as every run keeps it.
- PlanTable.Side.BuildPlan: takes the per-VM activity verdicts as flags; `Window.VdevStats.IsActive` computes one.
- Routing.RoutesAreExact: assumes one local address per vid with distinct octets; the link lemmas give the exact condition per step.
- EthTx.RunConserves: packet order on the NIC path is not claimed, because leftovers go to the ring's tail.
- The burst that triggers address learning, and packet ownership in the ARP responder (src/slow/arp.c).
- Buffers of packets lost to a full VM ring or an unroutable address: they are reported as separate lists, not as freed.
- RxLoop.RxCore.FromNic: does not rewrite MAC addresses or repair checksums (src/fast/eth_rx.c:105-121); the packets are routed and bucketed unchanged.
- Ecn.MarkMeaning: the checksum refresh after marking is delegated to library code.
- Races.AttachWindowExact: one atomic replan of one side; a replan that is itself interrupted is not modelled.
- Races.DetachWindowExact: likewise; when the search fails the callback returns and leaves the other side to the next replan, and what a loop finds past the 64th slot is not modelled.
- CasProtocol.OnlyLearningStopsDetach: of learning only the write of the device state is modelled; the route table is in `Routing`.
- Floating-point division of the generator's numerator.
- NIC set-up, hardware flow rules, configuration parsing, logging, dashboard, and the log-processing and plotting scripts.
