# Verified model of the RSVP-TE daemon

The daemon signals label-switched paths with RSVP-TE (RFC 2205, RFC 3209, RFC 4090).  This project models its
four load-bearing parts and proves what they promise.

* **Timer wheel** (`IntrusiveList`, `WheelModel`, `WheelRefinement`, `WheelRuns`, `WheelTimer`, `SoftState`).
  Five cascading levels of 256 + 4x64 slots on intrusive circular lists.  The specification is a set of timers
  with due ticks; the wheel refines it over every run, and the class `TimerWheel`, which relinks nodes in place,
  refines the wheel.  On top of it: how long a delay really takes, and why one lost refresh is harmless.
* **Labels** (`LabelPool`).  A bitmap with a moving search hint that always yields the lowest free label.
* **Messages** (`Wire`, `Builder`, `Objects`, `Parser`, `RoundTrip`, `ExplicitRoute`, `PathMessage`, `ResvMessage`,
  `Neighbours`).  The one's complement checksum, the object encoder and the object loop, and the round trip between
  them: every number and address of a PATH and a RESV is read back at the next node, and what that node's handler then
  does with it is tied to the blocks the message was made from.
* **State machine** (`StateDb`, `DbRuns`, `HashChains`, `BlockStore`, `RsvpState`, `RsvpSteps`, `RsvpInvariant`,
  `RsvpRuns`, `RsvpEffects`, `ResvOutcome`, `PathEffects`, `Requests`, `PathLineage`, `MbbSafety`, `MbbRuns`, `MbbTarget`,
  `BypassUp`, `FastReroute`, `Shutdown`, `Daemon`).  Path and reservation blocks in chained tables with pointers between them, labels, and the forwarding
  entries they drive.  `RsvpSteps` gives every handler, timer callback and operator call as a function from state to
  state, and the properties are proved about runs of these.  The class `Daemon` owns two tables of heap blocks chained
  through their `nextHash` fields and a label manager over its byte bitmap; its handlers write blocks through their
  addresses, unlink and free them, walk the buckets pointer by pointer, and are proved to take the state exactly where
  the step functions do.

`Common` holds what several modules share.

What the proofs found out about the code:

* A timer whose deadline is a multiple of 256 and at least 256 ticks away fires one tick after it; every other
  future deadline is met exactly (`WheelRuns.FireAtIsTight`).
* A delay counts whole ticks from the last tick, so a delay armed between two ticks is up to one tick short, not
  "at least d".  It lasts at least d exactly when it is zero, gains a tick by the point above, or its rounding up
  covers the part of the tick that had passed (`SoftState.DelayIsMetIff`; `SoftState.DelayCanBeShort` is an input).
* Completing a replacement tears down the first path of the table with the recorded tunnel and LSP ids, of
  whatever session.  `MbbTarget.ForeignPathIsTornDown` is a run from the start of the daemon in which another
  node's LSP is torn down and the incumbent stays; `MbbTarget.CompletionRemovesIncumbentIff` is the exact condition.
* Unlabelled traffic is known to forwarding by its destination only.  When a replacement completes at the ingress, the
  tear-down of the old path takes the entry that the RESV has just installed, so make-before-break leaves the
  destination without an entry (`ResvOutcome.CompletionKeepsPushIff`).
* FAST_REROUTE is always sent with the facility flag, so an LSP that asked for one-to-one backup is recorded as
  facility protected by the next node (`Neighbours.NextNodeRecordsFacility`).
* A recovery undoes a failure exactly when each switched path was on its own route and its bypass protects that
  interface; a path armed by hand with a bypass for another interface stays switched
  (`FastReroute.RecoveryUndoesFailureIff`).
* Arming for interface 0 never happens (`BypassUp.NoInterfaceArmsNothing`).
* The range check of the parser on class 0..127 applies to SCOPE (class 7) too: a message with a SCOPE object is
  refused as unknown (`RoundTrip.ScopeRejectsMessage`).
* Losing one refresh never expires a state; losing two does or does not, depending on the draws, and the sum of the
  three intervals decides it up to a few ticks (`SoftState.LossOfTwoRefreshes`).

## Model

| member | source | states |
|---|---|---|
| LabelPool.AllocTakesLowest | src/pi/label_mgr.c:80-105 | the wrap-around search from the hint returns the lowest free label, and 0 exactly when the range is full; only that label becomes allocated |
| LabelPool.ReleaseKeepsHint | src/pi/label_mgr.c:107-120 | a release frees that label only and keeps every label below the hint allocated |
| LabelPool.AllocThenRelease | src/pi/label_mgr.c:80-120 | releasing the label just allocated frees exactly it, and it is the next to be handed out |
| LabelPool.ProbeStaysInRange | src/pi/label_mgr.c:84-88 | no probe of the search wraps in 32 bits or leaves the range |
| LabelPool.NextFitRefinesLowestFit | src/pi/label_mgr.c:65-120 | over every run since initialisation, hint and bitmap answer as a plain set with lowest-free allocation does |
| LabelPool.LabelManager.constructor | src/pi/label_mgr.c:65-78 | initialisation gives an empty pool over the range, or no bitmap when memory is refused |
| LabelPool.LabelManager.SetAllocated | src/pi/label_mgr.c:48-52 | setting the bit of a label adds it to the set the bytes stand for, and no other |
| LabelPool.LabelManager.ClearAllocated | src/pi/label_mgr.c:59-63 | clearing the bit of a label removes it from that set, and no other |
| LabelPool.LabelManager.AllocLabel | src/pi/label_mgr.c:80-105 | the loop over the bitmap in place does what the pool does |
| LabelPool.LabelManager.FreeLabel | src/pi/label_mgr.c:107-120 | freeing in place does what the pool does, unallocated and out-of-range labels included |
| IntrusiveList.ListAddTail | wheel_timer/list.h:32-35 | relinking two neighbours appends the node to the ring |
| IntrusiveList.ListDel | wheel_timer/list.h:42-46 | the ring loses exactly that node, whose links are cleared |
| IntrusiveList.ListMoveTail | wheel_timer/list.h:70-74 | a node leaves one ring and joins the tail of another |
| IntrusiveList.ListSpliceInit | wheel_timer/list.h:81-96 | the first ring's nodes come, in order, before the second's, and the first is left empty |
| IntrusiveList.ForestMoveFirst | wheel_timer/list.h:70-74 | moving the first node of one slot to a local list leaves every other slot's ring as it was |
| WheelRefinement.ArmedSeat | wheel_timer/wheel_timer.c:55-85 | the slot chosen for a deadline is the one from which it expires at its due tick, at every level |
| WheelRefinement.CascadedSeat | wheel_timer/wheel_timer.c:87-100 | a cascaded timer is placed on a strictly lower level, in a right slot |
| WheelRefinement.AdvanceKeepsInv | wheel_timer/wheel_timer.c:187-205 | counting up and cascading, however many levels wrap on one tick, keeps every timer in its right slot |
| WheelRefinement.TickRefines | wheel_timer/wheel_timer.c:186-227 | one tick expires exactly the timers that are due and keeps the others |
| WheelRefinement.ArmRefines | wheel_timer/wheel_timer.c:333-368 | arming, re-arming included, is arming in the set of timers |
| WheelRefinement.DisarmRefines | wheel_timer/wheel_timer.c:405-432 | deleting is deleting from the set of timers |
| WheelRuns.WheelRefinesTimers | wheel_timer/wheel_timer.c:55-227 | in every run each tick expires the same timers as the set of deadlines does |
| WheelRuns.ArmedTimerFiresOnce | wheel_timer/wheel_timer.c:55-227 | in every run, a timer armed and left alone fires exactly once, at its due tick |
| WheelRuns.FireAtIsTight | wheel_timer/wheel_timer.c:57-66 | that tick is never early and at most one late, and late exactly for a multiple of 256 at least 256 ticks away |
| WheelRuns.ReachableSlots | wheel_timer/wheel_timer.c:57-85 | in every reachable wheel a node is in one slot, once; above level 1 its block is 1 to 64 blocks ahead and gives the slot |
| WheelRuns.PeriodicTimerDoesNotDrift | wheel_timer/wheel_timer.c:148-158 | in every run in which a periodic timer is re-armed one period after its last deadline as it expires, its k-th expiry is at most one tick after k periods |
| WheelTimer.TicksCoverDelay | wheel_timer/wheel_timer.c:354-358 | the tick count of a delay is the delay rounded up |
| WheelTimer.PeriodFitsTime | wheel_timer/wheel_timer.c:391-393 | a period is the greatest number of ticks within the time asked for, or one tick |
| WheelTimer.TimerWheel.InternalAdd | wheel_timer/wheel_timer.c:55-85 | in place: the node joins the ring of its slot, all other rings unchanged |
| WheelTimer.TimerWheel.Cascade | wheel_timer/wheel_timer.c:87-100 | in place: the saved-next walk of the spliced ring places every node again |
| WheelTimer.TimerWheel.Tick | wheel_timer/wheel_timer.c:186-227 | in place: the wheel ticks, the expired slot is left empty, its nodes are handed over in order |
| WheelTimer.TimerWheel.TimerAdd | wheel_timer/wheel_timer.c:333-368 | refusals, and otherwise the node armed for the rounded-up tick |
| WheelTimer.TimerWheel.TimerAddPeriodic | wheel_timer/wheel_timer.c:370-403 | refusals, and otherwise the node armed with its truncated, non-zero period |
| WheelTimer.TimerWheel.TimerMod | wheel_timer/wheel_timer.c:448-477 | refusals, and otherwise the node armed anew, its period kept |
| WheelTimer.TimerWheel.TimerDel | wheel_timer/wheel_timer.c:405-432 | the return code in each case, and a node no longer armed; one that waits for a worker stays in its list with its period cleared |
| WheelTimer.TimerWheel.Complete | wheel_timer/wheel_timer.c:136-158 | after its callback a periodic node is armed one period after its last deadline |
| SoftState.DelayBounds | wheel_timer/wheel_timer.c:354-358 | a delay d with tick T takes more than d - T and less than d + 2T |
| SoftState.DelayIsMetIff | wheel_timer/wheel_timer.c:354-358 | the exact condition, on the clock and the delay, for a delay d to take at least d |
| SoftState.DelayCanBeShort | wheel_timer/wheel_timer.c:354-358 | 10 ms armed 5 ms after a tick takes less than 10 ms |
| SoftState.JitterBounds | src/pi/rsvp_state_machine.c:68-81 | bounds of the drawn interval: from 0.8 R to 1.2 R at the ends; in transit from 1.1 R to below 1.3 R |
| SoftState.JitterCovers | src/pi/rsvp_state_machine.c:68-81 | every interval from the lower bound up to the upper one is drawn for some random number |
| SoftState.JitterOfNoPeriod | src/pi/rsvp_state_machine.c:69 | a period of 0 stands for 30 seconds |
| SoftState.LifetimeBounds | src/pi/rsvp_state_machine.c:34-38 | the cleanup lifetime is 3.5 periods, rounded down |
| SoftState.LossOfOneRefreshIsHarmless | src/pi/rsvp_state_machine.c:621-628 | for R of at least 10/3 ticks, two refresh intervals end before a 3.5 R cleanup timer fires, whatever the draws and phases |
| SoftState.SoftStateSurvives | src/pi/rsvp_state_machine.c:34-38 | in a run of any length without two losses in a row every arrival is followed by another in time |
| SoftState.LossOfTwoRefreshesCanExpire | src/pi/rsvp_state_machine.c:34-38 | draws with which two losses in a row expire the state |
| SoftState.LossOfTwoRefreshes | src/pi/rsvp_state_machine.c:34-38 | for all draws and phases: three intervals that sum to 7 ticks less than the lifetime refresh in time, 5 ticks more expire it |
| Wire.FoldIsResidue | src/pi/rsvp_builder.c:326-329 | the fold ends with the sum's residue modulo 65535, 0 only for 0 |
| Wire.SumFits | src/pi/rsvp_builder.c:311-324 | the 32-bit sum of at most 131072 bytes cannot overflow |
| Wire.SumOfLastByte | src/pi/rsvp_builder.c:321-324 | an odd last byte counts as the high byte of a word |
| Wire.ComputeChecksum | src/pi/rsvp_builder.c:311-333 | the loop, its sum wrapping at 32 bits, computes the complement of the folded sum of any buffer |
| Wire.VerifyChecksum | src/pi/rsvp_builder.c:335-369 | the loop that skips the checksum field decides whether a message verifies |
| Wire.SealedVerifies | src/pi/rsvp_builder.c:371-383 | every finished message verifies |
| Wire.VerifiesIffSealed | src/pi/rsvp_builder.c:335-369 | exactly the messages that sealing leaves unchanged verify |
| Wire.OneWordChangeDetected | src/pi/rsvp_builder.c:335-369 | in a message whose sum cannot overflow, one changed word beside the checksum goes unnoticed exactly when congruent modulo 65535 |
| Builder.RsvpBuilder.constructor | src/pi/rsvp_builder.c:14-29 | a builder holds a header and no objects |
| Builder.RsvpBuilder.AddObj | src/pi/rsvp_builder.c:31-63 | an object that fits is appended, padded to 4 bytes, its length unpadded; one that does not fit changes nothing |
| Builder.RsvpBuilder.Finalize | src/pi/rsvp_builder.c:371-383 | the buffer holds the sealed message of the objects added, its length truncated to 16 bits |
| Parser.ReadObjects | src/pi/rsvp_parser.c:90-366 | the loop equals the declarative decoding on every byte string |
| Parser.CheckHeader | src/pi/rsvp_parser.c:26-88 | the header checks in their order, with their errors |
| Parser.FirstFailureDecides | src/pi/rsvp_parser.c:26-88 | the error is that of the first header check that fails after all before it pass |
| Parser.HeaderAcceptsIff | src/pi/rsvp_parser.c:26-88 | a packet is accepted exactly when it is an IP header of its own length, an RSVP message of its own length with version 1 and a zero or right checksum, and what follows |
| Parser.AcceptedPassesAll | src/pi/rsvp_parser.c:26-88 | an accepted packet passes every header check |
| Parser.ParsePacket | src/pi/rsvp_parser.c:18-441 | the whole parser equals the declarative one |
| Parser.ScanStaysInside | src/pi/rsvp_parser.c:95-108 | every object walked lies wholly inside the payload, objects do not overlap |
| Parser.ScanErrorIsFirstDefect | src/pi/rsvp_parser.c:95-366 | the error is that of the first bad length or unknown class below 128 |
| Parser.FirstFittingWins | src/pi/rsvp_parser.c:110-331 | each slot holds the first object that fits it, and is empty exactly when none does |
| Parser.RecordedObjectsAreSound | src/pi/rsvp_parser.c:110-331 | whatever the bytes, a recorded object lies inside the payload and has its minimum size |
| Parser.NameIsClamped | src/pi/rsvp_parser.c:267-277 | an LSP name longer than its object is cut to the bytes there are |
| RoundTrip.BuildThenParse | src/pi/rsvp_parser.c:91-441 | parsing a finished message yields per slot the payload of the first object with the class, C-Type and least size of the slot, and succeeds exactly when the objects that the message type must have are there |
| RoundTrip.OtherObjectsReadBack | src/pi/rsvp_parser.c:110-331 | INTEGRITY, ERROR_SPEC, ADSPEC, HELLO and DETOUR objects, alone in their class, reach their slots |
| RoundTrip.RejectedClassRejectsMessage | src/pi/rsvp_parser.c:332-341 | a message is refused as unknown exactly when it holds an unknown class below 128 |
| RoundTrip.ScopeRejectsMessage | src/pi/rsvp_parser.c:332-341 | every message with a SCOPE object is refused as unknown |
| ExplicitRoute.ReadRoute | src/pi/rsvp_state_machine.c:540-560 | the hop loop equals the recursive decoding |
| ExplicitRoute.RouteReadBack | src/pi/rsvp_state_machine.c:540-560 | up to 32 hops are read back as they were written |
| ExplicitRoute.SkippedSubobject | src/pi/rsvp_state_machine.c:547-556 | an unsupported subobject is skipped and costs no room |
| PathMessage.BuildPath | src/pi/rsvp_state_machine.c:376-470 | building a PATH never runs out of its 1500-byte buffer and writes the objects in order |
| PathMessage.PathFits | src/pi/rsvp_state_machine.c:376-470 | a PATH is at most 908 bytes long |
| PathMessage.PathReadBack | src/pi/rsvp_state_machine.c:480-625 | the next node parses it without error, fills exactly the slots of what was sent, and finds there tunnel, addresses, interface, period, protocol, priorities, flags, name, routes and protection request as numbers and bytes at their offsets |
| ResvMessage.BuildResv | src/pi/rsvp_state_machine.c:1225-1259 | building a RESV always fits its 1024-byte buffer, takes 108 bytes and writes the objects in order |
| ResvMessage.ResvReadBack | src/pi/rsvp_state_machine.c:714-775 | the next node parses it without error, fills exactly the seven slots, and finds session, hop, period, style, flowspec, sender and label as numbers and bytes at their offsets |
| Neighbours.ResvArrivesAs | src/pi/rsvp_state_machine.c:1190-1265 | the RESV for a reservation arrives as a RESV for the same key, from the sending node, with its in-label, period and style |
| Neighbours.PathArrivesAs | src/pi/rsvp_state_machine.c:352-470 | the PATH for a path arrives as a PATH for the same key with its period, and asks for facility protection exactly when the path is protected and no bypass; its flags say whether protection is in use |
| Neighbours.NextNodeRecordsFacility | src/pi/rsvp_state_machine.c:423-429 | a path protected one-to-one is recorded as facility protected by the next node |
| Neighbours.NeighboursAgreeOnLabel | src/pi/rsvp_state_machine.c:858-898 | the label a node puts on traffic is the in-label of the neighbour whose RESV it accepted, and the next hop is that neighbour |
| StateDb.FindAgrees | src/pi/rsvp_state_db.c:59-72 | a chain walk finds the block with the key, or there is none |
| StateDb.InsertKeepsTable | src/pi/rsvp_state_db.c:93-115 | creation at the head of a chain after a failed lookup keeps table and key uniqueness |
| StateDb.DeleteKeepsTable | src/pi/rsvp_state_db.c:117-151 | deletion removes exactly one block and keeps every other chain |
| StateDb.WalkVisitsEachOnce | src/pi/rsvp_state_db.c:74-91 | walking all 1024 buckets visits every block exactly once |
| DbRuns.TableRefinesMap | src/pi/rsvp_state_db.c:59-151 | over every sequence of find-before-create and delete operations lookup answers as a map, and a walk visits the map's blocks |
| HashChains.BlockTable.Find | src/pi/rsvp_state_db.c:59-72 | pointer walk of one chain: the block that the table names |
| HashChains.BlockTable.FindById | src/pi/rsvp_state_db.c:79-91 | pointer walk of all chains: the first block with the ids |
| HashChains.BlockTable.Create | src/pi/rsvp_state_db.c:93-115 | linking at the head is insertion into the table |
| HashChains.BlockTable.Delete | src/pi/rsvp_state_db.c:117-151 | unlinking through the saved place is deletion from the table; an absent block changes nothing |
| HashChains.BlockTable.Visit | src/pi/rsvp_state_db.c:74-91 | the nested loops visit the blocks in table order |
| RsvpInvariant.FindPsbExact | src/pi/rsvp_state_db.c:59-72 | lookup returns the one path with the key, or none exists |
| RsvpInvariant.RsbOfPsb | src/pi/rsvp_state_machine.c:649-662 | the reservation under a path's key is the one it points to |
| RsvpInvariant.GiveLabelKeepsInv | src/pi/rsvp_state_machine.c:1201-1212 | a label is given only when missing, is the lowest free one and has no forwarding entry yet |
| RsvpInvariant.RsbCleanupKeepsInv | src/pi/rsvp_state_machine.c:1424-1472 | cleaning up a reservation gives back exactly its label and keeps the invariant |
| RsvpInvariant.PsbCleanupKeepsInv | src/pi/rsvp_state_machine.c:1474-1493 | cleaning up a path removes it, its reservation and its label, and nothing else |
| RsvpRuns.HandlePathKeepsInv | src/pi/rsvp_state_machine.c:480-710 | a PATH keeps the invariant: new, refreshed, refused, egress, transit, without route or memory |
| RsvpRuns.HandleResvKeepsInv | src/pi/rsvp_state_machine.c:714-930 | a RESV keeps it: new, changed, refreshed, blockaded, without label or memory, completing a replacement |
| RsvpRuns.StepKeepsInv | src/pi/rsvp_state_machine.c:1158-1187 | so does every message, timer expiry, operator call and interface event |
| RsvpRuns.NoBlockIsOrphaned | src/pi/rsvp_state_machine.c:740-789 | in every run keys are unique, every reservation has its path, and the pointers between them are mutual |
| RsvpRuns.LabelsAreConserved | src/pi/rsvp_state_machine.c:858-879 | in every run the allocated labels are those held by reservations, each by one; labelled entries belong to live ones; the next label has no entry |
| RsvpEffects.ResvInstallsSwap | src/pi/rsvp_state_machine.c:825-879 | a new or changed reservation in transit installs one swap entry with the label and hop that arrived, keeps its in-label or gets the lowest free one |
| RsvpEffects.CompletionInstallsSwap | src/pi/rsvp_state_machine.c:825-912 | so does the RESV that completes a replacement, and the entry and label of the path it takes down go |
| ResvOutcome.IngressInstallsPush | src/pi/rsvp_state_machine.c:884-898 | a new or changed reservation where the path starts installs one entry for its destination with the label and hop that arrived, and takes no label |
| ResvOutcome.CompletionInstallsPush | src/pi/rsvp_state_machine.c:884-912 | so does the RESV that completes a replacement there, and then the entry of the path taken down goes |
| ResvOutcome.CompletionKeepsPushIff | src/pi/rsvp_state_machine.c:1438-1447 | when the destination still has an entry after that |
| ResvOutcome.ResvIsRecorded | src/pi/rsvp_state_machine.c:741-820 | every field of the reservation that an accepted RESV leaves |
| ResvOutcome.RefreshIsRecorded | src/pi/rsvp_state_machine.c:913-930 | a RESV without a new label or hop changes no entry, and gives a missing in-label in transit |
| ResvOutcome.NoLabelNoReservation | src/pi/rsvp_state_machine.c:858-869 | without a free label a new reservation in transit is dropped and leaves nothing |
| ResvOutcome.UselessResvIsIgnored | src/pi/rsvp_state_machine.c:256-288 | a RESV without path, hop or label, or without memory, changes nothing |
| ResvOutcome.BypassResvArmsWaiting | src/pi/rsvp_state_machine.c:904-907 | the first or a relabelled RESV of a bypass gives every waiting path on its interface a bypass that can carry traffic |
| RsvpEffects.BlockadedInstallsNothing | src/pi/rsvp_state_machine.c:776-789 | a blockaded reservation takes no label and no entry, and a new one is not kept |
| ResvOutcome.BlockadeIsExact | src/pi/rsvp_state_machine.c:291-311 | a RESV is refused exactly when its session is blockaded and it asks for at least that rate and that size |
| ResvOutcome.FailureSetsBlockade | src/pi/rsvp_state_machine.c:1092-1112 | an admission failure with a flowspec sets the blockade of its session to it, given memory; nothing else changes |
| ResvOutcome.FailureBlocksRepeats | src/pi/rsvp_state_machine.c:776-789 | after it a RESV that asks for as much again installs nothing, one that asks for less rate or size is let through |
| ResvOutcome.EndedBlockadeRefusesNothing | src/pi/rsvp_state_machine.c:1070-1077 | a blockade that ran out refuses nothing |
| RsvpEffects.RepeatedResvIsIdle | src/pi/rsvp_state_machine.c:910-930 | a RESV received again changes nothing: for a new or kept reservation, accepted or refused by a blockade, completing a replacement, labelled or not |
| PathEffects.PathRecordsSender | src/pi/rsvp_state_machine.c:497-639 | an accepted PATH records hop, period, timers and the protection it asks for, each field by cases, for a new and for a known path; no other path and no entry changes |
| PathEffects.RefusedPathLeavesNothing | src/pi/rsvp_state_machine.c:497-515 | any other PATH leaves paths, reservations, labels, entries and blockades as they were |
| PathEffects.TransitForwards | src/pi/rsvp_state_machine.c:683-709 | a PATH sent on records the interface of its route; a facility path without a bypass is given one that can carry traffic if there is one |
| PathEffects.StoppedPathStays | src/pi/rsvp_state_machine.c:664-682 | our own PATH, or one without a route, is recorded and not sent on |
| PathEffects.EgressReserves | src/pi/rsvp_state_machine.c:641-662 | the egress answers the first PATH with a reservation that has the lowest free label, every field of it |
| PathEffects.EgressFollowsPeriod | src/pi/rsvp_state_machine.c:641-662 | a later PATH only gives that reservation the period of the path |
| PathEffects.RepeatedPathIsIdle | src/pi/rsvp_state_machine.c:497-709 | an accepted PATH received again changes nothing |
| RsvpEffects.ResvTearTakesReservation | src/pi/rsvp_state_machine.c:964-988 | a ResvTear takes the reservation, its label, its one entry and its blockade, and leaves the path |
| Requests.ResvTearOfNothing | src/pi/rsvp_state_machine.c:964-988 | without a reservation it takes the blockade only |
| Requests.PathTearTakesPath | src/pi/rsvp_state_machine.c:934-960 | a PathTear takes the path with its reservation, label and one entry, and the blockade |
| Requests.PathExpires | src/pi/rsvp_state_machine.c:1519-1525 | so does the cleanup timer of a path, when it is armed |
| Requests.TeardownTakesFirst | src/pi/rsvp_state_machine.c:1927-1936 | so does a tear-down request, for the first path of the table with the ids |
| Requests.ReservationExpires | src/pi/rsvp_state_machine.c:1553-1561 | the cleanup timer of a reservation takes it, its label and its one entry |
| Requests.PathRefreshIsSent | src/pi/rsvp_state_machine.c:1497-1517 | the refresh of a path that is not at its end records the route it is sent over |
| Requests.ResvRefreshLabels | src/pi/rsvp_state_machine.c:1527-1551 | the refresh of a reservation that goes upstream gives it a missing in-label |
| Requests.LspIsCreated | src/pi/rsvp_state_machine.c:1667-1728 | every field of a new LSP |
| Requests.LspIsSentAgain | src/pi/rsvp_state_machine.c:1721-1727 | an LSP whose id came round again only has its PATH sent |
| Requests.BypassIsCreated | src/pi/rsvp_state_machine.c:1733-1790 | every field of a new bypass tunnel |
| Requests.ProtectionIsArmed | src/pi/rsvp_state_machine.c:1795-1845 | arming by hand sets mode and bypass of an LSP with the ids, to a labelled bypass of the tunnel id, or changes nothing; it does arm when the choice is unique |
| Requests.ReplacementTakesOver | src/pi/rsvp_state_machine.c:1940-2023 | every field of a replacement: session, period and mode of the incumbent; refused without an ingress incumbent or with the new id in use |
| MbbSafety.CompletionStep | src/pi/rsvp_state_machine.c:1628-1651 | completing a replacement removes at most one path, never the new one, whose reservation and label stay |
| MbbSafety.EveryStepOnPaths | src/pi/rsvp_state_machine.c:1158-1187 | every event removes exactly the paths it has a cause to remove, and a waiting replacement gains no reservation |
| MbbSafety.PendingHasNoReservation | src/pi/rsvp_state_machine.c:909-912 | in every run a pending replacement has no reservation, unless an ingress is taken for an egress |
| MbbRuns.RemovalIsExact | src/pi/rsvp_state_machine.c:1158-1187 | a path goes with an event exactly when the event is its own tear, expiry or tear-down, or a RESV that completes a replacement of it |
| MbbRuns.SparedPathSurvives | src/pi/rsvp_state_machine.c:1940-2023 | a path outlives every run without its tear, its expiry or its tear-down in which every RESV is for it or for another tunnel id |
| MbbRuns.IncumbentSurvivesUntilResv | src/pi/rsvp_state_machine.c:1940-2023 | from the start of a replacement the incumbent outlives every run without its tear, expiry or tear-down and without a RESV for the replacement or a second replacement, whatever else happens |
| MbbTarget.ReplacementTargetsIncumbent | src/pi/rsvp_state_machine.c:1940-2023 | starting a replacement leaves the incumbent alone and makes it the path to tear down |
| MbbTarget.IncumbentIsReplacedIff | src/pi/rsvp_state_machine.c:1639-1644 | the scan names the incumbent exactly when no path with the same ids precedes it in the table |
| MbbTarget.CompletionRemovesIncumbentIff | src/pi/rsvp_state_machine.c:1639-1644 | the completing step removes the incumbent exactly when no path with the same ids precedes it |
| MbbTarget.ForeignPathIsTornDown | src/pi/rsvp_state_machine.c:1639-1644 | a run in which another session's path is torn down and the incumbent stays |
| FastReroute.FailureSwitchesExactly | src/pi/rsvp_state_machine.c:1850-1923 | a failure switches exactly the unswitched facility paths on the interface with a labelled bypass, never a bypass, and nothing else of any path |
| FastReroute.FailureMovesEgress | src/pi/rsvp_state_machine.c:1902-1912 | a switched path leaves where its PATH is routed to, or else where its bypass leaves |
| FastReroute.FailureDiverts | src/pi/rsvp_state_machine.c:1883-1900 | the traffic of a switched path, labelled or not, gets the label the bypass has from downstream and goes to the bypass's next hop |
| FastReroute.RecoveryRestoresExactly | src/pi/rsvp_state_machine.c:2027-2089 | a recovery puts back exactly the switched paths with a reservation whose bypass protects the interface, and nothing else of any path |
| FastReroute.RecoveryRedirects | src/pi/rsvp_state_machine.c:2055-2075 | the traffic of such a path follows its own reservation again |
| FastReroute.SecondFailureIsIdle | src/pi/rsvp_state_machine.c:1850-1923 | a second trigger changes nothing |
| PathLineage.BypassIsNeverSwitched | src/pi/rsvp_state_machine.c:1864-1868 | in every run no bypass tunnel is itself switched |
| PathLineage.EveryStepDescends | src/pi/rsvp_state_machine.c:1158-1187 | after any event every path is newborn, unswitched and pending only as the replacement asked for, or descends from the one at its address before, with its key, ingress role and bypass mark |
| FastReroute.FlagsAreRestoredIff | src/pi/rsvp_state_machine.c:2027-2089 | when a recovery restores every switch flag |
| FastReroute.RecoveryUndoesFailure | src/pi/rsvp_state_machine.c:2027-2089 | flags and forwarding are restored when the switched paths were on their own routes with bypasses for this interface |
| FastReroute.RecoveryUndoesFailureIff | src/pi/rsvp_state_machine.c:2027-2089 | for labelled paths, only then, and only if no path with a reservation was already switched for the interface |
| BypassUp.BypassUpArmsAll | src/pi/rsvp_state_machine.c:1569-1620 | after a scan nothing waits on the interface exactly when a ready bypass exists; new associations are to ready bypasses, old ones stay |
| BypassUp.ArmingIsExact | src/pi/rsvp_state_machine.c:1604-1620 | which bypass and tunnel id each waiting path gets, and that no other path changes |
| BypassUp.AssociationIsExact | src/pi/rsvp_state_machine.c:1569-1598 | the same for one path that is sent on |
| BypassUp.NoInterfaceArmsNothing | src/pi/rsvp_state_machine.c:1569-1573 | interface 0 arms nothing |
| Shutdown.ShutdownLeavesNothing | src/pi/rsvp_state_machine.c:2141-2158 | from every reachable state shutdown ends with empty tables, every label free and no labelled entry |
| BlockStore.Store.Write | src/pi/rsvp_state_machine.c:520-535 | overwriting a block through its address changes what it holds and no chain |
| BlockStore.Store.Add | src/pi/rsvp_state_db.c:93-115 | a new block is at the head of its chain, every other block where it was |
| BlockStore.Store.Drop | src/pi/rsvp_state_db.c:117-151 | a freed block is in no chain and its address holds nothing, every other block is where it was |
| Daemon.Start | src/pi/rsvp_state_db.c:37-42 | initialisation: empty buckets, free labels, the state the runs start from |
| Daemon.Daemon.DeletePsb | src/pi/rsvp_state_db.c:117-151 | clears the pointer of the reservation to the path, then frees the block |
| Daemon.Daemon.DeleteRsb | src/pi/rsvp_state_db.c:191-223 | clears the pointer of the path to the reservation, then frees the block |
| Daemon.Daemon.AllocateLabel | src/pi/rsvp_state_machine.c:1201-1212 | a label from the bitmap for a reservation without one |
| Daemon.Daemon.HandlePathMessage | src/pi/rsvp_state_machine.c:480-710 | on heap blocks: the PATH step |
| Daemon.Daemon.HandleResvMessage | src/pi/rsvp_state_machine.c:714-930 | on heap blocks, bitmap and entries: the RESV step |
| Daemon.Daemon.CleanupPsb | src/pi/rsvp_state_machine.c:1474-1493 | unlinks and frees the path block and its reservation, gives back the label: the cleanup of a path |
| Daemon.Daemon.PsbFindById | src/pi/rsvp_state_db.c:79-91 | the pointer walk of all chains returns the first path of the table with the ids |
| Daemon.Daemon.FrrAutoAssociate | src/pi/rsvp_state_machine.c:1569-1598 | the pointer walk of all buckets arms a path with the first ready bypass |
| Daemon.Daemon.FrrAutoAssociateAll | src/pi/rsvp_state_machine.c:1604-1620 | the bucket walk that changes blocks on its way equals the scan of the table |
| Daemon.Daemon.CompleteMbb | src/pi/rsvp_state_machine.c:1628-1651 | the completion of a replacement: finds, unlinks and frees the first path with the old ids |
| Daemon.Daemon.FrrTrigger | src/pi/rsvp_state_machine.c:1850-1923 | in place, as the failure step |
| Daemon.Daemon.FrrRevert | src/pi/rsvp_state_machine.c:2027-2089 | in place, as the recovery step |
| Daemon.Daemon.Handle | src/pi/rsvp_state_machine.c:1158-1187 | each event in place is its step, and keeps the invariant |
| Daemon.Daemon.ShutDown | src/pi/rsvp_state_machine.c:2141-2158 | the loops end; nothing is left |

## Left out

- Threads, locks, worker scheduling and `timer_del_sync`: each locked function is one step.
- WheelTimer.TimerWheel.TimerAdd: asks, like the other calls that arm, for a node that is not in the workers' list;
  between expiry and the end of its callback a node is linked but not pending, and relinking it would break that list.
- 64-bit wrap of the jiffies count; deadlines 2^32 ticks or more ahead, which the level choice does not distinguish.
- Label ranges whose sums leave 32 bits, and a range that starts at 0, where label 0 would double as the error value.
- Daemon.Daemon.Handle: a block's address is a number, looked up where the source dereferences a pointer, and is never
  used again; the forwarding entries, which the source hands to the kernel, and the blockades are maps.  A daemon whose
  label bitmap could not be allocated is covered by `LabelPool.LabelManager` only.
- SoftState.JitterBounds: uses exact rationals, floored, where the source multiplies single-precision floats.
- SoftState.LossOfOneRefreshIsHarmless: both ends tick at the same period and a message arrives when it is sent.
- RsvpEffects.RepeatedResvIsIdle: does not speak of a new reservation that is dropped at once, blockaded or for want of
  a label; it is created and dropped again.
- MbbRuns.IncumbentSurvivesUntilResv: speaks of path and reservation blocks, not of ingress forwarding, which the completion takes
  away (`ResvOutcome.CompletionKeepsPushIff`).
- FastReroute.RecoveryUndoesFailure: claims flags and forwarding, not `ifindex_out`, which sending a PATH overwrites
  from the route lookup (`FastReroute.RecoveryRestoresExactly`).
- A `bypass_psb` pointer to a freed block: treated as not ready; the source would read freed memory.
- Neighbours.PathArrivesAs: takes the bytes of traffic parameters and bandwidth as given; floating-point conversion is
  not modelled.
- Explicit and record routes, traffic parameters, LSP names, priorities and TTL inside the path blocks of the state
  machine; their encoding and decoding are in `ExplicitRoute` and `PathMessage`.
- The content of messages other than PATH and RESV, whether PathErr, ResvErr and tears reach the next node, and errors sent back.
- Route lookup, local-address checks and memory allocation: inputs of each step.
- The record-route object is not sent when 32 hops are recorded already, as in the source.
- `rsvp_timers.c`, `rsvp_hello.c`, `rsvp_if.c`, the dispatcher, netlink, the command line and logging: input, output
  or single-branch updates.  A Hello failure is the interface event of `RsvpRuns`.
- IPv6 objects, INTEGRITY, ADSPEC, DETOUR, ResvConf and SRefresh: unused or stubs in the source.
