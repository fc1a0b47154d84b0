# Verification of a delay-tolerant IPv6 node

This project models the parts of lwIP-tun-dtn that decide what happens to a packet, and proves what they
are for. Routes are found by contact graph routing in Python; packets without a contact are stored,
tried again and given up by a C controller; both sit on lwIP, whose heap, mailboxes, timers and checksums
are modelled too. Verify with `dafny verify dfyconfig.toml`.

| files | what they model |
|---|---|
| `Contacts`, `Labels`, `Dijkstra` | the search for the earliest route: an exact optimality proof over all journeys, on contacts updated in place |
| `Timetables` | what the journeys are: when a packet can leave over each contact |
| `Routes`, `Metrics`, `Volumes` | route metrics and what they measure, ranking, and why the routes found can carry data |
| `KBest`, `Yen` | the search for several routes: Yen's argument on values, and the loops that follow it |
| `Forwarding`, `Schedules`, `Router` | which routes a packet may take, by rules and by schedules, and what that means for the routes found |
| `Custody` | the custodian option in a hop-by-hop header, byte for byte |
| `Storage`, `Retries`, `Sweeps`, `Controller` | the linked list of stored packets, the table of attempts, and the sweep that changes both while it walks |
| `Misdirected` | what goes wrong when an acknowledgement deletes the packet of another destination |
| `OnesSum`, `Checksum` | the three checksum routines, chains of buffers, the IPv6 pseudo header |
| `Blocks`, `HeapSizes`, `Headers`, `Heap` | the heap: blocks on values, sizes over runs, headers in memory, the operations in place |
| `Mailbox`, `MailboxCalls` | the mailbox as a state machine over all interleavings of its threads, and how calls end |
| `Timeouts` | the timer list with 32-bit times that wrap around |

## Conventions

- Times, rates and volumes of the router are `real`; the rounding of floats is not modelled. Node numbers are
  `int`, and Python's `is` between them is equality. `sys.maxsize` stands for "not reached", so journeys that
  arrive then or later do not count.
- `cgr_dijkstra` is called with a root contact that leads to a node of the plan (Python raises `KeyError`
  otherwise) and whose sending node is among its visited nodes; signals take no negative time. `cgr_yen`
  is called with one value for `time_now` and `curr_time`, as `src/dtn_routing.c:306-312` does.
- Allocation, files and the clock are parameters of the operations that use them. The controller's clock
  counts real milliseconds, of which the code sees 32 bits.
- Hosts are little-endian. The heap has 32768 bytes and 16-bit sizes, as `include/lwipopts.h:45-50` sets it up.
- The mailbox has one fetching thread, as lwIP uses it; `pthread_cond_wait` succeeds, and counters do not overflow.

Where the code and its comments disagree, the model follows the code:

- Rule c) of `fwd_candidate` ("contact in route tx to current node") continues the inner loop only, and rejects
  nothing. `Assess` shows that the current node plays no part, and `NeverBack` that no harm is done.
- `dtn_storage_delete_packet_by_icmp_data` says that it compares sources and destinations, but compares
  sources only (`src/dtn_storage.c:652`), and how many bytes of payload it compares is computed in 8 bits. So an
  acknowledgement can delete a packet for another destination. What holds in spite of that is stated for all
  runs (`RunsKeepBooks`, `DropIsCounted`, `UntrackedTriesAreLate`); `SparingKeeps` gives the exact condition
  under which a deletion spares a destination, and `Misdirected` runs in which one does not.

## Model

| member | source | states |
|---|---|---|
| `Contacts.Contact.constructor` | py_cgr/py_cgr_lib/py_cgr_lib.py:15-43 | a contact's window is shifted by the load time, its volume is rate times duration for each of the three priorities, and its working areas are empty |
| `Contacts.Contact.ClearDijkstraWorkingArea` | py_cgr/py_cgr_lib/py_cgr_lib.py:45-49 | the label of a contact is erased |
| `Contacts.Contact.ClearManagementWorkingArea` | py_cgr/py_cgr_lib/py_cgr_lib.py:51-53 | the marks that exclude a contact and its next hops are erased |
| `Contacts.ArrivalMonotone` | py_cgr/py_cgr_lib/py_cgr_lib.py:324-330 | leaving earlier never makes the same contacts arrive later, for every sequence of contacts |
| `Contacts.ArrivalAppend` | py_cgr/py_cgr_lib/py_cgr_lib.py:324-330 | the arrival time of two sequences of contacts in a row is that of the second, started when the first arrives |
| `Contacts.WalkStep` | py_cgr/py_cgr_lib/py_cgr_lib.py:288-322 | every step of a journey is an allowed continuation of the steps before it |
| `Timetables.OpenIffVolume` | py_cgr/py_cgr_lib/py_cgr_lib.py:313-315 | in a plan with positive rates the contacts that the search ignores for lack of volume are exactly those that are never open |
| `Timetables.ArrivalIsLeast` | py_cgr/py_cgr_lib/py_cgr_lib.py:324-330 | no timetable, which leaves over every contact while it is open and after arriving over the one before, gets a packet to any contact before the arrival time of the search |
| `Timetables.WalkIffTimetable` | py_cgr/py_cgr_lib/py_cgr_lib.py:288-330 | the journeys of a search are exactly the connected sequences of usable contacts that have a timetable, and the arrival time of a journey is that of its earliest timetable |
| `Timetables.SomePriority` | py_cgr/py_cgr_lib/py_cgr_lib.py:313-315 | a contact is used as long as it has volume left for one of the three priorities |
| `Labels.RelaxKeeps` | py_cgr/py_cgr_lib/py_cgr_lib.py:334-341 | a better or equal label for an unexplored contact keeps the whole invariant of the search: labels are backed by predecessors, visited nodes were passed in time, explored contacts have been dealt with |
| `Labels.RelaxTarget` | py_cgr/py_cgr_lib/py_cgr_lib.py:345-350 | the best known arrival stays the least over all labels at the destination |
| `Labels.SkipIsRelaxed` | py_cgr/py_cgr_lib/py_cgr_lib.py:293-320 | every contact that the search ignores has been dealt with already: it cannot lead anywhere earlier |
| `Labels.AdvanceKeeps` | py_cgr/py_cgr_lib/py_cgr_lib.py:358-383 | marking the current contact as explored and moving to the one with the least arrival time keeps the invariant |
| `Labels.PathToIsWalk` | py_cgr/py_cgr_lib/py_cgr_lib.py:386-392 | predecessors spell out a journey that visits no node twice, whose nodes are the visited nodes of the label, and that arrives when the label says |
| `Labels.WalksArePassed` | py_cgr/py_cgr_lib/py_cgr_lib.py:283-383 | when the search stops, every journey that arrives by the best time leads to a node that an explored contact reaches no later |
| `Labels.SearchIsOptimal` | py_cgr/py_cgr_lib/py_cgr_lib.py:253-399 | the final contact spells out a node-simple journey that no journey whatsoever beats, and there is a final contact if any journey exists |
| `Routes.Route.constructor` | py_cgr/py_cgr_lib/py_cgr_lib.py:70-98 | a route of one contact with metrics up to date |
| `Routes.Route.Append` | py_cgr/py_cgr_lib/py_cgr_lib.py:109-115 | an eligible contact is added at the end, its nodes are marked, and all metrics are those of the new hops |
| `Routes.Route.RefreshMetrics` | py_cgr/py_cgr_lib/py_cgr_lib.py:117-154 | delivery time, end, confidence and volume are recomputed as defined independently on the sequence of hops |
| `Routes.SuccessorStopTime` | py_cgr/py_cgr_lib/py_cgr_lib.py:144-148 | the earliest end among a hop and all hops after it |
| `Routes.RouteVolume` | py_cgr/py_cgr_lib/py_cgr_lib.py:130-154 | the least effective volume over all hops |
| `Routes.BuildRoute` | py_cgr/py_cgr_lib/py_cgr_lib.py:395-397 | a chain of hops whose appends all pass the eligibility assertion makes a route with those hops |
| `Routes.JourneyIsChainable` | py_cgr/py_cgr_lib/py_cgr_lib.py:109-115 | the hops of every node-simple journey pass the assertion in `append`, one after the other |
| `Routes.RootedJourneyIsChainable` | py_cgr/py_cgr_lib/py_cgr_lib.py:478-482 | the same with the root contact in front, as the route search stores routes |
| `Routes.Sort` | py_cgr/py_cgr_lib/py_cgr_lib.py:171-186 | sorting by the rank of routes gives a permutation in which no route is outranked by a later one |
| `Volumes.FirstByteInTime` | py_cgr/py_cgr_lib/py_cgr_lib.py:130-141 | over the hops of a journey the first byte is at every contact before it ends, and no later than the journey's own arrival |
| `Volumes.EndsAfterFirstByte` | py_cgr/py_cgr_lib/py_cgr_lib.py:143-149 | the first byte leaves a hop before that contact or any later one ends |
| `Volumes.EffectiveVolumePositive` | py_cgr/py_cgr_lib/py_cgr_lib.py:149-151 | the effective volume of every hop of a journey is positive |
| `Volumes.RoutesAreUseful` | py_cgr/py_cgr_lib/py_cgr_lib.py:117-154 | every route that the search can return has positive volume, and its delivery time is no later than the arrival of its journey |
| `Metrics.ToTimeIsLeast` | py_cgr/py_cgr_lib/py_cgr_lib.py:117-128 | a route lasts until the first of its contacts ends |
| `Metrics.ConfidenceMultiplies` | py_cgr/py_cgr_lib/py_cgr_lib.py:117-128 | the confidence of two sequences of hops in a row is the product of theirs, and that of a hop is its own |
| `Metrics.HopVolume` | py_cgr/py_cgr_lib/py_cgr_lib.py:130-151 | the volume of a hop is what fits between its first byte and the first end among it and all later hops, at most `sys.maxsize`, or the volume of the contact if that is less |
| `Metrics.VolumeIsLeast` | py_cgr/py_cgr_lib/py_cgr_lib.py:130-154 | the volume of a route is the largest that no hop exceeds: it is within every such bound, and meets one of them |
| `Metrics.EligibleIff` | py_cgr/py_cgr_lib/py_cgr_lib.py:158-167 | a route takes a contact exactly if none of its hops touches the node it leads to and it ends after the last hop could have arrived |
| `Schedules.FirstByteIsLeaves` | py_cgr/py_cgr_lib/py_cgr_lib.py:130-141 | the first byte that a route is measured by leaves like a packet of no size |
| `Dijkstra.AdjacencyTable` | py_cgr/py_cgr_lib/py_cgr_lib.py:263-271 | every node of the plan with exactly the contacts that leave from it |
| `Dijkstra.ConsideredIsEdge` | py_cgr/py_cgr_lib/py_cgr_lib.py:293-320 | a contact passes the seven tests only if it is an allowed next hop, and fails one only if it needs no label |
| `Dijkstra.ExploreContact` | py_cgr/py_cgr_lib/py_cgr_lib.py:288-350 | looking at one neighbour relabels it exactly if it passes the tests and the new arrival is no later than its label, makes it the final contact exactly if it then beats the best arrival at the destination, changes nothing else, and keeps the invariant of the search |
| `Dijkstra.Explore` | py_cgr/py_cgr_lib/py_cgr_lib.py:287-356 | after the inner loop every contact that leaves from the current one has been dealt with |
| `Dijkstra.SelectNext` | py_cgr/py_cgr_lib/py_cgr_lib.py:360-376 | the next contact is the first in the plan among the eligible ones with the least arrival time; none is returned exactly if none is eligible |
| `Dijkstra.NextKeeps` | py_cgr/py_cgr_lib/py_cgr_lib.py:358-383 | the choice of the next contact keeps the invariant, and no choice means that the search is finished |
| `Dijkstra.Prepare` | py_cgr/py_cgr_lib/py_cgr_lib.py:257-279 | the working areas the search starts from satisfy the invariant |
| `Dijkstra.SearchLoop` | py_cgr/py_cgr_lib/py_cgr_lib.py:283-383 | the search loop ends, with labels from which the optimum can be read off |
| `Dijkstra.Reconstruct` | py_cgr/py_cgr_lib/py_cgr_lib.py:388-392 | following predecessors from the final contact gives the hops in order |
| `Dijkstra.FindHops` | py_cgr/py_cgr_lib/py_cgr_lib.py:253-392 | the hops are a node-simple journey that no journey beats; there are none only if no journey exists |
| `Dijkstra.CgrDijkstra` | py_cgr/py_cgr_lib/py_cgr_lib.py:253-399 | on the contacts themselves, updated in place: the route is a node-simple journey, no journey that keeps clear of the nodes visited by the root contact arrives earlier, and no route is returned exactly if there is no such journey; `Timetables.WalkIffTimetable` says what the journeys are |
| `Contacts.ReturnsLose` | py_cgr/py_cgr_lib/py_cgr_lib.py:278-308 | a walk that comes back through the source is never earlier than some walk that does not, so keeping clear of the source loses nothing |
| `KBest.NoRouteExtendsAnother` | py_cgr/py_cgr_lib/py_cgr_lib.py:402-507 | routes end where they first reach the destination, so none is a proper prefix of another |
| `KBest.DeviationPoint` | py_cgr/py_cgr_lib/py_cgr_lib.py:429-483 | every route that is not known leaves the known ones at some contact that is used as a spur |
| `KBest.CandidatesCover` | py_cgr/py_cgr_lib/py_cgr_lib.py:490-499 | once every spur has been used, each unknown route is matched by a candidate that is no later |
| `KBest.AcceptKeeps` | py_cgr/py_cgr_lib/py_cgr_lib.py:497-499 | accepting a candidate leaves all other spurs covered |
| `KBest.SpurWalk` | py_cgr/py_cgr_lib/py_cgr_lib.py:465-474 | a journey of a spur search continues the root path, at the same times |
| `KBest.SpurMakesRoute` | py_cgr/py_cgr_lib/py_cgr_lib.py:476-483 | root path and spur path together are a node-simple route that is not among the known ones |
| `KBest.DeviationIsWalk` | py_cgr/py_cgr_lib/py_cgr_lib.py:451-470 | conversely every route that deviates right after the root path is a journey of the spur search |
| `KBest.SpurSettles` | py_cgr/py_cgr_lib/py_cgr_lib.py:473-483 | the best spur path, or its absence, covers all routes that deviate at this spur |
| `KBest.SpurFindsAgain` | py_cgr/py_cgr_lib/py_cgr_lib.py:457-483 | a best spur path that was not accepted is still a best one for the search from another accepted route with the same root path, so that search may return it again |
| `KBest.EarliestIsBest` | py_cgr/py_cgr_lib/py_cgr_lib.py:494-499 | the earliest candidate is no later than any route that is not yet accepted |
| `KBest.AcceptInOrder` | py_cgr/py_cgr_lib/py_cgr_lib.py:494-499 | accepting it keeps the accepted routes ranked, ascending, and no later than the candidates |
| `KBest.RankedTails` | py_cgr/py_cgr_lib/py_cgr_lib.py:501-505 | ranking carries over to the journeys when the root contact is taken off |
| `Yen.ResetContacts` | py_cgr/py_cgr_lib/py_cgr_lib.py:415-418 | all marks left by earlier searches are erased |
| `Yen.SuppressKnownEdges` | py_cgr/py_cgr_lib/py_cgr_lib.py:457-461 | exactly the next hops of known routes with the same root path are suppressed |
| `Yen.PrepareSpur` | py_cgr/py_cgr_lib/py_cgr_lib.py:446-470 | the marks in the working areas make the next search exactly the search for deviations at this spur |
| `Yen.RootPath` | py_cgr/py_cgr_lib/py_cgr_lib.py:440-442 | no append of the root path fails its assertion, and its delivery time is its arrival time |
| `Yen.SpurCandidate` | py_cgr/py_cgr_lib/py_cgr_lib.py:440-489 | a candidate is a route that differs from all accepted ones; with it, or without one, the spur is covered |
| `Yen.Deviations` | py_cgr/py_cgr_lib/py_cgr_lib.py:433-489 | the loop over the spurs of the last route covers all of them |
| `Yen.AcceptBest` | py_cgr/py_cgr_lib/py_cgr_lib.py:494-499 | the first of the sorted candidates moves to the accepted routes and is the best route not accepted before |
| `Yen.NextRoute` | py_cgr/py_cgr_lib/py_cgr_lib.py:429-499 | a round accepts one more route, or all routes are known |
| `Yen.MoreRoutes` | py_cgr/py_cgr_lib/py_cgr_lib.py:429-499 | the accepted routes are ranked and ascending, and stop short of the requested number only when no route is left |
| `Yen.PopRoots` | py_cgr/py_cgr_lib/py_cgr_lib.py:501-505 | the root contact is taken off every route and the metrics are refreshed |
| `Yen.FirstRoute` | py_cgr/py_cgr_lib/py_cgr_lib.py:411-427 | the first route is the best journey, with the root contact in front |
| `Yen.CgrYen` | py_cgr/py_cgr_lib/py_cgr_lib.py:402-507 | the journeys returned are in ascending order of arrival, each is the earliest node-simple one apart from those before it, the first beats every walk to a destination other than the source, even one through the source, there are at most as many as requested, and fewer only if there are no others |
| `Forwarding.ComputeOpportunity` | py_cgr/py_cgr_lib/py_cgr_lib.py:545-557 | the earliest transmission opportunity, with the relief of earlier contacts between the same nodes |
| `Forwarding.ComputeArrival` | py_cgr/py_cgr_lib/py_cgr_lib.py:563-574 | when the packet leaves over every hop and when its last byte arrives; by `Schedules.LeavesIsLeast` and `Schedules.LeavesIsSchedule` these are the times of the earliest schedule |
| `Forwarding.ComputeVolumeLimit` | py_cgr/py_cgr_lib/py_cgr_lib.py:580-601 | the least volume left for the priority of the packet over all hops that have any |
| `Forwarding.Assess` | py_cgr/py_cgr_lib/py_cgr_lib.py:538-605 | a route passes exactly if there is time to use its first contact, to arrive by the deadline, and volume for the packet; the current node plays no part |
| `Forwarding.FwdCandidate` | py_cgr/py_cgr_lib/py_cgr_lib.py:510-616 | the candidates are exactly the routes that satisfy the rules, as a multiset, sorted by rank; nodes excluded on the way change no other decision |
| `Forwarding.CandidateMakesContacts` | py_cgr/py_cgr_lib/py_cgr_lib.py:580-605 | over a candidate the packet is at every contact after it starts, before it and all later contacts end, and finds volume for its priority |
| `Forwarding.ReliefIsPositive` | py_cgr/py_cgr_lib/py_cgr_lib.py:547-557 | on a plan without inverted contacts the relief is never negative |
| `Forwarding.NothingDelays` | py_cgr/py_cgr_lib/py_cgr_lib.py:545-557 | so the first transmission opportunity is exactly the start of the first contact, or now |
| `Schedules.LeavesIsLeast` | py_cgr/py_cgr_lib/py_cgr_lib.py:563-574 | no schedule, which sends over each hop after it starts and after all of the packet has arrived over the one before, for as long as size and rate say, leaves over or is through any hop before the projected times |
| `Schedules.LeavesIsSchedule` | py_cgr/py_cgr_lib/py_cgr_lib.py:563-574 | the projected times are a schedule |
| `Schedules.VolumeIff` | py_cgr/py_cgr_lib/py_cgr_lib.py:580-601 | there is volume for the packet exactly if over every hop that has any it leaves before that contact and all later ones end, and finds volume for its priority |
| `Schedules.ReachableIff` | py_cgr/py_cgr_lib/py_cgr_lib.py:538-605 | a route passes the steps with the packet exactly if some schedule from the first opportunity on meets the deadline and finds volume |
| `Schedules.CandidateIff` | py_cgr/py_cgr_lib/py_cgr_lib.py:510-616 | a route of distinct hops with positive rates is a candidate exactly if it leads neither to the sender nor to an excluded node, its delivery time meets the deadline, and such a schedule exists |
| `Schedules.ReliefIsTotal` | py_cgr/py_cgr_lib/py_cgr_lib.py:547-557 | the relief is the sum of what earlier contacts between the same nodes send from now on, computed contact by contact |
| `Schedules.OpportunityIs` | py_cgr/py_cgr_lib/py_cgr_lib.py:545-557 | the first opportunity is the start of the first contact, or now, and later exactly by the time it takes to send what the sum lacks to zero |
| `Router.CandidateIffDelivers` | py_cgr/py_cgr_lib/py_cgr_lib.py:510-616 | on a plan of contacts with positive rates that do not end before they start, a node-simple journey is a candidate exactly if it does not lead to the sender and some schedule delivers the packet: it leaves over every contact while that and all later ones are open, finds volume for its priority, and arrives by its deadline; for sizes that are not negative |
| `Router.RoutePacket` | src/dtn_routing.c:301-367 | every route returned is a node-simple journey with positive volume that does not lead to the sender and over which some schedule delivers the packet; routes are in order of delivery time, then volume, then confidence; if fewer routes were found than requested, no journey over which a schedule delivers the packet is missing |
| `Forwarding.ArrivalNotBeforeBest` | py_cgr/py_cgr_lib/py_cgr_lib.py:563-574 | the projected arrival is never before the delivery time that ranks the route |
| `Forwarding.DeadlineImpliesBest` | py_cgr/py_cgr_lib/py_cgr_lib.py:527-530 | a route that meets the deadline with the packet also meets it by its delivery time, so the first deadline rule rejects nothing more |
| `Forwarding.NeverBack` | py_cgr/py_cgr_lib/py_cgr_lib.py:538-543 | no route that the search returns transmits to the current node, which the code checks without effect |
| `Custody.AddCustodianOption` | src/dtn_custody.c:38-75 | the packet is rebuilt with a custodian option, or kept if there is no room |
| `Custody.StripCustodianOption` | src/dtn_custody.c:99-137 | the first 24 bytes after the header of a packet with a hop-by-hop header are taken out, or the packet is kept |
| `Custody.UpdateOrAddCustodianOption` | src/dtn_custody.c:139-156 | a custodian is overwritten in place, or added to a new buffer; what is left of the packet in each case of missing room |
| `Custody.ExtractCustodianOption` | src/dtn_custody.c:77-97 | the custodian named by the first hop-by-hop header, found after skipping any number of other headers within the packet |
| `Custody.StripUndoesAdd` | src/dtn_custody.c:38-137 | stripping an added option gives back the packet, byte for byte, for every packet that can grow |
| `Custody.AddUndoesStrip` | src/dtn_custody.c:38-137 | adding after stripping gives back the packet exactly if its header was the option that adding writes |
| `Custody.ExtractFindsUpdate` | src/dtn_custody.c:77-156 | the custodian written last is the one that is read |
| `Custody.ExtractFindsAdd` | src/dtn_custody.c:38-97 | an added custodian is the one that is read |
| `Custody.LastCustodianWins` | src/dtn_custody.c:139-156 | of several updates only the last leaves a trace |
| `Custody.StoringIsInvisible` | src/dtn_storage.c:343-344 | a packet that is stored and forwarded later leaves as if forwarded at once, exactly unless it came with a custodian in a header of other length or padding |
| `Custody.AddedLayout` | src/dtn_custody.c:38-75 | the fields of a packet with an added option, as sections 3 and 4.3 of RFC 8200 lay them out |
| `Custody.StrippedLayout` | src/dtn_custody.c:99-137 | the fields of a packet whose option was taken out |
| `Custody.FoundBehindHeader` | src/dtn_custody.c:85-97 | a custodian is found behind an extension header of eight bytes for each unit of its length and eight more, taken modulo 256 |
| `Storage.Store.StorePacket` | src/dtn_storage.c:317-383 | a stripped copy is appended exactly if fewer than five packets are stored and every allocation and the file succeed; otherwise nothing changes |
| `Storage.Store.Append` | src/dtn_storage.c:366-376 | the walk to the end of the linked list adds the entry there |
| `Storage.Store.RetrievePacketForDest` | src/dtn_storage.c:385-437 | the oldest packet for the destination is unlinked, and nothing else |
| `Storage.Store.DeletePacketByIpHeader` | src/dtn_storage.c:511-579 | the oldest packet with both addresses is unlinked, and nothing else; its destination is the one quoted |
| `Storage.Store.DeletePacketByIcmpData` | src/dtn_storage.c:581-714 | the oldest packet is unlinked whose source, protocol and payload agree with the quote, where the number of bytes compared is what an 8-bit subtraction leaves; destinations are compared only if that number is 0 |
| `Retries.ElapsedIsReal` | src/dtn_controller.c:89-91 | the 32-bit difference of two clock readings never exceeds the time that really passed, and is that time if less than 2^32 ms passed |
| `Retries.TriedAgainWhenDue` | src/dtn_controller.c:89-116 | a destination waits until exactly 30 s after it was last tried, if that was less than 2^32 ms ago; then it is tried again, or loses its oldest packet after ten tries |
| `Retries.StepKeepsBooks` | src/dtn_controller.c:67-172 | considering, storing and acknowledging, whatever packet is deleted, keep the books: at most five packets, distinct destinations, counts equal to the attempts made, at most ten, 30 s apart |
| `Retries.RunsKeepBooks` | src/dtn_controller.c:67-172 | so does every run of them |
| `Retries.DropIsCounted` | src/dtn_controller.c:91-116 | in every run a packet is dropped only after ten attempts for its destination, 30 s apart, so at least 300 s after the first |
| `Retries.SparingKeeps` | src/dtn_controller.c:67-172 | an event keeps the packet that has been the oldest of a destination since it is tracked, if and only if it does not delete that packet while the destination stays tracked |
| `Retries.SparingRunsKeep` | src/dtn_controller.c:67-172 | so does every run that spares the destination in this sense, whatever it does to others |
| `Retries.DropIsEarned` | src/dtn_controller.c:91-116 | in every run that spares a destination, the packet that is dropped for it was its oldest one at all ten attempts |
| `Retries.RunStrands` | src/dtn_controller.c:67-172 | in every run, the tracked destinations without a stored packet are at most as many as the deletions that took away the only packet of a tracked destination for the acknowledgement of another |
| `Retries.UntrackedTriesAreLate` | src/dtn_controller.c:128-140 | in every run, the fallback for a full table is taken for a stored packet only after six such deletions |
| `Retries.GrantIsTracked` | src/dtn_controller.c:117-140 | whoever is allowed to try is refused for the next 30 s, if and only if the table had a slot for it |
| `Misdirected.ShortPacketsGoBySource` | src/dtn_storage.c:622-678 | the acknowledgement of a packet that was forwarded with a custodian compares 240 bytes, so that stored packets of less than 280 bytes are judged by source and protocol alone |
| `Misdirected.PlainQuoteComparesEight` | src/dtn_storage.c:622-678 | the acknowledgement of a packet that was forwarded without an option compares source, protocol and eight bytes of payload, as far as a stored packet has them |
| `Misdirected.ShortHeaderGoesByAddresses` | src/dtn_storage.c:622-678 | with a hop-by-hop header of eight bytes no payload is quoted, and both addresses are compared |
| `Misdirected.LongPacketsLeaveQuote` | src/dtn_storage.c:664-673 | with the 48 bytes that acknowledgements quote, the comparison with a stored packet of the same source stays within the quote if and only if that packet is shorter than 280 bytes |
| `Misdirected.UntriedPacketDropped` | src/dtn_storage.c:646-703 | a deletion that does not spare a destination leaves it tracked, and the next packet stored for it is dropped with the count of the deleted one |
| `Misdirected.PacketOfOtherDeleted` | src/dtn_storage.c:646-703 | a concrete acknowledgement from one node that deletes the packet for another |
| `Misdirected.DroppedAtFirstSight` | src/dtn_controller.c:91-116 | a concrete run from the start in which, after it, a new packet is dropped when it is first looked at |
| `Misdirected.TriedWithoutDelay` | src/dtn_controller.c:128-140 | a run from the start in which ten such deletions fill the table, after which a destination is tried without any delay |
| `Misdirected.TriedTwiceInOneSweep` | src/dtn_controller.c:435-543 | a run from the start after which one sweep tries two packets for the same destination |
| `Sweeps.PendingKept` | src/dtn_controller.c:435-442 | looking at a stored packet deletes nothing that comes after it in the list |
| `Sweeps.SweepKeeps` | src/dtn_controller.c:435-543 | at every point of a sweep the books are right and the packets yet to be looked at are all still stored |
| `Sweeps.SweepTriesOnce` | src/dtn_controller.c:435-543 | in a sweep of less than 30 s each destination is tried at most once, if and only if no packet whose destination has no slot and can get none is followed by another one for it |
| `Sweeps.RoomySweepTriesOnce` | src/dtn_controller.c:435-543 | so each is tried at most once if tracked and stored destinations together are at most ten |
| `Sweeps.FewStrandingsLeaveRoom` | src/dtn_controller.c:67-172 | which holds in every run with at most five deletions that strand a tracked destination |
| `Sweeps.SweepTakesOldest` | src/dtn_controller.c:435-543 | in every sweep a packet that is looked at is then the oldest one for its destination, if and only if it was the oldest at the start, or is the next one and the oldest was due to be dropped at its reading |
| `Sweeps.SweptAtZero` | src/dtn_controller.c:435-543 | a sweep from the start reaches the state of the next row |
| `Sweeps.YoungerTriedFirst` | src/dtn_controller.c:435-442 | two packets between whose readings the delay runs out: the younger is tried and the older waits |
| `Controller.Controller.constructor` | src/dtn_controller.c:34-57 | no destination is tracked |
| `Controller.Controller.Track` | src/dtn_controller.c:67-140 | the verdict on a destination and the new table, in place |
| `Controller.Controller.ShouldAttemptForward` | src/dtn_controller.c:67-140 | the new state of table and store; a packet may be sent exactly if the verdict is to try |
| `Controller.Controller.RemoveTracking` | src/dtn_controller.c:143-172 | the slot of the destination is freed |
| `Controller.Controller.PacketReceived` | src/dtn_icmpv6.c:203-242 | the first packet that the quote fits is deleted, by payload or, without room, by addresses, and its destination is no longer tracked; the books stay right, and by addresses all other destinations are spared |
| `Controller.Controller.StoreIncoming` | src/dtn_controller.c:372-375 | a packet without an active contact is stored, if there is room |
| `Controller.Controller.LookAt` | src/dtn_controller.c:437-442 | the saved next entry is still in the list after the deletion that looking at an entry may cause |
| `Controller.Controller.AttemptForwardStored` | src/dtn_controller.c:421-544 | every packet stored when the sweep starts is looked at exactly once, in order, over the linked list that is being changed |
| `OnesSum.FoldTwice` | lwip/src/core/inet_chksum.c:162-165 | two folds reduce every 32-bit sum to its 16-bit one's complement value |
| `OnesSum.SwapOnes` | lwip/src/core/inet_chksum.c:167-170 | swapping the bytes of a reduced sum is the sum of the data one byte further |
| `OnesSum.SumConcat` | lwip/src/core/inet_chksum.c:265-279 | the sum of two byte strings in a row, where an odd first part shifts the second by one byte |
| `OnesSum.OnesShift` | lwip/src/core/inet_chksum.c:274-283 | a sum taken one byte off is put right by a factor of 256 |
| `Checksum.Chksum1` | lwip/src/core/inet_chksum.c:79-114 | big-endian words, reordered at the end, give the one's complement sum of the bytes |
| `Checksum.Chksum2` | lwip/src/core/inet_chksum.c:132-173 | host words from the first even address on give the same sum for every alignment and length |
| `Checksum.Chksum3` | lwip/src/core/inet_chksum.c:188-255 | 32-bit words with carries in an unrolled loop give the same sum for every alignment and length |
| `Checksum.SumChain` | lwip/src/core/inet_chksum.c:265-283 | the loop over a chain of buffers, of any odd or even lengths, gives the sum of the bytes of the chain |
| `Checksum.SumChainPartially` | lwip/src/core/inet_chksum.c:406-429 | the same for a prefix of the bytes of the chain |
| `Checksum.InetChksumPbuf` | lwip/src/core/inet_chksum.c:567-588 | the checksum of a chain is that of its bytes, however they are split into buffers |
| `Checksum.Ip6ChksumPseudo` | lwip/src/core/inet_chksum.c:342-363 | the checksum over the pseudo header of section 8.1 of RFC 8200 followed by the bytes of the chain |
| `Checksum.Ip6ChksumPseudoPartial` | lwip/src/core/inet_chksum.c:490-511 | the same over a prefix of the bytes of the chain |
| `Checksum.FinishPseudo` | lwip/src/core/inet_chksum.c:285-293 | protocol and length are added, the sum is reduced completely and inverted |
| `Checksum.ChecksumVerifies` | src/dtn_icmpv6.c:91-94 | a message verifies exactly if its field holds the checksum computed with the field zeroed, or the other representation of zero |
| `Blocks.AcceptableIsLargeEnough` | lwip/src/core/mem.c:831-843 | 16-bit alignment of the request does not wrap around unnoticed: accepted sizes are those up to the heap size, and become aligned and at least as large |
| `Blocks.AdjustedIsLeast` | lwip/src/core/mem.c:831-843 | the size that an accepted request becomes is the least aligned one that is large enough and makes a block |
| `Blocks.AllocateKeeps` | lwip/src/core/mem.c:874-914 | allocating keeps the blocks gapless, aligned, and no two unused ones adjacent |
| `Blocks.ReleaseKeeps` | lwip/src/core/mem.c:603-673 | so does releasing |
| `Blocks.TrimKeeps` | lwip/src/core/mem.c:685-807 | so does shrinking |
| `Blocks.LiveDisjoint` | lwip/src/core/mem.c:371-408 | regions in use are aligned, inside the heap, at least 12 bytes long and never overlap |
| `Blocks.AllocateLive` | lwip/src/core/mem.c:874-914 | allocating adds one region and changes no other: a region of exactly the adjusted size if the rest makes a block, and all of the free block otherwise |
| `Blocks.ReleaseLive` | lwip/src/core/mem.c:603-673 | releasing removes one region and changes no other |
| `Blocks.TrimLive` | lwip/src/core/mem.c:685-807 | shrinking keeps the start of one region and changes no other |
| `Blocks.ReleaseUndoesAllocate` | lwip/src/core/mem.c:603-673 | releasing what was just allocated restores the block list exactly |
| `Blocks.RunKeeps` | lwip/src/core/mem.c:554-594 | after every run of allocations, releases and shrinks the blocks are well formed, as `mem_sanity` checks |
| `Blocks.RunConserves` | lwip/src/core/mem.c:460-497 | a run after which nothing is in use ends with the one free block of the initial heap: no memory is lost to fragmentation |
| `HeapSizes.RunIsSnug` | lwip/src/core/mem.c:685-963 | in every run of allocations, releases and shrinks each region in use is as large as was last asked for, and exceeds that by less than a header and the least data of a block |
| `HeapSizes.HeapAddsUp` | lwip/src/core/mem.c:554-594 | after every run the headers, the regions in use and the free room make up the heap |
| `Headers.SplitHolds` | lwip/src/core/mem.c:889-902 | the stores that split a block leave headers in memory that describe the new list |
| `Headers.JoinHolds` | lwip/src/core/mem.c:470-496 | so do the stores that merge a block into the one before it |
| `Headers.MoveHolds` | lwip/src/core/mem.c:741-765 | so do the stores that move a free block down, although the new header may lie over the old one |
| `Headers.HeadersOutside` | lwip/src/core/mem.c:331-347 | the eight bytes of a header lie outside all regions in use |
| `Headers.BytesInUseAreKept` | lwip/src/core/mem.c:603-963 | a byte in use before and after an operation is under no header that the operation writes |
| `Heap.Heap.constructor` | lwip/src/core/mem.c:502-532 | the heap in memory is one free block |
| `Heap.Heap.PlugHoles` | lwip/src/core/mem.c:460-497 | both neighbours of a freed block are merged with it if unused |
| `Heap.Heap.MemLinkValid` | lwip/src/core/mem.c:537-551 | blocks of a valid heap are found to be linked correctly, so no release is refused |
| `Heap.Heap.MemFree` | lwip/src/core/mem.c:603-673 | the block list in memory is the one after releasing; null, misaligned pointers, pointers outside the heap and pointers to unused blocks change nothing; `lfree` stays the lowest free block; only headers of blocks are written |
| `Heap.Heap.MemTrim` | lwip/src/core/mem.c:685-807 | the block list in memory is the one after shrinking; it fails exactly if the size is too large; only headers of blocks are written |
| `Heap.Heap.MemMalloc` | lwip/src/core/mem.c:817-963 | a region of the first unused block that has room for the adjusted size, although the search starts at `lfree`; null exactly if nothing or more than the heap was requested, or no unused block has room; only headers of blocks are written |
| `Heap.Heap.FindFit` | lwip/src/core/mem.c:854-874 | starting at `lfree` and stopping near the end of the heap misses no block that fits |
| `Heap.Heap.AdjustLfree` | lwip/src/core/mem.c:918-937 | the next free block becomes the lowest one |
| `Mailbox.InvKept` | port/sys_arch.c:301-461 | every step of every thread keeps the invariants: one owner of the mutex, a ring that holds what is pending, and nobody asleep who is not going to be woken |
| `Mailbox.RunsKeepInv` | port/sys_arch.c:301-461 | in every interleaving of any number of posters and the fetcher all states satisfy them |
| `Mailbox.MailboxIsQueue` | port/sys_arch.c:301-461 | in every run what has been fetched is a prefix of what has been posted, with at most 127 messages pending |
| `Mailbox.PostAppends` | port/sys_arch.c:301-378 | posting succeeds exactly if fewer than 127 messages are pending, and then appends the message |
| `Mailbox.FetchTakesOldest` | port/sys_arch.c:381-461 | looking for a message takes the oldest pending one, and nothing if there is none; `MailboxCalls.FetchEnds` says how a whole call ends |
| `Mailbox.NoLostWakeup` | port/sys_arch.c:319-333 | a fetcher asleep on a box with messages can go on, at the latest when the thread in the critical section leaves it |
| `Mailbox.NoDeadlock` | port/sys_arch.c:344-461 | if no thread can take a step, the box is empty with nobody posting, or non-empty with nobody fetching |
| `Mailbox.EnergyFalls` | port/sys_arch.c:301-461 | every step of a thread uses up some of a measure to which a call adds eight: looking again is paid for by a signal |
| `Mailbox.StepsAreBounded` | port/sys_arch.c:301-461 | so in every run the threads take at most eight steps for each call, and none runs in circles |
| `MailboxCalls.FetchEnds` | port/sys_arch.c:381-461 | in every run, a fetch that does not time out has taken exactly one message when it returns, the oldest one at a moment when it held the mutex; a tryfetch has taken that message, or none if there was none at that moment, and never sleeps; a fetch that times out has taken none |
| `MailboxCalls.PostEnds` | port/sys_arch.c:301-378 | in every run, a post has put its message into the box exactly once when it returns, at a moment when it held the mutex and fewer than 127 messages were pending; a trypost has too, or has done nothing if 127 were pending at that moment, and never sleeps |
| `MailboxCalls.NoIdleSignals` | port/sys_arch.c:301-461 | in every run, a poster signals only for the message that makes the box non-empty, and the fetcher only if a poster waits for room |
| `Timeouts.ComparesMoments` | lwip/src/core/timeouts.c:73-73 | for moments less than 2^32 ms apart, comparing wrapped times is right if and only if the moments are less than 2^31 ms apart, or exactly that in one direction |
| `Timeouts.NotTransitive` | lwip/src/core/timeouts.c:73-73 | without that bound the comparison is not an order |
| `Timeouts.Timers.TimeoutAbs` | lwip/src/core/timeouts.c:179-221 | a stable insertion by deadline, across wrap-around of the clock |
| `Timeouts.Timers.Timeout` | lwip/src/core/timeouts.c:285-306 | a timeout is inserted after all those that are due no later |
| `Timeouts.Timers.Untimeout` | lwip/src/core/timeouts.c:316-341 | the first entry with the handler and argument is removed, and nothing else |
| `Timeouts.Timers.RestartTimeouts` | lwip/src/core/timeouts.c:403-420 | all deadlines move by the same amount so that the first is due now |
| `Timeouts.Timers.SleepTime` | lwip/src/core/timeouts.c:425-443 | the time to the first deadline; no pending deadline is slept past |
| `Timeouts.Timers.FireFirst` | lwip/src/core/timeouts.c:377-391 | the first entry is taken out and its handler called; what the handler requests is added, then a cyclic timer itself at its next deadline |
| `Timeouts.Timers.MakeRequests` | lwip/src/core/timeouts.c:285-306 | any list of timeouts that a handler sets is inserted, one after the other |
| `Timeouts.Timers.CallCyclic` | lwip/src/core/timeouts.c:232-261 | a cyclic timer is due again one interval after its last deadline, or one interval after now if that deadline has passed; other timers are not set again |
| `Timeouts.CancelledDoesNotFire` | lwip/src/core/timeouts.c:316-341 | removing an entry that is still to fire keeps it from firing and leaves the order of the others; removing one that is not due changes nothing for the call |
| `Timeouts.Timers.CheckTimeouts` | lwip/src/core/timeouts.c:351-396 | with handlers that set any timeouts with positive delays: exactly the entries due when it is called fire, in order, then some cyclic ones once more; it ends, leaves nothing due, every timeout is accounted for as fired, pending or newly set, and cyclic timers stay pending once, with the deadline that follows from when their handlers returned |
| `Timeouts.TimerStaysPending` | lwip/src/core/timeouts.c:232-396 | over any sequence of checks, and of other timeouts added or removed, a cyclic timer stays pending once, at the deadline that follows from the moments at which its handler returned, and the list holds that deadline wrapped around |
| `Timeouts.SuccessiveDeadlines` | lwip/src/core/timeouts.c:232-261 | each of these deadlines is one interval after the one before if the handler returned by then, and otherwise one interval after the return |
| `Timeouts.NoDrift` | lwip/src/core/timeouts.c:232-261 | so without overload a cyclic timer is due at exact multiples of its interval after its first deadline, whatever delays there were |

## Left out

- Contacts.Contact.constructor: does not model the four fields that hold the results of route metrics and of `fwd_candidate`, because they are read only right after they are written.
- Routes.Route.constructor: does not model routes with a parent route, because none is ever made.
- Routes.Sort: does not promise the order of routes of equal rank, because it decides nothing.
- Routes.Route.RefreshMetrics: does not model the times and volumes left behind on the contacts, for the same reason.
- Forwarding.FwdCandidate: requires that no rate it comes to divide by is 0, because Python raises an exception there.
- Forwarding.Assess: requires the same, for the same reason.
- Yen.CgrYen: does not promise that the routes are pairwise different, because candidates are not deduplicated (py_cgr/py_cgr_lib/py_cgr_lib.py:483) and KBest.SpurFindsAgain shows how one may be found again; Yen.SpurCandidate states that a new candidate differs from the routes accepted so far.
- Yen.PopRoots: does not promise an order by the refreshed metrics; Yen.CgrYen orders routes by arrival.
- Custody.ExtractCustodianOption: does not model a walk over extension headers that leaves the packet or never ends, because it is undefined.
- Custody.StripCustodianOption: requires 24 bytes after the header of a packet that starts with a hop-by-hop header, because the length of other headers is not looked at and the copy is undefined otherwise.
- Custody.AddCustodianOption: requires that the longer packet fits into 16 bits and that the header gives the length of the buffer, because the copy is undefined otherwise.
- Custody.UpdateOrAddCustodianOption: requires what stripping and adding require.
- Storage.Store.StorePacket: requires what stripping requires of the packet.
- Controller.Controller.StoreIncoming: requires what stripping requires of the packet.
- Controller.Controller.PacketReceived: requires what the comparison of payloads requires of the quote, see Storage.Store.DeletePacketByIcmpData.
- Storage.Store.DeletePacketByIcmpData: requires that the comparison stays within the quote, for which Misdirected.LongPacketsLeaveQuote gives the exact condition, and that no stored packet of the source has a hop-by-hop header, because the comparison is undefined, or never ends, otherwise.
- Retries.DropIsEarned: speaks of runs that spare the destination, because it fails otherwise, as Misdirected.DroppedAtFirstSight shows; Retries.DropIsCounted states what holds of all runs.
- Controller.Controller.AttemptForwardStored: does not model what happens to a packet that may be tried (route lookup, copying, sending), only that and when it may.
- Heap.Heap.MemFree: does not model pointers into the heap that are not to the data of a block, because what is read as their header is data of the caller.
- Heap.Heap.MemTrim: does not model such pointers either, nor two debugging assertions (lwip/src/core/mem.c:727, lwip/src/core/mem.c:777).
- Checksum.SumChainPartially: does not model the assertion at lwip/src/core/inet_chksum.c:416, which its own message asks to delete.
- Timeouts.Timers.TimeoutAbs: does not model an exhausted pool of list entries, nor the links of the list.
- Timeouts.Timers.CheckTimeouts: does not model handlers that remove timeouts, for which Timeouts.CancelledDoesNotFire states the effect of one removal, nor timeouts with a delay of 0; its clock is less than 2^30 ms ahead of pending deadlines.
- Heap locking, overflow regions and statistics; `mem_calloc` and the pool variants of the heap.
- Timeouts of `sys_arch_mbox_fetch` beyond waking up empty-handed, semaphores as a service of their own, threads and core locking.
- IPv4 variants of the checksums, copying checksums, big-endian hosts.
- Loading contact plans, files of stored packets, the embedded Python interpreter, raw sockets, the TUN interface and the main loop.
- ICMPv6 messages other than the acknowledgement, and the rest of lwIP.
