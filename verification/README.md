# FrameRunner, modelled in Dafny

FrameRunner is a discrete-event network simulator written in C. This project models the parts of it
whose correctness is not visible in any one function, and proves what they promise over all inputs,
all runs and all reachable states:

- **OSPF**: the Dijkstra computation over the slotted link-state database, the installation of its
  tree in the routing table, the update parser and writer, the newest-sequence-wins merge, and
  flooding as a protocol between routers. `VisitOrder`, `TieBreaks` and `NoRings` show what the tie-break
  is good for, and `Convergence` joins everything: once flooding is quiet, hop-by-hop routing on the computed
  trees never loops, not even over links that cost nothing.
- **Routing table**: the RIB, the forwarding table rebuilt from it, longest-prefix lookup, and which
  protocol's route is used (`RoutePreference`).
- **TCP**: the stop-and-wait state machine, two endpoints over a network that loses, duplicates and
  reorders, and that they can always close (`TcpClosing`).
- **RIP**: the timed route database, what a received entry does to it (`RipLearning`), its agreement
  with the routing table, split horizon and batching.
- **Engine**: the stable event queue, the dispatch loop, and what the timers of OSPF and RIP get from
  it: bounds on staleness (`Staleness`) and survival of what is refreshed in time (`Survival`).
- **IP**: prefix masks, the Internet checksum, and the forwarding path of a router.

## How the model is built

Tables the source keeps in arrays are classes with arrays (`RouteTable`, `Lsdb`, `RipState`,
`EventQueue`) or methods over an array (the vertex array, the neighbour table, the packet buffer);
the connection block and the scheduler are classes with fields. Each method is proved equal to a
function on the array's contents, and the properties are proved of those functions. The distributed
systems (flooding, the two TCP endpoints, the timers under the scheduler) are a state, a step built
from those same functions, and an inductive invariant.

Choices that matter to a reader:

- Table sizes are parameters; the code's constants (`RIB_SIZE`, `LSDB_SIZE`, `MAX_ROUTES`, ...) are
  instances. `ComputeSpf` is stated for databases of at most 256 slots, because the bound on
  distances depends on it.
- Integers are unbounded with explicit ranges (`byte`, `u16`, `u32`); wrap-around is written out
  where the source can reach it (`Succ`, `Add32`, the checksum accumulator). Timestamps are unbounded.
- `Interface *` is `Iface`, with `NoIface` for NULL. The `selected` flags of the RIB stand in an array
  of their own beside the slots.
- `TCP_MAX_INFLIGHT` is 1, so the send queue is one slot with its counter. In `TcpNetwork` a listener and
  the block it allocates for the connection are one endpoint, in LISTEN and then in SYN_RECEIVED.
- `Scheduler` carries its history as a ghost field: every event scheduled and dispatched so far. That
  nothing is lost and each key is served in order is part of its validity.
- Finding a slot and counting slots are one pair of functions (`Slots`); each table names its own uses.
- Allocation and sending succeed, except where a parameter (`canGrow`, `canSend`) says otherwise.
  In `TcpNetwork` sending always succeeds.
- OSPF has no function that originates an advertisement; `Originate` in `Flooding` is a router storing
  an advertisement of its own with the same merge and flooding it on every interface.
- A handler is whatever it schedules and whatever it does to the protocol state; statements about runs
  hold for every choice.

## What the code does not do

- `tcp_send` takes at most 1460 bytes of a call and still returns 0. So the peer's bytes need not be a
  prefix of the bytes passed in (`CutBreaksPrefix` gives the run); the bytes taken are the bytes passed
  exactly when no successful call was longer than that (`TakenIsPassedIff`).
- TCP comparisons are plain, so the send queue stays exact, and the acknowledgement of everything is
  taken, if and only if `snd_nxt` has not wrapped (`AlwaysBookedIff`, `FullAckIff`); every connection
  can get there (`QuietReachable`, `WrapLosesAck`). The two-endpoint results assume fewer than 2^32
  sequence numbers.
- Data that is next but whose acknowledgement cannot be sent is lost, and a FIN likewise
  (`UnsentAckLosesData`, `UnsentAckLosesFin`); a FIN that comes with data is not taken (`DataAnswered`).
- The 32-bit checksum accumulator can wrap on messages of more than 131074 bytes and on no others
  (`NoOverflowIff`), and writing the computed checksum still makes the message verify, at every length
  (`WrittenChecksumVerifies`).
- The rollback in `route_table_add` after a failed rebuild, the error returns of the shortest-path
  loops, its saturation guard, and, below the wrap, the tracking failures after a successful TCP send are
  never reached; the contracts below say so.

## Model

| member | source | states |
|---|---|---|
| `NetTypes.Field32RoundTrip` | src/common/byte_order.h:26-60 | a 32-bit field written in network order reads back, and every four bytes are the writing of some value |
| `Prefix.MaskValue` | src/common/ip_utils.h:13-24 | the mask of a length 0..32 is the word with that many top bits set |
| `Prefix.MaskedClearsHostPart` | src/routing/route_table.c:44-44 | and-ing with the mask clears exactly the host part |
| `Prefix.MatchesIsTopBits` | src/routing/route_table.c:147-153 | a destination matches a stored prefix exactly when their top bits agree |
| `Prefix.MaskToPrefixLen` | src/protocols/ip.c:291-312 | succeeds with a length exactly on the mask of that length and rejects every other word |
| `Prefix.MaskLenIff` | src/protocols/ip.c:291-312 | mask and length determine each other |
| `EventQueues.InsertSorted` | src/engine/event.c:95-110 | a push keeps the queue sorted by (timestamp, sequence) and adds exactly the new event |
| `EventQueues.InsertStable` | src/engine/event.c:96-106 | a pushed event goes behind every earlier event of the same key |
| `EventQueues.ByKeyExact` | src/engine/event.c:84-123 | the events of a key are all the events with that timestamp and sequence and no others |
| `EventQueues.EventQueue.Push` | src/engine/event.c:84-111 | the array after push, growth included, is the stable insertion; fails exactly when full and unable to grow |
| `EventQueues.EventQueue.OpenGap` | src/engine/event.c:95-106 | the shifting scan opens a gap where insertion belongs and moves the rest back one place |
| `EventQueues.EventQueue.Grow` | src/engine/event.c:85-93 | doubling the capacity keeps the contents |
| `EventQueues.EventQueue.Pop` | src/engine/event.c:114-123 | pop removes and returns the head, None on an empty queue |
| `Scheduling.EveryRunAccounted` | src/engine/scheduler.c:62-92 | over every run, whatever handlers push: queue sorted, dispatched plus pending a permutation of pushed, each key first in first out, clock never back |
| `Scheduling.TimelyRunsAreChronological` | src/engine/scheduler.c:62-83 | if handlers never schedule into the past, dispatched timestamps never decrease |
| `Scheduling.ExecRunsUntil` | src/engine/scheduler.c:85-92 | a run goes on until nothing is pending, a handler has asked to stop, or the script ends, and never past a stop |
| `Scheduling.ExecClockFollows` | src/engine/scheduler.c:62-83 | the clock is where it started or at the latest event dispatched since |
| `Scheduling.PushedAccounted` | src/engine/scheduler.c:55-60 | an event scheduled from anywhere keeps the history accounted and each key first in first out |
| `Scheduling.Scheduler.constructor` | src/engine/scheduler.c:6-27 | a new scheduler has an accounted, empty history |
| `Scheduling.Scheduler.Schedule` | src/engine/scheduler.c:55-60 | a stable insertion into the pending events and the history, which stays accounted; fails, changing nothing, exactly when the queue is full and cannot grow |
| `Scheduling.Scheduler.Step` | src/engine/scheduler.c:62-83 | one step dispatches the head, advances the clock to it at most, and inserts what its handler schedules; the history follows and stays accounted |
| `Scheduling.Scheduler.Loop` | src/engine/scheduler.c:85-98 | the loop takes the history to the abstract run from it: accounted, run until empty or stopped, clock at the latest event dispatched and, with timely handlers, chronological |
| `RouteTables.WinnerIsBest` | src/routing/route_table.c:227-261 | the installed entry of a network has the smallest administrative distance, among those the smallest metric, among those the smallest sequence |
| `RouteTables.LookupFindsBest` | src/routing/route_table.c:128-164 | lookup is longest match with such a route, and finds nothing exactly when no entry matches |
| `RouteTables.LookupAfterAnyHistory` | src/routing/route_table.c:33-188 | the same after any sequence of add, delete and flush with any arguments |
| `RoutePreference.PreferredProtocolAnswers` | src/routing/route_table.c:5-22 | a destination is never answered by a protocol less preferred than one with a route to the same longest network: direct, static, BGP, OSPF, IS-IS, RIP, others |
| `RoutePreference.AnswerIsStored` | src/routing/route_table.c:128-164 | the answer copies a stored best route field by field |
| `RoutePreference.HistoryNumbers` | src/routing/route_table.c:33-95 | until the counter wraps, stored routes carry different sequence numbers below the next one |
| `RoutePreference.NoTies` | src/routing/route_table.c:227-261 | so no two routes tie, and the one inserted first is used |
| `RouteTables.RouteAtIff` | src/routing/route_table.c:33-66 | what is stored under a key is what some slot holds for that network and protocol |
| `RouteTables.SelectedIsPointedAt` | src/routing/route_table.c:245-277 | an entry is marked selected exactly when a forwarding slot points at it |
| `RouteTables.FibSkips` | src/routing/route_table.c:210-212 | passing over an entry keeps the forwarding table canonical |
| `RouteTables.FibReplaces` | src/routing/route_table.c:245-258 | displacing the installed entry keeps the forwarding table canonical |
| `RouteTables.FibAppends` | src/routing/route_table.c:263-280 | installing a new network keeps the forwarding table canonical |
| `RouteTables.AddStores` | src/routing/route_table.c:46-96 | add stores under its key only, refreshes in place, and fails exactly on a full RIB without the key |
| `RouteTables.DeleteRemoves` | src/routing/route_table.c:107-125 | delete removes its key only and fails exactly when it is absent |
| `RouteTables.FlushRemoves` | src/routing/route_table.c:172-185 | flush removes the keys of one protocol and no other |
| `RouteTables.AddThenDelete` | src/routing/route_table.c:33-126 | adding a fresh key and deleting it changes the answer for no destination |
| `RouteTables.OpKeeps` | src/routing/route_table.c:33-188 | any call keeps the RIB invariant and other protocols' routes |
| `RouteTables.RouteTable.constructor` | src/routing/route_table.c:24-31 | the initial table is empty and valid |
| `RouteTables.RouteTable.RebuildFib` | src/routing/route_table.c:191-284 | from any forwarding state: slots in bijection with the networks of the RIB, each the best entry, flags and count exact; a free slot is always found |
| `RouteTables.RouteTable.Consider` | src/routing/route_table.c:208-281 | one round of the rebuild extends the canonical index by one RIB slot |
| `RouteTables.RouteTable.Lookup` | src/routing/route_table.c:128-164 | the forwarding scan answers as a search of the RIB would |
| `RouteTables.RouteTable.Add` | src/routing/route_table.c:33-97 | the table after add, bad arguments and full RIB included; counts and forwarding table stay exact |
| `RouteTables.RouteTable.Delete` | src/routing/route_table.c:99-126 | the table after delete, bad arguments and absent key included |
| `RouteTables.RouteTable.FlushProto` | src/routing/route_table.c:166-188 | the table after flush, and the number of entries invalidated |
| `ShortestPaths.OutLinksAreEdges` | src/protocols/ospf.c:796-810 | the links the relaxation meets are the edges given by valid router advertisements |
| `ShortestPaths.EdgeIff` | src/protocols/ospf.c:796-810 | an edge is a type 1 link in a used slot of type 1 by that router, with that target and metric |
| `ShortestPaths.RelaxCases` | src/protocols/ospf.c:812-847 | lookup never misses, the saturation guard and the first-hop check never fire: a link lowers its vertex or changes nothing |
| `ShortestPaths.RelaxKeeps` | src/protocols/ospf.c:805-848 | relaxing one link keeps the invariant of the round |
| `ShortestPaths.Nearest` | src/protocols/ospf.c:773-791 | the selection: nearest unvisited vertex, smaller router id on ties; -1 exactly when none is reachable |
| `ShortestPaths.VisitKeeps` | src/protocols/ospf.c:793-794 | visiting the nearest vertex opens a round |
| `ShortestPaths.NoShorterWalk` | src/protocols/ospf.c:772-850 | when the loop ends no path is shorter than the recorded distance |
| `ShortestPaths.FinishedIsTree` | src/protocols/ospf.c:772-850 | distances minimal, infinity exactly when unreachable, first hops on shortest paths |
| `SpfLoops.CollectCovers` | src/protocols/ospf.c:740-767 | every router of the graph gets a vertex, the root stays first |
| `SpfLoops.EnsureVertex` | src/protocols/ospf.c:29-52 | finds or appends a vertex; -1 exactly when full and new |
| `SpfLoops.FindLoop` | src/protocols/ospf.c:54-64 | the first vertex of a router, or -1 |
| `SpfLoops.CollectLoop` | src/protocols/ospf.c:732-767 | the collection never overflows the vertex array |
| `SpfLoops.SelectLoop` | src/protocols/ospf.c:773-791 | the scan on the array makes that selection |
| `SpfLoops.RelaxLink` | src/protocols/ospf.c:805-848 | one link relaxed in place |
| `SpfLoops.RelaxLoop` | src/protocols/ospf.c:796-849 | all links of the selected router relaxed in place |
| `SpfLoops.SpfFromSound` | src/protocols/ospf.c:772-850 | the iteration terminates without an error return, with every reachable vertex visited |
| `SpfLoops.Tree` | src/protocols/ospf.c:729-850 | the tree as a function of database and root: a shortest-path tree, at most 1281 vertices, finite distances at most 1280*65535 |
| `SpfLoops.DijkstraLoop` | src/protocols/ospf.c:772-850 | the loop on the array computes that iteration, error returns included |
| `SpfLoops.ComputeSpf` | src/protocols/ospf.c:729-850 | for every well-formed database the computation returns that tree |
| `SpfInstall.InstallExact` | src/protocols/ospf.c:858-908 | the OSPF routes are exactly one /32 per reachable vertex with a usable first-hop neighbour; other protocols keep theirs |
| `SpfInstall.RoutesAreShortest` | src/protocols/ospf.c:877-903 | an installed route's metric is the least cost of any path and its next hop the first router on a path of that cost |
| `SpfInstall.MissingRouteExplained` | src/protocols/ospf.c:879-893 | a reachable router lacks a route only if the first router of a shortest path is no usable neighbour |
| `SpfInstall.InstallFits` | src/protocols/ospf.c:858-908 | the installation succeeds exactly when the routes the tree wants fit the unused slots, and uses one slot for each |
| `SpfInstall.ReinstallChangesNoLookup` | src/protocols/ospf.c:852-910 | installing one tree again on its own result succeeds and changes the answer for no destination |
| `SpfInstall.RunInstallsTree` | src/protocols/ospf.c:724-911 | a whole run fails exactly when the wanted routes do not fit beside the other protocols' routes, and otherwise installs exactly its tree |
| `SpfInstall.RerunChangesNoLookup` | src/protocols/ospf.c:724-911 | running everything again, computation included, on the state left behind succeeds and changes the answer for no destination |
| `SpfInstall.OspfAnswer` | src/protocols/ospf.c:852-910 | a lookup that answers with an OSPF route answers with the host route of the destination itself |
| `SpfInstall.RunSpf` | src/protocols/ospf.c:724-911 | the whole function on the routing table: result, RIB and sequence counter are those of the specified run; after a failure the tree is installed up to the first vertex that found the table full |
| `SpfInstall.RunTwice` | src/protocols/ospf.c:724-911 | of two calls on the same database the second succeeds too, and no lookup changes in between |
| `SpfInstall.NextHopsAreAlive` | src/protocols/ospf.c:879-893 | after a dead-interval sweep the next hop of every OSPF route is a neighbour that is up and was heard within 40 s |
| `LsuCodec.LinkRoundTrip` | src/protocols/ospf.c:375-383 | reading a link inverts writing it, both ways |
| `LsuCodec.LsaIff` | src/protocols/ospf.c:339-386 | an advertisement is read exactly when its encoding lies at the cursor |
| `LsuCodec.ParseIff` | src/protocols/ospf.c:312-395 | a body is accepted exactly when it is the announced number (at most 256) of encodings with at most 4 links each and nothing more |
| `LsuCodec.FloodRoundTrip` | src/protocols/ospf.c:661-706 | what flooding writes is read back as the flooded advertisement |
| `LsuCodec.FloodBodyExample` | src/protocols/ospf.h:60-119 | the wire layout, on an example |
| `LsuCodec.ParseLoop` | src/protocols/ospf.c:312-395 | the parsing loops compute that parse |
| `Lsdbs.MergeOneHeld` | src/protocols/ospf.c:400-453 | merging keeps the newer of the two, touches one key, keeps keys unique |
| `Lsdbs.MergeAllMonotone` | src/protocols/ospf.c:397-467 | over any update no key's sequence number decreases |
| `Lsdbs.ChangedExact` | src/protocols/ospf.c:455-466 | the recorded slots are exactly the changed ones, each once |
| `Lsdbs.FloodedIsNews` | src/protocols/ospf.c:470-477 | exactly the advertisements that are in a slot now and were not there before are flooded |
| `Lsdbs.HeldIff` | src/protocols/ospf.c:403-442 | what is held under an id and a router is what some slot holds with both |
| `Lsdbs.HasRoom` | src/protocols/ospf.c:406-442 | a database whose keys come from at most as many keys as slots never lacks room |
| `Lsdbs.MergeAllNewest` | src/protocols/ospf.c:397-467 | after any updates each key holds the newest advertisement received |
| `Lsdbs.MergeOrderIndependent` | src/protocols/ospf.c:397-467 | the final database depends only on the set of advertisements received |
| `Lsdbs.ReceiveFlood` | src/protocols/ospf.c:312-477 | receiving a flooded update is merging it and passing it on if it was news |
| `Lsdbs.Lsdb.FindTarget` | src/protocols/ospf.c:403-442 | the slot scan, with the early exit on a match |
| `Lsdbs.Lsdb.Merge` | src/protocols/ospf.c:397-467 | the merge loop; the count stays the number of used slots |
| `Lsdbs.Lsdb.Receive` | src/protocols/ospf.c:312-477 | a rejected body leaves the database untouched; otherwise merge and flood list |
| `Flooding.StepKeeps` | src/protocols/ospf.c:397-477 | every step keeps: what a router holds each neighbour holds at least as new, or will receive |
| `Flooding.DeliverySends` | src/protocols/ospf.c:640-655 | a delivery that brings news sends it over every other link of the router and nothing back over the one it came by; any other delivery sends nothing |
| `Flooding.ReachableInv` | src/protocols/ospf.c:640-719 | that invariant in every reachable state, for any topology and any originations that fit the databases |
| `Flooding.NeighboursAgree` | src/protocols/ospf.c:397-477 | with nothing in flight, neighbours agree on every sequence number |
| `Flooding.FloodingConverges` | src/protocols/ospf.c:397-477 | in a quiet connected network every router holds the newest originated advertisement of every key |
| `Flooding.AllRoutersAgree` | src/protocols/ospf.c:397-477 | if key and sequence determine content, all databases are then the same map |
| `Flooding.StepPotential` | src/protocols/ospf.c:424-430 | each delivery uses up potential that only originations add |
| `Flooding.FloodingStops` | src/protocols/ospf.c:470-477 | any run has at most (link ends) * (routers + 1) deliveries per origination |
| `Flooding.DrainsToQuiet` | src/protocols/ospf.c:470-477 | every run goes on, by deliveries alone, to a state with nothing in flight, so the agreement theorems always come to apply |
| `Convergence.SameHeldSameGraph` | src/protocols/ospf.c:796-810 | equal databases describe the same graph, whatever slots they use |
| `VisitOrder.RoundLogged` | src/protocols/ospf.c:793-849 | a round keeps the record: each visited vertex preceded all on offer, each reached vertex has distance and first hop from the first visited router to offer that distance |
| `VisitOrder.TreeIsGreedy` | src/protocols/ospf.c:772-850 | the tree of every database and root was computed nearest first, smaller id on ties, in that sense |
| `TieBreaks.SameDistances` | src/protocols/ospf.c:772-850 | two roots that reach each other for nothing compute the same distances |
| `TieBreaks.HopNoFarther` | src/protocols/ospf.c:838-847 | by its own computation the first hop is closer to the destination by the cost of the link to it |
| `TieBreaks.SameFromHere` | src/protocols/ospf.c:773-791 | once two computations on the same distances have visited the same routers, they go on in the same order |
| `TieBreaks.NearFirst` | src/protocols/ospf.c:773-791 | routers reached over free links through small ids are visited before all others |
| `NoRings.WayOn` | src/protocols/ospf.c:773-847 | a shortest path starting in that neighbourhood passes its property, and a smaller id, on to the first hop |
| `NoRings.SameFrom` | src/protocols/ospf.c:773-847 | without such a path, roots with one neighbourhood reach the destination from the same router |
| `NoRings.NeverTwice` | src/protocols/ospf.c:772-847 | so routers that compute this way on one graph never hand a packet round in a ring, free links included |
| `Convergence.NoRoutingLoop` | src/protocols/ospf.c:838-903 | following first hops on agreeing databases never returns to a router, whatever the metrics |
| `Convergence.QuietNetworkSharesGraph` | src/protocols/ospf.c:397-477 | after flooding has come to rest in a connected network all databases are well-formed and describe one graph |
| `Convergence.NoLoopAtRest` | src/protocols/ospf.c:397-847 | then the first hops the routers compute lead nowhere in a loop |
| `Convergence.ForwardsAsComputed` | src/protocols/ospf.c:852-910 | a lookup in an installed table that answers with an OSPF route follows the first hop of the computed tree |
| `Convergence.NoForwardingLoopAtRest` | src/protocols/ospf.c:397-910 | so once flooding is at rest and the trees are installed, no packet forwarded along OSPF routes comes to a router twice |
| `OspfNeighbors.NeighborsStayUnique` | src/protocols/ospf.c:266-304 | no router occupies two neighbour slots |
| `OspfNeighbors.HelloStored` | src/protocols/ospf.c:266-304 | an accepted hello leaves one slot of its sender with that address, interface and time, FULL exactly when it listed the local router |
| `OspfNeighbors.SweepTakesDown` | src/protocols/ospf.c:959-981 | the sweep takes down exactly the neighbours last heard 40 s ago or earlier |
| `OspfNeighbors.HelloLoop` | src/protocols/ospf.c:266-304 | the neighbour search and update; drops exactly on a full table without the sender |
| `OspfNeighbors.DeadLoop` | src/protocols/ospf.c:959-981 | exactly the neighbours silent for 40 s go down, and the change flag says whether any did |
| `Staleness.HandleKeeps` | src/protocols/ospf.c:66-93 | whatever a handler does, starting a protocol included, every protocol that is up has its sweep timers pending and its tables fresh for them |
| `Staleness.SweepKeeps` | src/protocols/rip.c:369-465 | a sweep keeps that, its own timer pending again one period on |
| `Staleness.DispatchKeeps` | src/engine/scheduler.c:62-83 | so every dispatch keeps it |
| `Staleness.DispatchIsSchedulers` | src/engine/scheduler.c:62-83 | on queue and clock a dispatch is the scheduler's |
| `Staleness.StalenessBounded` | src/protocols/rip.c:369-465 | in every reachable state, whenever each protocol was started: neighbours silent 80 s are down, active routes at most 360 s old, stored routes at most 480 s |
| `Survival.NeighbourSurvives` | src/protocols/ospf.c:947-1000 | in every run a neighbour that is up stays up for 40 s after it was heard, unless OSPF is started anew |
| `Survival.RouteSurvives` | src/protocols/rip.c:369-465 | in every run a route stays in use for 180 s after its refresh unless withdrawn, and stored for 300 s even then |
| `RipDatabase.LearnKeeps` | src/protocols/rip.c:162-252 | one received entry keeps networks unique and normalized, metrics 1..16, and the agreement with the table |
| `RipDatabase.TimeoutKeeps` | src/protocols/rip.c:385-399 | the timeout sweep keeps the agreement |
| `RipDatabase.GcKeeps` | src/protocols/rip.c:434-448 | the collection sweep keeps the agreement |
| `RipDatabase.DatabaseAndTableAgree` | src/protocols/rip.c:162-448 | over any interleaving, other protocols included: RIP routes in the table are active database routes, and all of them if the table was never full |
| `RipDatabase.EmptyAgrees` | src/protocols/rip.c:32-50 | the initial state agrees |
| `RipDatabase.ActiveAtIff` | src/protocols/rip.c:162-252 | the active route of a network is that of the slot that holds it in use |
| `RipLearning.LearnsRoute` | src/protocols/rip.c:221-251 | a reachable route is stored in exactly one slot, active, one hop farther, as just heard, and in the table if it has room; nothing else changes |
| `RipLearning.LearnsNothingWhenFull` | src/protocols/rip.c:221-233 | an unknown network changes nothing when no slot is left |
| `RipLearning.LearnsWithdrawal` | src/protocols/rip.c:186-220 | a withdrawn network is collecting from now on and gone from the table; nothing else changes |
| `RipLearning.LearnsNothing` | src/protocols/rip.c:162-200 | another address family, a mask that is none and a withdrawal of an unknown network change nothing |
| `RipLearning.LearnedInOrder` | src/protocols/rip.c:162-252 | the entries of a message are learned in the order they have in it |
| `RipLearning.AnnouncedRecovered` | src/protocols/rip.c:164-251 | what one router announces another stores, one hop farther |
| `RipLearning.WithdrawalRecovered` | src/protocols/rip.c:186-220 | and a route its owner is collecting is withdrawn |
| `RipState.RipState.ReceiveMessage` | src/protocols/rip.c:97-256 | a message failing a format check changes nothing; otherwise every entry is learned in order, count exact |
| `RipState.RipState.ReceiveEntry` | src/protocols/rip.c:162-252 | one round of the entry loop on slots and table |
| `RipState.RipState.TimeoutHandler` | src/protocols/rip.c:383-399 | the timeout sweep in place |
| `RipState.RipState.GcHandler` | src/protocols/rip.c:432-448 | the collection sweep in place, count exact |
| `RipUpdate.MessageRoundTrip` | src/protocols/rip.c:134-159 | a message of at most 25 entries passes every format check and yields its entries |
| `RipUpdate.DecodeIff` | src/protocols/rip.c:134-160 | a message is accepted exactly as a version 2 response of at most 25 whole entries, and yields what lies at their offsets |
| `RipUpdate.SendUpdate` | src/protocols/rip.c:258-334 | messages have 1 to 25 entries, and read in order give, in slot order, exactly the used slots not learned on the output interface, each with its network, mask, next hop and metric |
| `RipUpdate.NothingBack` | src/protocols/rip.c:284-284 | no entry names a network learned on the output interface |
| `TcpEndpoint.SynAnswered` | src/protocols/tcp.c:519-587 | a listener answers a segment whose only flag is SYN, at any sequence number, and no other |
| `TcpEndpoint.SynAckTaken` | src/protocols/tcp.c:601-634 | the answer to our SYN is acknowledged and completes the connection |
| `TcpEndpoint.FinTaken` | src/protocols/tcp.c:727-749 | a FIN in order is taken, acknowledged with the next number, and leads to CLOSE_WAIT |
| `TcpEndpoint.LastFinTaken` | src/protocols/tcp.c:788-830 | the same in FIN_WAIT_2, leading to TIME_WAIT |
| `TcpEndpoint.DataAnswered` | src/protocols/tcp.c:668-725 | any data in ESTABLISHED is answered with what has been received in order, repeated data and data beyond a gap included |
| `TcpEndpoint.UnsentAckLosesData` | src/protocols/tcp.c:668-686 | data whose acknowledgement cannot be sent is lost |
| `TcpEndpoint.UnsentAckLosesFin` | src/protocols/tcp.c:727-747 | and so is a FIN |
| `TcpEndpoint.UselessIgnored` | src/protocols/tcp.c:596-926 | segments a state has no use for change nothing and are not answered |
| `TcpEndpoint.RetransmissionRecovers` | src/protocols/tcp.c:1055-1095 | the retransmitted segment gives the bytes to a peer that missed them, and a full acknowledgement without them from one that did not |
| `TcpEndpoint.ReceiveBooked` | src/protocols/tcp.c:596-757 | against any segment the send queue stays exact until closing starts |
| `TcpEndpoint.SendBooked` | src/protocols/tcp.c:929-994 | exactly when a send succeeds, and that its tracking failure never happens |
| `TcpEndpoint.CloseBooked` | src/protocols/tcp.c:997-1053 | exactly when a close succeeds, and that its tracking failure never happens |
| `TcpEndpoint.SendBookedIff` | src/protocols/tcp.c:955-988 | a send leaves the queue exact if and only if snd_nxt stays below 2^32 |
| `TcpEndpoint.CloseBookedIff` | src/protocols/tcp.c:1010-1041 | so does a close |
| `TcpEndpoint.FullAckIff` | src/protocols/tcp.c:655-668 | the acknowledgement of everything sent is taken, and frees the queue, if and only if the send did not wrap |
| `TcpEndpoint.AlwaysBookedIff` | src/protocols/tcp.c:38-126 | after any inputs of peer and application: the slot was always occupied exactly while snd_una < snd_nxt and ended at snd_nxt, if and only if fewer than 2^32 sequence numbers were used |
| `TcpEndpoint.OpenedBookedIff` | src/protocols/tcp.c:392-594 | the same for every connection from the call or the SYN that opens it |
| `TcpEndpoint.QuietReachable` | src/protocols/tcp.c:596-994 | an opened connection can acknowledge its way to any snd_nxt, the last one before the wrap included |
| `TcpEndpoint.WrapLosesAck` | src/protocols/tcp.c:655-668 | inputs from the opening on after which one more byte wraps and its acknowledgement is ignored |
| `TcpEndpoint.Connection.SendData` | src/protocols/tcp.c:929-994 | the block, the segment sent and the result of every send call |
| `TcpEndpoint.Connection.Shut` | src/protocols/tcp.c:997-1053 | the same for close |
| `TcpEndpoint.Connection.Hearing` | src/protocols/tcp.c:596-926 | the same for a segment in every state |
| `TcpNetwork.StepKeeps` | src/protocols/tcp.c:461-1095 | every event of an endpoint keeps the invariant of the pair |
| `TcpNetwork.ReachableInv` | src/protocols/tcp.c:392-1095 | that invariant in every reachable state |
| `TcpNetwork.InOrderExactlyOnce` | src/protocols/tcp.c:668-703 | the bytes accepted are a prefix of the bytes taken, and snd_una <= accepted <= snd_nxt, both ways |
| `TcpNetwork.CloseIsComplete` | src/protocols/tcp.c:727-906 | a closing endpoint has had all its data accepted, FIN_WAIT_2 and TIME_WAIT also its FIN, a released one everything both ways; CLOSING is never reached |
| `TcpClosing.CanClose` | src/protocols/tcp.c:596-1053 | from every reachable state with both ends at rest, whichever side begins, the connection closes: both blocks released, both FINs accepted, no byte lost or added |
| `TcpNetwork.MovesFollowDiagram` | src/protocols/tcp.c:355-1053 | every transition is an arrow of the full diagram in section 3.3.2 of RFC 9293, and the event is what labels the arrow |
| `TcpNetwork.TakenIsPassedIff` | src/protocols/tcp.c:949-953 | the bytes taken are the bytes passed exactly when no successful call exceeded one segment |
| `TcpNetwork.PassedInOrder` | src/protocols/tcp.c:949-953 | then the peer's bytes are a prefix of the bytes passed |
| `TcpNetwork.CutBreaksPrefix` | src/protocols/tcp.c:953-993 | a run in which they are not |
| `Checksums.FoldCongruent` | src/protocols/ip.c:330-332 | folding keeps the value modulo 65535 and only zero folds to zero |
| `Checksums.WrittenChecksumVerifies` | src/protocols/icmp.c:227-247 | writing the checksum into its zeroed field makes the message verify, at every length and parity |
| `Checksums.NoOverflowIff` | src/protocols/icmp.c:232-240 | the 32-bit sum cannot wrap exactly for messages of up to 131074 bytes |
| `Checksums.VerifiesIff` | src/protocols/ip.c:319-335 | what a zero checksum means for the words |
| `Checksums.ChecksumLoop` | src/protocols/icmp.c:227-247 | the two loops compute that checksum |
| `Forwarding.ForwardedIsValid` | src/network/router.c:131-172 | a forwarded header still verifies, TTL one lower, all else unchanged |
| `Forwarding.ForwardingTerminates` | src/network/router.c:148-172 | a packet is forwarded fewer times than its initial TTL under any tables |
| `Forwarding.VerdictIff` | src/network/router.c:131-166 | exactly when each verdict is given, and that target and interface come from a best route |
| `Forwarding.RewriteHeader` | src/network/router.c:170-172 | the rewrite on the packet buffer |
| `Forwarding.Forward` | src/network/router.c:131-180 | the verdict of the forwarding path, and that the buffer changes only when the packet is forwarded |

## Left out

- The 24-byte OSPF header and the format checks of a hello; the model starts at the update body and at an accepted hello.
- `neighbor_count`, interface counters, statistics, traces, display and command line.
- TCP demultiplexing (`tcp_find_exact`, `tcp_find_listener`, the table of 64 blocks), windows, handlers and ports: one connection is modelled, in one incarnation.
- TCP liveness: no retransmission is scheduled for a SYN-ACK and acknowledgements are dropped in CLOSE_WAIT, so only safety holds.
- `ip_output` failure in the two-endpoint system: `TcpEndpoint` has it as `canSend`, `TcpNetwork` assumes success, since accepted bytes are lost when the immediate acknowledgement cannot be sent.
- Loss of OSPF updates: nothing in the source retransmits them, so flooding is stated for links that deliver.
- Failed sends inside `rip_send_update`, and the ARP and Ethernet hand-over after forwarding.
- Switches, ARP cache, static routes, UDP sockets, hosts, links and topology: single tables with easier invariants than those here.
- An event queue of capacity zero: doubling leaves it at zero, and `scheduler_create` refuses it.
- Packet ownership and freeing, allocation failure other than queue growth, wrap-around of 64-bit timestamps.
