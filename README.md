# Courier dispatch engine — a verified model

This project models the core of a parcel courier simulator. The simulator
is a C++ back end (`source.cpp`) with a separate admin dashboard
(`admin.cpp`). Eight cities are joined by a fixed distance matrix.
Customers book parcels between offices and may cancel a parcel while it
is still `Booked`. A background clock ticks once per second. Each tick:

- at the end of a 180-second day, advances the 5-day cycle, drops
  finished trips and refills every city's fleet;
- lands the trips whose travel time is up, marking their parcels
  `Delivered` or `LOST`;
- at second 150 runs the daily dispatch.

For every source and destination city, the dispatch:

1. collects the waiting (`Booked`) parcels;
2. bubble-sorts them by priority;
3. admits a batch under the day's weight rule;
4. finds the route length with Dijkstra's algorithm over a binary
   min-heap;
5. takes the first vehicle class on the allocation ladder that fits;
6. boards the batch onto a new trip.

The admin panel keeps the last five notification lines relevant to a
city. It also draws a progress bar for the first trip on each route.

How the source's data structures appear in the model:

- **Classes updated in place.** The min-heap (its node and position
  arrays), the hash table (an array of buckets), the graph (an array of
  adjacency lists), the dashboard's growable vector (its buffer) and the
  engine (its per-city vehicle pool arrays) are Dafny classes whose
  fields and arrays the methods update.
- **Chains as sequences.** The source's singly linked chains are Dafny
  sequences, not nodes. This covers the engine's `allParcels` and
  `activeTrips`, each hash bucket's chain, each adjacency list, and a
  trip's parcel list. The `LinkedList` class keeps its contents as one
  sequence field with the source's size counter. The model uses it only
  as the temporary list that the arrival check and the trip boarding
  build; the engine then stores its contents as a sequence.
- **Parcel references.** The source shares each `Parcel*` between the
  master list, the hash buckets and the trips. Here they are indices
  into the engine's append-only `parcels` sequence. A status change
  rewrites one element.
- **The engine's invariant.** Besides the clock ranges, the pool
  bounds and the directory, it ties the trips to the statuses. Every
  `In Transit` parcel is aboard exactly one unfinished trip, once. No
  other parcel is aboard any unfinished trip.
- **The daily dispatch as a function.** `DispatchRoute` is the effect of
  one route's dispatch step on the parcels, the trips and the pools.
  `RoutesFrom` and `AllRoutes` fold it over the 64 routes in the
  source's loop order. `DispatchLogic` is proved to produce exactly that
  fold.
- **Specification functions.** Each step is proved against a pure
  function: `Candidates`, `StableSort`, `Admit`, `Ladder`, `Board`,
  `Land`, `AdvanceAll`, `Unfinished` and `Matching`. The properties of
  those functions are proved as lemmas.

Randomness is a parameter. `Book` receives the tracking id that
`rand()` would produce. `Tick` receives the set of parcel references
whose loss roll (`rand() % 1000 < 5`) comes up.

Modules, in dependency order:

- `Parcels` (`parcels.dfy`): the constants, the status machine, parcels,
  vehicles and trips.
- `Lists` (`linked_list.dfy`).
- `Directory` (`directory.dfy`): djb2 hashing and the parcel hash table.
- `Heap` (`min_heap.dfy`).
- `Routing` (`routing.dfy`): the distance matrix, the graph, Dijkstra's
  algorithm and its correctness argument.
- `Dispatch` (`dispatch.dfy`): candidate collection, the bubble sort as
  a stable sort, admission and the allocation ladder.
- `Simulation` (`engine.dfy`): the engine.
- `Admin` (`admin.dfy`): the vector, the log tail, the progress bar and
  the dashboard rows.

## Model

| member | source | states |
|---|---|---|
| Parcels.Rank | source.cpp:385-386 | Ranks the statuses: 0 exactly for `Booked`, and at most 2. |
| Parcels.StepRaisesRank | source.cpp:385-386 | Every status transition strictly raises the rank. The transitions are Booked→Cancelled (undo), Booked→In Transit (dispatch) and In Transit→Delivered/LOST (arrival). |
| Parcels.TraceIsMonotonic | source.cpp:496-507 | Along any history of transitions the rank strictly grows, so no status ever recurs. |
| Parcels.TraceIsShortAndReachable | source.cpp:627-636 | A history has at most 3 statuses, and its last status is reachable from its first. |
| Parcels.SucceedsIsReachability | source.cpp:385-386 | `Succeeds(a, b)` holds iff some history of transitions leads from `a` to `b`, so the one-step description of reachability is exact. |
| Parcels.SucceedsIsAntisymmetric | source.cpp:385-386 | Reachability between statuses is antisymmetric: no two distinct statuses reach each other. |
| Parcels.NewParcel | source.cpp:194-200 | A new parcel carries the given fields, status `Booked`, no dispatch time and no route distance. |
| Parcels.TruncDiv | source.cpp:541-543 | C++ integer division: the remainder has the dividend's sign and is smaller than the divisor in magnitude. |
| Parcels.TruncDivOfNatural | admin.cpp:157-158 | On a non-negative dividend and a positive divisor, truncating division equals Euclidean division. |
| Parcels.TraveledBounds | source.cpp:539-543 | The covered distance the snapshot writes for a started trip lies in [0, distance]. It equals the full distance exactly when the trip is due to arrive. |
| Lists.LinkedList.constructor | source.cpp:75 | A new list is empty. |
| Lists.LinkedList.Append | source.cpp:77-86 | Appends at the tail: the contents become the old contents plus the value, and the size grows by one. |
| Lists.LinkedList.Clear | source.cpp:88-96 | The list becomes empty with size 0. |
| Lists.LinkedList.IsEmpty | source.cpp:98 | Answers true exactly when the list holds nothing. |
| Directory.Djb2 | source.cpp:208-212 | djb2 (`h*33 + c` from 5381) on an unsigned 64-bit word; the result is below 2^64. |
| Directory.Bucket | source.cpp:213 | The bucket index is below the table size 1009. |
| Directory.ParcelHashTable.Hash | source.cpp:208-214 | The loop computes exactly the bucket of the key. |
| Directory.InBucketAppend | source.cpp:221-228 | Inserting appends the entry to its own bucket only, after the bucket's earlier entries. |
| Directory.FirstRefSpec | source.cpp:230-240 | A lookup finds something iff an entry with that id exists. What it finds is the earliest such entry. |
| Directory.FirstRefInOwnBucket | source.cpp:231-238 | Searching only the key's bucket gives the same answer as searching every entry. |
| Directory.ParcelHashTable.constructor | source.cpp:217-219 | A new table has every bucket empty. |
| Directory.ParcelHashTable.Insert | source.cpp:221-228 | The inserted entry joins the table's history, and every bucket still holds exactly its entries in insertion order. |
| Directory.ParcelHashTable.Search | source.cpp:230-240 | The bucket walk returns the earliest inserted entry with the id, or none. |
| Directory.SearchAfterInsert | source.cpp:221-240 | After an insert the id is always found. When the id was new, the inserted parcel is the one found. |
| Directory.SearchNeverMismatches | source.cpp:230-240 | A found reference belongs to an entry with exactly that id. An id never inserted is not found. |
| Heap.SiftUpStep | source.cpp:161-163 | One parent swap in the decrease-key loop moves the single heap-order defect one level up. |
| Heap.SiftUpDone | source.cpp:161 | When the loop stops (at the root, or with a parent no larger), the whole heap is ordered. |
| Heap.SiftDownStep | source.cpp:133-140 | Swapping with the smaller child moves the heap-order defect down to that child. |
| Heap.MinHeap.constructor | source.cpp:113-118 | A new heap is valid and empty with the given capacity. |
| Heap.MinHeap.RootIsMin | source.cpp:146-148 | In a valid heap the root key is no larger than any key in the heap. |
| Heap.MinHeap.SwapNodes | source.cpp:120-126 | Swaps two slots and keeps the position index consistent. Membership and every vertex's key are unchanged. |
| Heap.MinHeap.MinHeapify | source.cpp:128-142 | Restores heap order below `idx`, keeping membership and keys. |
| Heap.MinHeap.IsEmpty | source.cpp:144 | True exactly when the size is 0. |
| Heap.MinHeap.ExtractMin | source.cpp:146-156 | Empty heap: returns {-1,-1} and changes nothing. Otherwise removes a vertex whose key is minimal among the vertices in the heap and returns that key; the rest stay with their keys. |
| Heap.MinHeap.DetachRoot | source.cpp:148-153 | Moves the last node to the root and shrinks the heap; only the root vertex leaves. |
| Heap.MinHeap.DecreaseKey | source.cpp:158-165 | Sets the vertex's key to the smaller value and restores heap order. Other vertices keep their keys. |
| Heap.MinHeap.SiftUp | source.cpp:161-164 | The parent-swap loop restores heap order without changing membership or keys. |
| Heap.MinHeap.IsInMinHeap | source.cpp:167-169 | `pos[v] < size` is exactly membership in the heap. |
| Heap.MinHeap.Insert | source.cpp:171-175 | Places the vertex in the next free slot, records its position, and leaves every other slot and position alone. |
| Routing.MatrixFacts | source.cpp:42-51 | The distance matrix is 8×8 and symmetric, zero exactly on the diagonal, with entries in [0, 15]. |
| Routing.WeightNonnegative | source.cpp:42-51 | No road has negative length. |
| Routing.ExtendPath | source.cpp:285-288 | Extending a path by a road adds that road's length to the path's weight. |
| Routing.PrefixWeight | source.cpp:278-281 | A prefix of a path weighs no more than the path. |
| Routing.AdjUpToSpec | source.cpp:255-262 | The adjacency list built for a city holds exactly its roads with their matrix lengths. |
| Routing.AdjUpToSound | source.cpp:257-260 | Every node in a built list is a road of the city with its matrix length. |
| Routing.AdjUpToComplete | source.cpp:257-260 | Every road of the city appears in its list. |
| Routing.AdjacencyIndexed | source.cpp:253-264 | The finished list of each city lists exactly its roads. |
| Routing.AllAdjacencyIndexed | source.cpp:253-264 | The same holds for all eight lists together. |
| Routing.Graph.constructor | source.cpp:253-264 | Builds the eight adjacency lists (each new node prepended) from the matrix's non-zero off-diagonal entries. |
| Routing.Graph.Row | source.cpp:255-262 | The inner loop builds exactly the specified list for city `i`. |
| Routing.Graph.GetShortestPath | source.cpp:266-294 | Returns -1 or a value below INT_MAX. A non-negative result is the weight of some path and at most the weight of every path. -1 means every path weighs at least INT_MAX. |
| Routing.Graph.Search | source.cpp:267-292 | After the main loop every city is settled, and the search invariant holds. |
| Routing.Graph.SettleNext | source.cpp:279-291 | One iteration extracts a closest unsettled city, relaxes its roads and keeps the invariant; the heap shrinks by one. |
| Routing.Graph.RelaxEdges | source.cpp:282-291 | The edge walk updates the distances exactly as relaxing the list's edges in order does, and keeps the heap tracking them. |
| Routing.SettleMinimum | source.cpp:279-280 | Settling an unsettled city of minimal tentative distance keeps every settled distance optimal. |
| Routing.MinimalIsOptimal | source.cpp:279-280 | The minimal tentative distance is at most the weight of any path to that city. |
| Routing.CrossingEdge | source.cpp:279-280 | The first unsettled city on a path has tentative distance at most the path's weight. |
| Routing.RelaxAllKeeps | source.cpp:283-290 | Relaxing any prefix of the list keeps the search invariant and the phase of `u`. |
| Routing.RelaxAllRelaxes | source.cpp:283-290 | After relaxing, every edge out of `u` seen so far is relaxed, and `u`'s own distance is unchanged. |
| Routing.PhaseEnds | source.cpp:283-291 | After the whole list, every road leaving the settled set is relaxed. |
| Routing.RelaxOneKeeps | source.cpp:285-289 | One relaxation keeps the invariant: every finite distance is witnessed by a path of that weight. |
| Routing.RelaxStep | source.cpp:286-288 | Lowering `dist[v]` to `dist[u] + w` is witnessed by the path to `u` extended by `v`. |
| Routing.InitialState | source.cpp:270-276 | `dist` at INT_MAX with the source at 0 satisfies the invariant with nothing settled. |
| Routing.FinalState | source.cpp:293 | Once the destination is settled its distance is optimal, and below INT_MAX it is witnessed by a path. |
| Routing.StartPhase | source.cpp:279-280 | Extracting a minimum starts a relaxation phase for it. |
| Routing.Relax | source.cpp:284-289 | The guarded update (in heap, `dist[u] != INT_MAX`, shorter) equals the specified relaxation of one edge. |
| Routing.Lower | source.cpp:287-288 | Writes the new distance and decreases the heap key together. |
| Routing.Start | source.cpp:267-276 | Fresh arrays with every city in the heap at INT_MAX except the source at 0. |
| Routing.Seed | source.cpp:270-273 | Each city enters the heap at INT_MAX, in city order. |
| Routing.SeededTracks | source.cpp:270-273 | After seeding, the heap tracks `dist` exactly. |
| Routing.ShortestNeverExceedsDirect | source.cpp:604-608 | Between distinct cities the shortest route exists and is no longer than the direct road, so the reroute test never fires. |
| Dispatch.CandidatesSpec | source.cpp:559-566 | The collected array holds exactly the `Booked` parcels of the route, in booking order, each once. |
| Dispatch.CandidatesGrow | source.cpp:562-566 | The candidates of a prefix of the collection are a prefix of the candidates. |
| Dispatch.CandidatesStep | source.cpp:563-565 | One list node appends its parcel iff it is waiting on the route. |
| Dispatch.CollectCandidates | source.cpp:559-566 | The second walk fills the array with exactly the candidates. |
| Dispatch.CountWaiting | source.cpp:552-557 | The counting walk returns the number of candidates. |
| Dispatch.InsertByPriority | source.cpp:567-576 | The reference insertion adds exactly one element, drawn from the inputs. |
| Dispatch.InsertMembers | source.cpp:567-576 | Insertion keeps exactly the old elements plus the new one. |
| Dispatch.InsertKeepsSorted | source.cpp:567-576 | Insertion keeps a priority-sorted sequence sorted. |
| Dispatch.InsertKeepsGroups | source.cpp:567-576 | Insertion places `x` after every element of its priority, keeping each priority group's order. |
| Dispatch.StableSortIsStable | source.cpp:567-576 | The reference sort is sorted by priority, and each priority group keeps its original order. |
| Dispatch.StableSortMembers | source.cpp:567-576 | The reference sort keeps exactly the input's elements. |
| Dispatch.StableOrderIsUnique | source.cpp:567-576 | Two priority-sorted arrangements with the same priority groups are equal, so any stable sort gives the same result. |
| Dispatch.SwapKeepsGroups | source.cpp:570-574 | Swapping adjacent parcels of different priority leaves every priority group unchanged. |
| Dispatch.PairGroups | source.cpp:570-574 | Exchanging two adjacent parcels of different priority preserves each group's sequence. |
| Dispatch.SameGroupsTrans | source.cpp:567-576 | Keeping the groups is transitive across passes. |
| Dispatch.BubbleSort | source.cpp:567-576 | The in-place bubble sort is a stable sort by priority, equal to the reference sort. |
| Dispatch.SortPasses | source.cpp:568-576 | The outer loop: after all passes the array is sorted with every priority group in original order. |
| Dispatch.PassExtendsSorted | source.cpp:568-576 | Each pass extends the sorted suffix by one slot. |
| Dispatch.SortedFromStart | source.cpp:568 | A sorted suffix from slot 1, bounded by slot 0, is a fully sorted array. |
| Dispatch.BubblePass | source.cpp:569-575 | One pass leaves the slots beyond the pass alone and moves a maximal priority to the pass's last slot. It keeps every priority group and never raises a bound on the prefix. |
| Dispatch.AdmitLoad | source.cpp:578-596 | The running batch weight equals the total weight of the admitted parcels. |
| Dispatch.BatchIsSubsequence | source.cpp:580-596 | The batch is a subsequence of the sorted candidates, in the same order. |
| Dispatch.Select | source.cpp:582-591 | The if-chain selects exactly under the day rule. Day 5: everything. Days 1 and 3: overnight parcels, or while the batch stays within 300. Days 2 and 4: priority ≤ 2, or within 600. Other days: nothing. |
| Dispatch.BuildBatch | source.cpp:578-596 | The admission loop builds exactly the specified batch of the sorted candidates. |
| Dispatch.AdmitStep | source.cpp:592-595 | One admitted parcel appends its reference and adds its weight. A rejected one changes nothing. |
| Dispatch.PlanBatch | source.cpp:550-596 | Counting, collecting, sorting and admitting compose to the specified batch for the route. |
| Dispatch.PlannedAreWaiting | source.cpp:555-596 | Every planned parcel is a `Booked` parcel of that route. |
| Dispatch.LastDayAdmitsAll | source.cpp:583 | On day 5 the batch is every candidate, in sorted order. |
| Dispatch.UrgentAdmitted | source.cpp:584-590 | On days 1 to 4 an urgent parcel (priority 1 on days 1 and 3, priority ≤ 2 on days 2 and 4) is always admitted. |
| Dispatch.OffCycleAdmitsNothing | source.cpp:582-591 | Outside days 1 to 5 no parcel is selected. |
| Dispatch.SoftCap | source.cpp:584-591 | In a priority-sorted candidate list, once a non-urgent parcel is admitted the batch weight stays within the day's cap (300 or 600). |
| Dispatch.Uses | source.cpp:620-625 | Every vehicle class consumes at least one vehicle from the pools. |
| Dispatch.Tier | source.cpp:620-625 | Ranks the vehicle classes in ladder order. |
| Dispatch.Ladder | source.cpp:620-625 | An allocated class fits the load and is available in the pools. |
| Dispatch.LadderIsFirstFit | source.cpp:620-625 | Allocation picks the first rung that fits: no earlier class fits. It allocates nothing exactly when no class fits. |
| Dispatch.TakeStaysInRange | source.cpp:620-625 | Taking the allocated vehicles lowers no pool below zero and shrinks the total. |
| Simulation.FirstWithId | source.cpp:382 | The first parcel in booking order with the id, or none when no parcel has it. |
| Simulation.DirectoryFindsFirst | source.cpp:378-384 | A lookup in the hash table agrees with the first-booked parcel of that id. |
| Simulation.FirstWithIdAt | source.cpp:230-240 | A parcel with the id and no earlier match is the one found. |
| Simulation.BookedIsFound | source.cpp:371-372 | After booking, the id is found. A fresh id finds the new parcel; a reused id keeps finding the earlier one. |
| Simulation.CountsBounded | source.cpp:524-531 | The Booked and In Transit counts together never exceed the number of parcels. |
| Simulation.CountAfterAppend | source.cpp:371 | A new parcel adds one to the count of its status. |
| Simulation.UnfinishedSpec | source.cpp:470-481 | Cleaning keeps exactly the unfinished trips, in their original order. |
| Simulation.Advance | source.cpp:493-497 | A trip becomes finished iff it was finished or its travel time is up. Nothing else about it changes. |
| Simulation.AdvanceAll | source.cpp:483-519 | Every trip is advanced in place; the list keeps its length and order. |
| Simulation.LandEffect | source.cpp:498-509 | Landing touches exactly the trip's parcels: lost ones become `LOST`, the rest `Delivered`. |
| Simulation.LandKeepsIds | source.cpp:498-509 | Landing never changes a parcel's id. |
| Simulation.LandConcat | source.cpp:498-509 | Landing two trips in turn equals landing their parcels together, and their loss counts add. |
| Simulation.LostCountBounded | source.cpp:501-503 | No trip loses more parcels than it carries. |
| Simulation.BoardEffect | source.cpp:630-636 | Boarding touches exactly the batch: `In Transit`, with dispatch time and route distance set. |
| Simulation.BoardKeepsIds | source.cpp:630-636 | Boarding never changes a parcel's id. |
| Simulation.BoardProgresses | source.cpp:627-636 | Boarding `Booked` parcels only moves parcels forward along the status machine. |
| Simulation.BoardLaunches | source.cpp:627-637 | Boarding a batch and appending its trip is a launch step. |
| Simulation.LaunchedTrans | source.cpp:550-551 | Launch steps compose across routes. |
| Simulation.InFlightMembers | source.cpp:487-507 | A reference is among the parcels aboard the unfinished trips iff some unfinished trip carries it. |
| Simulation.InFlightConcat | source.cpp:483-519 | The parcels aboard a concatenation of trip lists are those of the first list, then those of the second. |
| Simulation.InFlightIsInTransit | source.cpp:496-507 | Under the engine invariant, a parcel is aboard an unfinished trip exactly when it is `In Transit`. |
| Simulation.OnOneTrip | source.cpp:627-637 | Under the engine invariant, no parcel is aboard two unfinished trips, and none is aboard one trip twice. |
| Simulation.BookKeepsConsistent | source.cpp:371 | Booking a new parcel keeps the trips consistent with the statuses. |
| Simulation.CancelKeepsConsistent | source.cpp:385-386 | Cancelling a `Booked` parcel keeps the trips consistent. |
| Simulation.UnfinishedInFlight | source.cpp:470-481 | Dropping the finished trips takes no parcel out of flight. |
| Simulation.CleanKeepsConsistent | source.cpp:470-481 | The rollover clean-up keeps the trips consistent. |
| Simulation.ArrivalSplit | source.cpp:493-507 | The arrival check splits the parcels in flight into those still in flight and the arrivals. |
| Simulation.ArrivalsInTransit | source.cpp:498-507 | Under the invariant every arriving parcel was `In Transit`. |
| Simulation.ArrivalAt | source.cpp:493-507 | A parcel leaves flight exactly when it arrives, and then it is no longer `In Transit`. |
| Simulation.ArrivalKeepsConsistent | source.cpp:483-519 | The arrival check only moves parcels forward, and the trips it leaves are consistent with the parcels it leaves. |
| Simulation.BoardKeepsConsistent | source.cpp:627-637 | Sending a new trip of distinct `Booked` parcels keeps the trips consistent. |
| Simulation.ProgressedTrans | source.cpp:446-465 | Moving parcels forward twice is moving them forward. |
| Simulation.ShortestExists | source.cpp:266-294 | If some path weighs at most `n`, a least-weight path exists. |
| Simulation.RouteLengthUnique | source.cpp:599-609 | At most one distance is the route length of a pair of cities. |
| Simulation.RouteDist | source.cpp:599-609 | The route length of two cities always exists: 5 within a city, the shortest path weight otherwise. |
| Simulation.DispatchRoute | source.cpp:552-640 | The effect of one route's dispatch step keeps one pools entry per city. |
| Simulation.DispatchRouteDefers | source.cpp:638-640 | With no fitting vehicle class, the step leaves the parcels, trips and pools alone. |
| Simulation.DispatchRouteSends | source.cpp:616-637 | With a non-empty batch and a fitting class, the step takes that vehicle from the source city's pools, boards the batch and appends an unfinished trip starting now. |
| Simulation.RoutesFrom | source.cpp:551-642 | The fold of the dispatch step over the destinations keeps one pools entry per city. |
| Simulation.RoutesFromStep | source.cpp:551 | The fold over the first `n + 1` destinations is one more step on the fold over the first `n`. |
| Simulation.AllRoutes | source.cpp:550-643 | The fold over the source cities keeps one pools entry per city. |
| Simulation.DispatchRouteLaunches | source.cpp:627-637 | One dispatch step is a launch: only `Booked` parcels change, to `In Transit`, aboard new unfinished trips started now. |
| Simulation.DispatchRoutePools | source.cpp:616-625 | One dispatch step takes vehicles from the source city's pools only, and adds none anywhere. |
| Simulation.DispatchRouteConsistent | source.cpp:627-637 | One dispatch step keeps the trips consistent with the parcels. |
| Simulation.PoolsShrinkTrans | source.cpp:550-551 | Pools that never grow across two runs of steps never grow across both. |
| Simulation.RoutesFromLaunches | source.cpp:551-642 | The dispatch steps of one source city together are a launch. |
| Simulation.RoutesFromPools | source.cpp:551-642 | The dispatch steps of one source city grow no pool. |
| Simulation.RoutesFromConsistent | source.cpp:551-642 | The dispatch steps of one source city keep the trips consistent. |
| Simulation.AllRoutesLaunch | source.cpp:549-644 | The whole daily dispatch is a launch. |
| Simulation.AllRoutesPools | source.cpp:549-644 | The whole daily dispatch grows no pool. |
| Simulation.AllRoutesConsistent | source.cpp:549-644 | The whole daily dispatch keeps the trips consistent. |
| Simulation.Engine.constructor | source.cpp:332-341 | Day 1, second 0, no parcels, no trips, no losses and full fleets. |
| Simulation.Engine.ResetVehicles | source.cpp:343-349 | Every city gets 14 Bus-300s, 14 Bus-600s and 7 trucks. |
| Simulation.Engine.Book | source.cpp:359-376 | Refused iff source and destination office coincide. Otherwise a new `Booked` parcel of the current day is appended and indexed, and nothing else changes. |
| Simulation.Engine.Undo | source.cpp:378-395 | Unknown id: not found. First parcel with the id `Booked`: it becomes `Cancelled`. Otherwise refused with its status, and nothing changes. |
| Simulation.Engine.CleanFinishedTrips | source.cpp:470-481 | The trip list becomes its unfinished trips. |
| Simulation.Engine.UpdateTrips | source.cpp:483-519 | Every trip is advanced. The parcels of arriving trips land, the loss counter grows by the number lost, parcels only move forward, and the invariant (trips consistent with statuses) is kept. |
| Simulation.Engine.ArriveAll | source.cpp:484-516 | The walk over the trips produces the advanced list and the landed parcels. |
| Simulation.Engine.CheckTrip | source.cpp:487-514 | A finished trip is passed on. A due trip is marked finished and its parcels land. |
| Simulation.Engine.LandTrip | source.cpp:498-509 | The parcel walk lands exactly the trip's parcels and counts the lost ones. |
| Simulation.Engine.RouteDistance | source.cpp:601-609 | Distance 5 within a city, otherwise the shortest path length (which always exists); the reroute flag stays false. |
| Simulation.Choose | source.cpp:620-625 | The six-rung if-chain on one city's counts picks exactly the ladder's class, and leaves that class's units taken (or all counts when none fits), never more than before. |
| Simulation.Engine.Allocate | source.cpp:616-625 | The ladder's choice on city `s`'s pools: that vehicle is taken from `s` only, or nothing changes when no class fits. |
| Simulation.Engine.Commit | source.cpp:627-637 | The batch boards and a new unfinished trip starting now is appended; the pools are unchanged and the invariant is kept. |
| Simulation.Engine.BoardAll | source.cpp:628-636 | The boarding loop boards exactly the batch and builds the trip's parcel list in batch order. |
| Simulation.Engine.DispatchPair | source.cpp:552-641 | The new parcels, trips and pools are exactly `DispatchRoute` of the old ones. The outcome is no batch, a deferral (no class fits the load), or a dispatch with the ladder's vehicle and the shortest route. |
| Simulation.Engine.SendBatch | source.cpp:599-641 | For a non-empty planned batch: the new state is `DispatchRoute` of the old one, and the outcome reports the ladder's choice. |
| Simulation.Engine.Launch | source.cpp:627-637 | Once the ladder has taken the vehicle, sending the batch completes `DispatchRoute`. |
| Simulation.Engine.DispatchLogic | source.cpp:549-644 | The new parcels, trips and pools are exactly the fold `AllRoutes` of the old ones over the 64 routes in order; hence only launches (Booked → In Transit) and no pool grows. |
| Simulation.Engine.DispatchFrom | source.cpp:551-642 | The new state is exactly the fold `RoutesFrom` over the destinations of one source city. |
| Simulation.Engine.Tick | source.cpp:446-465 | `totalSeconds` grows by exactly 1, with day rollover (a 5-day cycle and full fleets) at 180 seconds. Arrivals land. At second 150 the new state is exactly the dispatch fold of the landed state. Parcels only move forward. Other ticks leave the pools unchanged. The engine invariant is kept: day in [1, 5], second in [0, 180), every pool in [0, fleet], the directory indexes every parcel, and the trips are consistent with the statuses. |
| Simulation.Engine.AdvanceClock | source.cpp:451-461 | Second and day advance. On rollover finished trips are dropped and fleets refilled; otherwise the pools are unchanged. |
| Simulation.Engine.Counts | source.cpp:524-531 | The snapshot's counts are the numbers of `Booked` and `In Transit` parcels, and they sum to at most the number of parcels. |
| Admin.Vector.constructor | admin.cpp:24-28 | A new vector has capacity 10 and no elements. |
| Admin.Vector.Copy | admin.cpp:36-43 | The deep copy has a fresh buffer, the same capacity and the same elements. |
| Admin.Vector.CopyPrefix | admin.cpp:40-42 | The copy loop copies exactly the first `n` slots. |
| Admin.Vector.Assign | admin.cpp:46-57 | Assignment takes the other's capacity and elements into a fresh buffer. Self-assignment changes nothing. |
| Admin.Vector.PushBack | admin.cpp:59-64 | Appends the value, doubling the capacity exactly when the vector was full. |
| Admin.Vector.Resize | admin.cpp:66-74 | Doubles the capacity and keeps the elements. |
| Admin.Vector.Get | admin.cpp:76-78 | Indexing returns the element at that position. |
| Admin.Vector.Size | admin.cpp:84-86 | The size is the number of elements. |
| Admin.Vector.Empty | admin.cpp:88-90 | True exactly when there are no elements. |
| Admin.Contains | admin.cpp:238 | The substring test holds iff the pattern occurs at some position of the line. |
| Admin.MatchingSpec | admin.cpp:237-241 | The kept lines are exactly the file's lines tagged with the city or with `[SYSTEM]`. |
| Admin.MatchingConcat | admin.cpp:237-241 | Filtering distributes over concatenation: lines are kept in file order. |
| Admin.MatchingIdempotent | admin.cpp:238 | Filtering twice equals filtering once. |
| Admin.LastFive | admin.cpp:245-252 | The tail holds all lines when there are at most 5, else exactly the last 5. |
| Admin.GetLogs | admin.cpp:230-253 | The returned vector holds the last five relevant lines. |
| Admin.CollectMatching | admin.cpp:231-241 | The read loop collects exactly the relevant lines. |
| Admin.CopyFrom | admin.cpp:247-252 | The slicing loop copies the lines from `start` onwards. |
| Admin.ProgressBar | admin.cpp:150-167 | A zero total counts as 1. At or past the total the trip shows as arrived; otherwise it shows a bar of 10 cells. |
| Admin.ProgressBarShape | admin.cpp:157-166 | Under way, the percentage is in [0, 100), then `percent/10` `=` cells, one `>`, and blanks. |
| Admin.PercentBounds | admin.cpp:157 | The truncated percentage equals Euclidean division and stays below 100. |
| Admin.ProgressIsMonotonic | admin.cpp:157-158 | The percentage never drops as the covered distance grows. |
| Admin.FindTrip | admin.cpp:340-344 | Finds a trip on the route iff one exists. The local row (admin.cpp:324-328) is the same search with `dest` equal to the city. |
| Admin.FindTripIsFirst | admin.cpp:324-328 | The trip found is the first on the route; the scan stops there. |
| Admin.DestinationRow | admin.cpp:336-351 | Idle iff no trip runs the route. Otherwise the vehicle and the progress bar of a trip on the route. |

## Left out

- Threads and mutexes: each engine method runs as one atomic step, which
  is what the source's lock gives it.
- Console and file I/O are not modelled. This covers the menus, the
  coloured messages, the notification log (`logSystemEvent`), the file
  output of the `system_state.txt` snapshot and the dashboard's state
  reader (`readState`, `parseKm`). The values the snapshot writes are
  modelled: the parcel counts (`Engine.Counts`) and each trip's covered
  distance (`Parcels.Traveled`). `GetLogs` takes the notification file as a
  sequence of lines. A missing file is the empty sequence, which gives
  the same empty result.
- `rand()`: the tracking id is a parameter of `Book`, and the loss roll
  is the set of lost parcel references passed to `Tick`. Ids are
  therefore arbitrary strings, not `"P-"` plus five digits.
- `trackParcel` is not modelled, because it only prints a floating-point
  progress figure. The integer covered distance of the snapshot is
  modelled (`Parcels.Traveled`).
- Memory management (`new`, `delete`, destructors) is not modelled. The
  hash table's lazily allocated bucket lists are buckets that start
  empty.
- Simulation.Engine.SendBatch: the unreachable-route branch
  (source.cpp:611-614) is not modelled. `RouteDistance` proves that every
  route exists (the matrix is complete), so that branch cannot be taken.
- Dispatch.SoftCap: holds under the hypothesis that every priority is at
  least 1. The booking menu offers 1 to 3, but `bookParcel` does not
  check it.
- Directory.Djb2: a character is taken as its code point, and
  `unsigned long` is taken as 64 bits wide. The sign extension of a
  negative `char` and a 32-bit `unsigned long` are not modelled. No
  property of the directory depends on the hash beyond its range.
- Dispatch.Select, Dispatch.Admit, Dispatch.AdmitLoad, Dispatch.Ladder:
  the batch weight `currentBatchWeight + p->weight` is summed on
  unbounded integers. Its 32-bit signed overflow, possible only for
  booked weights near 2^31 kg, is not modelled.
- Admin.ProgressBar: `current * 100` is computed on unbounded integers.
  The 32-bit overflow of that product (for distances above about 21
  million km) is not modelled.
- Simulation.Engine.Tick: the `running` flag, `stop()` and the
  one-second sleep are not modelled. A tick is one call.
- The local and destination rows print nothing and "Idle" respectively
  when no trip is found. Only the row's content is modelled, not its
  formatting.
