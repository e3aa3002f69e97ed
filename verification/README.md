# Models of eight pieces of a degree portfolio

Each module models one piece of the repository and proves what that piece is for.

- `FlowTheory`, `ShortestAugmentation`, `FlowNetworks`, `CardExchange`: maximum flow by shortest
  augmenting paths on a network of mutable edges with a separate residual network, and the card
  exchange decided with it. Rest on `Totals` (sums over finite sets), `Walks` and `BreadthFirst`
  (distances and the breadth-first argument).
- `Trees`, `TreeDiameter`: the diameter of a tree by two breadth-first searches.
- `Paging`, `Scheduling`, `SchedulingRuns`, `Instructions`, `SchedulingTurns`, `Scheduler`: the
  round-robin process simulator with paged memory. `Scheduling` gives one instant as a function on
  states, `SchedulingRuns` what every run keeps, `Instructions` and `SchedulingTurns` what each code
  and each turn do apart from those functions, `Scheduler` the process objects, lists and frame array
  that follow them.
- `LruInclusion`, `LruService`, `LruSimulator`: the least-recently-used simulator for any number of
  frames.
- `Reordering`, `RelayProtocol`, `RelayRuns`, `RelayLoss`, `RelayNodes`: the letter-by-letter chat
  relay. A packet sent stays available to its channel, so that it may be delayed, repeated and
  overtaken at will; in `RelayLoss` the network also takes packets away for good. One sender, any
  number of receivers, one message from empty buffers.
- `Primes`, `Hashing`, `SpellTables`: the spell checker's primes and its two hash tables.
- `WordGame`: the word generator and the test of a player's input.
- `DreamPacking`: the packing dynamic program.
- `Oware`, `OwareEngine`: the Oware engine and whole games.

Procedures that change things in place are methods on classes or arrays; each is proved against a
function on values, and the properties are proved about those functions and over whole runs. Loop
bodies of the originals are often methods of their own. Definitions that only name a notion have no
row below. Where a predicate is said to stand behind a dummy quantifier, its content is the same for
every value of the dummy: it is written so that proofs unfold it only where they name an instance.

## Where the code and its description differ

- `Solver.solve` is described as computing the minimum wasted capacity. It looks for a pack from one
  below the contents of a group and raises a negative total to 0, so the answer can be too small.
  `Solve` is proved for the cost the code has; `FiveWastesOne` is an input on which the two differ,
  and `RightExactlyWhen` says for which pack sizes the described answer comes out for all dreams.
- `prevPrime` is described as giving the previous prime. It steps over the number just below an even
  argument: `PrevPrimeExactly`, `PrevPrimeSkipsSeven`.
- `computerMove` is described as choosing the greatest capture. When pit 7 is best and the last
  accepted move tried captures nothing, it picks at random: `ComputerGreedyExactlyWhen`,
  `ComputerOverlooks`.
- A letter `|` is sent but never reaches the server, because the packet is split at it. Everything
  after it stays unshown: `Blocked`, `ShownIffReadable`, `SeparatorIsLost`.
- Lost letters are asked for only when a later one arrives, so a lost last letter stays lost:
  `StillShownExactlyWhen`, `LostLastLetter`, `OnlyLetterLost`.
- `lerDicionario` is described as sizing the dictionary for twice its words. It counts line ends,
  so a file with many words on a line can outgrow it: `Load`, `TwelveOnOneLine`.
- `theMove` tests for the origin before wrapping round, so a long move from pit 1 leaves a rock in
  it: `OriginEmptiedExactlyWhen`, `TwelveComeBack`.

## Model

| member | source | states |
|---|---|---|
| `FlowTheory.FlowBelowCut` | Data-Structures-and-Algorithms-II/Assignment-3/src/FlowNetwork/FlowNetwork.java:157-198 | The value of any feasible flow is at most the capacity of any cut |
| `FlowTheory.NoResidualEdgeMeansMaximum` | Data-Structures-and-Algorithms-II/Assignment-3/src/FlowNetwork/FlowNetwork.java:127-198 | When no edge with residual capacity leaves a set holding the source and not the sink, the flow value equals that cut's capacity, no feasible flow has a greater value and no cut a smaller capacity |
| `FlowTheory.PushPathExcess` | Data-Structures-and-Algorithms-II/Assignment-3/src/FlowNetwork/FlowNetwork.java:91-118 | Pushing along a path changes the net outflow at its two ends only: conservation at every inner vertex is kept |
| `FlowTheory.PushPathResidual` | Data-Structures-and-Algorithms-II/Assignment-3/src/FlowNetwork/FlowNetwork.java:91-118 | Pushing lowers the residual capacity of exactly the path's edges and raises that of exactly their reversals |
| `FlowTheory.AugmentFeasible` | Data-Structures-and-Algorithms-II/Assignment-3/src/FlowNetwork/FlowNetwork.java:91-118 | An augmentation by at most the path's bottleneck keeps the capacity bounds and conservation, and adds exactly the increment to the flow value |
| `FlowTheory.MirrorStep` | Data-Structures-and-Algorithms-II/Assignment-3/src/FlowNetwork/FlowNetwork.java:67-81 | After the flow of one edge has changed, the two capacity updates restore capacity minus flow forwards and flow backwards on every edge |
| `FlowTheory.MirrorsResidual` | Data-Structures-and-Algorithms-II/Assignment-3/src/FlowNetwork/FlowNetwork.java:48-81 | Capacity minus flow forwards and flow backwards is the residual network of the flow, on all its edges and no others |
| `ShortestAugmentation.DepthNeverFalls` | Data-Structures-and-Algorithms-II/Assignment-3/src/FlowNetwork/FlowNetwork.java:127-172 | Augmenting along a shortest path never lowers the distance of any vertex from the source in the residual network |
| `ShortestAugmentation.BottleneckStep` | Data-Structures-and-Algorithms-II/Assignment-3/src/FlowNetwork/FlowNetwork.java:127-172 | Each augmentation empties some residual edge, whose tail is at least two levels deeper each time it happens again: the count per edge stays within half the depth |
| `ShortestAugmentation.RunFeasible` | Data-Structures-and-Algorithms-II/Assignment-3/src/FlowNetwork/FlowNetwork.java:161-172 | Every flow that augmentations reach from the zero flow is feasible, and its value is the sum of the increments |
| `ShortestAugmentation.RunDepths` | Data-Structures-and-Algorithms-II/Assignment-3/src/FlowNetwork/FlowNetwork.java:127-172 | Over any stretch of a run no vertex gets closer to the source in the residual network |
| `ShortestAugmentation.RunBounded` | Data-Structures-and-Algorithms-II/Assignment-3/src/FlowNetwork/FlowNetwork.java:161-172 | No run makes more than nodes times edges augmentations, whatever the capacities |
| `FlowNetworks.FlowNetwork.AddEdge` | Data-Structures-and-Algorithms-II/Assignment-3/src/FlowNetwork/FlowNetwork.java:39-41 | Only the first edge between two vertices determines the network's capacity and flow there; a new pair starts with flow 0, and a further edge with room is recorded as a repetition |
| `FlowNetworks.FlowNetwork.UpdateResidualCapacity` | Data-Structures-and-Algorithms-II/Assignment-3/src/FlowNetwork/FlowNetwork.java:67-81 | The first edges in both directions, as far as there are any, get capacity minus flow and flow; no other capacity changes, further edges between the same vertices included |
| `FlowNetworks.FlowNetwork.BuildResidualNetwork` | Data-Structures-and-Algorithms-II/Assignment-3/src/FlowNetwork/FlowNetwork.java:48-57 | A network of its own with exactly the edges and reversals of this one, full capacities forwards and flows backwards |
| `FlowNetworks.FlowNetwork.PushEdge` | Data-Structures-and-Algorithms-II/Assignment-3/src/FlowNetwork/FlowNetwork.java:94-114 | One step of the path changes the flow of the edge or of its reversal, and the residual network still mirrors every edge |
| `FlowNetworks.FlowNetwork.IncrementFlow` | Data-Structures-and-Algorithms-II/Assignment-3/src/FlowNetwork/FlowNetwork.java:91-118 | Following the predecessors back from the sink pushes the increment along the whole path, and the residual network mirrors the new flow |
| `FlowNetworks.FlowNetwork.FindPath` | Data-Structures-and-Algorithms-II/Assignment-3/src/FlowNetwork/FlowNetwork.java:127-154 | A positive result comes with a shortest path of that bottleneck recorded in p; with 0, the vertices of positive cf are reached from the source, no positive capacity leaves them and the sink is not among them |
| `FlowNetworks.SeparatesExactly` | Data-Structures-and-Algorithms-II/Assignment-3/src/FlowNetwork/FlowNetwork.java:127-154 | What a search without the sink has found is exactly what the source reaches over positive capacities |
| `FlowNetworks.StillIdle` | Data-Structures-and-Algorithms-II/Assignment-3/src/FlowNetwork/FlowNetwork.java:140-152 | Along a run, while the first edge between two vertices is full, a further edge beside it starts at a vertex that can only have been found from its other end |
| `FlowNetworks.PathToFollow` | Data-Structures-and-Algorithms-II/Assignment-3/src/FlowNetwork/FlowNetwork.java:91-154 | The predecessors a search records form a shortest augmenting path, and following them pushes along exactly that path |
| `FlowNetworks.RunIsMaximum` | Data-Structures-and-Algorithms-II/Assignment-3/src/FlowNetwork/FlowNetwork.java:161-172 | A run that ends with nothing leaving a cut has reached a maximum flow equal to that cut's capacity, and the cut is what the source reaches in the residual network |
| `FlowNetworks.FlowNetwork.Maximize` | Data-Structures-and-Algorithms-II/Assignment-3/src/FlowNetwork/FlowNetwork.java:168-172 | The loop ends after a run of shortest augmentations whose increments add up to the value returned, with nothing leaving the vertices found last |
| `FlowNetworks.FlowNetwork.EdmondsKarp` | Data-Structures-and-Algorithms-II/Assignment-3/src/FlowNetwork/FlowNetwork.java:161-198 | The flow left on the edges is feasible, its value is returned, no feasible flow has more, the cut found last, which is what the source reaches in the residual network, has the same capacity, and at most nodes times edges augmentations were made; also with repeated edges, if they are never the way to a new vertex |
| `CardExchange.FlowIsExchange` | Data-Structures-and-Algorithms-II/Assignment-3/src/Main.java:17-33 | The declarations that carry flow form an exchange, givers and receivers distinct, of the size of the flow value |
| `CardExchange.ExchangeIsFlow` | Data-Structures-and-Algorithms-II/Assignment-3/src/Main.java:17-33 | Every exchange is carried by a feasible flow whose value is its size |
| `CardExchange.MaximumFlowIsLargest` | Data-Structures-and-Algorithms-II/Assignment-3/src/Main.java:17-38 | A maximum flow's value is the size of a largest exchange |
| `CardExchange.FullExchangeIffPermutation` | Data-Structures-and-Algorithms-II/Assignment-3/src/Main.java:40-46 | An exchange of everybody exists exactly when a permutation of the participants uses only declared pairs |
| `CardExchange.FullWhenLargest` | Data-Structures-and-Algorithms-II/Assignment-3/src/Main.java:40-46 | A largest exchange has the size of the group exactly when such a permutation exists |
| `CardExchange.GivenAway` | Data-Structures-and-Algorithms-II/Assignment-3/src/Main.java:28-33 | A giver whose card is given away is reached, along edges with room, from its own receiver alone |
| `CardExchange.RepeatsHarmless` | Data-Structures-and-Algorithms-II/Assignment-3/src/Main.java:28-33 | A declaration made again changes nothing: its second edge never leads the search to anybody new |
| `CardExchange.Decide` | Data-Structures-and-Algorithms-II/Assignment-3/src/Main.java:17-46 | For any list of declarations, repeated ones included: YES exactly when some permutation uses only declared pairs; the number reported is the size of a largest exchange |
| `BreadthFirst.Discover` | Data-Structures-and-Algorithms-II/Assignment-2/src/Graph/Graph.java:56-66 | Recording a vertex over an edge from the front of the queue keeps every recorded path shortest and the queue ordered by distance |
| `BreadthFirst.Exhausted` | Data-Structures-and-Algorithms-II/Assignment-2/src/Graph/Graph.java:56-73 | When the queue is empty every reachable vertex has been recorded |
| `Trees.TreeHasLeaf` | Data-Structures-and-Algorithms-II/Assignment-2/src/Graph/Graph.java:87-141 | A connected graph with one edge fewer than vertices, of two vertices or more, has a vertex with a single neighbour |
| `Trees.DistanceByAnchor` | Data-Structures-and-Algorithms-II/Assignment-2/src/Graph/Graph.java:87-141 | Distances in a tree are those in the tree without a leaf, one more for each end that is the leaf |
| `Trees.FourPoints` | Data-Structures-and-Algorithms-II/Assignment-2/src/Graph/Graph.java:87-141 | Of the three ways to pair four vertices of a tree, no one has a greater total distance than both others |
| `Trees.FarthestEndsLongest` | Data-Structures-and-Algorithms-II/Assignment-2/src/Graph/Graph.java:87-128 | For a vertex u farthest from any start, no two vertices of the tree are further apart than u and one of them |
| `TreeDiameter.Graph.AddEdge` | Data-Structures-and-Algorithms-II/Assignment-2/src/Graph/Graph.java:34-37 | Both directions of the edge are in the graph, and nothing else changes |
| `TreeDiameter.Graph.BFS` | Data-Structures-and-Algorithms-II/Assignment-2/src/Graph/Graph.java:45-78 | The distance of every vertex is the length of a shortest walk from the start, 0 where none exists, and each recorded predecessor is one step closer |
| `TreeDiameter.Graph.GetDiameter` | Data-Structures-and-Algorithms-II/Assignment-2/src/Graph/Graph.java:87-141 | On every tree: no two vertices are further apart than the result, and habitants holds two that are exactly that far apart, in increasing order |
| `Paging.FreeFrom` | Operating-Systems/Assignment-2/Part2/memory_management.c:42-50 | The first free frame from the given place on, or -1 exactly when there is none |
| `Paging.Oldest` | Operating-Systems/Assignment-2/Part2/memory_management.c:140-152 | The first of the occupied frames used longest ago, or -1 exactly when none is occupied |
| `Paging.AssignKeeps` | Operating-Systems/Assignment-2/Part2/memory_management.c:65-79 | Frames and page tables still point at each other, the new page is in the frame, the page that was there is out, and no other page moved |
| `Paging.UseKeeps` | Operating-Systems/Assignment-2/Part2/memory_management.c:117-162 | After a use the page is resident in a frame stamped with the instant, and frames and tables agree |
| `Paging.UseEvictsOldest` | Operating-Systems/Assignment-2/Part2/memory_management.c:117-162 | A page leaves memory only when no frame is free, and only if no frame was last used earlier |
| `Paging.UseKeepsOthers` | Operating-Systems/Assignment-2/Part2/memory_management.c:117-162 | A use moves no other page: each stays in its frame, unless memory was full and it is a least recently used page that leaves |
| `Paging.BothResident` | Operating-Systems/Assignment-2/Part2/memory_management.c:195-231 | With every stamp earlier than the instant and at least two frames, both pages of a two-address instruction are resident afterwards |
| `Paging.UseBothKeeps` | Operating-Systems/Assignment-2/Part2/memory_management.c:195-231 | A two-address instruction keeps frames and page tables pointing at each other |
| `Paging.UseBothBringsNoOther` | Operating-Systems/Assignment-2/Part2/memory_management.c:195-231 | It brings no page of another process into memory |
| `Paging.ClearKeeps` | Operating-Systems/Assignment-2/Part2/memory_management.c:89-103 | Clearing a process frees exactly its own frames; every other page stays where it is |
| `Paging.FindEmptyFrame` | Operating-Systems/Assignment-2/Part2/memory_management.c:42-50 | The scan finds the first free frame, or reports that there is none |
| `Paging.FindOldestFrame` | Operating-Systems/Assignment-2/Part1/lru_simulator.c:16-27 | The scan from the greatest integer down finds the first of the least recently used frames |
| `Scheduling.AdmitKeeps` | Operating-Systems/Assignment-2/Part2/scheduler.c:99-103 | Admitting keeps every process in exactly the container its state names, the active count, and memory consistent |
| `Scheduling.UnblockKeeps` | Operating-Systems/Assignment-2/Part2/scheduler.c:143-147 | So does unblocking |
| `Scheduling.DispatchKeeps` | Operating-Systems/Assignment-2/Part2/scheduler.c:55-63 | So does dispatching the head of the ready queue |
| `Scheduling.TimeOutKeeps` | Operating-Systems/Assignment-2/Part2/scheduler.c:112-117 | So does a timeout |
| `Scheduling.BlockKeeps` | Operating-Systems/Assignment-2/Part2/scheduler.c:127-133 | So does blocking the running process |
| `Scheduling.ReleaseKeeps` | Operating-Systems/Assignment-2/Part2/scheduler.c:156-162 | So does releasing it |
| `Scheduling.TerminateKeeps` | Operating-Systems/Assignment-2/Part2/scheduler.c:173-178 | So does terminating, and the terminated process owns no frame |
| `Scheduling.CreateKeeps` | Operating-Systems/Assignment-2/Part2/scheduler.c:74-89 | So does creating a process, also when the table is full or the program does not exist |
| `Scheduling.FetchKeeps` | Operating-Systems/Assignment-2/Part2/process.c:55-67 | Fetching, also past the end of the program, leaves the process the running one and keeps the invariant |
| `Scheduling.JumpKeeps` | Operating-Systems/Assignment-2/Part2/process.c:88-95 | A jump, in or out of range, keeps the invariant |
| `Scheduling.LoadStoreKeeps` | Operating-Systems/Assignment-2/Part2/memory_management.c:173-184 | A load or store, faulting or not, keeps the invariant |
| `Scheduling.SwapCopyKeeps` | Operating-Systems/Assignment-2/Part2/memory_management.c:195-231 | A two-address instruction, faulting or not, keeps the invariant |
| `Scheduling.ExecuteKeeps` | Operating-Systems/Assignment-2/Part2/auxiliary.c:73-103 | Every instruction of every type keeps the invariant |
| `Instructions.ExecutePerforms` | Operating-Systems/Assignment-2/Part2/auxiliary.c:17-103 | What every code does after being fetched at position i: -t blocks the process with t to wait; 0 puts it at the head of the exiting list for EXIT_TIME; 1 to 100 go on at i + code % 100 and 101 + n at i - n - 1, or fault when the program has no such position; 200 + k adds a process at the start of program k if there is one and room for it; 1000 + a faults exactly when a is not below the address space, and otherwise leaves the page holding address a in memory with the stamp of the instant; the two-address codes do so for both their addresses; other codes do nothing. Everything not named stays as it was |
| `Instructions.CreateStarts` | Operating-Systems/Assignment-2/Part2/scheduler.c:74-89 | A new process has the next number, the program's instructions from the first on, a page for each part of its address space and none in memory, and heads the new list |
| `Instructions.AddressesDecoded` | Operating-Systems/Assignment-2/Part2/memory_management.c:200-202 | The code 1000000000 + 100000 * a + b addresses a and b |
| `Instructions.BothJustUsed` | Operating-Systems/Assignment-2/Part2/memory_management.c:195-231 | After a two-address instruction both pages are in memory with the stamp of the instant |
| `Instructions.WorkedWorks` | Operating-Systems/Assignment-2/Part2/main.c:31-42 | Whoever is on the processor performs the instruction at its position, having moved on by one; past the end of its program it exits |
| `Scheduling.WalkBlockedKeeps` | Operating-Systems/Assignment-2/Part2/scheduler.c:187-198 | The pass over the blocked list keeps the invariant although it deletes from the list it walks |
| `Scheduling.WalkCreatedKeeps` | Operating-Systems/Assignment-2/Part2/scheduler.c:207-218 | The pass over the new list keeps it too |
| `Scheduling.TickRunningKeeps` | Operating-Systems/Assignment-2/Part2/scheduler.c:228-240 | The running process's clock, with release on a fault and timeout at 0, keeps it |
| `Scheduling.WalkExitingKeeps` | Operating-Systems/Assignment-2/Part2/scheduler.c:249-260 | The pass over the exiting list keeps it |
| `SchedulingRuns.WalkCreatedAges` | Operating-Systems/Assignment-2/Part2/scheduler.c:207-218 | Every process of the new list gets one instant older, and joins the ready queue exactly when it was due |
| `SchedulingRuns.StepWakes` | Operating-Systems/Assignment-2/Part2/main.c:26-50 | In one turn of the loop a blocked process gets one instant older, and joins the ready queue exactly when it was due |
| `SchedulingRuns.TwoAddresses` | Operating-Systems/Assignment-2/Part2/main.c:27-42 | At any instant that satisfies the invariant, a two-address instruction within the address space leaves both its pages in memory at once |
| `SchedulingRuns.StepMoves` | Operating-Systems/Assignment-2/Part2/main.c:26-50 | One turn of the loop keeps the invariant, appends to the ready queue only at its end, and takes one instant from the running process's quantum |
| `SchedulingRuns.EveryInstant` | Operating-Systems/Assignment-2/Part2/main.c:20-51 | At every instant of every run each process is in exactly the container its state names, the active count is the number of processes not terminated, frames and page tables correspond one to one, and terminated processes own no frame |
| `SchedulingRuns.OneRun` | Operating-Systems/Assignment-2/Part2/main.c:20-51 | There is exactly one run of every length from the beginning: no instant gets stuck and none leaves a choice |
| `SchedulingRuns.BoundedWaiting` | Operating-Systems/Assignment-2/Part2/scheduler.c:55-240 | A process at position k of the ready queue is dispatched within RUN_QUANTUM * (k + 1) instants, whatever the programs do |
| `SchedulingRuns.NobodyStarves` | Operating-Systems/Assignment-2/Part2/scheduler.c:55-240 | A process being created, ready or blocked is dispatched within RUN_QUANTUM * MAX_PROCESSES instants after those it has to wait for: at most NEW_TIME for a new one, one more than its remaining time for a blocked one |
| `SchedulingTurns.BeginningStarts` | Operating-Systems/Assignment-2/Part2/main.c:20-24 | The simulation begins with one process, at the start of the first program |
| `SchedulingTurns.AgedAges` | Operating-Systems/Assignment-2/Part2/scheduler.c:187-260 | The four passes over lists that change on the way come to this: every process ages once by its own state, the queue gets the blocked that are due, the new ones that are due and then the running process at the end of its quantum, the lists keep the others in order with a fault at the head of the exiting ones, and exactly the pages of terminated processes leave memory |
| `SchedulingTurns.EveryTurn` | Operating-Systems/Assignment-2/Part2/main.c:26-50 | In every run each state comes from the one before by a dispatch when the processor is free, one instruction of whoever is on it, and the ageing of every process |
| `SchedulingTurns.StepLeaves` | Operating-Systems/Assignment-2/Part2/scheduler.c:249-260 | In one turn of the loop an exiting process gets one instant older, or is terminated with no page left in memory |
| `SchedulingTurns.ExitEnds` | Operating-Systems/Assignment-2/Part2/scheduler.c:249-260 | In every run an exiting process stays in the list for as many turns as its time says and one more, and is then terminated and owns no frame |
| `SchedulingTurns.LeaverEnds` | Operating-Systems/Assignment-2/Part2/scheduler.c:156-260 | A process that halts or faults in a turn is in the exiting list for the next EXIT_TIME states of the run, and in the one after that terminated and without a frame |
| `SchedulingTurns.DeleteFrom` | Operating-Systems/Assignment-2/Part2/list.c:40-50 | Deleting takes out the first occurrence and leaves what is before and after it in order |
| `Scheduler.Remove` | Operating-Systems/Assignment-2/Part2/list.c:40-50 | The list without the first occurrence of the element, or unchanged without one |
| `Scheduler.Scheduler.Dispatch` | Operating-Systems/Assignment-2/Part2/scheduler.c:55-63 | The shared process objects, lists and queue go to the state the function on states names |
| `Scheduler.Scheduler.New` | Operating-Systems/Assignment-2/Part2/scheduler.c:74-89 | A fresh process object at the head of the new list, or no change, as the function on states says |
| `Scheduler.Scheduler.UpdateFrameRemove` | Operating-Systems/Assignment-2/Part2/memory_management.c:65-79 | Correct also when the page that leaves belongs to the process whose page comes in |
| `Scheduler.Scheduler.LRUPageReplacement` | Operating-Systems/Assignment-2/Part2/memory_management.c:117-162 | The three cases in place: restamp, free frame, least recently used frame |
| `Scheduler.Scheduler.ClearProcessFrames` | Operating-Systems/Assignment-2/Part2/memory_management.c:89-103 | The loop over the page table leaves exactly what clearing every page leaves |
| `Scheduler.Scheduler.UseBothPages` | Operating-Systems/Assignment-2/Part2/memory_management.c:209-229 | With both table entries read before anything moves, the array ends as the function on memories says |
| `Scheduler.Scheduler.SwapMemcpyHandle` | Operating-Systems/Assignment-2/Part2/memory_management.c:195-231 | The two addresses of the instruction are decoded, checked and used, or the process faults |
| `Scheduler.Scheduler.HandleLoadStore` | Operating-Systems/Assignment-2/Part2/memory_management.c:173-184 | The address is checked and its page used, or the process faults |
| `Scheduler.Scheduler.ExecuteInstruction` | Operating-Systems/Assignment-2/Part2/auxiliary.c:73-103 | The state after any instruction is the one the function on states names, and what its code says has been done to it |
| `Scheduler.Scheduler.TimeDecrementBlocked` | Operating-Systems/Assignment-2/Part2/scheduler.c:187-198 | Walking the list while deleting from it visits every process that was in it once |
| `Scheduler.Scheduler.TimeDecrementNew` | Operating-Systems/Assignment-2/Part2/scheduler.c:207-218 | The same for the new list |
| `Scheduler.Scheduler.TimeDecrementExiting` | Operating-Systems/Assignment-2/Part2/scheduler.c:249-260 | The same for the exiting list, frames cleared on the way |
| `Scheduler.Scheduler.Instant` | Operating-Systems/Assignment-2/Part2/main.c:26-50 | The objects go from one state of a run to the next |
| `Scheduler.Scheduler.Simulate` | Operating-Systems/Assignment-2/Part2/main.c:20-51 | The loop goes through a run from the first process's creation, and stops after MAX_INSTANTS or as soon as no process is active |
| `LruInclusion.UseOfPages` | Operating-Systems/Assignment-2/Part1/lru_simulator.c:91-116 | Said of pages: the page used comes in or stays, and at most pages used longest ago leave, from a full memory |
| `LruInclusion.SomeExtra` | Operating-Systems/Assignment-2/Part1/lru_simulator.c:64-120 | A full memory holds a page that a memory with fewer frames does not |
| `LruInclusion.UseWithin` | Operating-Systems/Assignment-2/Part1/lru_simulator.c:91-116 | If the smaller memory's pages are in the larger one, with the same stamps, and everything else there is older, one use by both keeps that so |
| `LruInclusion.ClearWithin` | Operating-Systems/Assignment-2/Part1/lru_simulator.c:37-50 | So does clearing a process after a segmentation fault |
| `LruInclusion.Settled` | Operating-Systems/Assignment-2/Part1/auxiliary.c:98-100 | Printing turns faulted processes into inactive ones and leaves every other state as it was |
| `LruInclusion.StepWithin` | Operating-Systems/Assignment-2/Part1/lru_simulator.c:73-120 | Whatever the request, both memories see the same faults and the smaller one stays within the larger |
| `LruInclusion.Inclusion` | Operating-Systems/Assignment-2/Part1/lru_simulator.c:64-120 | At every instant of every access list the pages in fewer frames are among those in more frames |
| `LruInclusion.MoreFramesLoadLess` | Operating-Systems/Assignment-2/Part1/lru_simulator.c:64-120 | More frames never cause more page loads, over any access list with any segmentation faults |
| `LruService.BeginsUntouched` | Operating-Systems/Assignment-2/Part1/lru_simulator.c:64-71 | At first every process is active, every frame free and no page in memory; each process has the pages of its address space, or one |
| `LruService.AlwaysReported` | Operating-Systems/Assignment-2/Part1/lru_simulator.c:64-120 | At every instant of every access list a process that is not active has no page in memory |
| `LruService.EveryAccess` | Operating-Systems/Assignment-2/Part1/lru_simulator.c:73-120 | Whatever the access list: an access of an inactive process changes nothing; one outside the address space makes the process inactive, frees its frames and leaves all other frames, stamps and pages; one inside it leaves the page that holds the address in memory with the stamp of the instant, and of the other pages only a least recently used one of a full memory may be gone, the rest keeping frame and stamp |
| `LruService.ActiveExactlyWhen` | Operating-Systems/Assignment-2/Part1/lru_simulator.c:81-89 | A process is active when an instant begins if and only if all its accesses before it lie in its address space |
| `LruSimulator.FindUpdateEmptyFrame` | Operating-Systems/Assignment-2/Part1/memory_management.c:56-70 | The first free frame takes the page, or nothing changes and -1 is returned |
| `LruSimulator.UpdateFrameRemove` | Operating-Systems/Assignment-2/Part1/memory_management.c:85-100 | The arrays hold the memory in which the page took over the frame, also within one process |
| `LruSimulator.ClearProcessFramesLRU` | Operating-Systems/Assignment-2/Part1/lru_simulator.c:37-50 | The arrays hold the memory without the process's pages |
| `LruSimulator.PrintInstant` | Operating-Systems/Assignment-2/Part1/auxiliary.c:91-113 | A fault is turned into inactivity, and no other state or page changes |
| `LruSimulator.ServeRequest` | Operating-Systems/Assignment-2/Part1/lru_simulator.c:78-117 | The arrays hold the state after the request: skipped, faulted or served |
| `LruSimulator.SimulateLRU` | Operating-Systems/Assignment-2/Part1/lru_simulator.c:64-123 | The arrays end as the simulation over the whole access list says |
| `Reordering.DrainInOrder` | Computer-Networks/server/serverMessages.c:298-304 | Draining sends out exactly the letters up to the next one missing, in order |
| `Reordering.AcceptInOrder` | Computer-Networks/server/serverMessages.c:292-312 | Whatever letter comes, however often: what goes out continues in order, the expected number is the least not yet come, and it is asked for exactly when the letter that came lies beyond it |
| `RelayRuns.TypeKeeps` | Computer-Networks/client/client_messages.c:163-199 | Typing keeps all that the server and the receivers know about the letters already numbered |
| `RelayRuns.AnswerKeeps` | Computer-Networks/client/client_threads.c:61-76 | A retransmission carries the letter as it was numbered |
| `RelayRuns.RelayKeeps` | Computer-Networks/server/serverMessages.c:256-313 | The server waits for exactly the first letter it has not had, passes on exactly those that are next, remembers every one, and asks for the first missing exactly when a letter beyond it comes |
| `RelayRuns.ResendFinds` | Computer-Networks/server/serverMessages.c:482-519 | Any letter passed on is still found, with its own data |
| `RelayRuns.ReceiveKeeps` | Computer-Networks/client/client_messages.c:54-110 | What a receiver shows is the letters up to the first one it has not processed, which it asks for exactly when a letter beyond it comes |
| `RelayRuns.NextKeeps` | Computer-Networks/server/serverMessages.c:256-403 | Every action of a client, the server or the network keeps the invariant |
| `RelayRuns.KeptScreen` | Computer-Networks/client/client_messages.c:177-186 | Leaving out the erasing keys typed when nothing was on the screen makes no difference to the screen |
| `RelayRuns.LettersTyped` | Computer-Networks/client/client_messages.c:163-199 | In every run the letters numbered and sent are the keys typed so far, less exactly the erasing keys typed when the keys before them left nothing on the screen |
| `RelayRuns.EndToEnd` | Computer-Networks/server/serverMessages.c:256-403 | Under any delay, repetition and reordering on both hops, every screen shows a prefix of the keys typed in the run, those with nothing to erase left out, and the server and each receiver wait for exactly the least number they have not had |
| `RelayRuns.RunKeeps` | Computer-Networks/client/client_messages.c:24-131 | Over any run no screen takes a letter back and no letter typed changes |
| `RelayRuns.RequestsMet` | Computer-Networks/client/client_threads.c:61-76 | Every request on its way names a letter that has been numbered, and the server can meet every receiver's request with the letter as typed |
| `RelayRuns.SameScreen` | Computer-Networks/client/client_messages.c:163-199 | A receiver that has all the letters of a run shows what the keys typed put on the sender's own screen, erasures included |
| `RelayRuns.Blocked` | Computer-Networks/server/serverMessages.c:257-263 | Nothing from a separator on is ever shown |
| `RelayRuns.ShownIffReadable` | Computer-Networks/server/serverMessages.c:256-403 | When no packet is lost for good: the letters typed so far can all still be shown if and only if none of them is a separator or the string terminator; another key is neither needed for it nor any help |
| `RelayRuns.SeparatorIsLost` | Computer-Networks/server/serverMessages.c:257-263 | A separator typed as the only letter is never shown |
| `RelayLoss.LossySafe` | Computer-Networks/server/serverMessages.c:256-403 | With packets lost for good at any time as well, the letters are still the keys typed less those with nothing to erase, every screen shows a prefix of them, and server and receivers wait for exactly the first letter missing |
| `RelayLoss.LossySameScreen` | Computer-Networks/client/client_messages.c:163-199 | With losses too, a receiver that has all the letters shows what the keys typed put on the sender's screen |
| `RelayLoss.LaterLetterFetches` | Computer-Networks/server/serverMessages.c:283-313 | A later letter that arrives makes the server ask for the first one missing, and the answer moves it on |
| `RelayLoss.LaterLetterRefetches` | Computer-Networks/client/client_messages.c:68-107 | The same between the receiver and the server |
| `RelayLoss.ServerRecovers` | Computer-Networks/server/serverMessages.c:256-313 | From one letter on its way on which nothing later is missing the server gets every letter, however many were lost |
| `RelayLoss.HopRecovers` | Computer-Networks/client/client_messages.c:54-110 | So does a receiver |
| `RelayLoss.StillShownExactlyWhen` | Computer-Networks/server/serverMessages.c:256-403 | With lost packets and no further key: all letters typed can still be shown if and only if all are readable, for each one the server lacks it or a later one or a request for one is under way, and the same for the receiver once the server has them all |
| `RelayLoss.NextLetterRecovers` | Computer-Networks/client/client_messages.c:163-196 | Typing one more letter that goes out makes everything lost before it recoverable |
| `RelayLoss.LostLastLetter` | Computer-Networks/server/serverMessages.c:305-313 | A lost last letter is never asked for and, without another key, never shown |
| `RelayLoss.OnlyLetterLost` | Computer-Networks/server/serverMessages.c:305-313 | A run in which a single letter is typed and lost: it cannot be shown any more without another key |
| `RelayNodes.BufferPop` | Computer-Networks/server/serverMessages.c:559-572 | The first entry with the number is taken out with its data; without one the buffer is unchanged |
| `RelayNodes.DrainBuffer` | Computer-Networks/server/serverMessages.c:298-304 | The pop loop empties the buffer of exactly the letters whose turn has come |
| `RelayNodes.SendingClient.SendMessage` | Computer-Networks/server/serverMessages.c:256-313 | Counter and buffers go to the state the relay function names, and the letters forwarded and the number asked for are those it names; send_message_many differs only in whom the letters go to |
| `RelayNodes.SendingClient.NackReceived` | Computer-Networks/server/serverMessages.c:482-519 | The latest letter remembered with the number, or none |
| `RelayNodes.TypingClient.TypeKey` | Computer-Networks/client/client_messages.c:163-196 | The key is stored at the count; it is numbered and sent unless it erases with nothing on the screen |
| `RelayNodes.TypingClient.PublishCount` | Computer-Networks/client/client_messages.c:198 | The retransmission thread learns the count, which is the counting step of the relay |
| `RelayNodes.TypingClient.StoreNack` | Computer-Networks/client/client_threads.c:191-197 | A request is stored once the previous one has been answered, which is the step of the relay in which a request arrives |
| `RelayNodes.TypingClient.AnswerNack` | Computer-Networks/client/client_threads.c:61-76 | The letter asked for is sent from the buffer if its number does not exceed the count made known, and the request cleared |
| `RelayNodes.ReceivingClient.ReceiveMessage` | Computer-Networks/client/client_messages.c:54-110 | Letters are shown, buffered or ignored as the receiving function says, and the slot is free afterwards |
| `Primes.EuclidsLemma` | Data-Structures-and-Algorithms-I/src/wMisspells.c:68-81 | A prime dividing a product with a smaller positive factor divides the other factor: the ground of both probe sequences |
| `Primes.PrimeAbove` | Data-Structures-and-Algorithms-I/src/auxiliary.c:58-67 | There is a prime above every number, so the search for the next prime ends |
| `Primes.TrialDivision` | Data-Structures-and-Algorithms-I/src/auxiliary.c:59-65 | An odd number that no number from 3 up to its square root divides is prime |
| `Primes.HasNoDivisor` | Data-Structures-and-Algorithms-I/src/auxiliary.c:59-65 | The division loop answers yes for the odd primes and for 1 |
| `Primes.NextPrime` | Data-Structures-and-Algorithms-I/src/auxiliary.c:53-70 | Ends for every argument, with 11 below 10 and otherwise the least prime not below the argument |
| `Primes.PrevPrime` | Data-Structures-and-Algorithms-I/src/auxiliary.c:82-97 | The greatest prime from two below the odd number at or below the argument downwards, 1 for 3 and 4, and for arguments below 3 what the wrapped counter meets first |
| `Primes.PrevPrimeExactly` | Data-Structures-and-Algorithms-I/src/auxiliary.c:73-97 | The result is the greatest prime below the argument exactly when the argument is at least 5 and is odd or does not directly follow a prime |
| `Primes.PrevPrimeSkipsSeven` | Data-Structures-and-Algorithms-I/src/auxiliary.c:84-87 | For 8 the search gives 5, although 7 is prime |
| `Hashing.Hash2` | Data-Structures-and-Algorithms-I/src/auxiliary.c:157-162 | For a prime size of at least 5 the step is never 0 and below the size |
| `Hashing.QuadraticDistinct` | Data-Structures-and-Algorithms-I/src/wMisspells.c:68-81 | The first (size + 1) / 2 quadratic probes try different slots |
| `Hashing.DoubleDistinct` | Data-Structures-and-Algorithms-I/src/wDictionary.c:62-72 | The first size probes of double hashing try different slots |
| `Hashing.VisitsEverySlot` | Data-Structures-and-Algorithms-I/src/wDictionary.c:62-72 | Double hashing tries every slot of the table |
| `Hashing.FreeProbe` | Data-Structures-and-Algorithms-I/src/wMisspells.c:68-81 | While the taken slots are fewer than the probes sure to differ, one of those probes finds a free slot |
| `Hashing.Absent` | Data-Structures-and-Algorithms-I/src/wMisspells.c:262-275 | A probe sequence that meets a free slot before the key proves the key absent from the whole table |
| `Hashing.SearchEndsExactlyWhen` | Data-Structures-and-Algorithms-I/src/wDictionary.c:162-174 | A search by double hashing ends if and only if a slot is free or the key is there |
| `Hashing.InsertEndsExactlyWhen` | Data-Structures-and-Algorithms-I/src/wDictionary.c:62-72 | The search for a free slot by double hashing ends if and only if there is one |
| `Hashing.Insert` | Data-Structures-and-Algorithms-I/src/wMisspells.c:208-223 | Filling the first free slot of the probe sequence adds exactly one key, and every key stays findable |
| `Hashing.AsciiValue` | Data-Structures-and-Algorithms-I/src/auxiliary.c:109-119 | The sum of the characters |
| `Hashing.AsciiSumAdds` | Data-Structures-and-Algorithms-I/src/auxiliary.c:109-119 | The sum of a key is that of its parts however it is taken apart, and that of one character its code |
| `Hashing.HashDjb2` | Data-Structures-and-Algorithms-I/src/auxiliary.c:135-143 | 33 times the hash plus the character, in 64-bit arithmetic, reduced to the size |
| `Hashing.Djb2IsWeighted` | Data-Structures-and-Algorithms-I/src/auxiliary.c:135-143 | Wrapping at every character comes to the remainder of one sum: 5381 and each character by the powers of 33 of their places |
| `Hashing.HashStep` | Data-Structures-and-Algorithms-I/src/auxiliary.c:157-162 | The step of double hashing from the prime before the size |
| `SpellTables.MisspellList.QuadraticProbing` | Data-Structures-and-Algorithms-I/src/wMisspells.c:68-81 | At most half full, a free slot is found within (size + 1) / 2 probes; -1 is never returned |
| `SpellTables.MisspellList.Search` | Data-Structures-and-Algorithms-I/src/wMisspells.c:247-276 | Ends, and answers true exactly for the keys in the table |
| `SpellTables.InsertTable` | Data-Structures-and-Algorithms-I/src/wMisspells.c:183-231 | The table returned holds exactly the old keys and the new one, has a prime size and is at most half full again |
| `SpellTables.Rehash` | Data-Structures-and-Algorithms-I/src/wMisspells.c:133-168 | A table of at least twice the size with exactly the same keys |
| `SpellTables.InsertAll` | Data-Structures-and-Algorithms-I/src/wMisspells.c:183-231 | After any insertions into a new table it holds exactly the words inserted |
| `SpellTables.Dictionary.DoubleHashing` | Data-Structures-and-Algorithms-I/src/wDictionary.c:62-72 | While the dictionary is not full a free slot is found |
| `SpellTables.Dictionary.InsertEntry` | Data-Structures-and-Algorithms-I/src/wDictionary.c:86-119 | One key more, and exactly that key |
| `SpellTables.Dictionary.SearchEntry` | Data-Structures-and-Algorithms-I/src/wDictionary.c:143-177 | Answers true exactly for the keys in the dictionary, in every case in which it ends: when a slot is free or the key is there |
| `SpellTables.Load` | Data-Structures-and-Algorithms-I/src/spellChecker.c:50-71 | The dictionary of a file of so many line ends: the insertions end if and only if the words are no more than its slots, and then it holds exactly the words; otherwise every slot is taken and the probes of the next word never find a free one |
| `SpellTables.WordPerLineFits` | Data-Structures-and-Algorithms-I/src/auxiliary.c:28-39 | With at most one word a line, at least half the slots stay free |
| `SpellTables.TwelveOnOneLine` | Data-Structures-and-Algorithms-I/src/spellChecker.c:50-56 | Twelve words on a single line get eleven slots |
| `WordGame.Level.IsValidInput` | Programming-II/src/model/Level.java:102-124 | True exactly for an input that is present, not empty, and uses no letter more often than the level has it |
| `WordGame.OneMoreLetter` | Programming-II/src/model/Dictionary.java:208-215 | A longer word continues the current one with unused letters exactly when some unused letter comes next and the rest continues with the others |
| `WordGame.Dictionary.GeneratePermutations` | Programming-II/src/model/Dictionary.java:198-216 | Appends exactly the dictionary words of the length that continue the current one with unused letters, once each, and leaves used as it found it |
| `WordGame.Dictionary.GenerateWordsToGuess` | Programming-II/src/model/Dictionary.java:177-183 | Exactly the dictionary words of the length that the level would accept, without repetition |
| `WordGame.Dictionary.CandidateWords` | Programming-II/src/model/Dictionary.java:140-144 | Over all lengths from 2: exactly the dictionary words of two letters or more that the level would accept |
| `DreamPacking.Bellman` | Data-Structures-and-Algorithms-II/Assignment-1/src/Solver/Solver.java:61-96 | The least over all last groups of the optimum before it and the group is the least over all cuts into consecutive groups |
| `DreamPacking.WasteIsMostSpare` | Data-Structures-and-Algorithms-II/Assignment-1/src/Solver/Solver.java:77-89 | Whatever least numbers from one below their contents on the groups of a cut go into: what the cut wastes is the greatest total of packs less contents over its last groups, for any number of them, none included |
| `DreamPacking.NoSlackWastesAll` | Data-Structures-and-Algorithms-II/Assignment-1/src/Solver/Solver.java:29-34 | When packs must hold their contents, that is the total of all packs less all dreams |
| `DreamPacking.BestIsLeastSpare` | Data-Structures-and-Algorithms-II/Assignment-1/src/Solver/Solver.java:61-96 | The best waste for the first j dreams is the least of these over all cuts of them |
| `DreamPacking.TooFarBack` | Data-Structures-and-Algorithms-II/Assignment-1/src/Solver/Solver.java:70-74 | Once a group exceeds the largest number, no longer group ending at the same dream fits: stopping early loses no cut |
| `DreamPacking.SortedPermutes` | Data-Structures-and-Algorithms-II/Assignment-1/src/Solver/Solver.java:21-27 | The sorted numbers are the numbers given, as often as each was given |
| `DreamPacking.BinarySearch` | Data-Structures-and-Algorithms-II/Assignment-1/src/Solver/Solver.java:77-81 | The position of the key, or the insertion point in its encoded form |
| `DreamPacking.FoundIsLeast` | Data-Structures-and-Algorithms-II/Assignment-1/src/Solver/Solver.java:77-85 | The number looked up is the least one not below the key |
| `DreamPacking.Solver.PackUpTo` | Data-Structures-and-Algorithms-II/Assignment-1/src/Solver/Solver.java:61-96 | The entry for dream j is the least waste of all cuts that end there |
| `DreamPacking.Solver.Solve` | Data-Structures-and-Algorithms-II/Assignment-1/src/Solver/Solver.java:35-101 | The least waste over all cuts into groups that fit the largest number, both as the recursion and as the greatest spare space of last groups have it, or the first dream that fits none |
| `DreamPacking.NeverAbove` | Data-Structures-and-Algorithms-II/Assignment-1/src/Solver/Solver.java:29-34 | The answer is never above the least total of pack size less contents that the documentation asks for |
| `DreamPacking.FiveWastesOne` | Data-Structures-and-Algorithms-II/Assignment-1/src/Solver/Solver.java:77-89 | With the numbers 4 and 6 a dream of 5 wastes 1, and the answer is 0 |
| `DreamPacking.RightExactlyWhen` | Data-Structures-and-Algorithms-II/Assignment-1/src/Solver/Solver.java:29-101 | The answer is the documented one for all positive dreams that fit if and only if the numbers have none from 0 up to below the largest, or have every number from 1 to the largest |
| `Oware.MoveKeepsRocks` | Programming-I/src/ouri_func.c:237-252 | Sowing keeps the number of rocks |
| `Oware.MoveSowsInRounds` | Programming-I/src/ouri_func.c:237-252 | A move of any number of rocks puts into every pit one rock a full round, of eleven pits or of twelve from pit 1, and one of the rest if it reaches so far; it ends where the rocks run out |
| `Oware.OriginEmptiedExactlyWhen` | Programming-I/src/ouri_func.c:242-250 | The pit played ends up empty except pit 1 with twelve rocks or more |
| `Oware.TwelveComeBack` | Programming-I/src/ouri_func.c:242-250 | A board of 48 rocks on which player 1 may play twelve rocks from pit 1 and one of them ends in it |
| `Oware.CaptureKeepsRocks` | Programming-I/src/ouri_func.c:262-279 | Captures keep the number of rocks and never take from the deposit |
| `Oware.CapturesRun` | Programming-I/src/ouri_func.c:262-279 | A capture empties exactly the unbroken run of twos and threes back from the landing pit on that side |
| `Oware.CaptureCollects` | Programming-I/src/ouri_func.c:262-279 | The rocks of the unbroken run of twos and threes back from the landing pit on the opponent's side go to the player's own deposit, all other cells stay, and a last rock on the player's own side captures nothing |
| `Oware.MoveCollects` | Programming-I/src/ouri_func.c:237-279 | Over a move and its captures the player's deposit grows by exactly those rocks, and the other deposit not at all |
| `Oware.WinnerIsCertain` | Programming-I/src/ouri_func.c:79-89 | A player is declared winner, or a draw declared, exactly when every way of sharing out the rocks still in the pits ends so |
| `Oware.WinnerStays` | Programming-I/src/ouri_func.c:237-279 | No later move and capture by anybody changes a winner or a draw |
| `Oware.EndDecides` | Programming-I/src/ouri_func.c:361-394 | The rocks are still 48, and the game ends exactly when somebody has won or it is a draw |
| `Oware.ClearedCollects` | Programming-I/src/ouri_func.c:337-346 | Clearing gives deposit 0 the rocks of player 1's pits and deposit 13 those of player 2's |
| `Oware.EndsExactlyWhen` | Programming-I/src/ouri_func.c:361-394 | The game ends exactly when somebody has won or drawn, no player has an accepted move, or only two opposite rocks are left; otherwise the board stays, and the next to play is the opponent, or the same player when the opponent has no move |
| `Oware.FeedsExactlyWhen` | Programming-I/src/ouri_func.c:155-188 | With the opponent's side empty, sowing brings rocks over exactly from the pits the check for crossing accepts |
| `Oware.GoesOn` | Programming-I/src/ouri_func.c:361-394 | When the game goes on, the player to move next has a move that is accepted |
| `Oware.StalemateLasts` | Programming-I/src/ouri_func.c:379-386 | If the game went on from two opposite rocks, somebody could always move and no deposit would ever change: ending it there loses nothing |
| `Oware.BothSides` | Programming-I/src/ouri_func.c:137-226 | With rocks on both sides each player has an accepted move |
| `Oware.EveryGame` | Programming-I/src/ouri_main.c:41-60 | In every game from the initial board there are 48 rocks, the player to move has an accepted move, and the loop stops exactly with a winner or a draw |
| `Oware.ComputerAllowed` | Programming-I/src/ouri_func.c:432-465 | The computer's move is always an accepted one |
| `Oware.GainIsTaken` | Programming-I/src/ouri_func.c:443-448 | What a tried move gains is the rocks of the pits it takes |
| `Oware.ComputerGreedyExactlyWhen` | Programming-I/src/ouri_func.c:423-465 | The computer is sure of the greatest capture except exactly when pit 7 captures, no accepted move captures more, and the last accepted move captures nothing |
| `Oware.ComputerOverlooks` | Programming-I/src/ouri_func.c:432-465 | A board of 48 rocks on which pit 7 gains 2 and the computer may play pit 12 for nothing |
| `OwareEngine.TheMove` | Programming-I/src/ouri_func.c:237-252 | Board and landing pit after the sowing loop are those of the function on boards |
| `OwareEngine.Capture` | Programming-I/src/ouri_func.c:262-279 | The board after the capture loop is that of the function on boards: the pits taken are empty and their rocks in the player's own deposit |
| `OwareEngine.CheckNRocks` | Programming-I/src/ouri_func.c:289-299 | The first player all of whose pits are empty, or 0 |
| `OwareEngine.WhenNoRocks` | Programming-I/src/ouri_func.c:309-324 | Whether some pit has rocks enough to reach the empty side |
| `OwareEngine.AllRocksToDeposit` | Programming-I/src/ouri_func.c:337-346 | Each side's rocks are in its own deposit and all pits are empty |
| `OwareEngine.CheckForEnd` | Programming-I/src/ouri_func.c:361-394 | Board, player and end are those of the function on boards, the player turned round when the other one must feed |
| `OwareEngine.CheckIfValid` | Programming-I/src/ouri_func.c:137-226 | 0, or a pit of one's own with rocks that reaches an empty side if there is one and is no single rock while another pit has more |
| `OwareEngine.PlayTurn` | Programming-I/src/ouri_main.c:54-59 | One turn: move, capture, check for the end, winner |
| `OwareEngine.PlayGame` | Programming-I/src/ouri_main.c:20-60 | Any sequence of accepted moves from the initial board leaves the board, player and result of the game played by the functions |
| `OwareEngine.ComputerMove` | Programming-I/src/ouri_func.c:432-465 | The first move of greatest capture, or any accepted move where the original picks at random |

## Left out

- Integer width: integers are unbounded, except the 64-bit hash of `djb2`, the infinite capacity `Integer.MAX_VALUE` of the path search, the greatest integer the search for the oldest frame starts from, and the initial value of the packing table.
- Floating point: `sqrt` is read as comparing squares, and the load factor as comparing twice the element count with the size.
- Networks with edges in both directions between two vertices, self-loops, or flows already on them: `updateResidualCapacity` and `incrementFlow` look at the first matching edge only.
- EdmondsKarp: further edges between the same two vertices are covered where they are never the way to a new vertex; two parallel edges from source to sink, for example, are not: the flow found over the second is put on the first, the second residual edge keeps its capacity, and the loop never ends.
- Decide: takes declarations between participants in range; others index outside the adjacency lists.
- Printing, files, terminals, sockets, signals and waiting; random picks are left open, and the retry loops around them are not modelled.
- Memory allocation and release, and failure of either; arguments that are null, except the word game's input.
- Linked list and queue nodes (`list.c`, `queue.c`, `LinkedList`) are sequences; page tables are sequences held by their process.
- `createDictionary` never clears its slots; they are modelled as empty.
- Sorting and binary search are library calls in the packing program; they are modelled here by a function and a method with the library's contract.
- Programs with a negative address space, for which no page table could be allocated, and accesses naming no process or a negative address.
- Counting of leaves and of the greatest degree while the tree is searched: printed only.
- Chat sessions over several messages, message ends, exits and file offers; the relay is modelled for one message, and an Enter only ends typing.
- MAX_LINE limits on packets other than the typing buffer's length.
- Loading a saved Oware board, which need not have 48 rocks; saving one.
- Choosing which of the candidate words a level uses, and generating its letters; letters are single characters.
- The first-in-first-out simulator, the first scheduler assignment, the graphics, web and distributed-systems parts: easier relatives of what is here, or foreign calls.
- InsertEntry: requires that the dictionary is not full; on a full one the original's probe loop does not end.
- SearchEntry: requires that a slot is free or the key is there; otherwise it does not end, as `SearchEndsExactlyWhen` says.
- Load: a word longer than the 99 characters read at a time counts as the several words it is read as.
- Solve: requires sizes that are not negative and a product of dream count and largest number below the greatest 32-bit integer, within which the original's sums do not overflow.
