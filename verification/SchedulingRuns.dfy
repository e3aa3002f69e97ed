/**
 Runs of the round-robin simulator: the invariant holds at every instant, two-address instructions
 find both pages in memory, and nobody waits long for the processor.
 */
module SchedulingRuns {
  import opened Totals
  import opened Paging
  import opened Scheduling

  /** At the start of an instant the running process, if any, has some but not all of its quantum left. */
  ghost predicate Running(s: State) {
    s.running != 0 ==>
      Known(s, s.running) && Get(s, s.running).status == RUN && 1 <= Get(s, s.running).time < RUN_QUANTUM
  }

  /** Processes being created have between one instant and most to go. */
  ghost predicate Newcomers(s: State, most: int) {
    forall id :: id in s.created ==> Known(s, id) && 1 <= Get(s, id).time <= most
  }

  ghost predicate Invariant(s: State) {
    && Core(s) && Running(s) && Newcomers(s, NEW_TIME)
    && s.instant >= 1 && UsedBefore(s.memory, s.instant)
  }

  // ---------- What the parts of an instant leave alone ----------

  /** The queue may only have grown at its end, and no process outside ids has changed. */
  ghost predicate Outside(s: State, t: State, ids: seq<int>) {
    && s.ready <= t.ready && t.running == s.running && t.instant == s.instant && |t.procs| == |s.procs|
    && forall x :: Known(s, x) && x !in ids ==> Get(t, x) == Get(s, x)
  }

  lemma OutsideThen(s: State, t: State, u: State, ids: seq<int>)
    requires ids != [] && Outside(s, t, [ids[0]]) && Outside(t, u, ids[1..])
    ensures Outside(s, u, ids)
  {
    assert ids[0] in ids && forall x :: x in ids[1..] ==> x in ids;
  }

  lemma {:induction false} WalkBlockedOutside(s: State, ids: seq<int>)
    requires AllKnown(s, ids)
    ensures Outside(s, WalkBlocked(s, ids), ids)
    ensures WalkBlocked(s, ids).created == s.created && WalkBlocked(s, ids).memory == s.memory
    decreases |ids|
  {
    if ids != [] {
      var t := TickBlocked(s, ids[0]);
      WalkBlockedOutside(t, ids[1..]);
      OutsideThen(s, t, WalkBlocked(s, ids), ids);
    }
  }

  lemma {:induction false} WalkCreatedOutside(s: State, ids: seq<int>)
    requires AllKnown(s, ids)
    ensures Outside(s, WalkCreated(s, ids), ids) && WalkCreated(s, ids).memory == s.memory
    decreases |ids|
  {
    if ids != [] {
      var t := TickCreated(s, ids[0]);
      WalkCreatedOutside(t, ids[1..]);
      OutsideThen(s, t, WalkCreated(s, ids), ids);
    }
  }

  lemma TickExitingOutside(s: State, id: int)
    requires Known(s, id) && Paged(s) && s.instant >= 0
    ensures Outside(s, TickExiting(s, id), [id]) && TickExiting(s, id).created == s.created
    ensures UsedBefore(s.memory, s.instant + 1) ==> UsedBefore(TickExiting(s, id).memory, s.instant + 1)
  {
    ClearKeeps(s.memory, id, 0);
  }

  lemma {:induction false} WalkExitingOutside(s: State, ids: seq<int>)
    requires AllKnown(s, ids) && Paged(s) && s.instant >= 0
    ensures Outside(s, WalkExiting(s, ids), ids) && WalkExiting(s, ids).created == s.created
    ensures UsedBefore(s.memory, s.instant + 1) ==> UsedBefore(WalkExiting(s, ids).memory, s.instant + 1)
    decreases |ids|
  {
    if ids != [] {
      var t := TickExiting(s, ids[0]);
      TickExitingPaged(s, ids[0]);
      TickExitingOutside(s, ids[0]);
      WalkExitingOutside(t, ids[1..]);
      OutsideThen(s, t, WalkExiting(s, ids), ids);
    }
  }

  /** What becomes of one process of the new list: one instant older, and in the queue if it was due. */
  ghost predicate Aging(s: State, t: State, id: int) {
    && Known(s, id)
    && if Get(s, id).time == 1 then id !in t.created && id in t.ready
       else id in t.created && Known(t, id) && Get(t, id).time == Get(s, id).time - 1
  }

  lemma TickCreatedAges(s: State, id: int)
    requires Core(s) && Known(s, id) && id in s.created
    ensures Aging(s, TickCreated(s, id), id) && Core(TickCreated(s, id))
    ensures forall x :: x in TickCreated(s, id).created <==> x in s.created && (x != id || Get(s, id).time != 1)
  {
    var u := SetTime(s, id, Get(s, id).time - 1);
    Open(s);
    ClockKeeps(s, id, Get(s, id).time - 1);
    if Get(u, id).time == 0 {
      AdmitKeeps(u, id);
      DeleteOne(u.created, id);
    }
  }

  lemma {:induction false} WalkCreatedAges(s: State, ids: seq<int>)
    requires Core(s) && NoDuplicates(ids) && AllKnown(s, ids) && forall x :: x in ids ==> x in s.created
    ensures forall x :: x in WalkCreated(s, ids).created ==> x in s.created
    ensures forall x :: x in s.created && x !in ids ==> x in WalkCreated(s, ids).created
    ensures forall x :: x in ids ==> Aging(s, WalkCreated(s, ids), x)
    decreases |ids|
  {
    if ids != [] {
      var id := ids[0];
      var v := TickCreated(s, id);
      var t := WalkCreated(s, ids);
      TickCreatedAges(s, id);
      FrontLeaves(ids);
      WalkCreatedAges(v, ids[1..]);
      WalkCreatedOutside(v, ids[1..]);
      assert Aging(s, t, id);
      forall x | x in ids[1..]
        ensures Aging(s, t, x)
      {
        assert Aging(v, t, x);
      }
    }
  }

  // ---------- One instruction ----------

  /** Working leaves the queue alone, keeps the clock of whoever goes on running, and may add a newcomer. */
  ghost predicate Worker(s: State, t: State) {
    && t.ready == s.ready && t.instant == s.instant && |t.procs| >= |s.procs|
    && (t.running == 0
        || (t.running == s.running && Known(s, s.running) && Get(t, s.running).time == Get(s, s.running).time))
    && (forall x :: x in s.created ==> x in t.created && Known(s, x) && Get(t, x) == Get(s, x))
    && (forall x :: x in t.created ==> x in s.created || (Known(t, x) && Get(t, x).time == NEW_TIME))
  }

  lemma NotCreated(s: State, id: int)
    requires Core(s) && Known(s, id) && !Get(s, id).status.NEW?
    ensures id !in s.created && forall x :: x in s.created ==> Known(s, x) && x != id
  {
    Open(s);
  }

  lemma FetchWorks(s: State)
    requires Core(s) && Known(s, s.running) && OnProcessor(Get(s, s.running).status)
    ensures Worker(s, Fetch(s).0) && Fetch(s).0.memory == s.memory && Fetch(s).0.running == s.running
    ensures OnProcessor(Get(Fetch(s).0, s.running).status)
  {
    NotCreated(s, s.running);
  }

  lemma ExecuteWorks(s: State, programs: seq<Program>, instruction: int)
    requires Core(s) && Paged(s) && Known(s, s.running) && OnProcessor(Get(s, s.running).status)
    ensures Worker(s, Execute(s, programs, instruction))
  {
    NotCreated(s, s.running);
  }

  lemma LoadStoreStamps(s: State, address: int)
    requires Paged(s) && Known(s, s.running) && address >= 0 && UsedBefore(s.memory, s.instant)
    ensures UsedBefore(LoadStore(s, address).memory, s.instant + 1)
  {
    if address < Get(s, s.running).addressSpace {
      AddressHasPage(s, s.running, address);
      var page := address / FRAME_SIZE;
      UseStamps(s.memory, s.running, page, Entry(s.memory, s.running, page), s.instant);
    }
  }

  lemma SwapCopyStamps(s: State, instruction: int)
    requires Paged(s) && Known(s, s.running) && TypeOf(instruction).SWAP_MEMCPY? && UsedBefore(s.memory, s.instant)
    ensures UsedBefore(SwapCopy(s, instruction).memory, s.instant + 1)
  {
    var address1, address2 := FirstAddress(instruction), SecondAddress(instruction);
    if address1 < Get(s, s.running).addressSpace && address2 < Get(s, s.running).addressSpace {
      AddressHasPage(s, s.running, address1);
      AddressHasPage(s, s.running, address2);
      UseBothStamps(s.memory, s.running, address1 / FRAME_SIZE, address2 / FRAME_SIZE, s.instant);
    }
  }

  lemma ExecuteStamps(s: State, programs: seq<Program>, instruction: int)
    requires Paged(s) && Known(s, s.running) && UsedBefore(s.memory, s.instant)
    ensures UsedBefore(Execute(s, programs, instruction).memory, s.instant + 1)
  {
    match TypeOf(instruction)
    case LOAD_STORE => LoadStoreStamps(s, instruction - 1000);
    case SWAP_MEMCPY => SwapCopyStamps(s, instruction);
    case _ =>
  }

  lemma WorkerThen(s: State, t: State, u: State)
    requires Worker(s, t) && Worker(t, u)
    ensures Worker(s, u)
  {
  }

  lemma WorkedWorks(s: State, programs: seq<Program>)
    requires Core(s) && UsedBefore(s.memory, s.instant)
    ensures Worker(s, Worked(s, programs)) && UsedBefore(Worked(s, programs).memory, s.instant + 1)
  {
    Open(s);
    if s.running != 0 {
      FetchKeeps(s);
      FetchWorks(s);
      var t := Fetch(s).0;
      Open(t);
      ExecuteWorks(t, programs, Fetch(s).1);
      ExecuteStamps(t, programs, Fetch(s).1);
      WorkerThen(s, t, Worked(s, programs));
    }
  }

  /** A two-address instruction, both of whose addresses the running process may use. */
  ghost predicate CopiesInside(s: State, instruction: int) {
    && Known(s, s.running) && TypeOf(instruction).SWAP_MEMCPY?
    && FirstAddress(instruction) < Get(s, s.running).addressSpace
    && SecondAddress(instruction) < Get(s, s.running).addressSpace
  }

  ghost predicate BothPagesIn(m: Memory, p: int, instruction: int) {
    && Resident(m, p, FirstAddress(instruction) / FRAME_SIZE)
    && Resident(m, p, SecondAddress(instruction) / FRAME_SIZE)
  }

  /**
   A two-address instruction within its process's address space finds both pages in memory, at every
   instant of every run.
   */
  lemma TwoAddresses(s: State, programs: seq<Program>)
    requires Invariant(s)
    ensures Core(Started(s)) && var t := Started(s);
      Known(t, t.running) && CopiesInside(t, Fetch(t).1) ==>
        BothPagesIn(Worked(t, programs).memory, t.running, Fetch(t).1)
  {
    StartedKeeps(s);
    StartedOnTheWay(s);
    var t := Started(s);
    Open(t);
    if Known(t, t.running) {
      FetchKeeps(t);
      Open(Fetch(t).0);
      SwapFindsBoth(Fetch(t).0, Fetch(t).1);
    }
  }

  lemma SwapFindsBoth(s: State, instruction: int)
    requires Paged(s) && UsedBefore(s.memory, s.instant)
    ensures CopiesInside(s, instruction) ==> BothPagesIn(SwapCopy(s, instruction).memory, s.running, instruction)
  {
    if CopiesInside(s, instruction) {
      var address1, address2 := FirstAddress(instruction), SecondAddress(instruction);
      AddressHasPage(s, s.running, address1);
      AddressHasPage(s, s.running, address2);
      BothResident(s.memory, s.running, address1 / FRAME_SIZE, address2 / FRAME_SIZE, s.instant);
    }
  }

  // ---------- The passing of one instant ----------

  /** The quantum left to the running process. */
  ghost function Left(s: State): int {
    if Known(s, s.running) then Get(s, s.running).time else 0
  }

  ghost predicate OnTheWay(s: State) {
    && Core(s) && (s.running != 0 ==> 1 <= Left(s) <= RUN_QUANTUM)
    && Newcomers(s, NEW_TIME) && s.instant >= 1 && UsedBefore(s.memory, s.instant + 1)
  }

  /** Ageing a list of processes none of which runs. */
  lemma OutsideRunner(s: State, t: State, ids: seq<int>)
    requires Core(s) && Core(t) && Outside(s, t, ids) && s.running !in ids
    ensures Left(t) == Left(s) && (s.running != 0 ==> Known(t, t.running))
  {
    Open(s);
    Open(t);
  }

  lemma BlockedAgedOnTheWay(s: State)
    requires OnTheWay(s)
    ensures var t := BlockedAged(s);
      OnTheWay(t) && s.ready <= t.ready && t.running == s.running && Left(t) == Left(s)
      && t.created == s.created && (forall x :: x in s.created ==> Known(t, x) && Get(t, x) == Get(s, x))
      && t.instant == s.instant
  {
    Open(s);
    AgedKeeps(s);
    WalkBlockedOutside(s, s.blocked);
    OutsideRunner(s, BlockedAged(s), s.blocked);
  }

  lemma CreatedAgedOnTheWay(s: State)
    requires OnTheWay(s)
    ensures var t := CreatedAged(s);
      OnTheWay(t) && s.ready <= t.ready && t.running == s.running && Left(t) == Left(s)
      && Newcomers(t, NEW_TIME - 1) && (forall x :: x in s.created ==> Aging(s, t, x)) && t.instant == s.instant
  {
    Open(s);
    AgedKeeps(s);
    WalkCreatedOutside(s, s.created);
    AllListed(s, s.created, s.created, NEW);
    WalkCreatedAges(s, s.created);
    OutsideRunner(s, CreatedAged(s), s.created);
    var t := CreatedAged(s);
    forall x | x in t.created
      ensures Known(t, x) && 1 <= Get(t, x).time <= NEW_TIME - 1
    {
      assert Aging(s, t, x);
    }
  }

  lemma TickRunningOnTheWay(s: State)
    requires OnTheWay(s) && Newcomers(s, NEW_TIME - 1)
    ensures var t := TickRunning(s);
      && Core(t) && Running(t) && s.ready <= t.ready && (t.running != 0 ==> Left(t) == Left(s) - 1)
      && t.created == s.created && (forall x :: x in s.created ==> Known(t, x) && Get(t, x) == Get(s, x))
      && t.instant == s.instant && t.memory == s.memory
  {
    Open(s);
    TickRunningKeeps(s);
  }

  lemma ExitingAgedOnTheWay(s: State)
    requires Core(s) && Running(s) && Newcomers(s, NEW_TIME - 1) && s.instant >= 1
      && UsedBefore(s.memory, s.instant + 1)
    ensures var t := ExitingAged(s);
      && Core(t) && Running(t) && s.ready <= t.ready && t.running == s.running && Left(t) == Left(s)
      && t.created == s.created && (forall x :: x in s.created ==> Known(t, x) && Get(t, x) == Get(s, x))
      && t.instant == s.instant && UsedBefore(t.memory, s.instant + 1)
  {
    Open(s);
    AgedKeeps(s);
    AllListed(s, s.exiting, s.exiting, EXIT);
    WalkExitingOutside(s, s.exiting);
    OutsideRunner(s, ExitingAged(s), s.exiting);
  }

  lemma AgedOnTheWay(s: State)
    requires OnTheWay(s)
    ensures var t := Aged(s);
      && Core(t) && Running(t) && Newcomers(t, NEW_TIME - 1) && s.ready <= t.ready
      && (t.running != 0 ==> Left(t) == Left(s) - 1)
      && (forall x :: x in s.created ==> Aging(s, t, x))
      && t.instant == s.instant && UsedBefore(t.memory, s.instant + 1)
  {
    BlockedAgedOnTheWay(s);
    var a := BlockedAged(s);
    CreatedAgedOnTheWay(a);
    var b := CreatedAged(a);
    TickRunningOnTheWay(b);
    var c := TickRunning(b);
    ExitingAgedOnTheWay(c);
    var t := Aged(s);
    forall x | x in s.created
      ensures Aging(s, t, x)
    {
      assert Aging(a, b, x);
    }
  }

  lemma StartedOnTheWay(s: State)
    requires Invariant(s)
    ensures var t := Started(s);
      && Core(t) && (t.running != 0 ==> 1 <= Left(t) <= RUN_QUANTUM)
      && Newcomers(t, NEW_TIME) && t.created == s.created
      && (forall x :: x in s.created ==> Known(t, x) && Get(t, x) == Get(s, x))
      && t.instant == s.instant && t.memory == s.memory
    ensures var t := Started(s); if s.running == 0 && s.ready != []
      then t.running == s.ready[0] && Left(t) == RUN_QUANTUM && t.ready == s.ready[1..]
      else t == s
  {
    Open(s);
    StartedKeeps(s);
    if s.running == 0 && s.ready != [] {
      assert s.ready[0] in s.ready;
      NotCreated(s, s.ready[0]);
    }
  }

  /** What one instant does to the queue, the clock on the processor and the newcomers. */
  lemma StepMoves(s: State, programs: seq<Program>)
    requires Invariant(s)
    ensures Invariant(Step(s, programs))
    ensures Started(s).ready <= Step(s, programs).ready
    ensures Step(s, programs).running != 0 ==> Left(Step(s, programs)) == Left(Started(s)) - 1
    ensures forall x :: x in s.created ==> Aging(s, Step(s, programs), x)
    ensures Step(s, programs).instant == s.instant + 1
  {
    StartedOnTheWay(s);
    var u := Started(s);
    WorkedKeeps(u, programs);
    WorkedWorks(u, programs);
    var v := Worked(u, programs);
    Open(v);
    AgedOnTheWay(v);
    var w := Aged(v);
    var t := Step(s, programs);
    InstantCounts(w);
    forall x | x in s.created
      ensures Aging(s, t, x)
    {
      assert Aging(v, w, x);
    }
  }

  lemma InstantCounts(s: State)
    requires Core(s)
    ensures Core(s.(instant := s.instant + 1))
  {
    Open(s);
    var t := s.(instant := s.instant + 1);
    ListsAlike(s, t);
  }

  lemma ListsAlike(s: State, t: State)
    requires Facts(s) && t == s.(instant := t.instant)
    ensures Facts(t)
  {
    forall list, status | Holds(s, list, status)
      ensures Holds(t, list, status)
    {
      forall id
        ensures id in list <==> Known(t, id) && Get(t, id).status == status
      {
        assert id in list <==> Known(s, id) && Get(s, id).status == status;
      }
    }
  }

  // ---------- A blocked process ----------

  ghost predicate Asleep(s: State, id: int) { Known(s, id) && Get(s, id).status.BLOCKED? }

  /** Not on its way to the processor, nor on it. */
  ghost predicate Idle(s: State, id: int) {
    Known(s, id) && (Get(s, id).status.BLOCKED? || Get(s, id).status.EXIT?)
  }

  ghost predicate SleepsOn(s: State, t: State, id: int) { Known(s, id) && Known(t, id) && Get(t, id) == Get(s, id) }

  /** What becomes of one blocked process: one instant older, and in the queue if it was due. */
  ghost predicate Waking(s: State, t: State, id: int) {
    && Known(s, id) && Known(t, id)
    && if Get(s, id).time <= 0 then id in t.ready else Get(t, id) == Get(s, id).(time := Get(s, id).time - 1)
  }

  lemma {:induction false} WalkBlockedWakes(s: State, ids: seq<int>, id: int)
    requires AllKnown(s, ids) && NoDuplicates(ids) && id in ids
    ensures Waking(s, WalkBlocked(s, ids), id)
    decreases |ids|
  {
    var t := TickBlocked(s, ids[0]);
    FrontLeaves(ids);
    WalkBlockedOutside(t, ids[1..]);
    if id == ids[0] {
      assert id in t.ready || Get(s, id).time > 0;
    } else {
      WalkBlockedWakes(t, ids[1..], id);
    }
  }

  lemma SleepsThroughStart(s: State, id: int)
    requires Core(s) && Idle(s, id)
    ensures SleepsOn(s, Started(s), id)
  {
    Open(s);
    if s.running == 0 && s.ready != [] {
      assert s.ready[0] in s.ready;
    }
  }

  lemma SleepsThroughWork(s: State, programs: seq<Program>, id: int)
    requires Core(s) && Idle(s, id)
    ensures SleepsOn(s, Worked(s, programs), id)
  {
    Open(s);
    if s.running != 0 {
      FetchKeeps(s);
      var t := Fetch(s).0;
      Open(t);
      SleepsThroughInstruction(t, programs, Fetch(s).1, id);
    }
  }

  lemma SleepsThroughInstruction(s: State, programs: seq<Program>, instruction: int, id: int)
    requires Core(s) && Paged(s) && Known(s, s.running) && Known(s, id) && id != s.running
    ensures SleepsOn(s, Execute(s, programs, instruction), id)
  {
  }

  lemma SleepsThroughCreated(s: State, id: int)
    requires Core(s) && Idle(s, id)
    ensures SleepsOn(s, CreatedAged(s), id)
  {
    Open(s);
    AllListed(s, s.created, s.created, NEW);
    WalkCreatedOutside(s, s.created);
  }

  lemma SleepsThroughExiting(s: State, id: int)
    requires Core(s) && Asleep(s, id) && s.instant >= 0
    ensures SleepsOn(s, ExitingAged(s), id)
  {
    Open(s);
    AllListed(s, s.exiting, s.exiting, EXIT);
    WalkExitingOutside(s, s.exiting);
  }

  lemma SleepsThroughRunning(s: State, id: int)
    requires Core(s) && Idle(s, id)
    ensures (s.running == 0 || Known(s, s.running)) && SleepsOn(s, TickRunning(s), id)
  {
    Open(s);
  }

  /** The passes after the one over the blocked list leave a sleeper alone, and a process in the queue there. */
  lemma LaterPasses(s: State, id: int)
    requires OnTheWay(s) && Known(s, id)
    ensures var a := CreatedAged(s); Core(a) && (a.running == 0 || Known(a, a.running)) && Core(TickRunning(a))
    ensures var t := ExitingAged(TickRunning(CreatedAged(s)));
      (id in s.ready ==> id in t.ready) && (Asleep(s, id) ==> SleepsOn(s, t, id))
  {
    CreatedAgedOnTheWay(s);
    var a := CreatedAged(s);
    TickRunningOnTheWay(a);
    var b := TickRunning(a);
    ExitingAgedOnTheWay(b);
    if Asleep(s, id) {
      SleepsThroughCreated(s, id);
      SleepsThroughRunning(a, id);
      SleepsThroughExiting(b, id);
    }
  }

  lemma AgedWakes(s: State, id: int)
    requires OnTheWay(s) && Asleep(s, id)
    ensures Waking(s, Aged(s), id)
  {
    Open(s);
    AllListed(s, s.blocked, s.blocked, BLOCKED);
    WalkBlockedWakes(s, s.blocked, id);
    BlockedAgedOnTheWay(s);
    LaterPasses(BlockedAged(s), id);
    AgedOnTheWay(s);
    Open(Aged(s));
  }

  /** One instant of a blocked process. */
  lemma StepWakes(s: State, programs: seq<Program>, id: int)
    requires Invariant(s) && id in s.blocked
    ensures var t := Step(s, programs);
      Known(s, id) && if Get(s, id).time <= 0 then id in t.ready
      else id in t.blocked && Known(t, id) && Get(t, id).time == Get(s, id).time - 1
  {
    Asleepers(s, id);
    SleepsThroughStart(s, id);
    StartedOnTheWay(s);
    var u := Started(s);
    SleepsThroughWork(u, programs, id);
    WorkedKeeps(u, programs);
    WorkedWorks(u, programs);
    var v := Worked(u, programs);
    Open(v);
    AgedWakes(v, id);
    StepMoves(s, programs);
    Asleepers(Step(s, programs), id);
  }

  // ---------- Runs ----------

  function Bare(): State {
    State([], [], [], 0, [], [], 0, 1, Memory([], seq(FRAME_COUNT, _ => FREE)))
  }

  /** The simulation begins by creating a process from the first program. */
  function Beginning(programs: seq<Program>): State { Create(Bare(), programs, 1) }

  lemma BeginningKeeps(programs: seq<Program>)
    ensures Invariant(Beginning(programs))
  {
    assert Facts(Bare());
    CreateKeeps(Bare(), programs, 1);
  }

  /** t is the state one instant after s; quantified over a dummy so that the step is unfolded only where asked for. */
  ghost predicate Follows(s: State, programs: seq<Program>, t: State) {
    forall k: nat :: FollowsAt(s, programs, t, k)
  }

  ghost predicate FollowsAt(s: State, programs: seq<Program>, t: State, k: nat) {
    Core(s) && t == Step(s, programs)
  }

  /** The states at consecutive instants. */
  ghost predicate IsRun(states: seq<State>, programs: seq<Program>) {
    && |states| > 0 && Invariant(states[0])
    && forall i: nat :: i + 1 < |states| ==> Follows(states[i], programs, states[i + 1])
  }

  lemma FollowsKeeps(s: State, programs: seq<Program>, t: State)
    requires Invariant(s) && Follows(s, programs, t)
    ensures Invariant(t) && t.instant == s.instant + 1
    ensures forall x :: x in s.created ==> Aging(s, t, x)
  {
    assert FollowsAt(s, programs, t, 0);
    StepMoves(s, programs);
  }

  /** Whatever the programs do, the invariant holds at every instant of every run. */
  lemma {:induction false} EveryInstant(states: seq<State>, programs: seq<Program>, n: nat)
    requires IsRun(states, programs) && n < |states|
    ensures Invariant(states[n]) && Facts(states[n]) && states[n].instant == states[0].instant + n
  {
    if n > 0 {
      EveryInstant(states, programs, n - 1);
      FollowsKeeps(states[n - 1], programs, states[n]);
    }
    Open(states[n]);
  }

  lemma LaterRun(states: seq<State>, programs: seq<Program>)
    requires IsRun(states, programs) && |states| > 1
    ensures IsRun(states[1..], programs) && Follows(states[0], programs, states[1])
  {
    assert Follows(states[0], programs, states[0 + 1]);
    FollowsKeeps(states[0], programs, states[1]);
    var later := states[1..];
    forall i: nat | i + 1 < |later|
      ensures Follows(later[i], programs, later[i + 1])
    {
      var j := i + 1;
      assert Follows(states[j], programs, states[j + 1]);
    }
  }

  lemma RunGrows(states: seq<State>, programs: seq<Program>, t: State)
    requires IsRun(states, programs) && Follows(states[|states| - 1], programs, t)
    ensures IsRun(states + [t], programs)
  {
  }

  /** No instant leaves a choice. */
  lemma {:induction false} SameRun(states: seq<State>, others: seq<State>, programs: seq<Program>, n: nat)
    requires IsRun(states, programs) && IsRun(others, programs) && states[0] == others[0]
    requires n < |states| && n < |others|
    ensures states[n] == others[n]
  {
    if n > 0 {
      SameRun(states, others, programs, n - 1);
      var k := n - 1;
      assert Follows(states[k], programs, states[k + 1]) && Follows(others[k], programs, others[k + 1]);
      assert FollowsAt(states[k], programs, states[n], 0) && FollowsAt(others[k], programs, others[n], 0);
    }
  }

  /** No instant gets stuck. */
  lemma {:induction false} RunOfLength(programs: seq<Program>, n: nat) returns (states: seq<State>)
    requires n > 0
    ensures IsRun(states, programs) && |states| == n && states[0] == Beginning(programs)
    decreases n
  {
    if n == 1 {
      BeginningKeeps(programs);
      states := [Beginning(programs)];
    } else {
      var before := RunOfLength(programs, n - 1);
      EveryInstant(before, programs, n - 2);
      states := before + [Step(before[n - 2], programs)];
      RunGrows(before, programs, Step(before[n - 2], programs));
    }
  }

  /** There is exactly one run of every length from the beginning. */
  lemma OneRun(programs: seq<Program>, n: nat) returns (states: seq<State>)
    requires n > 0
    ensures IsRun(states, programs) && |states| == n && states[0] == Beginning(programs)
    ensures forall others :: IsRun(others, programs) && |others| == n && others[0] == states[0] ==> others == states
  {
    states := RunOfLength(programs, n);
    forall others | IsRun(others, programs) && |others| == n && others[0] == states[0]
      ensures others == states
    {
      forall k | 0 <= k < n
        ensures others[k] == states[k]
      {
        SameRun(others, states, programs, k);
      }
    }
  }

  /** The dispatcher gives this process the processor at the start of the instant. */
  ghost predicate Dispatched(s: State, id: int) {
    s.running == 0 && s.ready != [] && s.ready[0] == id
  }

  /** An instant that does not dispatch the process at position k of the queue brings it closer. */
  lemma StepCloser(s: State, programs: seq<Program>, t: State, k: nat) returns (j: nat)
    requires Invariant(s) && Follows(s, programs, t) && k < |s.ready| && (s.running != 0 || k != 0)
    ensures j <= k && j < |t.ready| && t.ready[j] == s.ready[k]
    ensures Left(t) >= 0 && RUN_QUANTUM * j + Left(t) < RUN_QUANTUM * k + Left(s)
  {
    assert FollowsAt(s, programs, t, 0);
    StepMoves(s, programs);
    StartedOnTheWay(s);
    Open(s);
    Open(t);
    j := if s.running == 0 then k - 1 else k;
  }

  /** A process at position k of the queue is dispatched within RUN_QUANTUM * (k + 1) instants. */
  lemma {:induction false} BoundedWaiting(states: seq<State>, programs: seq<Program>, k: nat) returns (n: nat)
    requires IsRun(states, programs) && k < |states[0].ready| && |states| >= RUN_QUANTUM * (k + 1)
    ensures n <= RUN_QUANTUM * k + Left(states[0]) && n < RUN_QUANTUM * (k + 1)
    ensures n < |states| && Dispatched(states[n], states[0].ready[k])
  {
    n := Waiting(states, programs, k);
  }

  lemma {:induction false} Waiting(states: seq<State>, programs: seq<Program>, k: nat) returns (n: nat)
    requires IsRun(states, programs) && k < |states[0].ready| && |states| > RUN_QUANTUM * k + Left(states[0])
    ensures n <= RUN_QUANTUM * k + Left(states[0])
    ensures n < |states| && Dispatched(states[n], states[0].ready[k])
    decreases |states|
  {
    if states[0].running == 0 && k == 0 {
      n := 0;
    } else {
      assert RUN_QUANTUM * k + Left(states[0]) >= 1;
      LaterRun(states, programs);
      var j := StepCloser(states[0], programs, states[1], k);
      n := Waiting(states[1..], programs, j);
      n := n + 1;
    }
  }

  /** How many instants a process has to go before it is in the queue. */
  ghost function Wait(s: State, id: int): nat {
    if !Known(s, id) then 0
    else if Get(s, id).status.NEW? && Get(s, id).time > 0 then Get(s, id).time
    else if Get(s, id).status.BLOCKED? then (if Get(s, id).time > 0 then Get(s, id).time else 0) + 1
    else 0
  }

  /** Whatever the programs do, a process being created, ready or blocked is dispatched within a fixed time. */
  lemma NobodyStarves(states: seq<State>, programs: seq<Program>, id: int) returns (n: nat)
    requires IsRun(states, programs)
    requires id in states[0].created || id in states[0].ready || id in states[0].blocked
    requires |states| >= Wait(states[0], id) + RUN_QUANTUM * MAX_PROCESSES
    ensures n < Wait(states[0], id) + RUN_QUANTUM * MAX_PROCESSES && Dispatched(states[n], id)
    ensures id !in states[0].blocked ==> Wait(states[0], id) <= NEW_TIME
  {
    Open(states[0]);
    if id in states[0].created {
      n := NewcomerStarts(states, programs, id);
    } else if id in states[0].blocked {
      n := SleeperStarts(states, programs, id);
    } else {
      n := ReadyStarts(states, programs, id);
    }
  }

  lemma {:induction false} SleeperStarts(states: seq<State>, programs: seq<Program>, id: int) returns (n: nat)
    requires IsRun(states, programs) && id in states[0].blocked
    requires |states| >= Wait(states[0], id) + RUN_QUANTUM * MAX_PROCESSES
    ensures n < Wait(states[0], id) + RUN_QUANTUM * MAX_PROCESSES && Dispatched(states[n], id)
    decreases |states|
  {
    Asleepers(states[0], id);
    LaterRun(states, programs);
    FollowsKeeps(states[0], programs, states[1]);
    assert FollowsAt(states[0], programs, states[1], 0);
    StepWakes(states[0], programs, id);
    if Get(states[0], id).time <= 0 {
      n := ReadyStarts(states[1..], programs, id);
    } else {
      Asleepers(states[1], id);
      n := SleeperStarts(states[1..], programs, id);
    }
    n := n + 1;
  }

  lemma Asleepers(s: State, id: int)
    requires Core(s)
    ensures id in s.blocked <==> Asleep(s, id)
  {
    Open(s);
  }

  lemma ReadyStarts(states: seq<State>, programs: seq<Program>, id: int) returns (n: nat)
    requires IsRun(states, programs) && id in states[0].ready && |states| >= RUN_QUANTUM * MAX_PROCESSES
    ensures n < RUN_QUANTUM * MAX_PROCESSES && Dispatched(states[n], id)
  {
    var k := QueuePosition(states[0], id);
    n := BoundedWaiting(states, programs, k);
  }

  lemma QueuePosition(s: State, id: int) returns (k: nat)
    requires Core(s) && id in s.ready
    ensures k < |s.ready| && s.ready[k] == id && k < MAX_PROCESSES
  {
    Open(s);
    k :| 0 <= k < |s.ready| && s.ready[k] == id;
    NoDuplicatesSize(s.ready, Below(|s.procs| + 1) - {0});
  }

  lemma {:induction false} NewcomerStarts(states: seq<State>, programs: seq<Program>, id: int) returns (n: nat)
    requires IsRun(states, programs) && id in states[0].created && Known(states[0], id)
    requires |states| >= Get(states[0], id).time + RUN_QUANTUM * MAX_PROCESSES
    ensures n < Get(states[0], id).time + RUN_QUANTUM * MAX_PROCESSES && Dispatched(states[n], id)
    decreases |states|
  {
    assert Get(states[0], id).time >= 1;
    LaterRun(states, programs);
    FollowsKeeps(states[0], programs, states[1]);
    assert Aging(states[0], states[1], id);
    if Get(states[0], id).time == 1 {
      n := ReadyStarts(states[1..], programs, id);
    } else {
      n := NewcomerStarts(states[1..], programs, id);
    }
    n := n + 1;
  }
}
