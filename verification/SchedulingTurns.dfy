/**
 One turn of the simulation loop said process by process, apart from the functions the simulator is
 made of: who gets the processor, what it does there, and how every process ages.
 */
module SchedulingTurns {
  import opened Totals
  import opened Paging
  import opened Scheduling
  import opened SchedulingRuns
  import opened Instructions

  // ---------- What one instant makes of a process ----------

  /** Clocks run down; who is due goes on to its next place, and who has faulted has just begun to exit. */
  function Older(c: Control): Control {
    match c.status
    case NEW => c.(time := c.time - 1, status := if c.time == 1 then READY else NEW)
    case READY => c
    case RUN => c.(time := c.time - 1, status := if c.time == 1 then READY else RUN)
    case BLOCKED => c.(time := c.time - 1, status := if c.time <= 0 then READY else BLOCKED)
    case EXIT => c.(time := c.time - 1, status := if c.time <= 0 then TERMINATED else EXIT)
    case TERMINATED => c
    case _ => c.(time := EXIT_TIME - 1, status := EXIT)
  }

  /** Those of a list that become ready, in its order. */
  function Due(s: State, ids: seq<int>): seq<int>
    requires AllKnown(s, ids)
  {
    if ids == [] then []
    else (if Older(Get(s, ids[0])).status == READY then [ids[0]] else []) + Due(s, ids[1..])
  }

  /** Those of a list that keep their state, in its order. */
  function Staying(s: State, ids: seq<int>): seq<int>
    requires AllKnown(s, ids)
  {
    if ids == [] then []
    else
      var c := Get(s, ids[0]);
      (if Older(c).status == c.status then [ids[0]] else []) + Staying(s, ids[1..])
  }

  function Runner(s: State): seq<int> { if s.running == 0 then [] else [s.running] }

  /**
   Every process is older; the queue has got the blocked processes that were due, then the new ones,
   then the running one at the end of its quantum; the other lists have lost those that are due and
   kept their order, with a fault at the head of the exiting list; terminated processes have lost
   their pages.
   */
  ghost predicate Ages(s: State, t: State) {
    // one expression, so that the verifier need not prove its parts one by one
    var ages := |t.procs| == |s.procs| && (forall id :: Known(s, id) ==> Get(t, id) == Older(Get(s, id)))
      && AllKnown(s, s.blocked) && AllKnown(s, s.created) && AllKnown(s, s.exiting) && AllKnown(s, Runner(s))
      && t.ready == s.ready + Due(s, s.blocked) + Due(s, s.created) + Due(s, Runner(s))
      && t.blocked == Staying(s, s.blocked) && t.created == Staying(s, s.created)
      && t.exiting == Faulted(s) + Staying(s, s.exiting)
      && t.running == (if s.running != 0 && Get(t, s.running).status == RUN then s.running else 0)
      && FreesTerminated(s, t);
    ages
  }

  function Faulted(s: State): seq<int>
    requires AllKnown(s, Runner(s))
  {
    if s.running != 0 && Faulty(Get(s, Runner(s)[0]).status) then [s.running] else []
  }

  /** Pages of terminated processes are out, and all other pages are where they were. */
  ghost predicate FreesTerminated(s: State, t: State) {
    forall p, q {:trigger HasPage(s.memory, p, q)} :: HasPage(s.memory, p, q) && Known(t, p) ==>
      && HasPage(t.memory, p, q)
      && Entry(t.memory, p, q) == if Get(t, p).status == TERMINATED then EMPTY_FRAME else Entry(s.memory, p, q)
  }

  /** A free processor goes to the head of the queue, for a whole quantum. */
  ghost predicate Dispatches(s: State, t: State) {
    if s.running == 0 && s.ready != [] then
      var p := s.ready[0];
      && Known(s, p)
      && t == s.(procs := s.procs[p - 1 := Get(s, p).(status := RUN, time := RUN_QUANTUM)],
                 ready := s.ready[1..], running := p)
    else t == s
  }

  /** One turn: the processor is given away, its process takes an instruction, and everybody gets older. */
  ghost predicate Turns(s: State, programs: seq<Program>, t: State) {
    exists started, worked, aged :: TurnsThrough(s, programs, started, worked, aged, t)
  }

  ghost predicate TurnsThrough(s: State, programs: seq<Program>, started: State, worked: State, aged: State, t: State) {
    && Dispatches(s, started)
    && Takes(started, programs, worked) && Ages(worked, aged) && t == aged.(instant := s.instant + 1)
  }

  /** Whoever is on the processor takes an instruction. */
  ghost predicate Takes(s: State, programs: seq<Program>, t: State) {
    // one expression, so that the verifier need not prove its parts one by one
    var takes := if s.running == 0 then t == s
      else Known(s, s.running) && Consistent(s.memory) && Works(s, programs, t);
    takes
  }

  // ---------- The four passes ----------

  lemma {:induction false} WalkBlockedOlder(s: State, ids: seq<int>, id: int)
    requires AllKnown(s, ids) && NoDuplicates(ids) && id in ids && Get(s, id).status == BLOCKED
    ensures var t := WalkBlocked(s, ids); Known(t, id) && Get(t, id) == Older(Get(s, id))
    decreases |ids|
  {
    var t := TickBlocked(s, ids[0]);
    FrontLeaves(ids);
    WalkBlockedOutside(t, ids[1..]);
    if id != ids[0] {
      WalkBlockedOlder(t, ids[1..], id);
    }
  }

  lemma {:induction false} WalkCreatedOlder(s: State, ids: seq<int>, id: int)
    requires AllKnown(s, ids) && NoDuplicates(ids) && id in ids && Get(s, id).status == NEW
    ensures var t := WalkCreated(s, ids); Known(t, id) && Get(t, id) == Older(Get(s, id))
    decreases |ids|
  {
    var t := TickCreated(s, ids[0]);
    FrontLeaves(ids);
    WalkCreatedOutside(t, ids[1..]);
    if id != ids[0] {
      WalkCreatedOlder(t, ids[1..], id);
    }
  }

  lemma {:induction false} WalkExitingOlder(s: State, ids: seq<int>, id: int)
    requires AllKnown(s, ids) && Paged(s) && NoDuplicates(ids) && id in ids && Get(s, id).status == EXIT
    requires s.instant >= 0
    ensures var t := WalkExiting(s, ids); Known(t, id) && Get(t, id) == Older(Get(s, id))
    decreases |ids|
  {
    TickExitingPaged(s, ids[0]);
    TickExitingOutside(s, ids[0]);
    var t := TickExiting(s, ids[0]);
    FrontLeaves(ids);
    WalkExitingOutside(t, ids[1..]);
    if id != ids[0] {
      WalkExitingOlder(t, ids[1..], id);
    }
  }

  /** Processes that have not changed become ready as before. */
  lemma {:induction false} DueAlike(s: State, t: State, ids: seq<int>)
    requires AllKnown(s, ids) && AllKnown(t, ids) && forall id :: id in ids ==> Get(t, id) == Get(s, id)
    ensures Due(t, ids) == Due(s, ids)
    decreases |ids|
  {
    if ids != [] {
      assert ids == [ids[0]] + ids[1..];
      DueAlike(s, t, ids[1..]);
    }
  }

  lemma {:induction false} WalkBlockedQueue(s: State, ids: seq<int>)
    requires AllKnown(s, ids) && NoDuplicates(ids) && forall id :: id in ids ==> Get(s, id).status == BLOCKED
    ensures WalkBlocked(s, ids).ready == s.ready + Due(s, ids)
    decreases |ids|
  {
    if ids != [] {
      var t := TickBlocked(s, ids[0]);
      FrontLeaves(ids);
      WalkBlockedQueue(t, ids[1..]);
      DueAlike(s, t, ids[1..]);
    }
  }

  lemma {:induction false} WalkCreatedQueue(s: State, ids: seq<int>)
    requires AllKnown(s, ids) && NoDuplicates(ids) && forall id :: id in ids ==> Get(s, id).status == NEW
    ensures WalkCreated(s, ids).ready == s.ready + Due(s, ids)
    decreases |ids|
  {
    if ids != [] {
      var t := TickCreated(s, ids[0]);
      FrontLeaves(ids);
      WalkCreatedQueue(t, ids[1..]);
      DueAlike(s, t, ids[1..]);
    }
  }

  lemma {:induction false} WalkExitingQueue(s: State, ids: seq<int>)
    requires AllKnown(s, ids) && Paged(s)
    ensures WalkExiting(s, ids).ready == s.ready
    decreases |ids|
  {
    if ids != [] {
      TickExitingPaged(s, ids[0]);
      WalkExitingQueue(TickExiting(s, ids[0]), ids[1..]);
    }
  }

  // ---------- The lists keep their order ----------

  lemma {:induction false} DeleteFrom(before: seq<int>, x: int, after: seq<int>)
    requires x !in before
    ensures Delete(before + [x] + after, x) == before + after
  {
    var list := before + [x] + after;
    if before == [] {
      assert list[1..] == after && list[0] == x;
    } else {
      assert list[0] == before[0] && list[1..] == before[1..] + [x] + after;
      DeleteFrom(before[1..], x, after);
      assert before == [before[0]] + before[1..];
    }
  }

  lemma {:induction false} StayingAlike(s: State, t: State, ids: seq<int>)
    requires AllKnown(s, ids) && AllKnown(t, ids) && forall id :: id in ids ==> Get(t, id) == Get(s, id)
    ensures Staying(t, ids) == Staying(s, ids)
    decreases |ids|
  {
    if ids != [] {
      assert ids == [ids[0]] + ids[1..];
      StayingAlike(s, t, ids[1..]);
    }
  }

  lemma SplitOff(before: seq<int>, ids: seq<int>)
    requires ids != [] && NoDuplicates(before + ids)
    ensures NoDuplicates(ids) && ids[0] !in before && NoDuplicates(before + ids[1..])
    ensures before + ids == before + [ids[0]] + ids[1..]
    ensures NoDuplicates(before + [ids[0]] + ids[1..])
  {
    var all := before + ids;
    forall i, j | 0 <= i < j < |ids|
      ensures ids[i] != ids[j]
    {
      assert all[|before| + i] == ids[i] && all[|before| + j] == ids[j];
    }
    forall i | 0 <= i < |before|
      ensures before[i] != ids[0]
    {
      assert all[i] == before[i] && all[|before|] == ids[0];
    }
    var rest := before + ids[1..];
    forall i, j | 0 <= i < j < |rest|
      ensures rest[i] != rest[j]
    {
      assert rest[i] == all[if i < |before| then i else i + 1] && rest[j] == all[if j < |before| then j else j + 1];
    }
    assert all[|before|] == ids[0];
    assert all == before + [ids[0]] + ids[1..];
  }

  lemma TickBlockedOrder(s: State, before: seq<int>, ids: seq<int>)
    requires ids != [] && AllKnown(s, ids) && s.blocked == before + ids && NoDuplicates(s.blocked)
    ensures var t := TickBlocked(s, ids[0]);
      && |t.procs| == |s.procs| && NoDuplicates(t.blocked) && NoDuplicates(ids)
      && t.blocked == (if Get(s, ids[0]).time <= 0 then before else before + [ids[0]]) + ids[1..]
      && (forall id :: Known(s, id) && id != ids[0] ==> Get(t, id) == Get(s, id))
  {
    SplitOff(before, ids);
    DeleteFrom(before, ids[0], ids[1..]);
  }

  lemma TickCreatedOrder(s: State, before: seq<int>, ids: seq<int>)
    requires ids != [] && AllKnown(s, ids) && s.created == before + ids && NoDuplicates(s.created)
    ensures var t := TickCreated(s, ids[0]);
      && |t.procs| == |s.procs| && NoDuplicates(t.created) && NoDuplicates(ids)
      && t.created == (if Get(s, ids[0]).time == 1 then before else before + [ids[0]]) + ids[1..]
      && (forall id :: Known(s, id) && id != ids[0] ==> Get(t, id) == Get(s, id))
  {
    SplitOff(before, ids);
    DeleteFrom(before, ids[0], ids[1..]);
  }

  lemma TickExitingOrder(s: State, before: seq<int>, ids: seq<int>)
    requires ids != [] && AllKnown(s, ids) && Paged(s) && s.exiting == before + ids && NoDuplicates(s.exiting)
    ensures var t := TickExiting(s, ids[0]);
      && |t.procs| == |s.procs| && Paged(t) && NoDuplicates(t.exiting) && NoDuplicates(ids)
      && t.exiting == (if Get(s, ids[0]).time <= 0 then before else before + [ids[0]]) + ids[1..]
      && (forall id :: Known(s, id) && id != ids[0] ==> Get(t, id) == Get(s, id))
  {
    TickExitingPaged(s, ids[0]);
    SplitOff(before, ids);
    DeleteFrom(before, ids[0], ids[1..]);
  }

  /** The processes behind the first one are as they were. */
  lemma RestAlike(s: State, t: State, ids: seq<int>)
    requires ids != [] && AllKnown(s, ids) && NoDuplicates(ids) && |t.procs| == |s.procs|
    requires forall id :: Known(s, id) && id != ids[0] ==> Get(t, id) == Get(s, id)
    ensures AllKnown(t, ids[1..]) && Staying(t, ids[1..]) == Staying(s, ids[1..])
    ensures forall id :: id in ids[1..] ==> id in ids && Known(t, id) && Get(t, id) == Get(s, id)
  {
    FrontLeaves(ids);
    StayingAlike(s, t, ids[1..]);
  }

  lemma StayingOne(s: State, ids: seq<int>, first: seq<int>)
    requires ids != [] && AllKnown(s, ids)
    requires first == if Older(Get(s, ids[0])).status == Get(s, ids[0]).status then [ids[0]] else []
    ensures Staying(s, ids) == first + Staying(s, ids[1..])
  {
  }

  /** What the walk over the blocked list finds from one process to the next. */
  ghost predicate BlockedFrom(s: State, before: seq<int>, ids: seq<int>) {
    // one expression, so that the verifier need not prove its parts one by one
    var from := AllKnown(s, ids) && s.blocked == before + ids && NoDuplicates(s.blocked)
      && forall id :: id in ids ==> Get(s, id).status == BLOCKED;
    from
  }

  lemma NextBlocked(s: State, before: seq<int>, ids: seq<int>)
    requires BlockedFrom(s, before, ids) && ids != []
    ensures var t, first := TickBlocked(s, ids[0]), if Get(s, ids[0]).time <= 0 then [] else [ids[0]];
      && BlockedFrom(t, before + first, ids[1..])
      && Staying(s, ids) == first + Staying(t, ids[1..])
      && WalkBlocked(s, ids) == WalkBlocked(t, ids[1..])
  {
    var t, first := TickBlocked(s, ids[0]), if Get(s, ids[0]).time <= 0 then [] else [ids[0]];
    TickBlockedOrder(s, before, ids);
    RestAlike(s, t, ids);
    StayingOne(s, ids, first);
    assert before + [] == before;
  }

  lemma {:induction false} WalkBlockedOrder(s: State, before: seq<int>, ids: seq<int>)
    requires BlockedFrom(s, before, ids)
    ensures WalkBlocked(s, ids).blocked == before + Staying(s, ids)
    decreases |ids|
  {
    if ids != [] {
      var first := if Get(s, ids[0]).time <= 0 then [] else [ids[0]];
      NextBlocked(s, before, ids);
      WalkBlockedOrder(TickBlocked(s, ids[0]), before + first, ids[1..]);
    }
  }

  /** What the walk over the new list finds from one process to the next. */
  ghost predicate CreatedFrom(s: State, before: seq<int>, ids: seq<int>) {
    // one expression, so that the verifier need not prove its parts one by one
    var from := AllKnown(s, ids) && s.created == before + ids && NoDuplicates(s.created)
      && forall id :: id in ids ==> Get(s, id).status == NEW;
    from
  }

  lemma NextCreated(s: State, before: seq<int>, ids: seq<int>)
    requires CreatedFrom(s, before, ids) && ids != []
    ensures var t, first := TickCreated(s, ids[0]), if Get(s, ids[0]).time == 1 then [] else [ids[0]];
      && CreatedFrom(t, before + first, ids[1..])
      && Staying(s, ids) == first + Staying(t, ids[1..])
      && WalkCreated(s, ids) == WalkCreated(t, ids[1..])
  {
    var t, first := TickCreated(s, ids[0]), if Get(s, ids[0]).time == 1 then [] else [ids[0]];
    TickCreatedOrder(s, before, ids);
    RestAlike(s, t, ids);
    StayingOne(s, ids, first);
    assert before + [] == before;
  }

  lemma {:induction false} WalkCreatedOrder(s: State, before: seq<int>, ids: seq<int>)
    requires CreatedFrom(s, before, ids)
    ensures WalkCreated(s, ids).created == before + Staying(s, ids)
    decreases |ids|
  {
    if ids != [] {
      var first := if Get(s, ids[0]).time == 1 then [] else [ids[0]];
      NextCreated(s, before, ids);
      WalkCreatedOrder(TickCreated(s, ids[0]), before + first, ids[1..]);
    }
  }

  /** What the walk over the exiting list finds from one process to the next. */
  ghost predicate ExitingFrom(s: State, before: seq<int>, ids: seq<int>) {
    // one expression, so that the verifier need not prove its parts one by one
    var from := AllKnown(s, ids) && Paged(s) && s.exiting == before + ids && NoDuplicates(s.exiting)
      && forall id :: id in ids ==> Get(s, id).status == EXIT;
    from
  }

  lemma NextExiting(s: State, before: seq<int>, ids: seq<int>)
    requires ExitingFrom(s, before, ids) && ids != []
    ensures var t, first := TickExiting(s, ids[0]), if Get(s, ids[0]).time <= 0 then [] else [ids[0]];
      && ExitingFrom(t, before + first, ids[1..])
      && Staying(s, ids) == first + Staying(t, ids[1..])
      && WalkExiting(s, ids) == WalkExiting(t, ids[1..])
  {
    var t, first := TickExiting(s, ids[0]), if Get(s, ids[0]).time <= 0 then [] else [ids[0]];
    TickExitingOrder(s, before, ids);
    RestAlike(s, t, ids);
    StayingOne(s, ids, first);
    assert before + [] == before;
  }

  lemma {:induction false} WalkExitingOrder(s: State, before: seq<int>, ids: seq<int>)
    requires ExitingFrom(s, before, ids)
    ensures WalkExiting(s, ids).exiting == before + Staying(s, ids)
    decreases |ids|
  {
    if ids != [] {
      var first := if Get(s, ids[0]).time <= 0 then [] else [ids[0]];
      NextExiting(s, before, ids);
      WalkExitingOrder(TickExiting(s, ids[0]), before + first, ids[1..]);
    }
  }

  lemma {:induction false} WalkBlockedSpares(s: State, ids: seq<int>)
    requires AllKnown(s, ids)
    ensures WalkBlocked(s, ids).exiting == s.exiting
    decreases |ids|
  {
    if ids != [] {
      WalkBlockedSpares(TickBlocked(s, ids[0]), ids[1..]);
    }
  }

  lemma {:induction false} WalkCreatedSpares(s: State, ids: seq<int>)
    requires AllKnown(s, ids)
    ensures WalkCreated(s, ids).exiting == s.exiting && WalkCreated(s, ids).blocked == s.blocked
    decreases |ids|
  {
    if ids != [] {
      WalkCreatedSpares(TickCreated(s, ids[0]), ids[1..]);
    }
  }

  lemma {:induction false} WalkExitingSpares(s: State, ids: seq<int>)
    requires AllKnown(s, ids) && Paged(s)
    ensures WalkExiting(s, ids).blocked == s.blocked && WalkExiting(s, ids).created == s.created
    decreases |ids|
  {
    if ids != [] {
      TickExitingPaged(s, ids[0]);
      WalkExitingSpares(TickExiting(s, ids[0]), ids[1..]);
    }
  }

  // ---------- What becomes of the pages ----------

  lemma TickExitingFrees(s: State, id: int)
    requires Known(s, id) && Paged(s) && Cleared(s) && Get(s, id).status == EXIT
    ensures Cleared(TickExiting(s, id)) && FreesTerminated(s, TickExiting(s, id))
  {
    ClearKeeps(s.memory, id, 0);
    var t := TickExiting(s, id);
    assert forall p, q {:trigger HasPage(t.memory, p, q)} :: HasPage(t.memory, p, q) ==> HasPage(s.memory, p, q);
  }

  lemma {:induction false} WalkExitingFrees(s: State, ids: seq<int>)
    requires AllKnown(s, ids) && Paged(s) && Cleared(s) && NoDuplicates(ids) && s.instant >= 0
    requires forall id :: id in ids ==> Get(s, id).status == EXIT
    ensures FreesTerminated(s, WalkExiting(s, ids))
    decreases |ids|
  {
    if ids != [] {
      var t := TickExiting(s, ids[0]);
      TickExitingPaged(s, ids[0]);
      TickExitingFrees(s, ids[0]);
      FrontLeaves(ids);
      WalkExitingFrees(t, ids[1..]);
      WalkExitingOutside(t, ids[1..]);
      FreedTwice(s, t, WalkExiting(s, ids));
    }
  }

  lemma FreedTwice(s: State, t: State, u: State)
    requires FreesTerminated(s, t) && FreesTerminated(t, u) && |t.procs| == |u.procs|
    requires forall id :: Known(t, id) && Get(t, id).status == TERMINATED ==> Get(u, id).status == TERMINATED
    ensures FreesTerminated(s, u)
  {
    forall p, q {:trigger HasPage(s.memory, p, q)} | HasPage(s.memory, p, q) && Known(u, p)
      ensures HasPage(u.memory, p, q)
        && Entry(u.memory, p, q) == if Get(u, p).status == TERMINATED then EMPTY_FRAME else Entry(s.memory, p, q)
    {
      assert HasPage(t.memory, p, q);
    }
  }

  // ---------- All four of them ----------

  /** What the first pass, and then the second, make of each process. */
  lemma BlockedAgedOlder(s: State)
    requires OnTheWay(s)
    ensures var t := BlockedAged(s);
      && OnTheWay(t) && |t.procs| == |s.procs| && t.running == s.running && t.created == s.created
      && t.memory == s.memory && t.instant == s.instant
      && (forall id :: Known(s, id) ==>
           Get(t, id) == if Get(s, id).status == BLOCKED then Older(Get(s, id)) else Get(s, id))
      && AllKnown(s, s.blocked) && t.ready == s.ready + Due(s, s.blocked)
      && t.blocked == Staying(s, s.blocked) && t.exiting == s.exiting
  {
    Open(s);
    AllListed(s, s.blocked, s.blocked, BLOCKED);
    assert BlockedFrom(s, [], s.blocked);
    WalkBlockedOrder(s, [], s.blocked);
    WalkBlockedSpares(s, s.blocked);
    BlockedAgedOnTheWay(s);
    WalkBlockedOutside(s, s.blocked);
    WalkBlockedQueue(s, s.blocked);
    var t := BlockedAged(s);
    forall id | Known(s, id)
      ensures Get(t, id) == if Get(s, id).status == BLOCKED then Older(Get(s, id)) else Get(s, id)
    {
      if Get(s, id).status == BLOCKED {
        WalkBlockedOlder(s, s.blocked, id);
      }
    }
  }

  lemma CreatedAgedOlder(s: State)
    requires OnTheWay(s)
    ensures var t := CreatedAged(s);
      && OnTheWay(t) && Newcomers(t, NEW_TIME - 1) && |t.procs| == |s.procs| && t.running == s.running
      && t.memory == s.memory && t.instant == s.instant
      && (forall id :: Known(s, id) ==>
           Get(t, id) == if Get(s, id).status == NEW then Older(Get(s, id)) else Get(s, id))
      && AllKnown(s, s.created) && t.ready == s.ready + Due(s, s.created)
      && t.created == Staying(s, s.created) && t.exiting == s.exiting && t.blocked == s.blocked
  {
    Open(s);
    AllListed(s, s.created, s.created, NEW);
    assert CreatedFrom(s, [], s.created);
    WalkCreatedOrder(s, [], s.created);
    WalkCreatedSpares(s, s.created);
    CreatedAgedOnTheWay(s);
    WalkCreatedOutside(s, s.created);
    WalkCreatedQueue(s, s.created);
    var t := CreatedAged(s);
    forall id | Known(s, id)
      ensures Get(t, id) == if Get(s, id).status == NEW then Older(Get(s, id)) else Get(s, id)
    {
      if Get(s, id).status == NEW {
        WalkCreatedOlder(s, s.created, id);
      }
    }
  }

  lemma ExitingAgedLists(s: State)
    requires Core(s)
    ensures var t := ExitingAged(s);
      && AllKnown(s, s.exiting) && t.exiting == Staying(s, s.exiting)
      && t.created == s.created && t.blocked == s.blocked && t.ready == s.ready
  {
    Open(s);
    AllListed(s, s.exiting, s.exiting, EXIT);
    assert ExitingFrom(s, [], s.exiting);
    WalkExitingOrder(s, [], s.exiting);
    WalkExitingSpares(s, s.exiting);
    WalkExitingQueue(s, s.exiting);
  }

  lemma ExitingAgedOlder(s: State)
    requires Core(s) && s.instant >= 0
    ensures var t := ExitingAged(s);
      && Core(t) && |t.procs| == |s.procs| && t.running == s.running && t.instant == s.instant
      && (forall id :: Known(s, id) ==>
           Get(t, id) == if Get(s, id).status == EXIT then Older(Get(s, id)) else Get(s, id))
      && FreesTerminated(s, t)
  {
    Open(s);
    AllListed(s, s.exiting, s.exiting, EXIT);
    AgedKeeps(s);
    WalkExitingOutside(s, s.exiting);
    WalkExitingFrees(s, s.exiting);
    var t := ExitingAged(s);
    forall id | Known(s, id)
      ensures Get(t, id) == if Get(s, id).status == EXIT then Older(Get(s, id)) else Get(s, id)
    {
      if Get(s, id).status == EXIT {
        WalkExitingOlder(s, s.exiting, id);
      }
    }
  }

  /** The running process is older, except that a fault has only just put it among the exiting. */
  lemma TickRunningOlder(s: State)
    requires OnTheWay(s) && Newcomers(s, NEW_TIME - 1)
    ensures var t := TickRunning(s);
      && Core(t) && |t.procs| == |s.procs| && t.memory == s.memory && t.instant == s.instant
      && (forall id :: Known(s, id) && id != s.running ==> Get(t, id) == Get(s, id))
      && (s.running != 0 ==>
           && Known(s, s.running) && OnProcessor(Get(s, s.running).status)
           && Get(t, s.running) ==
             if Faulty(Get(s, s.running).status) then Get(s, s.running).(status := EXIT, time := EXIT_TIME)
             else Older(Get(s, s.running)))
      && AllKnown(s, Runner(s)) && t.ready == s.ready + Due(s, Runner(s))
      && t.exiting == Faulted(s) + s.exiting && t.created == s.created && t.blocked == s.blocked
      && t.running == if s.running != 0 && Older(Get(s, s.running)).status == RUN then s.running else 0
  {
    Open(s);
    TickRunningOnTheWay(s);
    assert s.running != 0 ==> Runner(s)[1..] == [];
  }

  lemma StatusPlaces(s: State, id: int)
    requires Core(s) && Known(s, id)
    ensures OnProcessor(Get(s, id).status) <==> id == s.running
  {
    Open(s);
  }

  lemma FirstPasses(s: State)
    requires OnTheWay(s)
    ensures Core(BlockedAged(s)) && var t := CreatedAged(BlockedAged(s));
      && OnTheWay(t) && Newcomers(t, NEW_TIME - 1) && |t.procs| == |s.procs| && t.running == s.running
      && t.memory == s.memory && t.instant == s.instant
      && (forall id :: Known(s, id) ==>
           Get(t, id) == if Get(s, id).status in {BLOCKED, NEW} then Older(Get(s, id)) else Get(s, id))
      && AllKnown(s, s.blocked) && AllKnown(s, s.created)
      && t.ready == s.ready + Due(s, s.blocked) + Due(s, s.created)
      && t.blocked == Staying(s, s.blocked) && t.created == Staying(s, s.created) && t.exiting == s.exiting
  {
    BlockedAgedOlder(s);
    var a := BlockedAged(s);
    CreatedAgedOlder(a);
    Open(s);
    AllListed(s, s.created, s.created, NEW);
    DueAlike(s, a, s.created);
    StayingAlike(s, a, s.created);
  }

  lemma RunnerDue(s: State, t: State)
    requires Core(s) && Core(t) && t.running == s.running && |t.procs| == |s.procs|
    requires forall id :: Known(s, id) && OnProcessor(Get(s, id).status) ==> Get(t, id) == Get(s, id)
    ensures AllKnown(s, Runner(s)) && AllKnown(t, Runner(t)) && Due(t, Runner(t)) == Due(s, Runner(s))
    ensures Faulted(t) == Faulted(s)
  {
    Open(s);
    Open(t);
    DueAlike(s, t, Runner(s));
  }

  lemma AgedProcesses(s: State)
    requires OnTheWay(s)
    ensures var t := Aged(s);
      |t.procs| == |s.procs| && forall id :: Known(s, id) ==> Get(t, id) == Older(Get(s, id))
  {
    FirstPasses(s);
    var b := CreatedAged(BlockedAged(s));
    TickRunningOlder(b);
    var c := TickRunning(b);
    ExitingAgedOlder(c);
    forall id | Known(s, id)
      ensures Get(ExitingAged(c), id) == Older(Get(s, id))
    {
      StatusPlaces(s, id);
    }
  }

  lemma AgedQueue(s: State)
    requires OnTheWay(s)
    ensures AllKnown(s, s.blocked) && AllKnown(s, s.created) && AllKnown(s, Runner(s))
    ensures Aged(s).ready == s.ready + Due(s, s.blocked) + Due(s, s.created) + Due(s, Runner(s))
  {
    FirstPasses(s);
    var b := CreatedAged(BlockedAged(s));
    RunnerDue(s, b);
    TickRunningOlder(b);
    ExitingAgedLists(TickRunning(b));
  }

  lemma ExitingKnown(s: State)
    requires Core(s)
    ensures AllKnown(s, s.exiting) && forall id :: id in s.exiting ==> Known(s, id) && Get(s, id).status == EXIT
  {
    Open(s);
    AllListed(s, s.exiting, s.exiting, EXIT);
  }

  /** The exiting list, read again after the first three passes. */
  lemma ExitingStays(s: State, t: State, faulted: seq<int>)
    requires t.exiting == faulted + s.exiting && |faulted| <= 1 && AllKnown(s, s.exiting) && AllKnown(t, t.exiting)
    requires forall id :: id in s.exiting ==> Known(s, id) && Known(t, id) && Get(t, id) == Get(s, id)
    requires forall id :: id in t.exiting ==> Known(t, id) && Get(t, id).status == EXIT
    requires forall id :: id in faulted ==> Known(t, id) && Get(t, id).time == EXIT_TIME
    ensures Staying(t, t.exiting) == faulted + Staying(s, s.exiting)
  {
    StayingAlike(s, t, s.exiting);
    if faulted != [] {
      assert t.exiting[0] == faulted[0] && t.exiting[1..] == s.exiting;
      assert faulted[0] in faulted && t.exiting[0] in t.exiting && faulted == [faulted[0]];
    }
  }

  /** What the first three passes leave of the exiting list. */
  lemma ThreePasses(s: State)
    requires OnTheWay(s)
    ensures Core(BlockedAged(s)) && Core(CreatedAged(BlockedAged(s)))
    ensures var b := CreatedAged(BlockedAged(s));
      (b.running != 0 ==> Known(b, b.running)) && var c := TickRunning(b);
      && Core(c) && c.instant == s.instant && |c.procs| == |s.procs|
      && AllKnown(s, s.blocked) && AllKnown(s, s.created) && AllKnown(s, Runner(s))
      && c.blocked == Staying(s, s.blocked) && c.created == Staying(s, s.created)
      && c.exiting == Faulted(s) + s.exiting
      && (forall id :: Known(s, id) && Get(s, id).status == EXIT ==> Get(c, id) == Get(s, id))
      && (forall id :: id in Faulted(s) ==> Known(c, id) && Get(c, id).time == EXIT_TIME)
  {
    FirstPasses(s);
    var b := CreatedAged(BlockedAged(s));
    RunnerDue(s, b);
    TickRunningOlder(b);
    RunnerKnown(s);
  }

  lemma AgedLists(s: State)
    requires OnTheWay(s)
    ensures AllKnown(s, s.blocked) && AllKnown(s, s.created) && AllKnown(s, s.exiting) && AllKnown(s, Runner(s))
    ensures var t := Aged(s);
      && t.blocked == Staying(s, s.blocked) && t.created == Staying(s, s.created)
      && t.exiting == Faulted(s) + Staying(s, s.exiting)
  {
    ThreePasses(s);
    var c := TickRunning(CreatedAged(BlockedAged(s)));
    ExitingAgedLists(c);
    ExitingKnown(s);
    ExitingKnown(c);
    ExitingStays(s, c, Faulted(s));
  }

  lemma RunnerKnown(s: State)
    requires Core(s)
    ensures s.running != 0 ==> Known(s, s.running) && OnProcessor(Get(s, s.running).status)
    ensures forall id :: Known(s, id) && OnProcessor(Get(s, id).status) ==> id == s.running
  {
    Open(s);
  }

  lemma AgedOthers(s: State)
    requires OnTheWay(s)
    ensures var t := Aged(s); Core(t) && t.instant == s.instant && FreesTerminated(s, t)
  {
    FirstPasses(s);
    var b := CreatedAged(BlockedAged(s));
    TickRunningOlder(b);
    ExitingAgedOlder(TickRunning(b));
  }

  lemma AgedRunning(s: State)
    requires OnTheWay(s)
    ensures Aged(s).running ==
      if s.running != 0 && Known(s, s.running) && Older(Get(s, s.running)).status == RUN then s.running else 0
  {
    FirstPasses(s);
    var b := CreatedAged(BlockedAged(s));
    TickRunningOlder(b);
    ExitingAgedOlder(TickRunning(b));
    RunnerKnown(s);
  }

  /** The four passes over lists that change on the way make every process older by its own state. */
  lemma AgedAges(s: State)
    requires OnTheWay(s)
    ensures Core(Aged(s)) && Ages(s, Aged(s)) && Aged(s).instant == s.instant
  {
    AgedProcesses(s);
    AgedQueue(s);
    AgedLists(s);
    AgedOthers(s);
    AgedRunning(s);
    RunnerKnown(s);
  }

  // ---------- The turn ----------

  lemma StartedDispatches(s: State)
    requires Core(s)
    ensures Dispatches(s, Started(s))
  {
    Open(s);
    if s.running == 0 && s.ready != [] {
      DispatchKeeps(s);
    }
  }

  lemma WorkedTakes(s: State, programs: seq<Program>)
    requires Core(s) && UsedBefore(s.memory, s.instant)
    ensures Takes(s, programs, Worked(s, programs))
  {
    if s.running != 0 {
      Instructions.WorkedWorks(s, programs);
    }
  }

  lemma WorkedOnTheWay(s: State, programs: seq<Program>)
    requires Invariant(s)
    ensures Core(Started(s)) && OnTheWay(Worked(Started(s), programs))
    ensures Worked(Started(s), programs).instant == s.instant && UsedBefore(Started(s).memory, Started(s).instant)
  {
    StartedOnTheWay(s);
    var u := Started(s);
    WorkedKeeps(u, programs);
    SchedulingRuns.WorkedWorks(u, programs);
    Open(Worked(u, programs));
  }

  /** One turn of the loop: the processor is given away, its process takes an instruction, everybody gets older. */
  lemma StepTurns(s: State, programs: seq<Program>)
    requires Invariant(s)
    ensures Turns(s, programs, Step(s, programs))
  {
    WorkedOnTheWay(s, programs);
    var u := Started(s);
    var v := Worked(u, programs);
    StartedDispatches(s);
    WorkedTakes(u, programs);
    AgedAges(v);
    TurnMade(s, programs, u, v, Aged(v), Step(s, programs));
  }

  lemma TurnMade(s: State, programs: seq<Program>, started: State, worked: State, aged: State, t: State)
    requires Dispatches(s, started) && Takes(started, programs, worked) && Ages(worked, aged)
    requires t == aged.(instant := s.instant + 1)
    ensures Turns(s, programs, t)
  {
    assert TurnsThrough(s, programs, started, worked, aged, t);
  }

  /** The simulation begins with a process of the first program, and without one if there is no program. */
  lemma BeginningStarts(programs: seq<Program>)
    ensures if programs != [] then Starts(Bare(), Beginning(programs), programs[0]) else Beginning(programs) == Bare()
  {
    if programs != [] {
      assert Facts(Bare());
      CreateStarts(Bare(), programs, 1);
    }
  }

  /** Every two consecutive states of a run are one turn apart. */
  lemma EveryTurn(states: seq<State>, programs: seq<Program>, n: nat)
    requires IsRun(states, programs) && n + 1 < |states|
    ensures Turns(states[n], programs, states[n + 1])
  {
    EveryInstant(states, programs, n);
    assert FollowsAt(states[n], programs, states[n + 1], 0);
    StepTurns(states[n], programs);
  }

  // ---------- Processes that exit ----------

  /** Terminated, with no page in memory. */
  ghost predicate Gone(s: State, id: int) {
    && Known(s, id) && Get(s, id).status == TERMINATED
    && forall q :: !Resident(s.memory, id, q)
  }

  lemma Exiting(s: State, id: int)
    requires Core(s)
    ensures id in s.exiting <==> Known(s, id) && Get(s, id).status.EXIT?
    ensures Known(s, id) && Get(s, id).status == TERMINATED ==> Gone(s, id)
  {
    Open(s);
  }

  /** In one turn of the loop an exiting process gets one instant older, or is terminated and owns no frame. */
  lemma StepLeaves(s: State, programs: seq<Program>, id: int)
    requires Invariant(s) && id in s.exiting
    ensures var t := Step(s, programs);
      Known(s, id) && if Get(s, id).time <= 0 then Gone(t, id)
      else id in t.exiting && Known(t, id) && Get(t, id).time == Get(s, id).time - 1
  {
    Exiting(s, id);
    SleepsThroughStart(s, id);
    WorkedOnTheWay(s, programs);
    SleepsThroughWork(Started(s), programs, id);
    AgedProcesses(Worked(Started(s), programs));
    StepMoves(s, programs);
    Exiting(Step(s, programs), id);
  }

  /** How many turns of the loop an exiting process has to go. */
  ghost function Remaining(s: State, id: int): nat
    requires Known(s, id)
  {
    if Get(s, id).time > 0 then Get(s, id).time + 1 else 1
  }

  /**
   Whatever the programs do, an exiting process is terminated and owns no frame after one turn more
   than its time says, and not before.
   */
  lemma {:induction false} ExitEnds(states: seq<State>, programs: seq<Program>, id: int)
    requires IsRun(states, programs) && id in states[0].exiting && Known(states[0], id)
    requires |states| > Remaining(states[0], id)
    ensures Gone(states[Remaining(states[0], id)], id)
    ensures forall i :: 0 <= i < Remaining(states[0], id) ==> id in states[i].exiting
    decreases |states|
  {
    LaterRun(states, programs);
    assert FollowsAt(states[0], programs, states[1], 0);
    StepLeaves(states[0], programs, id);
    if Get(states[0], id).time > 0 {
      var later := states[1..];
      ExitEnds(later, programs, id);
      forall i | 0 <= i < Remaining(states[0], id)
        ensures id in states[i].exiting
      {
        assert i > 0 ==> states[i] == later[i - 1];
      }
    }
  }

  /** One of its EXIT_TIME is gone when the turn ends. */
  lemma JustLeft(s: State, programs: seq<Program>, started: State, worked: State, aged: State, t: State, id: int)
    requires TurnsThrough(s, programs, started, worked, aged, t) && Core(t) && Known(worked, id)
    requires var c := Get(worked, id); Faulty(c.status) || (c.status == EXIT && c.time == EXIT_TIME)
    ensures id in t.exiting && Known(t, id) && Get(t, id).time == EXIT_TIME - 1
  {
    assert Get(aged, id) == Older(Get(worked, id)) && Get(t, id) == Get(aged, id);
    Exiting(t, id);
  }

  lemma ExitEndsLater(states: seq<State>, programs: seq<Program>, id: int)
    requires IsRun(states, programs) && |states| > EXIT_TIME + 1
    requires id in states[1].exiting && Known(states[1], id) && Get(states[1], id).time == EXIT_TIME - 1
    ensures Gone(states[EXIT_TIME + 1], id)
    ensures forall i :: 1 <= i <= EXIT_TIME ==> id in states[i].exiting
  {
    LaterRun(states, programs);
    var later := states[1..];
    ExitEnds(later, programs, id);
    assert later[EXIT_TIME] == states[EXIT_TIME + 1] && Remaining(later[0], id) == EXIT_TIME;
    assert forall i :: 1 <= i <= EXIT_TIME ==> states[i] == later[i - 1];
  }

  /** A process that halts or faults in a turn is exiting from then on and terminated EXIT_TIME turns later. */
  lemma LeaverEnds(states: seq<State>, programs: seq<Program>, started: State, worked: State, aged: State, id: int)
    requires IsRun(states, programs) && |states| > EXIT_TIME + 1
    requires TurnsThrough(states[0], programs, started, worked, aged, states[1]) && Known(worked, id)
    requires var c := Get(worked, id); Faulty(c.status) || (c.status == EXIT && c.time == EXIT_TIME)
    ensures Gone(states[EXIT_TIME + 1], id)
    ensures forall i :: 1 <= i <= EXIT_TIME ==> id in states[i].exiting
  {
    EveryInstant(states, programs, 1);
    JustLeft(states[0], programs, started, worked, aged, states[1], id);
    ExitEndsLater(states, programs, id);
  }
}
