/**
 One instant of the round-robin simulator as a function on states, and what its transitions keep.
 */
module Scheduling {
  import opened Totals
  import opened Paging

  const MAX_PROCESSES := 20
  const RUN_QUANTUM := 3
  const NEW_TIME := 2
  const EXIT_TIME := 3

  datatype Status = NEW | READY | RUN | BLOCKED | EXIT | TERMINATED | SIG_ILL | SIG_SEGV | SIG_EOF

  predicate Faulty(status: Status) { status.SIG_ILL? || status.SIG_SEGV? || status.SIG_EOF? }

  /** A process apart from its page table, which is the memory's. */
  datatype Control = Control(status: Status, time: int, current: nat, instructions: seq<int>, addressSpace: nat)

  /** A program: its instructions, and the bytes it may address. */
  datatype Program = Program(instructions: seq<int>, addressSpace: nat)

  /** Process i + 1 is procs[i]; the containers hold process numbers, and running is 0 when nobody runs. */
  datatype State = State(procs: seq<Control>, created: seq<int>, ready: seq<int>, running: int, blocked: seq<int>,
                         exiting: seq<int>, active: int, instant: int, memory: Memory)

  predicate Known(s: State, id: int) { 1 <= id <= |s.procs| }

  function Get(s: State, id: int): Control
    requires Known(s, id)
  {
    s.procs[id - 1]
  }

  function Put(s: State, id: int, c: Control): State
    requires Known(s, id)
  {
    s.(procs := s.procs[id - 1 := c])
  }

  function SetStatus(s: State, id: int, status: Status): State
    requires Known(s, id)
  {
    Put(s, id, Get(s, id).(status := status))
  }

  function SetTime(s: State, id: int, time: int): State
    requires Known(s, id)
  {
    Put(s, id, Get(s, id).(time := time))
  }

  /** The list without its first x. */
  function Delete<T(==)>(list: seq<T>, x: T): seq<T> {
    if list == [] then [] else if list[0] == x then list[1..] else [list[0]] + Delete(list[1..], x)
  }

  // ---------- Transitions ----------

  function Dispatch(s: State): State
    requires s.ready == [] || Known(s, s.ready[0])
  {
    if s.ready == [] then s
    else
      var id := s.ready[0];
      SetTime(SetStatus(s, id, RUN), id, RUN_QUANTUM).(ready := s.ready[1..], running := id)
  }

  function Create(s: State, programs: seq<Program>, number: int): State
    requires number >= 1
  {
    if |s.procs| + 1 > MAX_PROCESSES || number > |programs| then s
    else
      var program := programs[number - 1];
      var table := seq(PageCount(program.addressSpace), _ => EMPTY_FRAME);
      s.(procs := s.procs + [Control(NEW, NEW_TIME, 0, program.instructions, program.addressSpace)],
         created := [|s.procs| + 1] + s.created,
         active := s.active + 1,
         memory := s.memory.(tables := s.memory.tables + [table]))
  }

  function Admit(s: State, id: int): State
    requires Known(s, id)
  {
    SetStatus(s, id, READY).(created := Delete(s.created, id), ready := s.ready + [id])
  }

  function TimeOut(s: State): State
    requires Known(s, s.running)
  {
    SetStatus(s, s.running, READY).(ready := s.ready + [s.running], running := 0)
  }

  function Block(s: State, time: int): State
    requires Known(s, s.running)
  {
    SetTime(SetStatus(s, s.running, BLOCKED), s.running, time).(blocked := [s.running] + s.blocked, running := 0)
  }

  function Unblock(s: State, id: int): State
    requires Known(s, id)
  {
    SetStatus(s, id, READY).(blocked := Delete(s.blocked, id), ready := s.ready + [id])
  }

  function Release(s: State): State
    requires Known(s, s.running)
  {
    SetTime(SetStatus(s, s.running, EXIT), s.running, EXIT_TIME).(exiting := [s.running] + s.exiting, running := 0)
  }

  function Terminate(s: State, id: int): State
    requires Known(s, id) && Paged(s)
  {
    SetStatus(s, id, TERMINATED).(exiting := Delete(s.exiting, id), active := s.active - 1,
                                  memory := ClearFrom(s.memory, id, 0))
  }

  // ---------- Instructions ----------

  datatype InstructionType = HALT | JUMPB | JUMPF | EXEC | IO | LOAD_STORE | SWAP_MEMCPY | ANY

  function TypeOf(instruction: int): InstructionType {
    if instruction < 0 then IO
    else if instruction == 0 then HALT
    else if 1 <= instruction <= 100 then JUMPF
    else if 101 <= instruction <= 199 then JUMPB
    else if 201 <= instruction <= 299 then EXEC
    else if 1000 <= instruction <= 15999 then LOAD_STORE
    else if 1000000000 <= instruction <= 2109999999 then SWAP_MEMCPY
    else ANY
  }

  /** Past the end of its program a process faults, and is given a HALT. */
  function Fetch(s: State): (State, int)
    requires Known(s, s.running)
  {
    var c := Get(s, s.running);
    if c.current >= |c.instructions| then (SetStatus(s, s.running, SIG_EOF), 0)
    else (Put(s, s.running, c.(current := c.current + 1)), c.instructions[c.current])
  }

  function Jump(s: State, jump: int): State
    requires Known(s, s.running)
  {
    var c := Get(s, s.running);
    var target := c.current + jump;
    if target < 0 || target >= |c.instructions| then SetStatus(s, s.running, SIG_ILL)
    else Put(s, s.running, c.(current := target))
  }

  /** Every process has a table of the right size, and the memory is consistent. */
  ghost predicate Paged(s: State) {
    && Consistent(s.memory) && |s.memory.frames| == FRAME_COUNT && |s.memory.tables| == |s.procs|
    && forall i :: 0 <= i < |s.procs| ==> |s.memory.tables[i]| == PageCount(s.procs[i].addressSpace)
  }

  lemma AddressHasPage(s: State, id: int, address: int)
    requires Paged(s) && Known(s, id) && 0 <= address < Get(s, id).addressSpace
    ensures HasPage(s.memory, id, address / FRAME_SIZE)
  {
  }

  function LoadStore(s: State, address: int): State
    requires Paged(s) && Known(s, s.running) && address >= 0
  {
    if address >= Get(s, s.running).addressSpace then SetStatus(s, s.running, SIG_SEGV)
    else
      var page := address / FRAME_SIZE;
      AddressHasPage(s, s.running, address);
      s.(memory := Use(s.memory, s.running, page, Entry(s.memory, s.running, page), s.instant))
  }

  function FirstAddress(instruction: int): int { instruction / 100000 - 10000 }

  function SecondAddress(instruction: int): int { instruction % 100000 }

  function SwapCopy(s: State, instruction: int): State
    requires Paged(s) && Known(s, s.running) && TypeOf(instruction).SWAP_MEMCPY?
  {
    var address1, address2 := FirstAddress(instruction), SecondAddress(instruction);
    var space := Get(s, s.running).addressSpace;
    if address1 >= space || address2 >= space then SetStatus(s, s.running, SIG_SEGV)
    else
      AddressHasPage(s, s.running, address1);
      AddressHasPage(s, s.running, address2);
      s.(memory := UseBoth(s.memory, s.running, address1 / FRAME_SIZE, address2 / FRAME_SIZE, s.instant))
  }

  function Execute(s: State, programs: seq<Program>, instruction: int): State
    requires Paged(s) && Known(s, s.running)
  {
    match TypeOf(instruction)
    case JUMPB => Jump(s, -(instruction - 99))
    case JUMPF => Jump(s, instruction % 100 - 1)
    case LOAD_STORE => LoadStore(s, instruction - 1000)
    case SWAP_MEMCPY => SwapCopy(s, instruction)
    case EXEC => Create(s, programs, instruction - 200)
    case IO => Block(s, -instruction)
    case HALT => Release(s)
    case ANY => s
  }

  // ---------- The passing of time ----------

  function TickBlocked(s: State, id: int): State
    requires Known(s, id)
  {
    var t := SetTime(s, id, Get(s, id).time - 1);
    if Get(t, id).time < 0 then Unblock(t, id) else t
  }

  function TickCreated(s: State, id: int): State
    requires Known(s, id)
  {
    var t := SetTime(s, id, Get(s, id).time - 1);
    if Get(t, id).time == 0 then Admit(t, id) else t
  }

  function TickRunning(s: State): State
    requires s.running == 0 || Known(s, s.running)
  {
    if s.running == 0 then s
    else
      var t := SetTime(s, s.running, Get(s, s.running).time - 1);
      if Faulty(Get(t, t.running).status) then Release(t)
      else if Get(t, t.running).time == 0 then TimeOut(t)
      else t
  }

  function TickExiting(s: State, id: int): State
    requires Known(s, id) && Paged(s)
  {
    var t := SetTime(s, id, Get(s, id).time - 1);
    if Get(t, id).time < 0 then Terminate(t, id) else t
  }

  predicate AllKnown(s: State, ids: seq<int>) { forall i :: 0 <= i < |ids| ==> Known(s, ids[i]) }

  /** The walks visit the list as it was when they started: the next position is read before a deletion. */
  function WalkBlocked(s: State, ids: seq<int>): (t: State)
    requires AllKnown(s, ids)
    decreases |ids|
  {
    if ids == [] then s else WalkBlocked(TickBlocked(s, ids[0]), ids[1..])
  }

  function WalkCreated(s: State, ids: seq<int>): State
    requires AllKnown(s, ids)
    decreases |ids|
  {
    if ids == [] then s else WalkCreated(TickCreated(s, ids[0]), ids[1..])
  }

  lemma TickExitingPaged(s: State, id: int)
    requires Known(s, id) && Paged(s)
    ensures Paged(TickExiting(s, id)) && |TickExiting(s, id).procs| == |s.procs|
  {
    ClearKeeps(s.memory, id, 0);
  }

  function WalkExiting(s: State, ids: seq<int>): State
    requires AllKnown(s, ids) && Paged(s)
    decreases |ids|
  {
    if ids == [] then s
    else
      TickExitingPaged(s, ids[0]);
      WalkExiting(TickExiting(s, ids[0]), ids[1..])
  }

  // ---------- What every run keeps ----------

  /** The list holds exactly the processes of this status, once each. */
  ghost predicate Holds(s: State, list: seq<int>, status: Status) {
    && NoDuplicates(list)
    && forall id :: id in list <==> Known(s, id) && Get(s, id).status == status
  }

  predicate OnProcessor(status: Status) { status.RUN? || Faulty(status) }

  /** Every process sits in exactly the one container its state names. */
  ghost predicate Placed(s: State) {
    && Holds(s, s.created, NEW) && Holds(s, s.ready, READY) && Holds(s, s.blocked, BLOCKED) && Holds(s, s.exiting, EXIT)
    && (s.running != 0 ==> Known(s, s.running))
    && (forall id :: Known(s, id) ==> (OnProcessor(Get(s, id).status) <==> id == s.running))
  }

  function Alive(procs: seq<Control>): nat {
    if procs == [] then 0
    else Alive(procs[..|procs| - 1]) + if procs[|procs| - 1].status.TERMINATED? then 0 else 1
  }

  /** Terminated processes own no frame. */
  ghost predicate Cleared(s: State) {
    forall p, q {:trigger HasPage(s.memory, p, q)} :: HasPage(s.memory, p, q) && Known(s, p) ==>
      Get(s, p).status.TERMINATED? ==> Entry(s.memory, p, q) == EMPTY_FRAME
  }

  ghost predicate Facts(s: State) {
    && Placed(s) && Paged(s) && Cleared(s)
    && s.active == Alive(s.procs) && |s.procs| <= MAX_PROCESSES
  }

  /** The facts every step keeps, quantified over a dummy so that they are unfolded only where Open asks for them. */
  ghost predicate Core(s: State) {
    forall k: nat :: FactsAt(s, k)
  }

  ghost predicate FactsAt(s: State, k: nat) {
    var facts := Facts(s);
    facts
  }

  lemma Open(s: State)
    requires Core(s)
    ensures Facts(s)
  {
    assert FactsAt(s, 0);
  }

  lemma {:induction false} DeleteOne(list: seq<int>, x: int)
    requires NoDuplicates(list)
    ensures NoDuplicates(Delete(list, x))
    ensures forall y :: y in Delete(list, x) <==> y in list && y != x
  {
    if list != [] {
      FrontLeaves(list);
      if list[0] != x {
        DeleteOne(list[1..], x);
        var rest := Delete(list[1..], x);
        assert list[0] !in rest && Delete(list, x) == [list[0]] + rest;
        forall j | 0 <= j < |rest|
          ensures rest[j] != list[0]
        {
          assert rest[j] in rest;
        }
      }
    }
  }

  lemma {:induction false} AliveUpdate(procs: seq<Control>, i: nat, c: Control)
    requires i < |procs|
    ensures Alive(procs[i := c]) == Alive(procs) + (if procs[i].status.TERMINATED? then 1 else 0)
                                                 - (if c.status.TERMINATED? then 1 else 0)
  {
    var n := |procs| - 1;
    if i < n {
      AliveUpdate(procs[..n], i, c);
      assert procs[i := c][..n] == procs[..n][i := c];
    } else {
      assert procs[i := c][..n] == procs[..n];
    }
  }

  /** From s to t only process id changed, and not its size. */
  ghost predicate Changed(s: State, t: State, id: int) {
    && Known(s, id) && |t.procs| == |s.procs|
    && Get(t, id).addressSpace == Get(s, id).addressSpace
    && forall i :: 0 <= i < |s.procs| && i != id - 1 ==> t.procs[i] == s.procs[i]
  }

  lemma ListKept(s: State, t: State, id: int, list: seq<int>, status: Status)
    requires Changed(s, t, id) && Holds(s, list, status)
    requires Get(s, id).status == status <==> Get(t, id).status == status
    ensures Holds(t, list, status)
  {
    forall x
      ensures x in list <==> Known(t, x) && Get(t, x).status == status
    {
      assert x in list <==> Known(s, x) && Get(s, x).status == status;
    }
  }

  lemma ListLoses(s: State, t: State, id: int, list: seq<int>, list': seq<int>, status: Status)
    requires Changed(s, t, id) && Holds(s, list, status) && Get(t, id).status != status
    requires NoDuplicates(list') && forall x :: x in list' <==> x in list && x != id
    ensures Holds(t, list', status)
  {
    forall x
      ensures x in list' <==> Known(t, x) && Get(t, x).status == status
    {
      assert x in list <==> Known(s, x) && Get(s, x).status == status;
    }
  }

  lemma ListGains(s: State, t: State, id: int, list: seq<int>, list': seq<int>, status: Status)
    requires Changed(s, t, id) && Holds(s, list, status) && Get(s, id).status != status && Get(t, id).status == status
    requires list' == [id] + list || list' == list + [id]
    ensures Holds(t, list', status)
  {
    assert id !in list;
    forall x
      ensures x in list' <==> Known(t, x) && Get(t, x).status == status
    {
      assert x in list <==> Known(s, x) && Get(s, x).status == status;
    }
  }

  /** A change of place alone keeps the rest of the invariant. */
  lemma CoreFromPlaces(s: State, t: State, id: int)
    requires Core(s) && Changed(s, t, id) && Placed(t) && t.memory == s.memory && t.active == s.active
    requires !Get(s, id).status.TERMINATED? && !Get(t, id).status.TERMINATED?
    ensures Core(t)
  {
    Open(s);
    AliveUpdate(s.procs, id - 1, Get(t, id));
    assert t.procs == s.procs[id - 1 := Get(t, id)];
  }

  lemma AdmitKeeps(s: State, id: int)
    requires Core(s) && id in s.created
    ensures Known(s, id) && Core(Admit(s, id))
  {
    Open(s);
    var t := Admit(s, id);
    DeleteOne(s.created, id);
    ListLoses(s, t, id, s.created, t.created, NEW);
    ListGains(s, t, id, s.ready, t.ready, READY);
    ListKept(s, t, id, s.blocked, BLOCKED);
    ListKept(s, t, id, s.exiting, EXIT);
    CoreFromPlaces(s, t, id);
  }

  lemma UnblockKeeps(s: State, id: int)
    requires Core(s) && id in s.blocked
    ensures Known(s, id) && Core(Unblock(s, id))
  {
    Open(s);
    var t := Unblock(s, id);
    DeleteOne(s.blocked, id);
    ListLoses(s, t, id, s.blocked, t.blocked, BLOCKED);
    ListGains(s, t, id, s.ready, t.ready, READY);
    ListKept(s, t, id, s.created, NEW);
    ListKept(s, t, id, s.exiting, EXIT);
    CoreFromPlaces(s, t, id);
  }

  lemma DispatchKeeps(s: State)
    requires Core(s) && s.running == 0 && s.ready != []
    ensures Known(s, s.ready[0]) && Core(Dispatch(s))
  {
    Open(s);
    var id := s.ready[0];
    assert id in s.ready;
    var t := Dispatch(s);
    FrontLeaves(s.ready);
    ListLoses(s, t, id, s.ready, t.ready, READY);
    ListKept(s, t, id, s.created, NEW);
    ListKept(s, t, id, s.blocked, BLOCKED);
    ListKept(s, t, id, s.exiting, EXIT);
    CoreFromPlaces(s, t, id);
  }

  lemma TimeOutKeeps(s: State)
    requires Core(s) && Known(s, s.running)
    ensures Core(TimeOut(s))
  {
    Open(s);
    var t := TimeOut(s);
    ListGains(s, t, s.running, s.ready, t.ready, READY);
    ListKept(s, t, s.running, s.created, NEW);
    ListKept(s, t, s.running, s.blocked, BLOCKED);
    ListKept(s, t, s.running, s.exiting, EXIT);
    CoreFromPlaces(s, t, s.running);
  }

  lemma BlockKeeps(s: State, time: int)
    requires Core(s) && Known(s, s.running)
    ensures Core(Block(s, time))
  {
    Open(s);
    var t := Block(s, time);
    ListGains(s, t, s.running, s.blocked, t.blocked, BLOCKED);
    ListKept(s, t, s.running, s.created, NEW);
    ListKept(s, t, s.running, s.ready, READY);
    ListKept(s, t, s.running, s.exiting, EXIT);
    CoreFromPlaces(s, t, s.running);
  }

  lemma ReleaseKeeps(s: State)
    requires Core(s) && Known(s, s.running)
    ensures Core(Release(s))
  {
    Open(s);
    var t := Release(s);
    ListGains(s, t, s.running, s.exiting, t.exiting, EXIT);
    ListKept(s, t, s.running, s.created, NEW);
    ListKept(s, t, s.running, s.ready, READY);
    ListKept(s, t, s.running, s.blocked, BLOCKED);
    CoreFromPlaces(s, t, s.running);
  }

  lemma InPlacePlaces(s: State, id: int, c: Control)
    requires Placed(s) && Known(s, id) && c.addressSpace == Get(s, id).addressSpace
    requires c.status == Get(s, id).status || (OnProcessor(c.status) && OnProcessor(Get(s, id).status))
    ensures Placed(Put(s, id, c))
  {
    var t := Put(s, id, c);
    ListKept(s, t, id, s.created, NEW);
    ListKept(s, t, id, s.ready, READY);
    ListKept(s, t, id, s.blocked, BLOCKED);
    ListKept(s, t, id, s.exiting, EXIT);
  }

  /** A change that moves nobody: a clock, an instruction pointer, or a fault of the running process. */
  lemma InPlaceKeeps(s: State, id: int, c: Control)
    requires Core(s) && Known(s, id) && c.addressSpace == Get(s, id).addressSpace
    requires c.status == Get(s, id).status || (OnProcessor(c.status) && OnProcessor(Get(s, id).status))
    ensures Core(Put(s, id, c))
  {
    Open(s);
    InPlacePlaces(s, id, c);
    AliveUpdate(s.procs, id - 1, c);
  }

  lemma ClockKeeps(s: State, id: int, time: int)
    requires Core(s) && Known(s, id)
    ensures Core(SetTime(s, id, time))
  {
    Open(s);
    InPlaceKeeps(s, id, Get(s, id).(time := time));
  }

  lemma FaultKeeps(s: State, status: Status)
    requires Core(s) && Known(s, s.running) && Faulty(status)
    ensures Core(SetStatus(s, s.running, status))
  {
    Open(s);
    InPlaceKeeps(s, s.running, Get(s, s.running).(status := status));
  }

  lemma TerminatePlaces(s: State, id: int)
    requires Core(s) && id in s.exiting
    ensures Known(s, id) && Paged(s) && Placed(Terminate(s, id))
  {
    Open(s);
    var t := Terminate(s, id);
    DeleteOne(s.exiting, id);
    ListLoses(s, t, id, s.exiting, t.exiting, EXIT);
    ListKept(s, t, id, s.created, NEW);
    ListKept(s, t, id, s.ready, READY);
    ListKept(s, t, id, s.blocked, BLOCKED);
  }

  lemma TerminateKeeps(s: State, id: int)
    requires Core(s) && id in s.exiting
    ensures Known(s, id) && Paged(s) && Core(Terminate(s, id))
  {
    Open(s);
    var t := Terminate(s, id);
    TerminatePlaces(s, id);
    AliveUpdate(s.procs, id - 1, Get(t, id));
    ClearKeeps(s.memory, id, 0);
    TerminateClears(s, id);
  }

  lemma TerminateClears(s: State, id: int)
    requires Core(s) && Known(s, id)
    ensures Paged(s) && Cleared(Terminate(s, id)) && Paged(Terminate(s, id))
  {
    Open(s);
    var t := Terminate(s, id);
    ClearKeeps(s.memory, id, 0);
    assert forall p, q {:trigger HasPage(t.memory, p, q)} :: HasPage(t.memory, p, q) ==> HasPage(s.memory, p, q);
  }

  /** Using memory keeps everything: no page but the running process's comes in. */
  lemma MemoryKeeps(s: State, m: Memory)
    requires Core(s) && Known(s, s.running) && Consistent(m) && SameShape(s.memory, m)
    requires NoNewPage(s.memory, m, s.running)
    ensures Core(s.(memory := m))
  {
    Open(s);
    var t := s.(memory := m);
    assert forall p, q {:trigger HasPage(m, p, q)} :: HasPage(m, p, q) ==> HasPage(s.memory, p, q);
    assert Placed(t);
  }

  lemma LoadStoreKeeps(s: State, address: int)
    requires Core(s) && Known(s, s.running) && address >= 0
    ensures Paged(s) && Core(LoadStore(s, address))
  {
    Open(s);
    var c := Get(s, s.running);
    if address >= c.addressSpace {
      FaultKeeps(s, SIG_SEGV);
    } else {
      var page := address / FRAME_SIZE;
      AddressHasPage(s, s.running, address);
      UseKeeps(s.memory, s.running, page, s.instant);
      UseBringsNoOther(s.memory, s.running, page, Entry(s.memory, s.running, page), s.instant);
      MemoryKeeps(s, LoadStore(s, address).memory);
    }
  }

  lemma SwapCopyKeeps(s: State, instruction: int)
    requires Core(s) && Known(s, s.running) && TypeOf(instruction).SWAP_MEMCPY?
    ensures Paged(s) && Core(SwapCopy(s, instruction))
  {
    Open(s);
    var c := Get(s, s.running);
    var address1, address2 := FirstAddress(instruction), SecondAddress(instruction);
    if address1 >= c.addressSpace || address2 >= c.addressSpace {
      FaultKeeps(s, SIG_SEGV);
    } else {
      AddressHasPage(s, s.running, address1);
      AddressHasPage(s, s.running, address2);
      UseBothKeeps(s.memory, s.running, address1 / FRAME_SIZE, address2 / FRAME_SIZE, s.instant);
      UseBothBringsNoOther(s.memory, s.running, address1 / FRAME_SIZE, address2 / FRAME_SIZE, s.instant);
      MemoryKeeps(s, SwapCopy(s, instruction).memory);
    }
  }

  lemma CreateKeeps(s: State, programs: seq<Program>, number: int)
    requires Core(s) && number >= 1
    ensures Core(Create(s, programs, number))
  {
    Open(s);
    if |s.procs| + 1 <= MAX_PROCESSES && number <= |programs| {
      var t := Create(s, programs, number);
      CreatePlaces(s, programs, number);
      assert t.procs[..|s.procs|] == s.procs;
      NewTable(s.memory, t.memory.tables[|s.procs|]);
    }
  }

  lemma CreatePlaces(s: State, programs: seq<Program>, number: int)
    requires Core(s) && number >= 1 && |s.procs| + 1 <= MAX_PROCESSES && number <= |programs|
    ensures Placed(Create(s, programs, number))
  {
    Open(s);
    var t := Create(s, programs, number);
    var id := |s.procs| + 1;
    assert id !in s.created;
    forall x
      ensures x in t.created <==> Known(t, x) && Get(t, x).status.NEW?
    {
      assert x in s.created <==> Known(s, x) && Get(s, x).status.NEW?;
    }
    NewcomerElsewhere(s, t, s.ready, READY);
    NewcomerElsewhere(s, t, s.blocked, BLOCKED);
    NewcomerElsewhere(s, t, s.exiting, EXIT);
  }

  lemma NewcomerElsewhere(s: State, t: State, list: seq<int>, status: Status)
    requires Holds(s, list, status) && |t.procs| == |s.procs| + 1 && t.procs[..|s.procs|] == s.procs
    requires t.procs[|s.procs|].status != status
    ensures Holds(t, list, status)
  {
    forall x
      ensures x in list <==> Known(t, x) && Get(t, x).status == status
    {
      assert x in list <==> Known(s, x) && Get(s, x).status == status;
      assert Known(s, x) ==> t.procs[..|s.procs|][x - 1] == s.procs[x - 1];
    }
  }

  // ---------- One instant ----------

  lemma FetchKeeps(s: State)
    requires Core(s) && Known(s, s.running)
    ensures Core(Fetch(s).0) && Fetch(s).0.running == s.running
  {
    Open(s);
    var c := Get(s, s.running);
    if c.current >= |c.instructions| {
      FaultKeeps(s, SIG_EOF);
    } else {
      InPlaceKeeps(s, s.running, c.(current := c.current + 1));
    }
  }

  lemma ExecuteKeeps(s: State, programs: seq<Program>, instruction: int)
    requires Core(s) && Known(s, s.running)
    ensures Paged(s) && Core(Execute(s, programs, instruction))
  {
    Open(s);
    var c := Get(s, s.running);
    match TypeOf(instruction)
    case JUMPB => JumpKeeps(s, -(instruction - 99));
    case JUMPF => JumpKeeps(s, instruction % 100 - 1);
    case LOAD_STORE => LoadStoreKeeps(s, instruction - 1000);
    case SWAP_MEMCPY => SwapCopyKeeps(s, instruction);
    case EXEC => CreateKeeps(s, programs, instruction - 200);
    case IO => BlockKeeps(s, -instruction);
    case HALT => ReleaseKeeps(s);
    case ANY =>
  }

  lemma JumpKeeps(s: State, jump: int)
    requires Core(s) && Known(s, s.running)
    ensures Core(Jump(s, jump))
  {
    Open(s);
    var c := Get(s, s.running);
    var target := c.current + jump;
    if target < 0 || target >= |c.instructions| {
      FaultKeeps(s, SIG_ILL);
    } else {
      InPlaceKeeps(s, s.running, c.(current := target));
    }
  }

  lemma {:induction false} WalkBlockedKeeps(s: State, ids: seq<int>)
    requires Core(s) && NoDuplicates(ids) && forall x :: x in ids ==> x in s.blocked
    ensures AllKnown(s, ids) && Core(WalkBlocked(s, ids))
    decreases |ids|
  {
    Open(s);
    AllListed(s, ids, s.blocked, BLOCKED);
    if ids != [] {
      var id := ids[0];
      var t := SetTime(s, id, Get(s, id).time - 1);
      ClockKeeps(s, id, Get(s, id).time - 1);
      if Get(t, id).time < 0 {
        UnblockKeeps(t, id);
        DeleteOne(t.blocked, id);
      }
      FrontLeaves(ids);
      WalkBlockedKeeps(TickBlocked(s, id), ids[1..]);
    }
  }

  lemma AllListed(s: State, ids: seq<int>, list: seq<int>, status: Status)
    requires Holds(s, list, status) && forall x :: x in ids ==> x in list
    ensures AllKnown(s, ids)
  {
    forall i | 0 <= i < |ids|
      ensures Known(s, ids[i])
    {
      assert ids[i] in ids;
    }
  }

  lemma {:induction false} WalkCreatedKeeps(s: State, ids: seq<int>)
    requires Core(s) && NoDuplicates(ids) && forall x :: x in ids ==> x in s.created
    ensures AllKnown(s, ids) && Core(WalkCreated(s, ids))
    decreases |ids|
  {
    Open(s);
    AllListed(s, ids, s.created, NEW);
    if ids != [] {
      var id := ids[0];
      var t := SetTime(s, id, Get(s, id).time - 1);
      ClockKeeps(s, id, Get(s, id).time - 1);
      if Get(t, id).time == 0 {
        AdmitKeeps(t, id);
        DeleteOne(t.created, id);
      }
      FrontLeaves(ids);
      WalkCreatedKeeps(TickCreated(s, id), ids[1..]);
    }
  }

  lemma TickRunningKeeps(s: State)
    requires Core(s)
    ensures (s.running != 0 ==> Known(s, s.running)) && Core(TickRunning(s))
  {
    Open(s);
    if s.running != 0 {
      var t := SetTime(s, s.running, Get(s, s.running).time - 1);
      ClockKeeps(s, s.running, Get(s, s.running).time - 1);
      if Faulty(Get(t, t.running).status) {
        ReleaseKeeps(t);
      } else if Get(t, t.running).time == 0 {
        TimeOutKeeps(t);
      }
    }
  }

  lemma {:induction false} WalkExitingKeeps(s: State, ids: seq<int>)
    requires Core(s) && NoDuplicates(ids) && forall x :: x in ids ==> x in s.exiting
    ensures AllKnown(s, ids) && Paged(s) && Core(WalkExiting(s, ids))
    decreases |ids|
  {
    Open(s);
    AllListed(s, ids, s.exiting, EXIT);
    if ids != [] {
      var id := ids[0];
      var t := SetTime(s, id, Get(s, id).time - 1);
      ClockKeeps(s, id, Get(s, id).time - 1);
      if Get(t, id).time < 0 {
        TerminateKeeps(t, id);
        DeleteOne(t.exiting, id);
      }
      FrontLeaves(ids);
      TickExitingPaged(s, id);
      WalkExitingKeeps(TickExiting(s, id), ids[1..]);
    }
  }

  /** The process on the processor after the dispatcher has had its chance. */
  function Started(s: State): State
    requires Core(s)
  {
    Open(s);
    if s.running == 0 && s.ready != [] then DispatchKeeps(s); Dispatch(s) else s
  }

  lemma StartedKeeps(s: State)
    requires Core(s)
    ensures Core(Started(s))
  {
    if s.running == 0 && s.ready != [] {
      DispatchKeeps(s);
    }
  }

  /** The running process, if any, fetches and executes one instruction. */
  function Worked(s: State, programs: seq<Program>): State
    requires Core(s)
  {
    Open(s);
    if s.running == 0 then s
    else
      FetchKeeps(s);
      Open(Fetch(s).0);
      Execute(Fetch(s).0, programs, Fetch(s).1)
  }

  lemma WorkedKeeps(s: State, programs: seq<Program>)
    requires Core(s)
    ensures Core(Worked(s, programs))
  {
    Open(s);
    if s.running != 0 {
      FetchKeeps(s);
      Open(Fetch(s).0);
      ExecuteKeeps(Fetch(s).0, programs, Fetch(s).1);
    }
  }

  function BlockedAged(s: State): State
    requires Core(s)
  {
    Open(s);
    WalkBlockedKeeps(s, s.blocked);
    WalkBlocked(s, s.blocked)
  }

  function CreatedAged(s: State): State
    requires Core(s)
  {
    Open(s);
    WalkCreatedKeeps(s, s.created);
    WalkCreated(s, s.created)
  }

  function ExitingAged(s: State): State
    requires Core(s)
  {
    Open(s);
    WalkExitingKeeps(s, s.exiting);
    WalkExiting(s, s.exiting)
  }

  lemma AgedKeeps(s: State)
    requires Core(s)
    ensures Core(BlockedAged(s)) && Core(CreatedAged(s)) && Core(ExitingAged(s))
  {
    Open(s);
    WalkBlockedKeeps(s, s.blocked);
    WalkCreatedKeeps(s, s.created);
    WalkExitingKeeps(s, s.exiting);
  }

  /** The four passes over the clocks, in the order they are made. */
  function Aged(s: State): State
    requires Core(s)
  {
    AgedKeeps(s);
    AgedKeeps(BlockedAged(s));
    TickRunningKeeps(CreatedAged(BlockedAged(s)));
    ExitingAged(TickRunning(CreatedAged(BlockedAged(s))))
  }

  function Step(s: State, programs: seq<Program>): State
    requires Core(s)
  {
    StartedKeeps(s);
    WorkedKeeps(Started(s), programs);
    var t := Aged(Worked(Started(s), programs));
    t.(instant := t.instant + 1)
  }
}
