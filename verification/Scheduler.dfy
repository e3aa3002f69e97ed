/**
 The scheduler as the program has it: process objects shared by the lists, the ready queue and the
 table of processes, and frames overwritten in place. Every method is proved to do what the
 corresponding function on states says.
 */
module Scheduler {
  import opened Paging
  import Model = Scheduling
  import Instructions
  import opened SchedulingRuns

  const MAX_INSTANTS := 100

  class Process {
    const id: int
    const instructions: seq<int>
    const addressSpace: nat
    var state: Model.Status
    var currentInstruction: nat
    var time: int
    var pageTable: seq<int>

    ghost predicate Matches(c: Model.Control, table: seq<int>)
      reads this
    {
      && c == Model.Control(state, time, currentInstruction, instructions, addressSpace)
      && pageTable == table
    }

    constructor (id: int, instructions: seq<int>, addressSpace: nat)
      ensures this.id == id
      ensures Matches(Model.Control(Model.NEW, 0, 0, instructions, addressSpace),
                      seq(PageCount(addressSpace), _ => EMPTY_FRAME))
    {
      this.id := id;
      this.instructions := instructions;
      this.addressSpace := addressSpace;
      state, currentInstruction, time := Model.NEW, 0, 0;
      pageTable := seq(PageCount(addressSpace), _ => EMPTY_FRAME);
    }
  }

  /** Every stamp is below the value the search for the oldest frame starts from. */
  ghost predicate Replaceable(m: Memory) {
    // one expression, so that the verifier need not prove its parts one by one
    var bounded := Consistent(m) && UsedBefore(m, INT_MAX);
    bounded
  }

  /**
   The list of processes with these numbers; behind a dummy quantifier, so that it is unfolded only
   where asked for.
   */
  ghost predicate Refers(processes: seq<Process>, list: seq<Process>, ids: seq<int>) {
    |list| == |ids| && forall k: nat :: RefersAt(processes, list, ids, k)
  }

  ghost predicate RefersAt(processes: seq<Process>, list: seq<Process>, ids: seq<int>, k: nat) {
    |list| == |ids| && Numbered(processes) &&
    forall i :: 0 <= i < |list| ==> 1 <= ids[i] <= |processes| && list[i] == processes[ids[i] - 1]
  }

  ghost predicate Numbered(processes: seq<Process>) {
    forall i :: 0 <= i < |processes| ==> processes[i].id == i + 1
  }

  ghost predicate InTable(processes: seq<Process>, p: Process) { 1 <= p.id <= |processes| && processes[p.id - 1] == p }

  lemma RefersFront(processes: seq<Process>, list: seq<Process>, ids: seq<int>)
    requires Refers(processes, list, ids) && list != []
    ensures list[0].id == ids[0] && InTable(processes, list[0])
    ensures Refers(processes, list[1..], ids[1..])
  {
    assert RefersAt(processes, list, ids, 0);
    assert processes[ids[0] - 1] == list[0];
  }

  lemma {:induction false} DeleteRefers(processes: seq<Process>, list: seq<Process>, ids: seq<int>, p: Process)
    requires Refers(processes, list, ids) && InTable(processes, p)
    ensures Refers(processes, Model.Delete(list, p), Model.Delete(ids, p.id))
  {
    assert RefersAt(processes, list, ids, 0);
    if list != [] && list[0] != p {
      RefersFront(processes, list, ids);
      DeleteRefers(processes, list[1..], ids[1..], p);
      RefersFirst(processes, Model.Delete(list[1..], p), Model.Delete(ids[1..], p.id), list[0]);
    } else if list != [] {
      RefersFront(processes, list, ids);
    }
  }

  lemma RefersFirst(processes: seq<Process>, list: seq<Process>, ids: seq<int>, p: Process)
    requires Refers(processes, list, ids) && InTable(processes, p)
    ensures Refers(processes, [p] + list, [p.id] + ids)
  {
    assert RefersAt(processes, list, ids, 0);
  }

  lemma RefersLast(processes: seq<Process>, list: seq<Process>, ids: seq<int>, p: Process)
    requires Refers(processes, list, ids) && InTable(processes, p)
    ensures Refers(processes, list + [p], ids + [p.id])
  {
    assert RefersAt(processes, list, ids, 0);
  }

  lemma RefersMore(processes: seq<Process>, p: Process, list: seq<Process>, ids: seq<int>)
    requires Refers(processes, list, ids) && p.id == |processes| + 1
    ensures Refers(processes + [p], list, ids)
  {
    assert RefersAt(processes, list, ids, 0);
  }

  class Scheduler {
    const programs: seq<Model.Program>
    const frames: array<Frame>
    var created: seq<Process>
    var ready: seq<Process>
    var runningProcess: Process?
    var blocked: seq<Process>
    var exiting: seq<Process>
    var instantTime: int
    var nActiveProcesses: int
    var processes: seq<Process>
    ghost var state: Model.State

    ghost predicate Valid()
      reads this, processes, frames
    {
      // one expression, so that the verifier need not prove its parts one by one
      var valid := Shape() && forall k: nat :: DetailsAt(k);
      valid
    }

    ghost predicate Shape()
      reads this
    {
      && |processes| == |state.procs| == |state.memory.tables|
      && frames.Length == |state.memory.frames| == FRAME_COUNT
      && instantTime == state.instant && nActiveProcesses == state.active
      && (runningProcess == null <==> state.running == 0)
      && (runningProcess != null ==> Registered(runningProcess) && runningProcess.id == state.running)
    }

    /** The contents, quantified over a dummy so that they are unfolded only where Unfold asks for them. */
    ghost predicate DetailsAt(k: nat)
      reads this, processes, frames
    {
      // one expression, so that the verifier need not prove its parts one by one
      var details := Objects() && Containers();
      details
    }

    lemma Unfold()
      requires Valid()
      ensures Objects() && Containers()
    {
      assert DetailsAt(0);
    }

    lemma ListKnown(list: seq<Process>, ids: seq<int>)
      requires Valid() && Refers(processes, list, ids)
      ensures Model.AllKnown(state, ids)
    {
      assert RefersAt(processes, list, ids, 0);
    }

    lemma RunningFacts()
      requires Valid() && runningProcess != null
      ensures Model.Known(state, state.running)
        && runningProcess.addressSpace == Model.Get(state, state.running).addressSpace
      ensures runningProcess.pageTable == state.memory.tables[state.running - 1]
    {
      Unfold();
    }

    ghost predicate Objects()
      reads this, processes, frames
    {
      && |processes| == |state.procs| == |state.memory.tables| && Numbered(processes)
      && (forall i :: 0 <= i < |processes| ==> processes[i].Matches(state.procs[i], state.memory.tables[i]))
      && frames[..] == state.memory.frames
    }

    ghost predicate Containers()
      reads this
    {
      && Refers(processes, created, state.created) && Refers(processes, ready, state.ready)
      && Refers(processes, blocked, state.blocked) && Refers(processes, exiting, state.exiting)
    }

    ghost predicate Registered(p: Process)
      reads this
    {
      InTable(processes, p)
    }

    method Dispatch()
      requires Valid()
      modifies this, processes
      ensures Valid() && processes == old(processes)
      ensures old(state).ready != [] ==> Model.Known(old(state), old(state).ready[0])
      ensures state == Model.Dispatch(old(state))
    {
      Unfold();
      if ready == [] {
        return;
      }
      RefersFront(processes, ready, state.ready);
      var process := ready[0];
      ready := ready[1..];
      process.state := Model.RUN;
      process.time := Model.RUN_QUANTUM;
      runningProcess := process;
      state := Model.Dispatch(state);
    }

    method TimeOut()
      requires Valid() && runningProcess != null
      modifies this, processes
      ensures Valid() && processes == old(processes)
      ensures Model.Known(old(state), old(state).running) && state == Model.TimeOut(old(state))
    {
      Unfold();
      var process := runningProcess;
      RefersLast(processes, ready, state.ready, process);
      process.state := Model.READY;
      ready := ready + [process];
      runningProcess := null;
      state := Model.TimeOut(state);
    }

    method Block(time: int)
      requires Valid() && runningProcess != null
      modifies this, processes
      ensures Valid() && processes == old(processes)
      ensures Model.Known(old(state), old(state).running) && state == Model.Block(old(state), time)
    {
      Unfold();
      var process := runningProcess;
      RefersFirst(processes, blocked, state.blocked, process);
      process.state := Model.BLOCKED;
      process.time := time;
      blocked := [process] + blocked;
      runningProcess := null;
      state := Model.Block(state, time);
    }

    method Release()
      requires Valid() && runningProcess != null
      modifies this, processes
      ensures Valid() && processes == old(processes)
      ensures Model.Known(old(state), old(state).running) && state == Model.Release(old(state))
    {
      Unfold();
      var process := runningProcess;
      RefersFirst(processes, exiting, state.exiting, process);
      process.state := Model.EXIT;
      process.time := Model.EXIT_TIME;
      exiting := [process] + exiting;
      runningProcess := null;
      state := Model.Release(state);
    }

    method Admit(process: Process)
      requires Valid() && Registered(process)
      modifies this, process
      ensures Valid() && processes == old(processes)
      ensures state == Model.Admit(old(state), process.id)
    {
      Unfold();
      DeleteRefers(processes, created, state.created, process);
      RefersLast(processes, ready, state.ready, process);
      created := Remove(process, created);
      process.state := Model.READY;
      ready := ready + [process];
      state := Model.Admit(state, process.id);
    }

    method Unblock(process: Process)
      requires Valid() && Registered(process)
      modifies this, process
      ensures Valid() && processes == old(processes)
      ensures state == Model.Unblock(old(state), process.id)
    {
      Unfold();
      DeleteRefers(processes, blocked, state.blocked, process);
      RefersLast(processes, ready, state.ready, process);
      blocked := Remove(process, blocked);
      process.state := Model.READY;
      ready := ready + [process];
      state := Model.Unblock(state, process.id);
    }

    constructor (programs: seq<Model.Program>)
      ensures Valid() && this.programs == programs && state == Bare() && fresh(frames) && processes == []
    {
      this.programs := programs;
      created, ready, runningProcess, blocked, exiting := [], [], null, [], [];
      instantTime, nActiveProcesses, processes := 1, 0, [];
      frames := new Frame[FRAME_COUNT](_ => FREE);
      state := Bare();
    }

    /** A new process, unless the table is full or there is no such program. */
    method New(programNumber: int)
      requires Valid() && programNumber >= 1
      modifies this
      ensures Valid() && old(processes) <= processes
      ensures forall i :: |old(processes)| <= i < |processes| ==> fresh(processes[i])
      ensures state == Model.Create(old(state), programs, programNumber)
    {
      Unfold();
      if |processes| + 1 > Model.MAX_PROCESSES {
        return;
      }
      if programNumber > |programs| {
        return;
      }
      var program := programs[programNumber - 1];
      var process := new Process(|processes| + 1, program.instructions, program.addressSpace);
      RefersMore(processes, process, created, state.created);
      RefersMore(processes, process, ready, state.ready);
      RefersMore(processes, process, blocked, state.blocked);
      RefersMore(processes, process, exiting, state.exiting);
      RefersFirst(processes + [process], created, state.created, process);
      processes := processes + [process];
      nActiveProcesses := nActiveProcesses + 1;
      process.time := Model.NEW_TIME;
      created := [process] + created;
      state := Model.Create(state, programs, programNumber);
    }

    // ---------- Memory ----------

    /** The evicted page and the one coming in may belong to the same process. */
    method UpdateFrameRemove(processToUpdate: Process, removedFrame: int, currentProcess: Process, pageNumber: int)
      requires Valid() && Registered(processToUpdate) && Registered(currentProcess)
      requires 0 <= removedFrame < FRAME_COUNT && state.memory.frames[removedFrame].processId == processToUpdate.id
      requires HasPage(state.memory, processToUpdate.id, state.memory.frames[removedFrame].pageNumber)
      requires HasPage(state.memory, currentProcess.id, pageNumber)
      modifies this`state, processes, frames
      ensures Valid()
      ensures state == old(state).(memory :=
        Assign(old(state).memory, removedFrame, currentProcess.id, pageNumber, instantTime))
    {
      FramesKept();
      var removedPageNumber := frames[removedFrame].pageNumber;
      SetTableEntry(processToUpdate, removedPageNumber, EMPTY_FRAME);
      SetFrameAt(removedFrame, Frame(currentProcess.id, pageNumber, instantTime));
      SetTableEntry(currentProcess, pageNumber, removedFrame);
    }

    method SetTableEntry(process: Process, pageNumber: int, frameIndex: int)
      requires Valid() && Registered(process) && HasPage(state.memory, process.id, pageNumber)
      modifies this`state, process
      ensures Valid()
      ensures state == old(state).(memory := SetEntry(old(state).memory, process.id, pageNumber, frameIndex))
    {
      Unfold();
      process.pageTable := process.pageTable[pageNumber := frameIndex];
      state := state.(memory := SetEntry(state.memory, process.id, pageNumber, frameIndex));
    }

    method SetFrameAt(frameIndex: int, frame: Frame)
      requires Valid() && 0 <= frameIndex < FRAME_COUNT
      modifies this`state, frames
      ensures Valid()
      ensures state == old(state).(memory := SetFrame(old(state).memory, frameIndex, frame))
    {
      Unfold();
      frames[frameIndex] := frame;
      state := state.(memory := SetFrame(state.memory, frameIndex, frame));
    }

    method StampFrame(frameIndex: int)
      requires Valid() && 0 <= frameIndex < FRAME_COUNT
      modifies this`state, frames
      ensures Valid()
      ensures state == old(state).(memory := Stamp(old(state).memory, frameIndex, instantTime))
    {
      FramesKept();
      SetFrameAt(frameIndex, frames[frameIndex].(timestamp := instantTime));
    }

    method FillFrame(process: Process, pageNumber: int, foundEmptyFrame: int)
      requires Valid() && Registered(process) && HasPage(state.memory, process.id, pageNumber)
      requires 0 <= foundEmptyFrame < FRAME_COUNT && state.memory.frames[foundEmptyFrame].processId == EMPTY_FRAME
      modifies this`state, process, frames
      ensures Valid()
      ensures state == old(state).(memory :=
        Assign(old(state).memory, foundEmptyFrame, process.id, pageNumber, instantTime))
    {
      SetFrameAt(foundEmptyFrame, Frame(process.id, pageNumber, instantTime));
      SetTableEntry(process, pageNumber, foundEmptyFrame);
    }

    method LRUPageReplacement(process: Process, pageNumber: int, frameIndex: int)
      requires Valid() && Registered(process) && Replaceable(state.memory)
      requires HasPage(state.memory, process.id, pageNumber)
      requires frameIndex == EMPTY_FRAME || 0 <= frameIndex < FRAME_COUNT
      modifies this`state, processes, frames
      ensures Valid()
      ensures state == old(state).(memory := Use(old(state).memory, process.id, pageNumber, frameIndex, instantTime))
    {
      if frameIndex != EMPTY_FRAME {
        StampFrame(frameIndex);
      } else {
        LoadPage(process, pageNumber);
      }
    }

    /** A page comes into a free frame, or into that of the page used longest ago. */
    method LoadPage(process: Process, pageNumber: int)
      requires Valid() && Registered(process) && Replaceable(state.memory)
      requires HasPage(state.memory, process.id, pageNumber)
      modifies this`state, processes, frames
      ensures Valid()
      ensures state == old(state).(memory := Use(old(state).memory, process.id, pageNumber, EMPTY_FRAME, instantTime))
    {
      FramesKept();
      var foundEmptyFrame := FindEmptyFrame(frames);
      if foundEmptyFrame != -1 {
        FillFrame(process, pageNumber, foundEmptyFrame);
      } else {
        EvictFrame(process, pageNumber);
      }
    }

    lemma FramesKept()
      requires Valid()
      ensures frames[..] == state.memory.frames
    {
      Unfold();
    }

    method EvictFrame(process: Process, pageNumber: int)
      requires Valid() && Registered(process) && Replaceable(state.memory)
      requires HasPage(state.memory, process.id, pageNumber) && FreeFrom(state.memory.frames, 0) == -1
      modifies this`state, processes, frames
      ensures Valid()
      ensures state == old(state).(memory := Use(old(state).memory, process.id, pageNumber, EMPTY_FRAME, instantTime))
    {
      Unfold();
      var removedFrame := FindOldestFrame(frames);
      assert removedFrame == Victim(state.memory) && state.memory.frames[removedFrame] != FREE;
      var processToUpdate := processes[frames[removedFrame].processId - 1];
      UpdateFrameRemove(processToUpdate, removedFrame, process, pageNumber);
    }

    /** Page i of the process and its frame are both reset. */
    method FreePage(process: Process, i: int)
      requires Valid() && Registered(process) && HasPage(state.memory, process.id, i)
      requires 0 <= Entry(state.memory, process.id, i) < FRAME_COUNT
      modifies this`state, process, frames
      ensures Valid()
      ensures state == old(state).(memory :=
        SetFrame(SetEntry(old(state).memory, process.id, i, EMPTY_FRAME),
                 Entry(old(state).memory, process.id, i), FREE))
    {
      Unfold();
      var frameIndex := process.pageTable[i];
      SetTableEntry(process, i, EMPTY_FRAME);
      SetFrameAt(frameIndex, FREE);
    }

    method ClearProcessFrames(process: Process)
      requires Valid() && Registered(process) && Consistent(state.memory)
      modifies this`state, process, frames
      ensures Valid()
      ensures 1 <= process.id <= |old(state).memory.tables|
      ensures state == old(state).(memory := ClearFrom(old(state).memory, process.id, 0))
    {
      Unfold();
      var i := 0;
      while i < |process.pageTable|
        invariant Valid() && Consistent(state.memory)
        invariant 0 <= i <= |process.pageTable| == |state.memory.tables[process.id - 1]|
        invariant state == old(state).(memory := state.memory)
        invariant ClearFrom(state.memory, process.id, i) == ClearFrom(old(state).memory, process.id, 0)
        decreases |process.pageTable| - i
      {
        Unfold();
        if process.pageTable[i] != EMPTY_FRAME {
          assert Resident(state.memory, process.id, i);
          FreeKeeps(state.memory, process.id, i);
          FreePage(process, i);
          Unfold();
        }
        i := i + 1;
      }
    }

    method DeleteExiting(process: Process)
      requires Valid() && Registered(process)
      modifies this
      ensures Valid() && processes == old(processes)
      ensures state == old(state).(exiting := Model.Delete(old(state).exiting, process.id))
    {
      Unfold();
      DeleteRefers(processes, exiting, state.exiting, process);
      exiting := Remove(process, exiting);
      state := state.(exiting := Model.Delete(state.exiting, process.id));
    }

    method Retire(process: Process)
      requires Valid() && Registered(process)
      modifies this, process
      ensures Valid() && processes == old(processes)
      ensures state == Model.SetStatus(old(state), process.id, Model.TERMINATED).(active := old(state).active - 1)
    {
      Unfold();
      nActiveProcesses := nActiveProcesses - 1;
      process.state := Model.TERMINATED;
      state := Model.SetStatus(state, process.id, Model.TERMINATED).(active := state.active - 1);
    }

    method Terminate(process: Process)
      requires Valid() && Registered(process) && Model.Paged(state)
      modifies this, process, frames
      ensures Valid() && processes == old(processes)
      ensures state == Model.Terminate(old(state), process.id)
    {
      DeleteExiting(process);
      ClearProcessFrames(process);
      Retire(process);
    }

    // ---------- Instructions of the running process ----------

    /** Memory as an instant finds it: tables of the right size, and no stamp of this instant yet. */
    ghost predicate FreshInstant()
      reads this
    {
      // one expression, so that the verifier need not prove its parts one by one
      var ready := Model.Paged(state) && UsedBefore(state.memory, state.instant) && state.instant < INT_MAX;
      ready
    }

    method FetchNextInstruction() returns (instruction: int)
      requires Valid() && runningProcess != null
      modifies this`state, runningProcess
      ensures Valid()
      ensures Model.Known(old(state), old(state).running) && (state, instruction) == Model.Fetch(old(state))
    {
      Unfold();
      var process := runningProcess;
      if process.currentInstruction >= |process.instructions| {
        process.state := Model.SIG_EOF;
        instruction := 0;
      } else {
        instruction := process.instructions[process.currentInstruction];
        process.currentInstruction := process.currentInstruction + 1;
      }
      state := Model.Fetch(state).0;
    }

    method ChangeCurrentInstruction(jump: int)
      requires Valid() && runningProcess != null
      modifies this`state, runningProcess
      ensures Valid()
      ensures Model.Known(old(state), old(state).running) && state == Model.Jump(old(state), jump)
    {
      Unfold();
      var process := runningProcess;
      var currentJump := process.currentInstruction + jump;
      if currentJump < 0 || currentJump >= |process.instructions| {
        process.state := Model.SIG_ILL;
      } else {
        process.currentInstruction := currentJump;
      }
      state := Model.Jump(state, jump);
    }

    /** The running process has used an address outside its space. */
    method Fault()
      requires Valid() && runningProcess != null
      modifies this`state, runningProcess
      ensures Valid()
      ensures Model.Known(old(state), old(state).running)
           && state == Model.SetStatus(old(state), old(state).running, Model.SIG_SEGV)
    {
      Unfold();
      runningProcess.state := Model.SIG_SEGV;
      state := Model.SetStatus(state, state.running, Model.SIG_SEGV);
    }

    method HandleLoadStore(address: int)
      requires Valid() && runningProcess != null && address >= 0
      requires FreshInstant()
      modifies this`state, processes, frames
      ensures Valid()
      ensures Model.Known(old(state), old(state).running) && state == Model.LoadStore(old(state), address)
    {
      RunningFacts();
      var process := runningProcess;
      if address >= process.addressSpace {
        Fault();
      } else {
        Model.AddressHasPage(state, state.running, address);
        var pageNumber := address / FRAME_SIZE;
        LRUPageReplacement(process, pageNumber, process.pageTable[pageNumber]);
      }
    }

    method SwapMemcpyHandle(addresses: int)
      requires Valid() && runningProcess != null && Model.TypeOf(addresses).SWAP_MEMCPY?
      requires FreshInstant()
      modifies this`state, processes, frames
      ensures Valid()
      ensures Model.Known(old(state), old(state).running) && state == Model.SwapCopy(old(state), addresses)
    {
      RunningFacts();
      var process := runningProcess;
      var address1 := addresses / 100000 - 10000;
      var address2 := addresses % 100000;
      if address1 >= process.addressSpace || address2 >= process.addressSpace {
        Fault();
      } else {
        CopyPages(addresses, address1 / FRAME_SIZE, address2 / FRAME_SIZE);
      }
    }

    /** Both addresses lie inside: their pages are used. */
    method CopyPages(ghost addresses: int, pageNumber1: int, pageNumber2: int)
      requires Valid() && runningProcess != null && FreshInstant() && Model.Paged(state)
        && CopiesInside(state, addresses)
      requires pageNumber1 == Model.FirstAddress(addresses) / FRAME_SIZE
      requires pageNumber2 == Model.SecondAddress(addresses) / FRAME_SIZE
      modifies this`state, processes, frames
      ensures Valid() && state == Model.SwapCopy(old(state), addresses)
    {
      SwapCopyUses(state, addresses);
      UseBothPages(pageNumber1, pageNumber2);
    }

    /** The page-table entries are read before anything moves; a resident second page is stamped first. */
    method UseBothPages(pageNumber1: int, pageNumber2: int)
      requires Valid() && runningProcess != null
      requires FreshInstant()
      requires HasPage(state.memory, runningProcess.id, pageNumber1)
      requires HasPage(state.memory, runningProcess.id, pageNumber2)
      modifies this`state, processes, frames
      ensures Valid()
      ensures state == old(state).(memory :=
        UseBoth(old(state).memory, runningProcess.id, pageNumber1, pageNumber2, instantTime))
    {
      RunningFacts();
      var process := runningProcess;
      var frameIndex1 := process.pageTable[pageNumber1];
      var frameIndex2 := process.pageTable[pageNumber2];
      assert frameIndex1 == Entry(state.memory, process.id, pageNumber1);
      assert frameIndex2 == Entry(state.memory, process.id, pageNumber2);
      ghost var protected, once := UseBothInSteps(state.memory, process.id, pageNumber1, pageNumber2, instantTime);
      ProtectSecond(frameIndex1, frameIndex2);
      assert state.memory == protected;
      LRUPageReplacement(process, pageNumber1, frameIndex1);
      assert state.memory == once;
      if pageNumber1 != pageNumber2 {
        LRUPageReplacement(process, pageNumber2, frameIndex2);
      }
    }

    method ProtectSecond(frameIndex1: int, frameIndex2: int)
      requires Valid() && (frameIndex2 == EMPTY_FRAME || 0 <= frameIndex2 < FRAME_COUNT)
      modifies this`state, frames
      ensures Valid()
      ensures state == old(state).(memory := Protect(old(state).memory, frameIndex1, frameIndex2, instantTime))
    {
      if frameIndex1 == EMPTY_FRAME && frameIndex2 != EMPTY_FRAME {
        StampFrame(frameIndex2);
      }
    }

    method ExecuteInstruction(instruction: int)
      requires Valid() && runningProcess != null
      requires FreshInstant()
      modifies this, processes, frames
      ensures Valid() && old(processes) <= processes
      ensures forall i :: |old(processes)| <= i < |processes| ==> fresh(processes[i])
      ensures Model.Known(old(state), old(state).running)
           && state == Model.Execute(old(state), programs, instruction)
      ensures Instructions.Performs(old(state), programs, instruction, state)
    {
      RunningFacts();
      Instructions.ExecutePerforms(state, programs, instruction);
      match Model.TypeOf(instruction)
      case JUMPB => ChangeCurrentInstruction(-(instruction - 99));
      case JUMPF => ChangeCurrentInstruction(instruction % 100 - 1);
      case LOAD_STORE => HandleLoadStore(instruction - 1000);
      case SWAP_MEMCPY => SwapMemcpyHandle(instruction);
      case EXEC => New(instruction - 200);
      case IO => Block(-instruction);
      case HALT => Release();
      case ANY =>
    }

    // ---------- The passing of time ----------

    /** One process of a list gets one instant older. */
    method Age(process: Process)
      requires Valid() && Registered(process)
      modifies this`state, process
      ensures Valid() && Model.Known(old(state), process.id)
      ensures state == Model.SetTime(old(state), process.id, Model.Get(old(state), process.id).time - 1)
      ensures process.time == Model.Get(state, process.id).time && process.state == Model.Get(state, process.id).status
    {
      Unfold();
      process.time := process.time - 1;
      state := Model.SetTime(state, process.id, process.time);
    }

    method AgeBlocked(process: Process)
      requires Valid() && Registered(process)
      modifies this, process
      ensures Valid() && processes == old(processes)
      ensures Model.Known(old(state), process.id) && state == Model.TickBlocked(old(state), process.id)
    {
      Age(process);
      if process.time < 0 {
        Unblock(process);
      }
    }

    /** The position after the current one is read before the current process may leave the list. */
    method TimeDecrementBlocked()
      requires Valid()
      modifies this, processes
      ensures Valid() && processes == old(processes)
      ensures Model.AllKnown(old(state), old(state.blocked))
      ensures state == Model.WalkBlocked(old(state), old(state.blocked))
    {
      Unfold();
      ListKnown(blocked, state.blocked);
      var next := blocked;
      ghost var ids := state.blocked;
      while next != []
        invariant Valid() && processes == old(processes) && Refers(processes, next, ids)
        invariant Model.AllKnown(state, ids)
        invariant Model.WalkBlocked(state, ids) == Model.WalkBlocked(old(state), old(state.blocked))
        decreases |next|
      {
        var process := next[0];
        RefersFront(processes, next, ids);
        next, ids := next[1..], ids[1..];
        AgeBlocked(process);
      }
    }

    method AgeNew(process: Process)
      requires Valid() && Registered(process)
      modifies this, process
      ensures Valid() && processes == old(processes)
      ensures Model.Known(old(state), process.id) && state == Model.TickCreated(old(state), process.id)
    {
      Age(process);
      if process.time == 0 {
        Admit(process);
      }
    }

    method TimeDecrementNew()
      requires Valid()
      modifies this, processes
      ensures Valid() && processes == old(processes)
      ensures Model.AllKnown(old(state), old(state.created))
      ensures state == Model.WalkCreated(old(state), old(state.created))
    {
      Unfold();
      ListKnown(created, state.created);
      var next := created;
      ghost var ids := state.created;
      while next != []
        invariant Valid() && processes == old(processes) && Refers(processes, next, ids)
        invariant Model.AllKnown(state, ids)
        invariant Model.WalkCreated(state, ids) == Model.WalkCreated(old(state), old(state.created))
        decreases |next|
      {
        var process := next[0];
        RefersFront(processes, next, ids);
        next, ids := next[1..], ids[1..];
        AgeNew(process);
      }
    }

    method TimeDecrementRunning()
      requires Valid()
      modifies this, processes
      ensures Valid() && processes == old(processes)
      ensures (old(state).running != 0 ==> Model.Known(old(state), old(state).running))
           && state == Model.TickRunning(old(state))
    {
      if runningProcess != null {
        Age(runningProcess);
        if Model.Faulty(runningProcess.state) {
          Release();
        } else if runningProcess.time == 0 {
          TimeOut();
        }
      }
    }

    method AgeExiting(process: Process)
      requires Valid() && Registered(process) && Model.Paged(state)
      modifies this, process, frames
      ensures Valid() && processes == old(processes)
      ensures Model.Known(old(state), process.id) && state == Model.TickExiting(old(state), process.id)
    {
      Age(process);
      if process.time < 0 {
        Terminate(process);
      }
    }

    method TimeDecrementExiting()
      requires Valid() && Model.Paged(state)
      modifies this, processes, frames
      ensures Valid() && processes == old(processes)
      ensures Model.AllKnown(old(state), old(state.exiting))
      ensures state == Model.WalkExiting(old(state), old(state.exiting))
    {
      Unfold();
      ListKnown(exiting, state.exiting);
      var next := exiting;
      ghost var ids, goal := state.exiting, Model.WalkExiting(state, state.exiting);
      while next != []
        invariant Valid() && Model.Paged(state)
        invariant processes == old(processes) && Refers(processes, next, ids)
        invariant Model.AllKnown(state, ids)
        invariant Model.WalkExiting(state, ids) == goal
        decreases |next|
      {
        var process := next[0];
        RefersFront(processes, next, ids);
        WalkExitingOn(state, ids);
        next, ids := next[1..], ids[1..];
        AgeExiting(process);
      }
    }

    method TimeDecrement()
      requires Valid() && Model.Core(state)
      modifies this, processes, frames
      ensures Valid() && processes == old(processes)
      ensures Model.Core(old(state)) && state == Model.Aged(old(state))
    {
      ghost var s := state;
      Model.AgedKeeps(s);
      TimeDecrementBlocked();
      assert state == Model.BlockedAged(s);
      Model.AgedKeeps(state);
      TimeDecrementNew();
      assert state == Model.CreatedAged(Model.BlockedAged(s));
      Model.TickRunningKeeps(state);
      TimeDecrementRunning();
      Model.Open(state);
      TimeDecrementExiting();
    }

    method StartInstant()
      requires Valid() && Model.Core(state)
      modifies this, processes
      ensures Valid() && processes == old(processes)
      ensures Model.Core(old(state)) && state == Model.Started(old(state))
    {
      Unfold();
      if runningProcess == null && ready != [] {
        Dispatch();
      }
    }

    method Work()
      requires Valid() && Model.Core(state) && FreshInstant()
      modifies this, processes, frames
      ensures Valid() && old(processes) <= processes
      ensures forall i :: |old(processes)| <= i < |processes| ==> fresh(processes[i])
      ensures Model.Core(old(state)) && state == Model.Worked(old(state), programs)
      ensures old(state).running != 0 ==>
        Model.Known(old(state), old(state).running) && Consistent(old(state).memory)
          && Instructions.Works(old(state), programs, state)
    {
      if runningProcess != null {
        Instructions.WorkedWorks(state, programs);
        Model.FetchKeeps(state);
        var instruction := FetchNextInstruction();
        Model.Open(state);
        ExecuteInstruction(instruction);
      }
    }

    method Advance()
      requires Valid()
      modifies this`instantTime, this`state
      ensures Valid() && state == old(state).(instant := old(state).instant + 1)
    {
      Unfold();
      instantTime := instantTime + 1;
      state := state.(instant := state.instant + 1);
    }

    /** One turn of the simulation loop. */
    method Instant()
      requires Valid() && Invariant(state) && state.instant < INT_MAX
      modifies this, processes, frames
      ensures Valid() && old(processes) <= processes
      ensures forall i :: |old(processes)| <= i < |processes| ==> fresh(processes[i])
      ensures Follows(old(state), programs, state)
    {
      StartedOnTheWay(state);
      StartInstant();
      Model.Open(state);
      Model.WorkedKeeps(state, programs);
      Work();
      TimeDecrement();
      Advance();
    }

    /** A simulation goes through a run of instants, up to the last instant or until no process is active. */
    method Simulate() returns (ghost run: seq<Model.State>)
      requires Valid() && state == Bare()
      modifies this, frames
      ensures Valid() && IsRun(run, programs) && run[0] == Beginning(programs) && run[|run| - 1] == state
      ensures forall i :: 0 <= i < |run| - 1 ==> run[i].instant <= MAX_INSTANTS && run[i].active > 0
      ensures state.instant > MAX_INSTANTS || state.active <= 0
    {
      New(1);
      BeginningKeeps(programs);
      run := [state];
      while instantTime <= MAX_INSTANTS && nActiveProcesses > 0
        invariant Valid() && Invariant(state) && forall i :: 0 <= i < |processes| ==> fresh(processes[i])
        invariant IsRun(run, programs) && run[0] == Beginning(programs) && run[|run| - 1] == state
        invariant forall i :: 0 <= i < |run| - 1 ==> run[i].instant <= MAX_INSTANTS && run[i].active > 0
        decreases MAX_INSTANTS - instantTime
      {
        ghost var s := state;
        Instant();
        FollowsKeeps(s, programs, state);
        RunGrows(run, programs, state);
        run := run + [state];
      }
    }
  }

  lemma WalkExitingOn(s: Model.State, ids: seq<int>)
    requires Model.AllKnown(s, ids) && Model.Paged(s) && ids != []
    ensures var t := Model.TickExiting(s, ids[0]);
      && Model.AllKnown(t, ids[1..]) && Model.Paged(t) && Model.WalkExiting(s, ids) == Model.WalkExiting(t, ids[1..])
  {
    Model.TickExitingPaged(s, ids[0]);
  }

  lemma SwapCopyUses(s: Model.State, addresses: int)
    requires Model.Paged(s) && CopiesInside(s, addresses)
    ensures var q1, q2 := Model.FirstAddress(addresses) / FRAME_SIZE, Model.SecondAddress(addresses) / FRAME_SIZE;
      && HasPage(s.memory, s.running, q1) && HasPage(s.memory, s.running, q2)
      && Model.SwapCopy(s, addresses) == s.(memory := UseBoth(s.memory, s.running, q1, q2, s.instant))
  {
    Model.AddressHasPage(s, s.running, Model.FirstAddress(addresses));
    Model.AddressHasPage(s, s.running, Model.SecondAddress(addresses));
  }

  lemma UseBothInSteps(m: Memory, p: int, q1: int, q2: int, instant: int) returns (protected: Memory, once: Memory)
    requires Consistent(m) && HasPage(m, p, q1) && HasPage(m, p, q2) && UsedBefore(m, instant) && instant < INT_MAX
    ensures var entry1, entry2 := Entry(m, p, q1), Entry(m, p, q2);
      && (entry1 == EMPTY_FRAME || 0 <= entry1 < |m.frames|)
      && (entry2 == EMPTY_FRAME || 0 <= entry2 < |m.frames|)
      && protected == Protect(m, entry1, entry2, instant)
      && Replaceable(protected) && HasPage(protected, p, q1)
      && once == Use(protected, p, q1, entry1, instant)
      && Replaceable(once) && HasPage(once, p, q2)
      && UseBoth(m, p, q1, q2, instant) == if q1 == q2 then once else Use(once, p, q2, entry2, instant)
  {
    var entry1, entry2 := Entry(m, p, q1), Entry(m, p, q2);
    StampKeeps(m, entry2, instant);
    protected := Protect(m, entry1, entry2, instant);
    UseKeeps(protected, p, q1, instant);
    UseStamps(protected, p, q1, entry1, instant);
    once := Use(protected, p, q1, entry1, instant);
  }

  /** The list without its first x: walk to the node before it and skip one. */
  method Remove<T(==)>(x: T, list: seq<T>) returns (rest: seq<T>)
    ensures rest == Model.Delete(list, x)
  {
    var i := 0;
    while i < |list| && list[i] != x
      invariant 0 <= i <= |list|
      invariant Model.Delete(list, x) == list[..i] + Model.Delete(list[i..], x)
    {
      DeletePasses(list, i, x);
      i := i + 1;
    }
    if i < |list| {
      rest := list[..i] + list[i + 1..];
    } else {
      rest := list;
    }
  }

  lemma DeletePasses<T>(list: seq<T>, i: nat, x: T)
    requires i < |list| && list[i] != x
    ensures list[..i] + Model.Delete(list[i..], x) == list[..i + 1] + Model.Delete(list[i + 1..], x)
  {
    assert list[i..][1..] == list[i + 1..];
  }
}
