/**
 The first simulator as the program has it: an array of process records and an array of frames,
 overwritten in place while the access list is read.
 */
module LruSimulator {
  import opened Paging
  import opened LruInclusion

  datatype Process = Process(processId: int, addressSpace: nat, pageTable: seq<int>, state: Activity)

  /** The two arrays hold this state of the simulation. */
  ghost predicate Holds(s: Simulation, spaces: seq<nat>, processes: seq<Process>, frames: seq<Frame>) {
    && |processes| == |spaces| == |s.states| == |s.memory.tables| && frames == s.memory.frames
    && forall i :: 0 <= i < |processes| ==>
      processes[i] == Process(i + 1, spaces[i], s.memory.tables[i], s.states[i])
  }

  /** The access list alternates process numbers and addresses; an odd last entry is not read. */
  function Requests(inputExec: seq<int>): (r: seq<Request>)
    ensures |r| == |inputExec| / 2
    ensures forall i :: 0 <= i < |r| ==> r[i].pid == inputExec[i * 2] && r[i].address == inputExec[i * 2 + 1]
  {
    seq(|inputExec| / 2, i requires 0 <= i < |inputExec| / 2 => Request(inputExec[i * 2], inputExec[i * 2 + 1]))
  }

  method FindUpdateEmptyFrame(frames: array<Frame>, processes: array<Process>, pid: int, pageNumber: int, instant: int,
                              ghost s: Simulation, ghost spaces: seq<nat>)
    returns (frame: int)
    requires Holds(s, spaces, processes[..], frames[..]) && HasPage(s.memory, pid, pageNumber)
    modifies frames, processes
    ensures frame == FreeFrom(s.memory.frames, 0)
    ensures frame == -1 ==> Holds(s, spaces, processes[..], frames[..])
    ensures frame != -1 ==>
      Holds(s.(memory := Assign(s.memory, frame, pid, pageNumber, instant)), spaces, processes[..], frames[..])
  {
    frame := FindEmptyFrame(frames);
    if frame != -1 {
      frames[frame] := Frame(processes[pid - 1].processId, pageNumber, instant);
      processes[pid - 1] := processes[pid - 1].(pageTable := processes[pid - 1].pageTable[pageNumber := frame]);
    }
  }

  /** The page that leaves and the page that comes in may belong to the same process. */
  method UpdateFrameRemove(frames: array<Frame>, processes: array<Process>, removedFrame: int, pid: int,
                           pageNumber: int, instant: int, ghost s: Simulation, ghost spaces: seq<nat>)
    requires Holds(s, spaces, processes[..], frames[..]) && HasPage(s.memory, pid, pageNumber)
    requires 0 <= removedFrame < frames.Length
    requires HasPage(s.memory, frames[removedFrame].processId, frames[removedFrame].pageNumber)
    modifies frames, processes
    ensures Holds(s.(memory := Assign(s.memory, removedFrame, pid, pageNumber, instant)), spaces, processes[..],
      frames[..])
  {
    var removedProcessIndex := frames[removedFrame].processId - 1;
    var removedPageNumber := frames[removedFrame].pageNumber;
    processes[removedProcessIndex] := processes[removedProcessIndex].(
      pageTable := processes[removedProcessIndex].pageTable[removedPageNumber := EMPTY_FRAME]);
    frames[removedFrame] := Frame(processes[pid - 1].processId, pageNumber, instant);
    processes[pid - 1] := processes[pid - 1].(pageTable := processes[pid - 1].pageTable[pageNumber := removedFrame]);
  }

  method FreePage(frames: array<Frame>, processes: array<Process>, pid: int, i: int, ghost s: Simulation,
                  ghost spaces: seq<nat>)
    requires Holds(s, spaces, processes[..], frames[..]) && HasPage(s.memory, pid, i)
    requires 0 <= Entry(s.memory, pid, i) < frames.Length
    modifies frames, processes
    ensures Holds(s.(memory := SetFrame(SetEntry(s.memory, pid, i, EMPTY_FRAME), Entry(s.memory, pid, i), FREE)),
                  spaces, processes[..], frames[..])
  {
    var frameIndex := processes[pid - 1].pageTable[i];
    processes[pid - 1] := processes[pid - 1].(pageTable := processes[pid - 1].pageTable[i := EMPTY_FRAME]);
    frames[frameIndex] := FREE;
  }

  method ClearProcessFramesLRU(frames: array<Frame>, processes: array<Process>, pid: int, ghost s: Simulation,
                               ghost spaces: seq<nat>)
    requires Holds(s, spaces, processes[..], frames[..]) && Consistent(s.memory) && 1 <= pid <= processes.Length
    modifies frames, processes
    ensures Holds(s.(memory := ClearFrom(s.memory, pid, 0)), spaces, processes[..], frames[..])
  {
    ghost var t := s;
    var i := 0;
    while i < |processes[pid - 1].pageTable|
      invariant Holds(t, spaces, processes[..], frames[..]) && Consistent(t.memory) && t.states == s.states
      invariant 0 <= i <= |processes[pid - 1].pageTable| == |t.memory.tables[pid - 1]|
      invariant ClearFrom(t.memory, pid, i) == ClearFrom(s.memory, pid, 0)
      decreases |processes[pid - 1].pageTable| - i
    {
      if processes[pid - 1].pageTable[i] != EMPTY_FRAME {
        assert Resident(t.memory, pid, i);
        FreeKeeps(t.memory, pid, i);
        FreePage(frames, processes, pid, i, t, spaces);
        t := t.(memory := SetFrame(SetEntry(t.memory, pid, i, EMPTY_FRAME), Entry(t.memory, pid, i), FREE));
      }
      i := i + 1;
    }
  }

  /** Printing reports a fault once: the process is inactive from then on. */
  method PrintInstant(processes: array<Process>, ghost s: Simulation, ghost spaces: seq<nat>, ghost frames: seq<Frame>)
    requires Holds(s, spaces, processes[..], frames)
    modifies processes
    ensures Holds(s.(states := Settled(s.states)), spaces, processes[..], frames)
  {
    for i := 0 to processes.Length
      invariant forall j :: i <= j < processes.Length ==> processes[j] == old(processes[j])
      invariant forall j :: 0 <= j < i ==> processes[j] == old(processes[j]).(state := Settled(s.states)[j])
    {
      if processes[i].state == SEGFAULT {
        processes[i] := processes[i].(state := INACTIVE);
      }
    }
  }

  /**
   One access of an active process to a page of its own: resident, loaded into a free frame, or
   replacing the oldest.
   */
  method UsePage(frames: array<Frame>, processes: array<Process>, pid: int, pageNumber: int, instant: int,
                 ghost s: Simulation, ghost spaces: seq<nat>)
    requires Holds(s, spaces, processes[..], frames[..]) && Consistent(s.memory) && HasPage(s.memory, pid, pageNumber)
    requires UsedBefore(s.memory, INT_MAX)
    modifies frames, processes
    ensures Holds(s.(memory := Use(s.memory, pid, pageNumber, Entry(s.memory, pid, pageNumber), instant)),
                  spaces, processes[..], frames[..])
  {
    var frameIndex := processes[pid - 1].pageTable[pageNumber];
    if frameIndex != EMPTY_FRAME {
      frames[frameIndex] := frames[frameIndex].(timestamp := instant);
      return;
    }
    var found := FindUpdateEmptyFrame(frames, processes, pid, pageNumber, instant, s, spaces);
    if found != -1 {
      return;
    }
    var removedFrame := FindOldestFrame(frames);
    UpdateFrameRemove(frames, processes, removedFrame, pid, pageNumber, instant, s, spaces);
  }

  method ServeRequest(frames: array<Frame>, processes: array<Process>, pid: int, address: int, instant: int,
                      ghost s: Simulation, ghost spaces: seq<nat>)
    requires Holds(s, spaces, processes[..], frames[..]) && Sound(s, spaces) && UsedBefore(s.memory, INT_MAX)
    requires 1 <= pid <= |spaces| && address >= 0
    modifies frames, processes
    ensures Holds(Serve(s, spaces, Request(pid, address), instant), spaces, processes[..], frames[..])
  {
    if processes[pid - 1].state != ACTIVE {
      return;
    }
    if address >= processes[pid - 1].addressSpace {
      processes[pid - 1] := processes[pid - 1].(state := SEGFAULT);
      ClearProcessFramesLRU(frames, processes, pid, s.(states := s.states[pid - 1 := SEGFAULT]), spaces);
    } else {
      UsePage(frames, processes, pid, address / FRAME_SIZE, instant, s, spaces);
    }
  }

  /** One pass of the loop: the access is served, then faulted processes become inactive. */
  method RunInstant(frames: array<Frame>, processes: array<Process>, pid: int, address: int, instant: int,
                    ghost s: Simulation, ghost spaces: seq<nat>)
    requires Holds(s, spaces, processes[..], frames[..]) && Sound(s, spaces) && UsedBefore(s.memory, INT_MAX)
    requires 1 <= pid <= |spaces| && address >= 0
    modifies frames, processes
    ensures Holds(Step(s, spaces, Request(pid, address), instant), spaces, processes[..], frames[..])
  {
    ServeRequest(frames, processes, pid, address, instant, s, spaces);
    PrintInstant(processes, Serve(s, spaces, Request(pid, address), instant), spaces, frames[..]);
  }

  lemma StampsInRange(s: Simulation, spaces: seq<nat>, instant: nat)
    requires Timely(s, spaces, instant) && instant <= INT_MAX
    ensures Sound(s, spaces) && UsedBefore(s.memory, INT_MAX)
  {
    assert Stamped(s.memory, instant, 0);
  }

  /**
   The arrays are those of the simulation when instant n begins; behind a dummy quantifier, so that
   the loop need not unfold it.
   */
  ghost predicate Simulated(spaces: seq<nat>, requests: seq<Request>, n: nat, processes: seq<Process>,
                            frames: seq<Frame>) {
    forall k: nat :: SimulatedAt(spaces, requests, n, processes, frames, k)
  }

  ghost predicate SimulatedAt(spaces: seq<nat>, requests: seq<Request>, n: nat, processes: seq<Process>,
                              frames: seq<Frame>, k: nat) {
    && |frames| > 0 && Proper(requests, |spaces|) && n <= |requests|
    && Holds(At(spaces, |frames|, requests, n), spaces, processes, frames)
  }

  /** One pass of the loop, for the access requested at the instant. */
  method RunRequest(frames: array<Frame>, processes: array<Process>, pid: int, address: int, instant: nat,
                    ghost spaces: seq<nat>, ghost requests: seq<Request>)
    requires instant < |requests| < INT_MAX && requests[instant] == Request(pid, address)
    requires Simulated(spaces, requests, instant, processes[..], frames[..])
    modifies frames, processes
    ensures Simulated(spaces, requests, instant + 1, processes[..], frames[..])
  {
    assert SimulatedAt(spaces, requests, instant, processes[..], frames[..], 0);
    ghost var s := At(spaces, frames.Length, requests, instant);
    StampsInRange(s, spaces, instant);
    RunInstant(frames, processes, pid, address, instant, s, spaces);
  }

  /** The whole access list: the arrays end up as the states of the simulation say. */
  method SimulateLRU(frames: array<Frame>, processes: array<Process>, inputExec: seq<int>, ghost spaces: seq<nat>)
    requires frames.Length > 0 && |inputExec| / 2 < INT_MAX
    requires Holds(Beginning(spaces, frames.Length), spaces, processes[..], frames[..])
    requires Proper(Requests(inputExec), |spaces|)
    modifies frames, processes
    ensures var requests := Requests(inputExec);
      Holds(At(spaces, frames.Length, requests, |requests|), spaces, processes[..], frames[..])
  {
    ghost var requests := Requests(inputExec);
    assert Simulated(spaces, requests, 0, processes[..], frames[..]);
    RunAll(frames, processes, inputExec, spaces, requests);
    assert SimulatedAt(spaces, requests, |requests|, processes[..], frames[..], 0);
  }

  method RunAll(frames: array<Frame>, processes: array<Process>, inputExec: seq<int>, ghost spaces: seq<nat>,
                ghost requests: seq<Request>)
    requires requests == Requests(inputExec) && |requests| < INT_MAX
    requires Simulated(spaces, requests, 0, processes[..], frames[..])
    modifies frames, processes
    ensures Simulated(spaces, requests, |requests|, processes[..], frames[..])
  {
    var iterations := |inputExec| / 2;
    for instant := 0 to iterations
      invariant Simulated(spaces, requests, instant, processes[..], frames[..])
    {
      var index := instant * 2;
      assert requests[instant] == Request(inputExec[index], inputExec[index + 1]);
      RunRequest(frames, processes, inputExec[index], inputExec[index + 1], instant, spaces, requests);
    }
  }
}
