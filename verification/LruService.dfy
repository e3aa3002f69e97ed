/**
 What each access of the first simulator does, said of pages, frames and stamps, over every access
 list and at every instant.
 */
module LruService {
  import opened Paging
  import opened LruInclusion

  /** The process is inactive and its frames are free; all other frames and page tables are as they were. */
  ghost predicate Ends(s: Simulation, t: Simulation, p: int)
    requires 1 <= p <= |s.states|
  {
    && t.states == s.states[p - 1 := INACTIVE]
    && |t.memory.frames| == |s.memory.frames|
    && (forall f :: 0 <= f < |t.memory.frames| ==>
         t.memory.frames[f] == if s.memory.frames[f].processId == p then FREE else s.memory.frames[f])
    && (forall a, b {:trigger HasPage(s.memory, a, b)} :: HasPage(s.memory, a, b) ==>
         HasPage(t.memory, a, b) && Entry(t.memory, a, b) == if a == p then EMPTY_FRAME else Entry(s.memory, a, b))
  }

  /**
   The page of the address is in memory with the stamp of the instant. All other pages in memory were
   there before, with the same frame and stamp; one of them may be gone, and only a least recently
   used one of a full memory.
   */
  ghost predicate Uses(s: Simulation, t: Simulation, p: int, address: int, instant: int)
    requires Consistent(s.memory)
  {
    && t.states == s.states && Consistent(t.memory)
    && (forall q :: PageOf(q, address) ==> JustUsed(t.memory, p, q, instant))
    && (forall a, b {:trigger Resident(s.memory, a, b)} :: Resident(s.memory, a, b) ==>
         KeptUnlessOldest(s.memory, t.memory, a, b))
    && (forall a, b :: Resident(t.memory, a, b) && (a != p || !PageOf(b, address)) ==>
         Resident(s.memory, a, b) && Last(t.memory, a, b) == Last(s.memory, a, b))
  }

  /** What an access does: nothing for an inactive process. */
  ghost predicate Serves(s: Simulation, t: Simulation, spaces: seq<nat>, r: Request, instant: int)
    requires Consistent(s.memory) && |s.states| == |spaces| && 1 <= r.pid <= |spaces|
  {
    if s.states[r.pid - 1] != ACTIVE then t == s
    else if r.address >= spaces[r.pid - 1] then Ends(s, t, r.pid)
    else Uses(s, t, r.pid, r.address, instant)
  }

  /** Faults have been reported, and inactive processes own no page. */
  ghost predicate Reported(s: Simulation) {
    // one expression, so that the verifier need not prove its parts one by one
    var reported := (forall i :: 0 <= i < |s.states| ==> s.states[i] != SEGFAULT)
      && (forall p, q :: 1 <= p <= |s.states| && s.states[p - 1] != ACTIVE ==> !Resident(s.memory, p, q));
    reported
  }

  /** All processes active, all frames free and no page in memory. */
  ghost predicate Untouched(s: Simulation) {
    // one expression, so that the verifier need not prove its parts one by one
    var untouched := (forall i :: 0 <= i < |s.states| ==> s.states[i] == ACTIVE)
      && (forall f :: 0 <= f < |s.memory.frames| ==> s.memory.frames[f] == FREE)
      && (forall p, q :: !Resident(s.memory, p, q));
    untouched
  }

  lemma ClearEnds(m: Memory, p: int)
    requires Consistent(m) && 1 <= p <= |m.tables|
    ensures var m' := ClearFrom(m, p, 0);
      && |m'.frames| == |m.frames|
      && forall f :: 0 <= f < |m.frames| ==>
        m'.frames[f] == if m.frames[f].processId == p then FREE else m.frames[f]
  {
    ClearKeeps(m, p, 0);
    var m' := ClearFrom(m, p, 0);
    forall f | 0 <= f < |m.frames|
      ensures m'.frames[f] == if m.frames[f].processId == p then FREE else m.frames[f]
    {
      var held := m.frames[f];
      if held != FREE {
        assert HasPage(m, held.processId, held.pageNumber) && HasPage(m', held.processId, held.pageNumber);
        assert Entry(m, held.processId, held.pageNumber) == f;
      }
    }
  }

  lemma StepEnds(s: Simulation, spaces: seq<nat>, r: Request, instant: nat)
    requires Sound(s, spaces) && Reported(s) && 1 <= r.pid <= |spaces| && r.address >= spaces[r.pid - 1]
    requires s.states[r.pid - 1] == ACTIVE
    ensures Ends(s, Step(s, spaces, r, instant), r.pid)
  {
    ClearEnds(s.memory, r.pid);
    ClearKeeps(s.memory, r.pid, 0);
    var t := Step(s, spaces, r, instant);
    assert forall a, b {:trigger HasPage(s.memory, a, b)} :: HasPage(s.memory, a, b) ==> HasPage(t.memory, a, b);
  }

  lemma StepUses(s: Simulation, spaces: seq<nat>, r: Request, instant: nat)
    requires Sound(s, spaces) && Reported(s) && 1 <= r.pid <= |spaces| && 0 <= r.address < spaces[r.pid - 1]
    requires s.states[r.pid - 1] == ACTIVE
    ensures Uses(s, Step(s, spaces, r, instant), r.pid, r.address, instant)
  {
    var p, page := r.pid, r.address / FRAME_SIZE;
    UseKeeps(s.memory, p, page, instant);
    UseOfPages(s.memory, p, page, instant);
    assert forall q :: PageOf(q, r.address) <==> q == page;
    forall a, b {:trigger Resident(s.memory, a, b)} | Resident(s.memory, a, b)
      ensures KeptUnlessOldest(s.memory, Step(s, spaces, r, instant).memory, a, b)
    {
      UseKeepsOthers(s.memory, p, page, instant, a, b);
    }
  }

  lemma StepServes(s: Simulation, spaces: seq<nat>, r: Request, instant: nat)
    requires Sound(s, spaces) && Reported(s) && 1 <= r.pid <= |spaces| && r.address >= 0
    ensures Serves(s, Step(s, spaces, r, instant), spaces, r, instant)
  {
    if s.states[r.pid - 1] == ACTIVE {
      if r.address >= spaces[r.pid - 1] {
        StepEnds(s, spaces, r, instant);
      } else {
        StepUses(s, spaces, r, instant);
      }
    }
  }

  lemma ServedReported(s: Simulation, t: Simulation, spaces: seq<nat>, r: Request, instant: nat)
    requires Sound(s, spaces) && Sound(t, spaces) && Reported(s) && 1 <= r.pid <= |spaces|
    requires Serves(s, t, spaces, r, instant)
    ensures Reported(t)
  {
    forall p, q | 1 <= p <= |t.states| && t.states[p - 1] != ACTIVE
      ensures !Resident(t.memory, p, q)
    {
      assert HasPage(t.memory, p, q) ==> HasPage(s.memory, p, q);
      assert !Resident(s.memory, p, q) || p == r.pid;
    }
  }

  /** At first no page is in memory and every process is active; each has the pages of its space, or one. */
  lemma BeginsUntouched(spaces: seq<nat>, frameCount: nat, requests: seq<Request>)
    requires frameCount > 0 && Proper(requests, |spaces|)
    ensures Untouched(At(spaces, frameCount, requests, 0)) && Reported(At(spaces, frameCount, requests, 0))
    ensures forall p, q {:trigger HasPage(At(spaces, frameCount, requests, 0).memory, p, q)} ::
      HasPage(At(spaces, frameCount, requests, 0).memory, p, q) <==>
      1 <= p <= |spaces| && (q == 0 || 0 < q * FRAME_SIZE < spaces[p - 1])
  {
    assert At(spaces, frameCount, requests, 0) == Beginning(spaces, frameCount);
  }

  lemma NextServes(spaces: seq<nat>, frameCount: nat, requests: seq<Request>, n: nat)
    requires frameCount > 0 && Proper(requests, |spaces|) && n < |requests|
    requires Reported(At(spaces, frameCount, requests, n))
    ensures Serves(At(spaces, frameCount, requests, n), At(spaces, frameCount, requests, n + 1), spaces, requests[n], n)
    ensures Reported(At(spaces, frameCount, requests, n + 1))
  {
    var s, t := At(spaces, frameCount, requests, n), At(spaces, frameCount, requests, n + 1);
    StepServes(s, spaces, requests[n], n);
    ServedReported(s, t, spaces, requests[n], n);
  }

  /** At every instant of every simulation, a process that is not active owns no page. */
  lemma {:induction false} AlwaysReported(spaces: seq<nat>, frameCount: nat, requests: seq<Request>, n: nat)
    requires frameCount > 0 && Proper(requests, |spaces|) && n <= |requests|
    ensures Reported(At(spaces, frameCount, requests, n))
    decreases n
  {
    if n == 0 {
      BeginsUntouched(spaces, frameCount, requests);
    } else {
      AlwaysReported(spaces, frameCount, requests, n - 1);
      NextServes(spaces, frameCount, requests, n - 1);
    }
  }

  /** In every simulation, each access is served as its process and address ask. */
  lemma EveryAccess(spaces: seq<nat>, frameCount: nat, requests: seq<Request>, n: nat)
    requires frameCount > 0 && Proper(requests, |spaces|) && n < |requests|
    ensures Serves(At(spaces, frameCount, requests, n), At(spaces, frameCount, requests, n + 1), spaces, requests[n], n)
  {
    AlwaysReported(spaces, frameCount, requests, n);
    NextServes(spaces, frameCount, requests, n);
  }

  /** Whether the process is active when instant n begins; behind a dummy quantifier. */
  ghost predicate ActiveAt(spaces: seq<nat>, frameCount: nat, requests: seq<Request>, n: nat, p: int)
    requires frameCount > 0 && Proper(requests, |spaces|) && n <= |requests| && 1 <= p <= |spaces|
  {
    forall k: nat :: ActiveThen(spaces, frameCount, requests, n, p, k)
  }

  ghost predicate ActiveThen(spaces: seq<nat>, frameCount: nat, requests: seq<Request>, n: nat, p: int, k: nat)
    requires frameCount > 0 && Proper(requests, |spaces|) && n <= |requests| && 1 <= p <= |spaces|
  {
    At(spaces, frameCount, requests, n).states[p - 1] == ACTIVE
  }

  lemma NextActive(spaces: seq<nat>, frameCount: nat, requests: seq<Request>, n: nat, p: int)
    requires frameCount > 0 && Proper(requests, |spaces|) && n < |requests| && 1 <= p <= |spaces|
    ensures ActiveAt(spaces, frameCount, requests, n + 1, p) <==>
      ActiveAt(spaces, frameCount, requests, n, p) && (requests[n].pid == p ==> requests[n].address < spaces[p - 1])
  {
    EveryAccess(spaces, frameCount, requests, n);
    assert ActiveThen(spaces, frameCount, requests, n, p, 0)
      <==> At(spaces, frameCount, requests, n).states[p - 1] == ACTIVE;
    assert ActiveThen(spaces, frameCount, requests, n + 1, p, 0)
      <==> At(spaces, frameCount, requests, n + 1).states[p - 1] == ACTIVE;
  }

  lemma ActiveAtFirst(spaces: seq<nat>, frameCount: nat, requests: seq<Request>, p: int)
    requires frameCount > 0 && Proper(requests, |spaces|) && 1 <= p <= |spaces|
    ensures ActiveAt(spaces, frameCount, requests, 0, p)
  {
    BeginsUntouched(spaces, frameCount, requests);
  }

  /** The first n accesses of the process lie in its address space. */
  ghost predicate KeepsTo(space: nat, requests: seq<Request>, n: nat, p: int)
    requires n <= |requests|
  {
    forall i :: 0 <= i < n && requests[i].pid == p ==> requests[i].address < space
  }

  lemma KeepsToOneMore(space: nat, requests: seq<Request>, n: nat, p: int)
    requires n < |requests|
    ensures KeepsTo(space, requests, n + 1, p) <==>
      KeepsTo(space, requests, n, p) && (requests[n].pid == p ==> requests[n].address < space)
  {
  }

  /** A process is active exactly as long as it has kept to its address space. */
  lemma {:induction false} ActiveExactlyWhen(spaces: seq<nat>, frameCount: nat, requests: seq<Request>, n: nat, p: int)
    requires frameCount > 0 && Proper(requests, |spaces|) && n <= |requests| && 1 <= p <= |spaces|
    ensures ActiveAt(spaces, frameCount, requests, n, p) <==> KeepsTo(spaces[p - 1], requests, n, p)
    decreases n
  {
    if n == 0 {
      ActiveAtFirst(spaces, frameCount, requests, p);
    } else {
      ActiveExactlyWhen(spaces, frameCount, requests, n - 1, p);
      NextActive(spaces, frameCount, requests, n - 1, p);
      KeepsToOneMore(spaces[p - 1], requests, n - 1, p);
    }
  }
}
