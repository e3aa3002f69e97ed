/**
 The first simulator under least-recently-used replacement: with one frame more, the pages in memory
 always include those in memory without it, so an extra frame never causes an extra load.
 */
module LruInclusion {
  import opened Totals
  import opened Paging

  // ---------- Pages rather than frames ----------

  /** When a resident page was last used. */
  ghost function Last(m: Memory, p: int, q: int): int
    requires Consistent(m) && Resident(m, p, q)
  {
    m.frames[Entry(m, p, q)].timestamp
  }

  ghost predicate Full(m: Memory) {
    forall f :: 0 <= f < |m.frames| ==> m.frames[f] != FREE
  }

  /** No two pages were last used at the same instant. */
  ghost predicate Distinct(m: Memory)
    requires Consistent(m)
  {
    forall p, q, a, b :: Resident(m, p, q) && Resident(m, a, b) && Last(m, p, q) == Last(m, a, b) ==> p == a && q == b
  }

  /** The pages of m are in m' too, last used at the same instants, and everything else in m' was last used earlier. */
  ghost predicate Within(m: Memory, m': Memory)
    requires Consistent(m) && Consistent(m')
  {
    && (forall p, q :: Resident(m, p, q) ==> Resident(m', p, q) && Last(m', p, q) == Last(m, p, q))
    && (forall p, q, a, b :: Resident(m', p, q) && !Resident(m, p, q) && Resident(m, a, b) ==>
          Last(m', p, q) < Last(m, a, b))
  }

  /** A use, said of pages: the page comes in or stays, and at most one other page leaves, the one used longest ago. */
  lemma UseOfPages(m: Memory, p: int, q: int, instant: int)
    requires Consistent(m) && HasPage(m, p, q)
    ensures var m' := Use(m, p, q, Entry(m, p, q), instant);
      && Consistent(m') && Resident(m', p, q) && Last(m', p, q) == instant
      && (forall a, b :: Resident(m', a, b) && (a != p || b != q) ==>
            Resident(m, a, b) && Last(m', a, b) == Last(m, a, b))
      && (forall a, b :: Resident(m, a, b) && !Resident(m', a, b) ==>
          Full(m) && !Resident(m, p, q) && forall c, d :: Resident(m, c, d) ==> Last(m, a, b) <= Last(m, c, d))
  {
    UseKeeps(m, p, q, instant);
    var m' := Use(m, p, q, Entry(m, p, q), instant);
    if Entry(m, p, q) == EMPTY_FRAME {
      AssignKeeps(m, Victim(m), p, q, instant);
    }
    forall a, b | Resident(m, a, b) && !Resident(m', a, b)
      ensures Full(m) && !Resident(m, p, q) && forall c, d :: Resident(m, c, d) ==> Last(m, a, b) <= Last(m, c, d)
    {
      UseEvictsOldest(m, p, q, instant, a, b);
    }
  }

  /** A full memory holds a page that a smaller memory does not. */
  lemma SomeExtra(m: Memory, m': Memory) returns (a: int, b: int)
    requires Consistent(m) && Consistent(m') && |m.frames| < |m'.frames| && Full(m')
    ensures Resident(m', a, b) && !Resident(m, a, b)
  {
    if f :| 0 <= f < |m'.frames| && !Resident(m, m'.frames[f].processId, m'.frames[f].pageNumber) {
      a, b := m'.frames[f].processId, m'.frames[f].pageNumber;
    } else {
      var places := seq(|m'.frames|, f requires 0 <= f < |m'.frames| =>
        if Resident(m, m'.frames[f].processId, m'.frames[f].pageNumber)
        then Entry(m, m'.frames[f].processId, m'.frames[f].pageNumber) else 0);
      NoDuplicatesSize(places, Below(|m.frames|));
      assert false;
    }
  }

  lemma UseDistinct(m: Memory, p: int, q: int, instant: int)
    requires Consistent(m) && HasPage(m, p, q) && Distinct(m) && UsedBefore(m, instant)
    ensures var m' := Use(m, p, q, Entry(m, p, q), instant);
      Consistent(m') && Distinct(m') && UsedBefore(m', instant + 1)
  {
    UseOfPages(m, p, q, instant);
    UseStamps(m, p, q, Entry(m, p, q), instant);
  }

  /** What the larger memory evicts, the smaller one did not hold. */
  lemma EvictsExtra(m: Memory, m': Memory, p: int, q: int, instant: int, a: int, b: int)
    requires Consistent(m) && Consistent(m') && |m.frames| < |m'.frames| && Within(m, m')
    requires HasPage(m', p, q) && Resident(m', a, b) && !Resident(Use(m', p, q, Entry(m', p, q), instant), a, b)
    ensures !Resident(m, a, b)
  {
    UseOfPages(m', p, q, instant);
    var c, d := SomeExtra(m, m');
  }

  /** What the smaller memory evicts, it had not used since anything it keeps. */
  lemma EvictsOlder(m: Memory, p: int, q: int, instant: int, a: int, b: int, c: int, d: int)
    requires Consistent(m) && HasPage(m, p, q) && Distinct(m) && UsedBefore(m, instant)
    requires Resident(m, a, b) && !Resident(Use(m, p, q, Entry(m, p, q), instant), a, b)
    ensures var n := Use(m, p, q, Entry(m, p, q), instant);
      Consistent(n) && (Resident(n, c, d) ==> Last(m, a, b) < Last(n, c, d))
  {
    UseOfPages(m, p, q, instant);
  }

  /** One use keeps the smaller memory within the larger. */
  lemma UseWithin(m: Memory, m': Memory, p: int, q: int, instant: int)
    requires Consistent(m) && Consistent(m') && |m.frames| < |m'.frames| && Within(m, m')
    requires HasPage(m, p, q) && HasPage(m', p, q) && Distinct(m) && UsedBefore(m, instant) && UsedBefore(m', instant)
    ensures var n, n' := Use(m, p, q, Entry(m, p, q), instant), Use(m', p, q, Entry(m', p, q), instant);
      Consistent(n) && Consistent(n') && Within(n, n')
  {
    UseOfPages(m, p, q, instant);
    UseOfPages(m', p, q, instant);
    var n, n' := Use(m, p, q, Entry(m, p, q), instant), Use(m', p, q, Entry(m', p, q), instant);
    forall a, b | Resident(n, a, b)
      ensures Resident(n', a, b) && Last(n', a, b) == Last(n, a, b)
    {
      if (a != p || b != q) && !Resident(n', a, b) {
        EvictsExtra(m, m', p, q, instant, a, b);
      }
    }
    forall a, b, c, d | Resident(n', a, b) && !Resident(n, a, b) && Resident(n, c, d)
      ensures Last(n', a, b) < Last(n, c, d)
    {
      if Resident(m, a, b) {
        EvictsOlder(m, p, q, instant, a, b, c, d);
      }
    }
  }

  lemma ClearOfPages(m: Memory, p: int)
    requires Consistent(m) && 1 <= p <= |m.tables|
    ensures var m' := ClearFrom(m, p, 0);
      && Consistent(m') && SameShape(m, m')
      && forall a, b :: Resident(m', a, b) <==> a != p && Resident(m, a, b)
    ensures var m' := ClearFrom(m, p, 0);
      Consistent(m') && forall a, b :: Resident(m', a, b) ==> Resident(m, a, b) && Last(m', a, b) == Last(m, a, b)
  {
    ClearKeeps(m, p, 0);
    var m' := ClearFrom(m, p, 0);
    assert forall a, b {:trigger HasPage(m', a, b)} :: HasPage(m', a, b) <==> HasPage(m, a, b);
  }

  lemma ClearWithin(m: Memory, m': Memory, p: int)
    requires Consistent(m) && Consistent(m') && Within(m, m') && 1 <= p <= |m.tables| && 1 <= p <= |m'.tables|
    ensures Consistent(ClearFrom(m, p, 0)) && Consistent(ClearFrom(m', p, 0))
    ensures Within(ClearFrom(m, p, 0), ClearFrom(m', p, 0))
  {
    ClearOfPages(m, p);
    ClearOfPages(m', p);
  }

  lemma ClearDistinct(m: Memory, p: int, instant: int)
    requires Consistent(m) && Distinct(m) && UsedBefore(m, instant) && instant >= 0 && 1 <= p <= |m.tables|
    ensures Consistent(ClearFrom(m, p, 0)) && Distinct(ClearFrom(m, p, 0))
      && UsedBefore(ClearFrom(m, p, 0), instant + 1)
  {
    ClearOfPages(m, p);
    ClearKeeps(m, p, 0);
  }

  // ---------- The simulation ----------

  datatype Activity = ACTIVE | SEGFAULT | INACTIVE

  /** One access: a process and an address. */
  datatype Request = Request(pid: int, address: int)

  datatype Simulation = Simulation(states: seq<Activity>, memory: Memory)

  ghost predicate Sound(s: Simulation, spaces: seq<nat>) {
    && |s.states| == |s.memory.tables| == |spaces| && Consistent(s.memory)
    && forall i :: 0 <= i < |spaces| ==> |s.memory.tables[i]| == PageCount(spaces[i])
  }

  predicate Proper(requests: seq<Request>, processes: nat) {
    forall i :: 0 <= i < |requests| ==> 1 <= requests[i].pid <= processes && requests[i].address >= 0
  }

  predicate InSpace(spaces: seq<nat>, r: Request)
    requires 1 <= r.pid <= |spaces|
  {
    r.address < spaces[r.pid - 1]
  }

  /** Accesses of inactive processes are skipped; an address outside the space ends the process. */
  function Serve(s: Simulation, spaces: seq<nat>, r: Request, instant: int): Simulation
    requires Sound(s, spaces) && 1 <= r.pid <= |spaces| && r.address >= 0
  {
    if s.states[r.pid - 1] != ACTIVE then s
    else if !InSpace(spaces, r) then
      Simulation(s.states[r.pid - 1 := SEGFAULT], ClearFrom(s.memory, r.pid, 0))
    else
      var page := r.address / FRAME_SIZE;
      s.(memory := Use(s.memory, r.pid, page, Entry(s.memory, r.pid, page), instant))
  }

  /** Printing an instant turns faulted processes into inactive ones. */
  function Settled(states: seq<Activity>): (r: seq<Activity>)
    ensures |r| == |states|
    ensures forall i :: 0 <= i < |r| ==> r[i] != SEGFAULT
    ensures forall i :: 0 <= i < |r| ==> if states[i] == SEGFAULT then r[i] == INACTIVE else r[i] == states[i]
  {
    seq(|states|, i requires 0 <= i < |states| => if states[i] == SEGFAULT then INACTIVE else states[i])
  }

  function Step(s: Simulation, spaces: seq<nat>, r: Request, instant: int): Simulation
    requires Sound(s, spaces) && 1 <= r.pid <= |spaces| && r.address >= 0
  {
    var served := Serve(s, spaces, r, instant);
    served.(states := Settled(served.states))
  }

  /** Whether serving the request brings a page in. */
  ghost predicate Loads(s: Simulation, spaces: seq<nat>, r: Request)
    requires Sound(s, spaces) && 1 <= r.pid <= |spaces| && r.address >= 0
  {
    s.states[r.pid - 1] == ACTIVE && InSpace(spaces, r) && !Resident(s.memory, r.pid, r.address / FRAME_SIZE)
  }

  /** No page in memory, every process active. */
  function Beginning(spaces: seq<nat>, frameCount: nat): Simulation {
    Simulation(seq(|spaces|, _ => ACTIVE),
               Memory(seq(|spaces|, i requires 0 <= i < |spaces| => seq(PageCount(spaces[i]), _ => EMPTY_FRAME)),
                      seq(frameCount, _ => FREE)))
  }

  /**
   What every instant keeps; the stamps are quantified over a dummy so that they are unfolded only
   where asked for.
   */
  ghost predicate Timely(s: Simulation, spaces: seq<nat>, instant: int) {
    Sound(s, spaces) && forall k: nat :: Stamped(s.memory, instant, k)
  }

  ghost predicate Stamped(m: Memory, instant: int, k: nat)
    requires Consistent(m)
  {
    // one expression, so that the verifier need not prove its parts one by one
    var stamped := Distinct(m) && UsedBefore(m, instant);
    stamped
  }

  /** The same processes active, and the smaller memory within the larger. */
  ghost predicate Paired(s: Simulation, s': Simulation, spaces: seq<nat>, instant: int) {
    // one expression, so that the verifier need not prove its parts one by one
    var paired := Timely(s, spaces, instant) && Timely(s', spaces, instant) && s.states == s'.states
      && |s.memory.frames| < |s'.memory.frames|
      && forall k: nat :: Includes(s.memory, s'.memory, k);
    paired
  }

  ghost predicate Includes(m: Memory, m': Memory, k: nat)
    requires Consistent(m) && Consistent(m')
  {
    // one expression, so that the verifier need not prove its parts one by one
    var within := Within(m, m');
    within
  }

  lemma StepKeeps(s: Simulation, spaces: seq<nat>, r: Request, instant: nat)
    requires Timely(s, spaces, instant) && 1 <= r.pid <= |spaces| && r.address >= 0
    ensures Timely(Step(s, spaces, r, instant), spaces, instant + 1)
    ensures |Step(s, spaces, r, instant).memory.frames| == |s.memory.frames|
  {
    assert Stamped(s.memory, instant, 0);
    if s.states[r.pid - 1] == ACTIVE {
      if InSpace(spaces, r) {
        UseKeeps(s.memory, r.pid, r.address / FRAME_SIZE, instant);
        UseDistinct(s.memory, r.pid, r.address / FRAME_SIZE, instant);
      } else {
        ClearOfPages(s.memory, r.pid);
        ClearDistinct(s.memory, r.pid, instant);
      }
    }
  }

  /** One request served by both memories: the same faults, and the smaller memory still within the larger. */
  lemma StepWithin(s: Simulation, s': Simulation, spaces: seq<nat>, r: Request, instant: nat)
    requires Paired(s, s', spaces, instant) && 1 <= r.pid <= |spaces| && r.address >= 0
    ensures Paired(Step(s, spaces, r, instant), Step(s', spaces, r, instant), spaces, instant + 1)
  {
    assert Includes(s.memory, s'.memory, 0) && Stamped(s.memory, instant, 0) && Stamped(s'.memory, instant, 0);
    StepKeeps(s, spaces, r, instant);
    StepKeeps(s', spaces, r, instant);
    if s.states[r.pid - 1] == ACTIVE {
      if InSpace(spaces, r) {
        UseWithin(s.memory, s'.memory, r.pid, r.address / FRAME_SIZE, instant);
      } else {
        ClearWithin(s.memory, s'.memory, r.pid);
      }
    }
  }

  /** The state when instant n begins. */
  ghost function At(spaces: seq<nat>, frameCount: nat, requests: seq<Request>, n: nat): (s: Simulation)
    requires frameCount > 0 && Proper(requests, |spaces|) && n <= |requests|
    ensures Timely(s, spaces, n) && |s.memory.frames| == frameCount
    decreases n
  {
    if n == 0 then Beginning(spaces, frameCount)
    else
      var s := At(spaces, frameCount, requests, n - 1);
      StepKeeps(s, spaces, requests[n - 1], n - 1);
      Step(s, spaces, requests[n - 1], n - 1)
  }

  /** Which requests bring a page in. */
  ghost function Loading(spaces: seq<nat>, frameCount: nat, requests: seq<Request>): nat -> bool
    requires frameCount > 0 && Proper(requests, |spaces|)
  {
    (n: nat) => n < |requests| && Loads(At(spaces, frameCount, requests, n), spaces, requests[n])
  }

  ghost function Count(f: nat -> bool, n: nat): nat {
    if n == 0 then 0 else Count(f, n - 1) + if f(n - 1) then 1 else 0
  }

  /** How many of the first n requests bring a page in. */
  ghost function LoadCount(spaces: seq<nat>, frameCount: nat, requests: seq<Request>, n: nat): nat
    requires frameCount > 0 && Proper(requests, |spaces|) && n <= |requests|
  {
    Count(Loading(spaces, frameCount, requests), n)
  }

  lemma {:induction false} CountLess(f: nat -> bool, g: nat -> bool, n: nat)
    requires forall i: nat :: i < n && f(i) ==> g(i)
    ensures Count(f, n) <= Count(g, n)
  {
    if n > 0 {
      CountLess(f, g, n - 1);
    }
  }

  lemma PairedAtStart(spaces: seq<nat>, fewer: nat, more: nat)
    requires 0 < fewer < more
    ensures Paired(Beginning(spaces, fewer), Beginning(spaces, more), spaces, 0)
  {
  }

  lemma PairedNext(spaces: seq<nat>, fewer: nat, more: nat, requests: seq<Request>, n: nat)
    requires 0 < fewer < more && Proper(requests, |spaces|) && n < |requests|
    requires Paired(At(spaces, fewer, requests, n), At(spaces, more, requests, n), spaces, n)
    ensures Paired(At(spaces, fewer, requests, n + 1), At(spaces, more, requests, n + 1), spaces, n + 1)
  {
    var s, s' := At(spaces, fewer, requests, n), At(spaces, more, requests, n);
    StepWithin(s, s', spaces, requests[n], n);
  }

  lemma {:induction false} PairedAt(spaces: seq<nat>, fewer: nat, more: nat, requests: seq<Request>, n: nat)
    requires 0 < fewer < more && Proper(requests, |spaces|) && n <= |requests|
    ensures Paired(At(spaces, fewer, requests, n), At(spaces, more, requests, n), spaces, n)
    decreases n
  {
    if n == 0 {
      PairedAtStart(spaces, fewer, more);
      assert At(spaces, fewer, requests, n) == Beginning(spaces, fewer);
      assert At(spaces, more, requests, n) == Beginning(spaces, more);
    } else {
      PairedAt(spaces, fewer, more, requests, n - 1);
      PairedNext(spaces, fewer, more, requests, n - 1);
    }
  }

  /** At every instant, the pages in fewer frames are among those in more. */
  lemma Inclusion(spaces: seq<nat>, fewer: nat, more: nat, requests: seq<Request>, n: nat)
    requires 0 < fewer <= more && Proper(requests, |spaces|) && n <= |requests|
    ensures var s, s' := At(spaces, fewer, requests, n), At(spaces, more, requests, n);
      s.states == s'.states && forall p, q :: Resident(s.memory, p, q) ==> Resident(s'.memory, p, q)
  {
    if fewer < more {
      PairedAt(spaces, fewer, more, requests, n);
      assert Includes(At(spaces, fewer, requests, n).memory, At(spaces, more, requests, n).memory, 0);
    }
  }

  lemma NoLoadAlone(spaces: seq<nat>, fewer: nat, more: nat, requests: seq<Request>, n: nat)
    requires 0 < fewer <= more && Proper(requests, |spaces|) && n < |requests|
    ensures Loading(spaces, more, requests)(n) ==> Loading(spaces, fewer, requests)(n)
  {
    Inclusion(spaces, fewer, more, requests, n);
  }

  /** More frames never cause more loads. */
  lemma MoreFramesLoadLess(spaces: seq<nat>, fewer: nat, more: nat, requests: seq<Request>, n: nat)
    requires 0 < fewer <= more && Proper(requests, |spaces|) && n <= |requests|
    ensures LoadCount(spaces, more, requests, n) <= LoadCount(spaces, fewer, requests, n)
  {
    forall i: nat | i < n
      ensures Loading(spaces, more, requests)(i) ==> Loading(spaces, fewer, requests)(i)
    {
      NoLoadAlone(spaces, fewer, more, requests, i);
    }
    CountLess(Loading(spaces, more, requests), Loading(spaces, fewer, requests), n);
  }
}
