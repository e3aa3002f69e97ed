/**
 What each instruction code does to the state, said apart from the functions the simulator is made of.
 */
module Instructions {
  import opened Paging
  import opened Scheduling

  /** Nothing has changed but the running process, which is now c. */
  ghost predicate Becomes(s: State, t: State, c: Control)
    requires Known(s, s.running)
  {
    t == s.(procs := s.procs[s.running - 1 := c])
  }

  /** The running process goes on at this position, or faults if its program has no instruction there. */
  ghost predicate GoesTo(s: State, t: State, position: int)
    requires Known(s, s.running)
  {
    var c := Get(s, s.running);
    Becomes(s, t, if 0 <= position < |c.instructions| then c.(current := position) else c.(status := SIG_ILL))
  }

  /** The running process is off the processor and heads the blocked list, with this time to wait. */
  ghost predicate Sleeps(s: State, t: State, time: int)
    requires Known(s, s.running)
  {
    var c := Get(s, s.running).(status := BLOCKED, time := time);
    t == s.(procs := s.procs[s.running - 1 := c], running := 0, blocked := [s.running] + s.blocked)
  }

  /** The running process is off the processor and heads the exiting list, for EXIT_TIME. */
  ghost predicate Exits(s: State, t: State)
    requires Known(s, s.running)
  {
    var c := Get(s, s.running).(status := EXIT, time := EXIT_TIME);
    t == s.(procs := s.procs[s.running - 1 := c], running := 0, exiting := [s.running] + s.exiting)
  }

  /**
   One more process heads the new list, at the start of this program. It has the pages of its
   address space, or one if that is empty, none of them in memory; all other pages and the frames are
   as they were.
   */
  ghost predicate Starts(s: State, t: State, program: Program) {
    var id := |s.procs| + 1;
    && t == s.(procs := s.procs + [Control(NEW, NEW_TIME, 0, program.instructions, program.addressSpace)],
               created := [id] + s.created, active := s.active + 1, memory := t.memory)
    && t.memory.frames == s.memory.frames
    && (forall p, q {:trigger HasPage(t.memory, p, q)} :: HasPage(t.memory, p, q) <==>
         HasPage(s.memory, p, q) || (p == id && (q == 0 || 0 < q * FRAME_SIZE < program.addressSpace)))
    && (forall p, q {:trigger HasPage(t.memory, p, q)} :: HasPage(t.memory, p, q) ==>
         Entry(t.memory, p, q) == if HasPage(s.memory, p, q) then Entry(s.memory, p, q) else EMPTY_FRAME)
  }

  /** Nothing has changed but the memory. */
  ghost predicate OnlyMemory(s: State, t: State) { t == s.(memory := t.memory) && Consistent(t.memory) }

  /** The running process has used an address outside its space. */
  ghost predicate Faults(s: State, t: State)
    requires Known(s, s.running)
  {
    Becomes(s, t, Get(s, s.running).(status := SIG_SEGV))
  }

  /** A load or store: a fault outside the address space; inside it, the page is brought in or stamped again. */
  ghost predicate Accesses(s: State, t: State, address: int)
    requires Known(s, s.running) && Consistent(s.memory)
  {
    if address >= Get(s, s.running).addressSpace then Faults(s, t)
    else
      && OnlyMemory(s, t)
      && (forall q :: PageOf(q, address) ==> JustUsed(t.memory, s.running, q, s.instant))
      && (forall p, q {:trigger Resident(s.memory, p, q)} :: Resident(s.memory, p, q) ==>
           KeptUnlessOldest(s.memory, t.memory, p, q))
  }

  /** A copy or exchange between two addresses: a fault unless both lie inside; then both pages end up in memory. */
  ghost predicate Copies(s: State, t: State, address1: int, address2: int)
    requires Known(s, s.running)
  {
    if address1 >= Get(s, s.running).addressSpace || address2 >= Get(s, s.running).addressSpace then Faults(s, t)
    else
      && OnlyMemory(s, t)
      && (forall q :: PageOf(q, address1) || PageOf(q, address2) ==> JustUsed(t.memory, s.running, q, s.instant))
  }

  predicate OtherCode(instruction: int) {
    || instruction == 200 || 300 <= instruction <= 999 || 16000 <= instruction <= 999999999
    || instruction > 2109999999
  }

  /** What a fetched instruction does; the process is already at the position after it. */
  ghost predicate Performs(s: State, programs: seq<Program>, instruction: int, t: State)
    requires Known(s, s.running) && Consistent(s.memory)
  {
    var position := Get(s, s.running).current - 1;
    && (instruction < 0 ==> Sleeps(s, t, -instruction))
    && (instruction == 0 ==> Exits(s, t))
    && (1 <= instruction <= 100 ==> GoesTo(s, t, position + instruction % 100))
    && (101 <= instruction <= 199 ==> GoesTo(s, t, position - (instruction - 101) - 1))
    && (201 <= instruction <= 299 ==>
         if |s.procs| < MAX_PROCESSES && instruction - 200 <= |programs|
         then Starts(s, t, programs[instruction - 201]) else t == s)
    && (1000 <= instruction <= 15999 ==> Accesses(s, t, instruction - 1000))
    && (forall a, b :: 0 <= a <= 11099 && 0 <= b <= 99999 && instruction == 1000000000 + 100000 * a + b ==>
         Copies(s, t, a, b))
    && (OtherCode(instruction) ==> t == s)
  }

  /** The running process takes its next instruction and performs it; past the end of its program it exits. */
  ghost predicate Works(s: State, programs: seq<Program>, t: State)
    requires Known(s, s.running) && Consistent(s.memory)
  {
    var c := Get(s, s.running);
    if c.current >= |c.instructions| then Exits(s, t)
    else Performs(s.(procs := s.procs[s.running - 1 := c.(current := c.current + 1)]), programs,
                  c.instructions[c.current], t)
  }

  // ---------- The functions do this ----------

  lemma CreateStarts(s: State, programs: seq<Program>, number: int)
    requires Paged(s) && 1 <= number <= |programs| && |s.procs| < MAX_PROCESSES
    ensures Starts(s, Create(s, programs, number), programs[number - 1])
  {
    var t := Create(s, programs, number);
    var id, space := |s.procs| + 1, programs[number - 1].addressSpace;
    NewTable(s.memory, t.memory.tables[|s.procs|]);
    forall p, q {:trigger HasPage(t.memory, p, q)}
      ensures HasPage(t.memory, p, q) <==>
        HasPage(s.memory, p, q) || (p == id && (q == 0 || 0 < q * FRAME_SIZE < space))
    {
      assert 0 <= q < PageCount(space) <==> q == 0 || 0 < q * FRAME_SIZE < space;
    }
  }

  lemma LoadStoreAccesses(s: State, address: int)
    requires Paged(s) && Known(s, s.running) && address >= 0
    ensures Accesses(s, LoadStore(s, address), address)
  {
    if address < Get(s, s.running).addressSpace {
      var p, page, t := s.running, address / FRAME_SIZE, LoadStore(s, address);
      AddressHasPage(s, p, address);
      UseKeeps(s.memory, p, page, s.instant);
      forall q | PageOf(q, address)
        ensures JustUsed(t.memory, p, q, s.instant)
      {
        assert q == page;
      }
      forall a, b {:trigger Resident(s.memory, a, b)} | Resident(s.memory, a, b)
        ensures KeptUnlessOldest(s.memory, t.memory, a, b)
      {
        UseKeepsOthers(s.memory, p, page, s.instant, a, b);
      }
    }
  }

  /** A use gives frames no other new stamp than the instant. */
  lemma UseTimes(m: Memory, p: int, q: int, entry: int, instant: int)
    requires Consistent(m) && HasPage(m, p, q) && (entry == EMPTY_FRAME || 0 <= entry < |m.frames|)
    ensures Restamped(m, Use(m, p, q, entry, instant), instant)
  {
  }

  ghost predicate Restamped(m: Memory, m': Memory, instant: int) {
    && |m'.frames| == |m.frames|
    && forall f :: 0 <= f < |m.frames| ==> m'.frames[f] == m.frames[f] || m'.frames[f].timestamp == instant
  }

  lemma StampLasts(m: Memory, m': Memory, p: int, q: int, instant: int)
    requires Consistent(m) && Consistent(m') && Restamped(m, m', instant)
    requires JustUsed(m, p, q, instant) && Resident(m', p, q)
    ensures JustUsed(m', p, q, instant)
  {
    assert Owns(m'.frames[Entry(m', p, q)], p, q);
  }

  /** Both pages end up in memory, with the stamp of the instant. */
  lemma BothJustUsed(m: Memory, p: int, q1: int, q2: int, instant: int)
    requires |m.frames| >= 2
    requires Consistent(m) && HasPage(m, p, q1) && HasPage(m, p, q2) && UsedBefore(m, instant)
    ensures var m' := UseBoth(m, p, q1, q2, instant);
      Consistent(m') && JustUsed(m', p, q1, instant) && JustUsed(m', p, q2, instant)
  {
    var entry1, entry2, m' := Entry(m, p, q1), Entry(m, p, q2), UseBoth(m, p, q1, q2, instant);
    UseBothKeeps(m, p, q1, q2, instant);
    BothResident(m, p, q1, q2, instant);
    StampKeeps(m, entry2, instant);
    var protected := Protect(m, entry1, entry2, instant);
    UseKeeps(protected, p, q1, instant);
    var once := Use(protected, p, q1, entry1, instant);
    if q1 != q2 {
      UseTimes(once, p, q2, entry2, instant);
      StampLasts(once, m', p, q1, instant);
      if entry2 == EMPTY_FRAME {
        SecondUseSpares(m, p, q1, q2, instant);
      } else {
        FirstUseSpares(m, p, q1, q2, instant);
      }
      UseKeeps(once, p, q2, instant);
    }
  }

  /** The two addresses are the digits of the code. */
  lemma AddressesDecoded(a: int, b: int)
    requires 0 <= a <= 11099 && 0 <= b <= 99999
    ensures var instruction := 1000000000 + 100000 * a + b;
      TypeOf(instruction).SWAP_MEMCPY? && FirstAddress(instruction) == a && SecondAddress(instruction) == b
  {
  }

  lemma PagesAre(address: int)
    ensures forall q :: PageOf(q, address) ==> q == address / FRAME_SIZE
  {
  }

  lemma SwapCopyCopies(s: State, a: int, b: int)
    requires Paged(s) && Known(s, s.running) && UsedBefore(s.memory, s.instant)
    requires 0 <= a <= 11099 && 0 <= b <= 99999 && TypeOf(1000000000 + 100000 * a + b).SWAP_MEMCPY?
    ensures Copies(s, SwapCopy(s, 1000000000 + 100000 * a + b), a, b)
  {
    AddressesDecoded(a, b);
    if a < Get(s, s.running).addressSpace && b < Get(s, s.running).addressSpace {
      AddressHasPage(s, s.running, a);
      AddressHasPage(s, s.running, b);
      BothJustUsed(s.memory, s.running, a / FRAME_SIZE, b / FRAME_SIZE, s.instant);
      PagesAre(a);
      PagesAre(b);
    }
  }

  lemma LoadStorePerforms(s: State, programs: seq<Program>, instruction: int)
    requires Paged(s) && Known(s, s.running) && TypeOf(instruction).LOAD_STORE?
    ensures Performs(s, programs, instruction, LoadStore(s, instruction - 1000))
  {
    LoadStoreAccesses(s, instruction - 1000);
  }

  lemma SwapCopyPerforms(s: State, programs: seq<Program>, instruction: int)
    requires Paged(s) && Known(s, s.running) && UsedBefore(s.memory, s.instant) && TypeOf(instruction).SWAP_MEMCPY?
    ensures Performs(s, programs, instruction, SwapCopy(s, instruction))
  {
    forall a, b | 0 <= a <= 11099 && 0 <= b <= 99999 && instruction == 1000000000 + 100000 * a + b
      ensures Copies(s, SwapCopy(s, instruction), a, b)
    {
      SwapCopyCopies(s, a, b);
    }
  }

  lemma CreatePerforms(s: State, programs: seq<Program>, instruction: int)
    requires Paged(s) && Known(s, s.running) && TypeOf(instruction).EXEC?
    ensures Performs(s, programs, instruction, Create(s, programs, instruction - 200))
  {
    if |s.procs| < MAX_PROCESSES && instruction - 200 <= |programs| {
      CreateStarts(s, programs, instruction - 200);
    }
  }

  lemma JumpsPerform(s: State, programs: seq<Program>, instruction: int)
    requires Paged(s) && Known(s, s.running) && 1 <= instruction <= 199
    ensures Performs(s, programs, instruction, Execute(s, programs, instruction))
  {
  }

  lemma OthersPerform(s: State, programs: seq<Program>, instruction: int)
    requires Paged(s) && Known(s, s.running)
    requires var kind := TypeOf(instruction); kind.IO? || kind.HALT? || kind.ANY?
    ensures Performs(s, programs, instruction, Execute(s, programs, instruction))
  {
  }

  /** Every instruction does what its code says. */
  lemma ExecutePerforms(s: State, programs: seq<Program>, instruction: int)
    requires Paged(s) && Known(s, s.running) && UsedBefore(s.memory, s.instant)
    ensures Performs(s, programs, instruction, Execute(s, programs, instruction))
  {
    match TypeOf(instruction)
    case LOAD_STORE => LoadStorePerforms(s, programs, instruction);
    case SWAP_MEMCPY => SwapCopyPerforms(s, programs, instruction);
    case EXEC => CreatePerforms(s, programs, instruction);
    case JUMPB | JUMPF => JumpsPerform(s, programs, instruction);
    case IO | HALT | ANY => OthersPerform(s, programs, instruction);
  }

  /** Whoever runs takes its next instruction and does what it says. */
  lemma WorkedWorks(s: State, programs: seq<Program>)
    requires Core(s) && s.running != 0 && UsedBefore(s.memory, s.instant)
    ensures Known(s, s.running) && Consistent(s.memory) && Works(s, programs, Worked(s, programs))
  {
    Open(s);
    FetchKeeps(s);
    Open(Fetch(s).0);
    ExecutePerforms(Fetch(s).0, programs, Fetch(s).1);
  }
}
