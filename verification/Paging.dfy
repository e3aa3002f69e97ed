/**
 Paged memory of the two simulators: frames stamped with the instant of their last use, page
 tables pointing into them, and least-recently-used replacement.
 */
module Paging {

  const MEMORY_SIZE := 21000
  const FRAME_SIZE := 3000
  const FRAME_COUNT := MEMORY_SIZE / FRAME_SIZE
  const EMPTY_FRAME := -1
  const INT_MAX := 0x7FFF_FFFF

  datatype Frame = Frame(processId: int, pageNumber: int, timestamp: int)

  const FREE := Frame(EMPTY_FRAME, EMPTY_FRAME, EMPTY_FRAME)

  /** Table p - 1 belongs to process p. */
  datatype Memory = Memory(tables: seq<seq<int>>, frames: seq<Frame>)

  /** Pages needed for the address space; the division truncates, so an empty space still gets one. */
  function PageCount(addressSpace: nat): nat {
    if addressSpace == 0 then 1 else (addressSpace - 1) / FRAME_SIZE + 1
  }

  predicate HasPage(m: Memory, p: int, q: int) {
    1 <= p <= |m.tables| && 0 <= q < |m.tables[p - 1]|
  }

  function Entry(m: Memory, p: int, q: int): int
    requires HasPage(m, p, q)
  {
    m.tables[p - 1][q]
  }

  predicate Owns(frame: Frame, p: int, q: int) { frame.processId == p && frame.pageNumber == q }

  /** A frame records page q of process p exactly when that process's table leads to it. */
  ghost predicate Consistent(m: Memory) {
    && |m.frames| > 0
    && (forall p, q {:trigger HasPage(m, p, q)} :: HasPage(m, p, q) && Entry(m, p, q) != EMPTY_FRAME ==>
        0 <= Entry(m, p, q) < |m.frames| && Owns(m.frames[Entry(m, p, q)], p, q))
    && (forall f :: 0 <= f < |m.frames| && m.frames[f] != FREE ==>
        var frame := m.frames[f];
        HasPage(m, frame.processId, frame.pageNumber) && Entry(m, frame.processId, frame.pageNumber) == f)
  }

  ghost predicate Resident(m: Memory, p: int, q: int) {
    HasPage(m, p, q) && Entry(m, p, q) != EMPTY_FRAME
  }

  /** No frame has been used since the given instant began. */
  ghost predicate UsedBefore(m: Memory, instant: int) {
    forall f :: 0 <= f < |m.frames| ==> m.frames[f].timestamp < instant
  }

  // ---------- The operations as functions ----------

  /** The first free frame from i on, or -1. */
  function FreeFrom(frames: seq<Frame>, i: nat): (f: int)
    requires i <= |frames|
    ensures f == -1 || i <= f < |frames|
    ensures f == -1 ==> forall g :: i <= g < |frames| ==> frames[g].processId != EMPTY_FRAME
    ensures f != -1 ==> frames[f].processId == EMPTY_FRAME
    ensures f != -1 ==> forall g :: i <= g < f ==> frames[g].processId != EMPTY_FRAME
    decreases |frames| - i
  {
    if i == |frames| then -1
    else if frames[i].processId == EMPTY_FRAME then i
    else FreeFrom(frames, i + 1)
  }

  /** The first of the least recently used frames among the first n, or -1 if all those are free. */
  function Oldest(frames: seq<Frame>, n: nat): (f: int)
    requires n <= |frames|
    ensures f == -1 || (0 <= f < n && frames[f].processId != EMPTY_FRAME)
    ensures f == -1 ==> forall g :: 0 <= g < n ==> frames[g].processId == EMPTY_FRAME
    ensures f != -1 ==> forall g :: 0 <= g < n && frames[g].processId != EMPTY_FRAME ==>
      frames[f].timestamp <= frames[g].timestamp && (g < f ==> frames[f].timestamp < frames[g].timestamp)
  {
    if n == 0 then -1
    else
      var f := Oldest(frames, n - 1);
      if frames[n - 1].processId != EMPTY_FRAME && (f == -1 || frames[n - 1].timestamp < frames[f].timestamp)
      then n - 1 else f
  }

  function SetEntry(m: Memory, p: int, q: int, f: int): Memory
    requires HasPage(m, p, q)
  {
    m.(tables := m.tables[p - 1 := m.tables[p - 1][q := f]])
  }

  function SetFrame(m: Memory, f: int, frame: Frame): Memory
    requires 0 <= f < |m.frames|
  {
    m.(frames := m.frames[f := frame])
  }

  function Stamp(m: Memory, f: int, instant: int): Memory
    requires 0 <= f < |m.frames|
  {
    SetFrame(m, f, m.frames[f].(timestamp := instant))
  }

  /** The page in frame f, if any, gives way to page q of process p. */
  function Assign(m: Memory, f: int, p: int, q: int, instant: int): Memory
    requires HasPage(m, p, q) && 0 <= f < |m.frames|
    requires m.frames[f].processId == EMPTY_FRAME || HasPage(m, m.frames[f].processId, m.frames[f].pageNumber)
  {
    var held := m.frames[f];
    var dropped := if held.processId == EMPTY_FRAME then m
      else SetEntry(m, held.processId, held.pageNumber, EMPTY_FRAME);
    SetEntry(SetFrame(dropped, f, Frame(p, q, instant)), p, q, f)
  }

  /** Where a page that is not resident goes. */
  function Victim(m: Memory): (f: int)
    requires |m.frames| > 0
    ensures 0 <= f < |m.frames|
  {
    var free := FreeFrom(m.frames, 0);
    if free != -1 then free else Oldest(m.frames, |m.frames|)
  }

  /** One use of page q by process p at the given instant, its table entry having been read as entry. */
  function Use(m: Memory, p: int, q: int, entry: int, instant: int): Memory
    requires Consistent(m) && HasPage(m, p, q) && (entry == EMPTY_FRAME || 0 <= entry < |m.frames|)
  {
    if entry != EMPTY_FRAME then Stamp(m, entry, instant) else Assign(m, Victim(m), p, q, instant)
  }

  /** The first stamp of a two-address instruction saves the second page from the first replacement. */
  function Protect(m: Memory, entry1: int, entry2: int, instant: int): Memory
    requires entry2 == EMPTY_FRAME || 0 <= entry2 < |m.frames|
  {
    if entry1 == EMPTY_FRAME && entry2 != EMPTY_FRAME then Stamp(m, entry2, instant) else m
  }

  /** A two-address instruction uses both pages, or the one page both addresses lie in. */
  function UseBoth(m: Memory, p: int, q1: int, q2: int, instant: int): Memory
    requires Consistent(m) && HasPage(m, p, q1) && HasPage(m, p, q2)
  {
    var entry1, entry2 := Entry(m, p, q1), Entry(m, p, q2);
    StampKeeps(m, entry2, instant);
    var protected := Protect(m, entry1, entry2, instant);
    UseKeeps(protected, p, q1, instant);
    var once := Use(protected, p, q1, entry1, instant);
    if q1 == q2 then once else Use(once, p, q2, entry2, instant)
  }

  /** Frees the frames of pages i and on of process p. */
  function ClearFrom(m: Memory, p: int, i: nat): Memory
    requires Consistent(m) && 1 <= p <= |m.tables| && i <= |m.tables[p - 1]|
    decreases |m.tables[p - 1]| - i
  {
    if i == |m.tables[p - 1]| then m
    else if m.tables[p - 1][i] == EMPTY_FRAME then ClearFrom(m, p, i + 1)
    else
      assert HasPage(m, p, i);
      FreeKeeps(m, p, i);
      ClearFrom(SetFrame(SetEntry(m, p, i, EMPTY_FRAME), Entry(m, p, i), FREE), p, i + 1)
  }

  // ---------- Every operation keeps frames and tables consistent ----------

  ghost predicate SameShape(m: Memory, m': Memory) {
    && |m.tables| == |m'.tables| && |m.frames| == |m'.frames|
    && (forall i :: 0 <= i < |m.tables| ==> |m.tables[i]| == |m'.tables[i]|)
  }

  lemma StampKeeps(m: Memory, f: int, instant: int)
    requires Consistent(m) && (f == EMPTY_FRAME || 0 <= f < |m.frames|)
    ensures f != EMPTY_FRAME && m.frames[f] != FREE ==> Consistent(Stamp(m, f, instant))
  {
    if f != EMPTY_FRAME && m.frames[f] != FREE {
      var m' := Stamp(m, f, instant);
      assert forall p, q {:trigger HasPage(m', p, q)} :: HasPage(m', p, q) ==> HasPage(m, p, q);
    }
  }

  lemma FreeKeeps(m: Memory, p: int, q: int)
    requires Consistent(m) && Resident(m, p, q)
    ensures var m' := SetFrame(SetEntry(m, p, q, EMPTY_FRAME), Entry(m, p, q), FREE);
      && Consistent(m') && SameShape(m, m') && Entry(m', p, q) == EMPTY_FRAME
      && (forall a, b {:trigger HasPage(m, a, b)} :: HasPage(m, a, b) && (a != p || b != q) ==>
          Entry(m', a, b) == Entry(m, a, b))
  {
    var m' := SetFrame(SetEntry(m, p, q, EMPTY_FRAME), Entry(m, p, q), FREE);
    assert forall a, b {:trigger HasPage(m', a, b)} :: HasPage(m', a, b) ==> HasPage(m, a, b);
  }

  lemma FillKeeps(m: Memory, f: int, p: int, q: int, instant: int)
    requires Consistent(m) && HasPage(m, p, q) && Entry(m, p, q) == EMPTY_FRAME
    requires 0 <= f < |m.frames| && m.frames[f] == FREE
    ensures var m' := Assign(m, f, p, q, instant);
      && Consistent(m') && SameShape(m, m') && Entry(m', p, q) == f
      && (forall a, b {:trigger HasPage(m, a, b)} :: HasPage(m, a, b) && (a != p || b != q) ==>
          Entry(m', a, b) == Entry(m, a, b))
  {
    var m' := Assign(m, f, p, q, instant);
    assert forall a, b {:trigger HasPage(m', a, b)} :: HasPage(m', a, b) ==> HasPage(m, a, b);
  }

  /** Filling a frame that holds a page is freeing it first. */
  lemma AssignInTwo(m: Memory, f: int, p: int, q: int, instant: int)
    requires Consistent(m) && HasPage(m, p, q) && 0 <= f < |m.frames| && m.frames[f] != FREE
    ensures var held := m.frames[f];
      HasPage(m, held.processId, held.pageNumber) &&
      var freed := SetFrame(SetEntry(m, held.processId, held.pageNumber, EMPTY_FRAME), f, FREE);
      && HasPage(freed, p, q)
      && Assign(m, f, p, q, instant) == Assign(freed, f, p, q, instant)
  {
    var held := m.frames[f];
    var freed := SetFrame(SetEntry(m, held.processId, held.pageNumber, EMPTY_FRAME), f, FREE);
    assert freed.frames[f := Frame(p, q, instant)] == m.frames[f := Frame(p, q, instant)];
  }

  /** The new page is in the frame; the page that was there, if any, is out; nothing else moved. */
  lemma AssignKeeps(m: Memory, f: int, p: int, q: int, instant: int)
    requires Consistent(m) && HasPage(m, p, q) && Entry(m, p, q) == EMPTY_FRAME && 0 <= f < |m.frames|
    ensures var m' := Assign(m, f, p, q, instant);
      && Consistent(m') && SameShape(m, m') && Entry(m', p, q) == f
      && (forall a, b {:trigger HasPage(m, a, b)} :: HasPage(m, a, b) && (a != p || b != q) ==>
          Entry(m', a, b) == if Entry(m, a, b) == f then EMPTY_FRAME else Entry(m, a, b))
  {
    if m.frames[f] == FREE {
      FillKeeps(m, f, p, q, instant);
    } else {
      var held := m.frames[f];
      AssignInTwo(m, f, p, q, instant);
      FreeKeeps(m, held.processId, held.pageNumber);
      FillKeeps(SetFrame(SetEntry(m, held.processId, held.pageNumber, EMPTY_FRAME), f, FREE), f, p, q, instant);
    }
  }

  /** A use makes the page resident in a frame stamped with the instant, whatever had to give way. */
  lemma UseKeeps(m: Memory, p: int, q: int, instant: int)
    requires Consistent(m) && HasPage(m, p, q)
    ensures var m' := Use(m, p, q, Entry(m, p, q), instant);
      && Consistent(m') && SameShape(m, m')
      && Resident(m', p, q) && m'.frames[Entry(m', p, q)].timestamp == instant
  {
    if Entry(m, p, q) == EMPTY_FRAME {
      AssignKeeps(m, Victim(m), p, q, instant);
    } else {
      StampKeeps(m, Entry(m, p, q), instant);
    }
  }

  /** Only a least recently used page is ever evicted, and only when no frame is free. */
  lemma UseEvictsOldest(m: Memory, p: int, q: int, instant: int, a: int, b: int)
    requires Consistent(m) && HasPage(m, p, q) && Resident(m, a, b)
    ensures var m' := Use(m, p, q, Entry(m, p, q), instant);
      Resident(m', a, b) ||
      ((forall f :: 0 <= f < |m.frames| ==> m.frames[f] != FREE)
       && forall f :: 0 <= f < |m.frames| ==> m.frames[Entry(m, a, b)].timestamp <= m.frames[f].timestamp)
  {
    if Entry(m, p, q) == EMPTY_FRAME {
      AssignKeeps(m, Victim(m), p, q, instant);
    } else {
      StampKeeps(m, Entry(m, p, q), instant);
    }
  }

  /** Uses stamp frames with the instant and change no other stamp. */
  lemma UseStamps(m: Memory, p: int, q: int, entry: int, instant: int)
    requires Consistent(m) && HasPage(m, p, q) && (entry == EMPTY_FRAME || 0 <= entry < |m.frames|)
    requires UsedBefore(m, instant + 1)
    ensures UsedBefore(Use(m, p, q, entry, instant), instant + 1)
  {
  }

  /** With a frame last used earlier, a use never evicts a page used at the same instant. */
  lemma RecentSurvives(m: Memory, p: int, q: int, instant: int, a: int, b: int, g: int)
    requires Consistent(m) && HasPage(m, p, q) && UsedBefore(m, instant + 1)
    requires Resident(m, a, b) && m.frames[Entry(m, a, b)].timestamp == instant
    requires 0 <= g < |m.frames| && m.frames[g].timestamp < instant
    ensures Resident(Use(m, p, q, Entry(m, p, q), instant), a, b)
  {
    UseEvictsOldest(m, p, q, instant, a, b);
  }

  lemma UseBothKeeps(m: Memory, p: int, q1: int, q2: int, instant: int)
    requires Consistent(m) && HasPage(m, p, q1) && HasPage(m, p, q2)
    ensures var m' := UseBoth(m, p, q1, q2, instant); Consistent(m') && SameShape(m, m')
  {
    var entry1, entry2 := Entry(m, p, q1), Entry(m, p, q2);
    StampKeeps(m, entry2, instant);
    var protected := Protect(m, entry1, entry2, instant);
    UseKeeps(protected, p, q1, instant);
    if q1 != q2 {
      SecondUseKeeps(protected, p, q1, q2, instant);
    }
  }

  /** The second table entry was read before the first use; stamping a frame another page now holds is harmless. */
  lemma SecondUseKeeps(m: Memory, p: int, q1: int, q2: int, instant: int)
    requires Consistent(m) && HasPage(m, p, q1) && HasPage(m, p, q2) && q1 != q2
    ensures var once := Use(m, p, q1, Entry(m, p, q1), instant);
      Consistent(once) && HasPage(once, p, q2) &&
      var m' := Use(once, p, q2, Entry(m, p, q2), instant);
      Consistent(m') && SameShape(m, m')
  {
    UseKeeps(m, p, q1, instant);
    var once := Use(m, p, q1, Entry(m, p, q1), instant);
    if Entry(m, p, q2) == EMPTY_FRAME {
      if Entry(m, p, q1) == EMPTY_FRAME {
        AssignKeeps(m, Victim(m), p, q1, instant);
      }
      UseKeeps(once, p, q2, instant);
    } else {
      OccupiedStays(m, p, q1, instant, Entry(m, p, q2));
      StampKeeps(once, Entry(m, p, q2), instant);
    }
  }

  lemma OccupiedStays(m: Memory, p: int, q: int, instant: int, f: int)
    requires Consistent(m) && HasPage(m, p, q) && 0 <= f < |m.frames| && m.frames[f] != FREE
    ensures Use(m, p, q, Entry(m, p, q), instant).frames[f] != FREE
  {
  }

  /** The second page resident, the first not: the protecting stamp keeps the second page in. */
  lemma FirstUseSpares(m: Memory, p: int, q1: int, q2: int, instant: int)
    requires |m.frames| >= 2
    requires Consistent(m) && HasPage(m, p, q1) && Resident(m, p, q2) && UsedBefore(m, instant) && q1 != q2
    ensures var protected := Protect(m, Entry(m, p, q1), Entry(m, p, q2), instant);
      Consistent(protected) && Entry(Use(protected, p, q1, Entry(m, p, q1), instant), p, q2) == Entry(m, p, q2)
  {
    var entry1, entry2 := Entry(m, p, q1), Entry(m, p, q2);
    if entry1 == EMPTY_FRAME {
      StampKeeps(m, entry2, instant);
      var protected := Protect(m, entry1, entry2, instant);
      RecentSurvives(protected, p, q1, instant, p, q2, if entry2 == 0 then 1 else 0);
      AssignKeeps(protected, Victim(protected), p, q1, instant);
    }
  }

  /** The second page not resident: its replacement spares the frame the first use has just stamped. */
  lemma SecondUseSpares(m: Memory, p: int, q1: int, q2: int, instant: int)
    requires |m.frames| >= 2
    requires Consistent(m) && HasPage(m, p, q1) && HasPage(m, p, q2) && UsedBefore(m, instant) && q1 != q2
    requires Entry(m, p, q2) == EMPTY_FRAME
    ensures var once := Use(m, p, q1, Entry(m, p, q1), instant);
      Consistent(once) && HasPage(once, p, q2) && Entry(once, p, q2) == EMPTY_FRAME
      && Resident(Use(once, p, q2, EMPTY_FRAME, instant), p, q1)
  {
    UseKeeps(m, p, q1, instant);
    if Entry(m, p, q1) == EMPTY_FRAME {
      AssignKeeps(m, Victim(m), p, q1, instant);
    }
    var once := Use(m, p, q1, Entry(m, p, q1), instant);
    var f := Entry(once, p, q1);
    var g := if f == 0 then 1 else 0;
    assert once.frames[g] == m.frames[g];
    UseStamps(m, p, q1, Entry(m, p, q1), instant);
    RecentSurvives(once, p, q2, instant, p, q1, g);
  }

  /** After a two-address instruction both pages are in memory at once. */
  lemma BothResident(m: Memory, p: int, q1: int, q2: int, instant: int)
    requires |m.frames| >= 2
    requires Consistent(m) && HasPage(m, p, q1) && HasPage(m, p, q2) && UsedBefore(m, instant)
    ensures var m' := UseBoth(m, p, q1, q2, instant); Resident(m', p, q1) && Resident(m', p, q2)
  {
    var entry1, entry2 := Entry(m, p, q1), Entry(m, p, q2);
    StampKeeps(m, entry2, instant);
    var protected := Protect(m, entry1, entry2, instant);
    UseKeeps(protected, p, q1, instant);
    if q1 != q2 {
      if entry2 == EMPTY_FRAME {
        SecondUseSpares(m, p, q1, q2, instant);
        UseKeeps(Use(protected, p, q1, entry1, instant), p, q2, instant);
      } else {
        FirstUseSpares(m, p, q1, q2, instant);
      }
    }
  }

  lemma UseBothStamps(m: Memory, p: int, q1: int, q2: int, instant: int)
    requires Consistent(m) && HasPage(m, p, q1) && HasPage(m, p, q2) && UsedBefore(m, instant)
    ensures UsedBefore(UseBoth(m, p, q1, q2, instant), instant + 1)
  {
    var entry1, entry2 := Entry(m, p, q1), Entry(m, p, q2);
    StampKeeps(m, entry2, instant);
    var protected := Protect(m, entry1, entry2, instant);
    UseKeeps(protected, p, q1, instant);
    UseStamps(protected, p, q1, entry1, instant);
    if q1 != q2 {
      UseStamps(Use(protected, p, q1, entry1, instant), p, q2, entry2, instant);
    }
  }

  /** Clearing from page i on leaves process p none of those pages, and touches no other page. */
  lemma {:induction false} ClearKeeps(m: Memory, p: int, i: nat)
    requires Consistent(m) && 1 <= p <= |m.tables| && i <= |m.tables[p - 1]|
    ensures var m' := ClearFrom(m, p, i);
      && Consistent(m') && SameShape(m, m')
      && (forall a, b {:trigger HasPage(m, a, b)} :: HasPage(m, a, b) ==>
          Entry(m', a, b) == if a == p && b >= i then EMPTY_FRAME else Entry(m, a, b))
      && (forall f :: 0 <= f < |m.frames| ==> m'.frames[f] == m.frames[f] || m'.frames[f] == FREE)
    decreases |m.tables[p - 1]| - i
  {
    if i < |m.tables[p - 1]| {
      assert HasPage(m, p, i);
      if Entry(m, p, i) == EMPTY_FRAME {
        ClearKeeps(m, p, i + 1);
      } else {
        FreeKeeps(m, p, i);
        var freed := SetFrame(SetEntry(m, p, i, EMPTY_FRAME), Entry(m, p, i), FREE);
        ClearKeeps(freed, p, i + 1);
        assert forall a, b {:trigger HasPage(m, a, b)} :: HasPage(m, a, b) ==> HasPage(freed, a, b);
      }
    }
  }

  // ---------- What a use does to the pages ----------

  /** The page an address lies in. */
  predicate PageOf(q: int, address: int) { q * FRAME_SIZE <= address < (q + 1) * FRAME_SIZE }

  /** The page is in memory, with the stamp of the instant. */
  ghost predicate JustUsed(m: Memory, p: int, q: int, instant: int)
    requires Consistent(m)
  {
    Resident(m, p, q) && m.frames[Entry(m, p, q)].timestamp == instant
  }

  /** The page is where it was, or memory was full and this one of its least recently used pages. */
  ghost predicate KeptUnlessOldest(m: Memory, m': Memory, p: int, q: int)
    requires Consistent(m) && Resident(m, p, q)
  {
    || (HasPage(m', p, q) && Entry(m', p, q) == Entry(m, p, q))
    || ((forall f :: 0 <= f < |m.frames| ==>
          m.frames[f] != FREE && m.frames[Entry(m, p, q)].timestamp <= m.frames[f].timestamp)
        && !Resident(m', p, q))
  }

  /** A use moves no page, and only full memory gives one up. */
  lemma UseKeepsOthers(m: Memory, p: int, q: int, instant: int, a: int, b: int)
    requires Consistent(m) && HasPage(m, p, q) && Resident(m, a, b)
    ensures KeptUnlessOldest(m, Use(m, p, q, Entry(m, p, q), instant), a, b)
  {
    if Entry(m, p, q) == EMPTY_FRAME {
      AssignKeeps(m, Victim(m), p, q, instant);
    }
  }

  // ---------- Which pages can come in ----------

  /** Pages of processes other than p do not come in. */
  ghost predicate NoNewPage(m: Memory, m': Memory, p: int) {
    forall a, b {:trigger HasPage(m, a, b)} :: HasPage(m, a, b) && a != p && Entry(m, a, b) == EMPTY_FRAME ==>
      HasPage(m', a, b) && Entry(m', a, b) == EMPTY_FRAME
  }

  lemma UseBringsNoOther(m: Memory, p: int, q: int, entry: int, instant: int)
    requires Consistent(m) && HasPage(m, p, q) && (entry == EMPTY_FRAME || 0 <= entry < |m.frames|)
    requires entry == EMPTY_FRAME ==> Entry(m, p, q) == EMPTY_FRAME
    ensures NoNewPage(m, Use(m, p, q, entry, instant), p)
  {
    if entry == EMPTY_FRAME {
      AssignKeeps(m, Victim(m), p, q, instant);
    }
  }

  lemma SecondUseBringsNoOther(m: Memory, p: int, q1: int, q2: int, instant: int)
    requires Consistent(m) && HasPage(m, p, q1) && HasPage(m, p, q2) && q1 != q2
    ensures var once := Use(m, p, q1, Entry(m, p, q1), instant);
      Consistent(once) && HasPage(once, p, q2) && NoNewPage(m, Use(once, p, q2, Entry(m, p, q2), instant), p)
  {
    UseKeeps(m, p, q1, instant);
    var once := Use(m, p, q1, Entry(m, p, q1), instant);
    UseBringsNoOther(m, p, q1, Entry(m, p, q1), instant);
    if Entry(m, p, q2) == EMPTY_FRAME && Entry(m, p, q1) == EMPTY_FRAME {
      AssignKeeps(m, Victim(m), p, q1, instant);
    }
    UseBringsNoOther(once, p, q2, Entry(m, p, q2), instant);
  }

  lemma UseBothBringsNoOther(m: Memory, p: int, q1: int, q2: int, instant: int)
    requires Consistent(m) && HasPage(m, p, q1) && HasPage(m, p, q2)
    ensures NoNewPage(m, UseBoth(m, p, q1, q2, instant), p)
  {
    var entry1, entry2 := Entry(m, p, q1), Entry(m, p, q2);
    StampKeeps(m, entry2, instant);
    var protected := Protect(m, entry1, entry2, instant);
    if q1 != q2 {
      SecondUseBringsNoOther(protected, p, q1, q2, instant);
    } else {
      UseBringsNoOther(protected, p, q1, entry1, instant);
    }
  }

  /** A new process starts with no page in memory. */
  lemma NewTable(m: Memory, table: seq<int>)
    requires Consistent(m) && forall q :: 0 <= q < |table| ==> table[q] == EMPTY_FRAME
    ensures var m' := m.(tables := m.tables + [table]);
      && Consistent(m')
      && (forall p, q {:trigger HasPage(m', p, q)} :: HasPage(m', p, q) ==>
          if p <= |m.tables| then HasPage(m, p, q) && Entry(m', p, q) == Entry(m, p, q)
          else Entry(m', p, q) == EMPTY_FRAME)
  {
    var m' := m.(tables := m.tables + [table]);
    assert forall p, q {:trigger HasPage(m', p, q)} :: HasPage(m', p, q) ==>
      if p <= |m.tables| then HasPage(m, p, q) && Entry(m', p, q) == Entry(m, p, q) else Entry(m', p, q) == EMPTY_FRAME;
  }

  // ---------- The two scans over the frame array ----------

  method FindEmptyFrame(frames: array<Frame>) returns (frame: int)
    ensures frame == FreeFrom(frames[..], 0)
  {
    var i := 0;
    while i < frames.Length
      invariant 0 <= i <= frames.Length
      invariant FreeFrom(frames[..], i) == FreeFrom(frames[..], 0)
    {
      if frames[i].processId == EMPTY_FRAME {
        return i;
      }
      i := i + 1;
    }
    return -1;
  }

  /** The first frame with the smallest stamp, found by one pass; free frames are passed over. */
  method FindOldestFrame(frames: array<Frame>) returns (frame: int)
    requires forall f :: 0 <= f < frames.Length ==> frames[f].timestamp < INT_MAX
    ensures frame == Oldest(frames[..], frames.Length)
  {
    frame := -1;
    var oldestTimestamp := INT_MAX;
    var i := 0;
    while i < frames.Length
      invariant 0 <= i <= frames.Length
      invariant frame == Oldest(frames[..], i)
      invariant oldestTimestamp == if frame == -1 then INT_MAX else frames[frame].timestamp
    {
      var currentTimestamp := frames[i].timestamp;
      if frames[i].processId != EMPTY_FRAME && currentTimestamp < oldestTimestamp {
        oldestTimestamp := currentTimestamp;
        frame := i;
      }
      i := i + 1;
    }
  }
}
