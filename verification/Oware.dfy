/**
 The Oware engine: sowing, capturing, which moves are allowed, and when a game ends. Cells 0 and 13
 are the deposits of players 1 and 2, cells 1 to 6 and 7 to 12 their pits.
 */
module Oware {

  const CELLS := 14
  const ROCKS := 48

  type Board = b: seq<nat> | |b| == CELLS witness [0, 4, 4, 4, 4, 4, 4, 4, 4, 4, 4, 4, 4, 0]

  const INITIAL: Board := [0, 4, 4, 4, 4, 4, 4, 4, 4, 4, 4, 4, 4, 0]

  predicate IsPlayer(player: int) { player == 1 || player == 2 }

  function Rotate(player: int): int { if player == 1 then 2 else if player == 2 then 1 else player }

  predicate OwnPit(player: int, m: int) { if player == 1 then 1 <= m <= 6 else 7 <= m <= 12 }

  /** The rocks in the first n cells. */
  function TotalTo(b: seq<nat>, n: nat): nat
    requires n <= |b|
  {
    if n == 0 then 0 else TotalTo(b, n - 1) + b[n - 1]
  }

  function Total(b: Board): nat { TotalTo(b, CELLS) }

  lemma {:induction false} UpdateTotal(b: seq<nat>, n: nat, i: nat, x: nat)
    requires n <= |b| && i < |b|
    ensures TotalTo(b[i := x], n) == TotalTo(b, n) + if i < n then x - b[i] else 0
  {
    if n > 0 {
      UpdateTotal(b, n - 1, i, x);
    }
  }

  // ---------- Sowing ----------

  /** Where the next rock goes: the origin is passed over, then the end wraps around to pit 1. */
  function NextPit(origin: int, landed: int): (p: int)
    requires 1 <= origin <= 12 && 1 <= landed <= 13
    ensures 1 <= p <= 12
  {
    var past := if landed == origin then landed + 1 else landed;
    if past == 13 then 1 else past
  }

  /** The board and the position after the last rock. */
  function Sow(b: Board, origin: int, landed: int, rocks: nat): (r: (Board, int))
    requires 1 <= origin <= 12 && 1 <= landed <= 13
    ensures 1 <= r.1 <= 13 && (rocks > 0 ==> r.1 >= 2)
    decreases rocks
  {
    if rocks == 0 then (b, landed)
    else
      var p := NextPit(origin, landed);
      Sow(b[p := b[p] + 1], origin, p + 1, rocks - 1)
  }

  function Moved(b: Board, m: int): (Board, int)
    requires 1 <= m <= 12
  {
    var (after, landed) := Sow(b[m := 0], m, m + 1, b[m]);
    (after, landed - 1)
  }

  lemma {:induction false} SowKeepsRocks(b: Board, origin: int, landed: int, rocks: nat)
    requires 1 <= origin <= 12 && 1 <= landed <= 13
    ensures Total(Sow(b, origin, landed, rocks).0) == Total(b) + rocks
    decreases rocks
  {
    if rocks > 0 {
      var p := NextPit(origin, landed);
      UpdateTotal(b, CELLS, p, b[p] + 1);
      SowKeepsRocks(b[p := b[p] + 1], origin, p + 1, rocks - 1);
    }
  }

  /** How many of the first rocks sown reach the origin: none, unless the wrap lands on it. */
  lemma {:induction false} SowReachesOrigin(b: Board, origin: int, landed: int, rocks: nat)
    requires 1 <= origin <= 12 && 1 <= landed <= 13
    ensures origin != 1 ==> Sow(b, origin, landed, rocks).0[origin] == b[origin]
    ensures origin == 1 && landed >= 2 ==>
      (Sow(b, origin, landed, rocks).0[origin] == b[origin] <==> rocks <= 13 - landed)
    ensures Sow(b, origin, landed, rocks).0[origin] >= b[origin]
    decreases rocks
  {
    if rocks > 0 {
      var p := NextPit(origin, landed);
      SowReachesOrigin(b[p := b[p] + 1], origin, p + 1, rocks - 1);
    }
  }

  /** The pit played is left empty, except pit 1 with twelve rocks or more. */
  lemma OriginEmptiedExactlyWhen(b: Board, m: int)
    requires 1 <= m <= 12
    ensures Moved(b, m).0[m] == 0 <==> m != 1 || b[m] < 12
  {
    SowReachesOrigin(b[m := 0], m, m + 1, b[m]);
  }

  const TWELVE: Board := [0, 12, 0, 0, 0, 0, 0, 36, 0, 0, 0, 0, 0, 0]

  lemma MoveKeepsRocks(b: Board, m: int)
    requires 1 <= m <= 12
    ensures Total(Moved(b, m).0) == Total(b)
  {
    UpdateTotal(b, CELLS, m, 0);
    SowKeepsRocks(b[m := 0], m, m + 1, b[m]);
  }

  /** How many pits on from the origin a pit lies, going round. */
  function Ahead(origin: int, i: int): int
    requires 1 <= origin <= 12 && 1 <= i <= 13
  {
    if i > origin then i - origin else i - origin + 12
  }

  /** How many rocks make a round: only pit 1 is sown again when it is the pit played. */
  function Round(origin: int): int { if origin == 1 then 12 else 11 }

  /**
   What falls into pit i in so many full rounds and extra rocks: one each round, one more if the
   extra rocks reach it.
   */
  function Share(origin: int, i: int, rounds: int, extra: int): int
    requires 1 <= origin <= 12 && 1 <= i <= 12
  {
    if i == origin && origin != 1 then 0 else rounds + if Ahead(origin, i) <= extra then 1 else 0
  }

  /** After some rounds and extra rocks, the next one goes into p. */
  predicate Due(origin: int, p: int, extra: int)
    requires 1 <= origin <= 12
  {
    1 <= p <= 12 && (p != origin || origin == 1) && Ahead(origin, p) == extra + 1 <= Round(origin)
  }

  /** How many rocks so many rounds and extra rocks are. */
  function Rocks(origin: int, rounds: int, extra: int): int {
    if origin == 1 then 12 * rounds + extra else 11 * rounds + extra
  }

  /** How many of the rocks sown fall into pit i. */
  function Hits(origin: int, landed: int, rocks: nat, i: int): nat
    requires 1 <= origin <= 12 && 1 <= landed <= 13
    decreases rocks
  {
    if rocks == 0 then 0
    else
      var p := NextPit(origin, landed);
      Hits(origin, p + 1, rocks - 1, i) + if p == i then 1 else 0
  }

  lemma {:induction false} SowHits(b: Board, origin: int, landed: int, rocks: nat, i: int)
    requires 1 <= origin <= 12 && 1 <= landed <= 13 && 1 <= i <= 12
    ensures Sow(b, origin, landed, rocks).0[i] == b[i] + Hits(origin, landed, rocks, i)
    decreases rocks
  {
    if rocks > 0 {
      var p := NextPit(origin, landed);
      SowHits(b[p := b[p] + 1], origin, p + 1, rocks - 1, i);
    }
  }

  /** Sowing on after some rounds and extra rocks. */
  lemma {:induction false} HitsInRounds(origin: int, landed: int, rounds: nat, extra: nat, rocks: nat, i: int)
    returns (rounds': nat, extra': nat)
    requires 1 <= origin <= 12 && 1 <= landed <= 13 && 1 <= i <= 12 && Due(origin, NextPit(origin, landed), extra)
    ensures extra' < Round(origin) && Rocks(origin, rounds', extra') == Rocks(origin, rounds, extra) + rocks
    ensures Hits(origin, landed, rocks, i) == Share(origin, i, rounds', extra') - Share(origin, i, rounds, extra)
    decreases rocks
  {
    rounds', extra' := rounds, extra;
    if rocks > 0 {
      var p := NextPit(origin, landed);
      var last := extra + 1 == Round(origin);
      var r, x := if last then rounds + 1 else rounds, if last then 0 else extra + 1;
      OneMoreRock(origin, p, rounds, extra, r, x, i);
      rounds', extra' := HitsInRounds(origin, p + 1, r, x, rocks - 1, i);
    }
  }

  lemma OneMoreRock(origin: int, p: int, rounds: nat, extra: nat, r: nat, x: nat, i: int)
    requires 1 <= origin <= 12 && 1 <= i <= 12 && Due(origin, p, extra)
    requires if extra + 1 == Round(origin) then r == rounds + 1 && x == 0 else r == rounds && x == extra + 1
    ensures Share(origin, i, r, x) == Share(origin, i, rounds, extra) + if i == p then 1 else 0
    ensures Due(origin, NextPit(origin, p + 1), x) && Rocks(origin, r, x) == Rocks(origin, rounds, extra) + 1
  {
  }

  /** The pit the last rock falls into. */
  function LastPit(origin: int, landed: int, rocks: nat): (p: int)
    requires 1 <= origin <= 12 && 1 <= landed <= 13 && rocks > 0
    ensures 1 <= p <= 12
    decreases rocks
  {
    var p := NextPit(origin, landed);
    if rocks == 1 then p else LastPit(origin, p + 1, rocks - 1)
  }

  lemma {:induction false} SowEnds(b: Board, origin: int, landed: int, rocks: nat)
    requires 1 <= origin <= 12 && 1 <= landed <= 13 && rocks > 0
    ensures Sow(b, origin, landed, rocks).1 == LastPit(origin, landed, rocks) + 1
    decreases rocks
  {
    if rocks > 1 {
      var p := NextPit(origin, landed);
      SowEnds(b[p := b[p] + 1], origin, p + 1, rocks - 1);
    }
  }

  lemma {:induction false} LastInRounds(origin: int, landed: int, rounds: nat, extra: nat, rocks: nat)
    returns (rounds': nat)
    requires 1 <= origin <= 12 && 1 <= landed <= 13 && rocks > 0 && Due(origin, NextPit(origin, landed), extra)
    ensures var ahead := Ahead(origin, LastPit(origin, landed, rocks));
      1 <= ahead <= Round(origin) && Rocks(origin, rounds', ahead) == Rocks(origin, rounds, extra) + rocks
    decreases rocks
  {
    rounds' := rounds;
    if rocks > 1 {
      var p := NextPit(origin, landed);
      var last := extra + 1 == Round(origin);
      var r, x := if last then rounds + 1 else rounds, if last then 0 else extra + 1;
      OneMoreRock(origin, p, rounds, extra, r, x, p);
      rounds' := LastInRounds(origin, p + 1, r, x, rocks - 1);
    }
  }

  lemma QuotientIs(n: int, d: int, q: int, r: int)
    requires d > 0 && n == d * q + r && 0 <= r < d
    ensures n / d == q && n % d == r
  {
    var k, m := n / d, n % d;
    assert d * (k - q) == r - m;
    assert k - q >= 1 ==> d * (k - q) >= d;
    assert k - q <= -1 ==> d * (k - q) <= -d;
  }

  lemma RoundsOf(origin: int, n: nat, rounds: int, extra: int)
    requires n == Rocks(origin, rounds, extra) && 0 <= extra < Round(origin)
    ensures n / Round(origin) == rounds && n % Round(origin) == extra
  {
    QuotientIs(n, Round(origin), rounds, extra);
  }

  lemma MoveShares(b: Board, m: int, i: int)
    requires 1 <= m <= 12 && 1 <= i <= 12
    ensures Moved(b, m).0[i] == (if i == m then 0 else b[i]) + Share(m, i, b[m] / Round(m), b[m] % Round(m))
  {
    SowHits(b[m := 0], m, m + 1, b[m], i);
    var rounds, extra := HitsInRounds(m, m + 1, 0, 0, b[m], i);
    RoundsOf(m, b[m], rounds, extra);
  }

  lemma MoveLands(b: Board, m: int)
    requires 1 <= m <= 12 && b[m] > 0
    ensures var landed := Moved(b, m).1; 1 <= landed <= 12 && Ahead(m, landed) == (b[m] - 1) % Round(m) + 1
  {
    SowEnds(b[m := 0], m, m + 1, b[m]);
    LastAhead(m, b[m]);
  }

  lemma AheadIs(m: int, rocks: nat, full: int, ahead: int)
    requires Rocks(m, full, ahead) == rocks && 1 <= ahead <= Round(m) && rocks > 0
    ensures ahead == (rocks - 1) % Round(m) + 1
  {
    assert Rocks(m, full, ahead - 1) == rocks - 1;
    RoundsOf(m, rocks - 1, full, ahead - 1);
  }

  lemma LastAhead(m: int, rocks: nat)
    requires 1 <= m <= 12 && rocks > 0
    ensures Ahead(m, LastPit(m, m + 1, rocks)) == (rocks - 1) % Round(m) + 1
  {
    var full := LastInRounds(m, m + 1, 0, 0, rocks);
    AheadIs(m, rocks, full, Ahead(m, LastPit(m, m + 1, rocks)));
  }

  /** A move puts into every pit its share, going round, and ends where the rocks run out. */
  lemma MoveSowsInRounds(b: Board, m: int, i: int)
    requires 1 <= m <= 12 && 1 <= i <= 12 && b[m] > 0
    ensures var (sown, landed) := Moved(b, m);
      && sown[i] == (if i == m then 0 else b[i]) + Share(m, i, b[m] / Round(m), b[m] % Round(m))
      && 1 <= landed <= 12 && Ahead(m, landed) == (b[m] - 1) % Round(m) + 1
  {
    MoveShares(b, m, i);
    MoveLands(b, m);
  }

  /** Twelve rocks played from pit 1: one of them comes back to it. */
  lemma TwelveComeBack()
    ensures Total(TWELVE) == ROCKS && Allowed(TWELVE, 1, 1) && Moved(TWELVE, 1).0[1] == 1
  {
    var b := TWELVE;
    TotalOf(b);
    assert b[1] == 12 && b[7] == 36 && OwnPit(1, 1) && OwnPit(2, 7);
    assert !SideEmpty(b, 1) && !SideEmpty(b, 2);
    MoveSowsInRounds(b, 1, 1);
  }

  // ---------- Capturing ----------

  /** From pit i back to pit low, as long as a pit holds two or three rocks, they go to the deposit. */
  function CaptureFrom(b: Board, deposit: nat, low: nat, i: nat): Board
    requires (deposit == 0 || deposit == 13) && 1 <= low && i <= 12
    decreases i
  {
    if (b[i] == 2 || b[i] == 3) && i >= low then
      CaptureFrom(b[deposit := b[deposit] + b[i]][i := 0], deposit, low, i - 1)
    else b
  }

  /** Captures are made only where the last rock landed on the opponent's side. */
  function Captured(b: Board, player: int, landed: int): Board
    requires 0 <= landed <= 12
  {
    if player == 1 then (if 7 <= landed <= 12 then CaptureFrom(b, 0, 7, landed) else b)
    else if 1 <= landed <= 6 then CaptureFrom(b, 13, 1, landed) else b
  }

  lemma {:induction false} CaptureKeepsRocks(b: Board, deposit: nat, low: nat, i: nat)
    requires (deposit == 0 || deposit == 13) && 1 <= low && i <= 12
    ensures Total(CaptureFrom(b, deposit, low, i)) == Total(b)
    ensures CaptureFrom(b, deposit, low, i)[deposit] >= b[deposit]
    decreases i
  {
    if (b[i] == 2 || b[i] == 3) && i >= low {
      var c := b[deposit := b[deposit] + b[i]];
      UpdateTotal(b, CELLS, deposit, b[deposit] + b[i]);
      UpdateTotal(c, CELLS, i, 0);
      CaptureKeepsRocks(c[i := 0], deposit, low, i - 1);
    }
  }

  /** Exactly the unbroken run of twos and threes back from the landing pit is taken. */
  lemma {:induction false} CapturesRun(b: Board, deposit: nat, low: nat, i: nat, k: nat)
    requires (deposit == 0 || deposit == 13) && 1 <= low && i <= 12 && 1 <= k <= 12
    ensures CaptureFrom(b, deposit, low, i)[k] ==
      if low <= k <= i && (forall j :: k <= j <= i ==> b[j] == 2 || b[j] == 3) then 0 else b[k]
    decreases i
  {
    if (b[i] == 2 || b[i] == 3) && i >= low {
      var c := b[deposit := b[deposit] + b[i]][i := 0];
      CapturesRun(c, deposit, low, i - 1, k);
      assert forall j :: k <= j <= i - 1 ==> c[j] == b[j];
      assert (forall j :: k <= j <= i - 1 ==> c[j] == 2 || c[j] == 3) ==>
        forall j :: k <= j <= i ==> b[j] == 2 || b[j] == 3;
    }
  }

  /** The rocks in those of the first n pits that are in the set. */
  ghost function RocksIn(b: Board, pits: set<int>, n: nat): nat
    requires n <= 12
  {
    if n == 0 then 0 else RocksIn(b, pits, n - 1) + if n in pits then b[n] else 0
  }

  /**
   The pits a player takes: those of the unbroken run of twos and threes back from the landing pit, on
   the opponent's side.
   */
  ghost function Taken(b: Board, player: int, landed: int): set<int>
    requires 0 <= landed <= 12
  {
    set k | 1 <= k <= landed && !OwnPit(player, landed) && !OwnPit(player, k)
      && forall j :: k <= j <= landed ==> b[j] == 2 || b[j] == 3
  }

  /** The cell of a player's deposit. */
  function Deposit(player: int): nat { if player == 1 then 0 else 13 }

  /** The pits in the set are empty, their rocks are in the player's deposit, and nothing else has changed. */
  ghost predicate Collected(b: Board, after: Board, player: int, pits: set<int>) {
    && after[Deposit(player)] == b[Deposit(player)] + RocksIn(b, pits, 12)
    && after[13 - Deposit(player)] == b[13 - Deposit(player)]
    && forall k :: 1 <= k <= 12 ==> after[k] == if k in pits then 0 else b[k]
  }

  lemma {:induction false} EmptiedRocks(b: Board, after: Board, pits: set<int>, n: nat)
    requires n <= 12 && forall k :: 1 <= k <= 12 ==> after[k] == if k in pits then 0 else b[k]
    ensures TotalTo(b, n + 1) - b[0] == TotalTo(after, n + 1) - after[0] + RocksIn(b, pits, n)
  {
    if n == 0 {
      assert TotalTo(b, n) == 0 && TotalTo(after, n) == 0;
    } else {
      EmptiedRocks(b, after, pits, n - 1);
    }
  }

  lemma CollectedByTotal(b: Board, after: Board, player: int, pits: set<int>)
    requires Total(after) == Total(b) && after[13 - Deposit(player)] == b[13 - Deposit(player)]
    requires forall k :: 1 <= k <= 12 ==> after[k] == if k in pits then 0 else b[k]
    ensures Collected(b, after, player, pits)
  {
    EmptiedRocks(b, after, pits, 12);
    assert Total(b) == TotalTo(b, 13) + b[13] && Total(after) == TotalTo(after, 13) + after[13];
  }

  /** Exactly the pits taken are emptied. */
  lemma CapturesTaken(b: Board, player: int, landed: int, k: int)
    requires 0 <= landed <= 12 && 1 <= k <= 12
    ensures Captured(b, player, landed)[k] == if k in Taken(b, player, landed) then 0 else b[k]
  {
    if landed != 0 && !OwnPit(player, landed) {
      CapturesRun(b, Deposit(player), if player == 1 then 7 else 1, landed, k);
    }
  }

  lemma CapturedTotals(b: Board, player: int, landed: int)
    requires 0 <= landed <= 12
    ensures Total(Captured(b, player, landed)) == Total(b)
    ensures Captured(b, player, landed)[13 - Deposit(player)] == b[13 - Deposit(player)]
    ensures OwnPit(player, landed) ==> Captured(b, player, landed) == b
  {
    var low := if player == 1 then 7 else 1;
    CaptureKeepsRocks(b, Deposit(player), low, landed);
    OtherDeposit(b, Deposit(player), low, landed);
  }

  /** A capture brings the pits taken into the player's own deposit. */
  lemma CaptureCollects(b: Board, player: int, landed: int)
    requires 0 <= landed <= 12
    ensures Collected(b, Captured(b, player, landed), player, Taken(b, player, landed))
    ensures OwnPit(player, landed) ==> Captured(b, player, landed) == b
  {
    var pits, after := Taken(b, player, landed), Captured(b, player, landed);
    CapturedTotals(b, player, landed);
    forall k | 1 <= k <= 12
      ensures after[k] == if k in pits then 0 else b[k]
    {
      CapturesTaken(b, player, landed, k);
    }
    CollectedByTotal(b, after, player, pits);
  }

  /**
   A move and its captures: the player's deposit grows by the rocks of the pits taken after sowing, and
   by none if the last rock fell on the player's own side; the other deposit is as it was.
   */
  lemma MoveCollects(b: Board, player: int, m: int)
    requires IsPlayer(player) && 1 <= m <= 12
    ensures var (sown, landed) := Moved(b, m);
      var after := Captured(sown, player, landed);
      && Collected(sown, after, player, Taken(sown, player, landed))
      && after[Deposit(player)] == b[Deposit(player)] + RocksIn(sown, Taken(sown, player, landed), 12)
      && after[Deposit(Rotate(player))] == b[Deposit(Rotate(player))]
      && (OwnPit(player, landed) ==> after[Deposit(player)] == b[Deposit(player)])
  {
    var (sown, landed) := Moved(b, m);
    SowSparesDeposits(b[m := 0], m, m + 1, b[m]);
    CaptureCollects(sown, player, landed);
  }

  // ---------- Who can move ----------

  predicate SideEmpty(b: Board, player: int) {
    forall i :: 1 <= i <= 12 && OwnPit(player, i) ==> b[i] == 0
  }

  /** The first player with an empty side, or 0. */
  function EmptySide(b: Board): int { if SideEmpty(b, 1) then 1 else if SideEmpty(b, 2) then 2 else 0 }

  /** Enough rocks to get from pit m to the other side. */
  predicate Crosses(b: Board, m: int)
    requires 1 <= m <= 12
  {
    b[m] >= if m <= 6 then 7 - m else 13 - m
  }

  /** Some pit of the opponent of the empty side can bring rocks over. */
  predicate CanFeed(b: Board) {
    EmptySide(b) != 0 && exists m :: 1 <= m <= 12 && OwnPit(Rotate(EmptySide(b)), m) && Crosses(b, m)
  }

  /** One's own pit with rocks: one that crosses if a side is empty, and no single rock while a pit has more. */
  predicate Allowed(b: Board, player: int, m: int) {
    && 1 <= m <= 12 && OwnPit(player, m) && b[m] > 0
    && if EmptySide(b) != 0 then !OwnPit(EmptySide(b), m) && Crosses(b, m)
       else b[m] > 1 || forall i :: 1 <= i <= 12 && OwnPit(player, i) ==> b[i] <= 1
  }

  /** With the opponent's side empty, exactly the moves that cross bring rocks over. */
  lemma FeedsExactlyWhen(b: Board, player: int, m: int)
    requires IsPlayer(player) && 1 <= m <= 12 && OwnPit(player, m) && SideEmpty(b, Rotate(player))
    ensures Crosses(b, m) <==> !SideEmpty(Moved(b, m).0, Rotate(player))
  {
    forall i | 1 <= i <= 12
      ensures Moved(b, m).0[i] == (if i == m then 0 else b[i]) + Share(m, i, b[m] / Round(m), b[m] % Round(m))
    {
      MoveShares(b, m, i);
    }
    var first := if player == 1 then 7 else 1;
    assert OwnPit(Rotate(player), first) && Ahead(m, first) == if m <= 6 then 7 - m else 13 - m;
  }

  predicate HasMove(b: Board, player: int) { exists m :: 1 <= m <= 12 && Allowed(b, player, m) }

  // ---------- The end of a game ----------

  function Winner(b: Board): int {
    if b[0] >= 25 then 1 else if b[13] >= 25 then 2 else if b[0] == 24 && b[13] == 24 then -1 else 0
  }

  /** One of the ways in which the rocks still in the pits can come to be shared out between the deposits. */
  predicate SharedOut(b: Board, x: int, y: int) { x >= b[0] && y >= b[13] && x + y == ROCKS }

  /** Somebody has won, or it is a draw, exactly when that is how every way of sharing out the rest ends. */
  lemma WinnerIsCertain(b: Board)
    requires b[0] + b[13] <= ROCKS
    ensures Winner(b) == 1 <==> forall x, y :: SharedOut(b, x, y) ==> x > y
    ensures Winner(b) == 2 <==> forall x, y :: SharedOut(b, x, y) ==> x < y
    ensures Winner(b) == -1 <==> forall x, y :: SharedOut(b, x, y) ==> x == y
    ensures Winner(b) in {0, 1, 2, -1}
  {
    assert SharedOut(b, b[0], ROCKS - b[0]) && SharedOut(b, ROCKS - b[13], b[13]);
  }

  /** A winner or a draw stays one, whatever is sown and captured afterwards. */
  lemma WinnerStays(b: Board, player: int, m: int)
    requires Total(b) == ROCKS && Winner(b) != 0 && IsPlayer(player) && 1 <= m <= 12
    ensures var (sown, landed) := Moved(b, m); Winner(Captured(sown, player, landed)) == Winner(b)
  {
    var (sown, landed) := Moved(b, m);
    var after := Captured(sown, player, landed);
    MoveKeepsRocks(b, m);
    SowSparesDeposits(b[m := 0], m, m + 1, b[m]);
    CaptureKeepsRocks(sown, 0, 7, landed);
    CaptureKeepsRocks(sown, 13, 1, landed);
    CaptureSparesOther(sown, player, landed);
    TotalOf(b);
    TotalOf(after);
  }

  lemma {:induction false} OtherDeposit(b: Board, deposit: nat, low: nat, i: nat)
    requires (deposit == 0 || deposit == 13) && 1 <= low && i <= 12
    ensures CaptureFrom(b, deposit, low, i)[13 - deposit] == b[13 - deposit]
    decreases i
  {
    if (b[i] == 2 || b[i] == 3) && i >= low {
      OtherDeposit(b[deposit := b[deposit] + b[i]][i := 0], deposit, low, i - 1);
    }
  }

  lemma CaptureSparesOther(b: Board, player: int, landed: int)
    requires 0 <= landed <= 12
    ensures Captured(b, player, landed)[0] >= b[0] && Captured(b, player, landed)[13] >= b[13]
  {
    if player == 1 && landed >= 7 {
      CaptureKeepsRocks(b, 0, 7, landed);
      OtherDeposit(b, 0, 7, landed);
    } else if player != 1 && 1 <= landed <= 6 {
      CaptureKeepsRocks(b, 13, 1, landed);
      OtherDeposit(b, 13, 1, landed);
    }
  }

  /** Each side's rocks to its own deposit. */
  function Cleared(b: Board): Board {
    [b[0] + b[1] + b[2] + b[3] + b[4] + b[5] + b[6],
     0, 0, 0, 0, 0, 0, 0, 0, 0, 0, 0, 0,
     b[13] + b[7] + b[8] + b[9] + b[10] + b[11] + b[12]]
  }

  /** The pits of a player. */
  ghost function Side(player: int): set<int> { set k | 1 <= k <= 12 && OwnPit(player, k) }

  /** Clearing collects each player's side into that player's deposit. */
  lemma ClearedCollects(b: Board)
    ensures Cleared(b)[0] == b[0] + RocksIn(b, Side(1), 12)
    ensures Cleared(b)[13] == b[13] + RocksIn(b, Side(2), 12)
    ensures forall k :: 1 <= k <= 12 ==> Cleared(b)[k] == 0
  {
    RocksOfTwo(b, 0);
    RocksOfTwo(b, 2);
    RocksOfTwo(b, 4);
    RocksOfTwo(b, 6);
    RocksOfTwo(b, 8);
    RocksOfTwo(b, 10);
  }

  lemma RocksOfTwo(b: Board, n: nat)
    requires n + 2 <= 12 && n % 2 == 0
    ensures RocksIn(b, Side(1), n + 2) == RocksIn(b, Side(1), n) + if n < 6 then b[n + 1] + b[n + 2] else 0
    ensures RocksIn(b, Side(2), n + 2) == RocksIn(b, Side(2), n) + if n < 6 then 0 else b[n + 1] + b[n + 2]
  {
    assert RocksIn(b, Side(1), n + 1) == RocksIn(b, Side(1), n) + if n < 6 then b[n + 1] else 0;
    assert RocksIn(b, Side(2), n + 1) == RocksIn(b, Side(2), n) + if n < 6 then 0 else b[n + 1];
  }

  function Pits(b: Board): nat {
    b[1] + b[2] + b[3] + b[4] + b[5] + b[6] + b[7] + b[8] + b[9] + b[10] + b[11] + b[12]
  }

  /** Two rocks left, in pits with the same place on either side: no capture can ever be made, see StalemateLasts. */
  predicate Stalemate(b: Board) {
    Pits(b) == 2 && exists i :: 1 <= i <= 6 && b[i] == 1 && b[i + 6] == 1
  }

  /** The board, who counts as having played last, and whether the game has ended. */
  function CheckedForEnd(b: Board, player: int): (Board, int, bool) {
    if Winner(b) != 0 then (b, player, true)
    else if EmptySide(b) != 0 then
      if CanFeed(b) then (b, if player != EmptySide(b) then Rotate(player) else player, false)
      else (Cleared(b), player, true)
    else if Stalemate(b) then (Cleared(b), player, true)
    else (b, player, false)
  }

  lemma TotalOf(b: Board)
    ensures Total(b)
      == b[0] + b[1] + b[2] + b[3] + b[4] + b[5] + b[6] + b[7] + b[8] + b[9] + b[10] + b[11] + b[12] + b[13]
  {
    TwoMore(b, 0);
    TwoMore(b, 2);
    TwoMore(b, 4);
    TwoMore(b, 6);
    TwoMore(b, 8);
    TwoMore(b, 10);
    TwoMore(b, 12);
  }

  lemma TwoMore(b: seq<nat>, n: nat)
    requires n + 2 <= |b|
    ensures TotalTo(b, n + 2) == TotalTo(b, n) + b[n] + b[n + 1]
  {
    assert TotalTo(b, n + 1) == TotalTo(b, n) + b[n];
  }

  /** An ended game has a winner or is a draw. */
  lemma EndDecides(b: Board, player: int)
    requires Total(b) == ROCKS
    ensures var (after, next, end) := CheckedForEnd(b, player);
      Total(after) == ROCKS && (end <==> Winner(after) != 0)
  {
    TotalOf(b);
    TotalOf(Cleared(b));
  }

  /** Nobody can move exactly when a side is empty and the other cannot bring rocks over. */
  lemma MovesWithEmptySide(b: Board, player: int)
    requires IsPlayer(player) && EmptySide(b) != 0
    ensures HasMove(b, player) <==> player != EmptySide(b) && CanFeed(b)
  {
    if CanFeed(b) && player != EmptySide(b) {
      var m :| 1 <= m <= 12 && OwnPit(Rotate(EmptySide(b)), m) && Crosses(b, m);
      assert Allowed(b, player, m);
    }
    if m :| 1 <= m <= 12 && Allowed(b, player, m) {
      assert OwnPit(Rotate(EmptySide(b)), m) && Crosses(b, m);
    }
  }

  /**
   The game ends exactly when somebody has won or drawn, nobody can move, or only two opposite rocks
   are left; unless it was won or drawn, each side then goes to its own deposit. Otherwise the board
   stays, and the next to play is the opponent, or the same player if the opponent cannot move.
   */
  lemma EndsExactlyWhen(b: Board, player: int)
    requires IsPlayer(player)
    ensures var (after, last, end) := CheckedForEnd(b, player);
      && (end <==> Winner(b) != 0 || (!HasMove(b, 1) && !HasMove(b, 2)) || Stalemate(b))
      && (if end && Winner(b) == 0 then
            after[0] == b[0] + RocksIn(b, Side(1), 12) && after[13] == b[13] + RocksIn(b, Side(2), 12)
          else after == b)
      && (!end ==> last == if HasMove(b, Rotate(player)) then player else Rotate(player))
  {
    ClearedCollects(b);
    if EmptySide(b) != 0 {
      MovesWithEmptySide(b, 1);
      MovesWithEmptySide(b, 2);
      NoOppositeRocks(b);
    } else {
      BothSides(b, 1);
      BothSides(b, 2);
    }
  }

  lemma NoOppositeRocks(b: Board)
    requires EmptySide(b) != 0
    ensures !Stalemate(b)
  {
    if i :| 1 <= i <= 6 && b[i] == 1 && b[i + 6] == 1 {
      assert OwnPit(1, i) && OwnPit(2, i + 6);
    }
  }

  /** A game that goes on leaves the next player a move. */
  lemma GoesOn(b: Board, player: int)
    requires IsPlayer(player) && !CheckedForEnd(b, player).2
    ensures IsPlayer(CheckedForEnd(b, player).1)
    ensures HasMove(CheckedForEnd(b, player).0, Rotate(CheckedForEnd(b, player).1))
  {
    var mover := Rotate(CheckedForEnd(b, player).1);
    if EmptySide(b) != 0 {
      var m :| 1 <= m <= 12 && OwnPit(Rotate(EmptySide(b)), m) && Crosses(b, m);
      assert Allowed(b, mover, m);
    } else {
      BothSides(b, mover);
    }
  }

  /** With rocks on both sides each player has a move. */
  lemma BothSides(b: Board, player: int)
    requires IsPlayer(player) && EmptySide(b) == 0
    ensures HasMove(b, player)
  {
    if m :| 1 <= m <= 12 && OwnPit(player, m) && b[m] > 1 {
      assert Allowed(b, player, m);
    } else {
      assert !SideEmpty(b, player);
      var m :| 1 <= m <= 12 && OwnPit(player, m) && b[m] != 0;
      assert Allowed(b, player, m);
    }
  }

  // ---------- Games ----------

  /** last is the player the next turn rotates from; win is 0 while the game goes on. */
  datatype Game = Game(board: Board, last: int, win: int)

  const START := Game(INITIAL, 2, 0)

  /** One turn of the loop. */
  function Turn(g: Game, m: int): Game
    requires Allowed(g.board, Rotate(g.last), m)
  {
    var player := Rotate(g.last);
    var (sown, landed) := Moved(g.board, m);
    var (after, next, end) := CheckedForEnd(Captured(sown, player, landed), player);
    Game(after, next, if end then Winner(after) else 0)
  }

  ghost predicate Sound(g: Game) {
    && Total(g.board) == ROCKS && IsPlayer(g.last)
    && (g.win == 0 ==> HasMove(g.board, Rotate(g.last)))
    && (g.win == Winner(g.board))
  }

  lemma TurnKeeps(g: Game, m: int)
    requires Sound(g) && g.win == 0 && Allowed(g.board, Rotate(g.last), m)
    ensures Sound(Turn(g, m))
  {
    var player := Rotate(g.last);
    var (sown, landed) := Moved(g.board, m);
    MoveKeepsRocks(g.board, m);
    var captured := Captured(sown, player, landed);
    CaptureKeepsRocks(sown, 0, 7, landed);
    CaptureKeepsRocks(sown, 13, 1, landed);
    EndDecides(captured, player);
    if !CheckedForEnd(captured, player).2 {
      GoesOn(captured, player);
    }
  }

  ghost predicate Playable(g: Game, moves: seq<int>)
    decreases |moves|
  {
    moves == [] || (g.win == 0 && Allowed(g.board, Rotate(g.last), moves[0]) && Playable(Turn(g, moves[0]), moves[1..]))
  }

  ghost function Played(g: Game, moves: seq<int>): Game
    requires Playable(g, moves)
    decreases |moves|
  {
    if moves == [] then g else Played(Turn(g, moves[0]), moves[1..])
  }

  lemma {:induction false} PlayKeeps(g: Game, moves: seq<int>)
    requires Sound(g) && Playable(g, moves)
    ensures Sound(Played(g, moves))
    decreases |moves|
  {
    if moves != [] {
      TurnKeeps(g, moves[0]);
      PlayKeeps(Turn(g, moves[0]), moves[1..]);
    }
  }

  /** In every game: 48 rocks, a move for whoever is to play, and an end exactly when someone has won or drawn. */
  lemma EveryGame(moves: seq<int>)
    requires Playable(START, moves)
    ensures Sound(Played(START, moves))
  {
    TotalOf(INITIAL);
    BothSides(INITIAL, 1);
    PlayKeeps(START, moves);
  }

  // ---------- Two opposite rocks ----------

  /** One turn and who played it, with the board left as it is even where the check for the end clears it. */
  function TurnUnswept(b: Board, last: int, m: int): (Board, int)
    requires 1 <= m <= 12
  {
    var (sown, landed) := Moved(b, m);
    var after := Captured(sown, Rotate(last), landed);
    (after, CheckedForEnd(after, Rotate(last)).1)
  }

  ghost predicate PlayableOn(b: Board, last: int, moves: seq<int>)
    decreases |moves|
  {
    moves == [] || (Allowed(b, Rotate(last), moves[0])
      && var (after, next) := TurnUnswept(b, last, moves[0]); PlayableOn(after, next, moves[1..]))
  }

  ghost function PlayedOn(b: Board, last: int, moves: seq<int>): (Board, int)
    requires PlayableOn(b, last, moves)
    decreases |moves|
  {
    if moves == [] then (b, last)
    else
      var (after, next) := TurnUnswept(b, last, moves[0]);
      PlayedOn(after, next, moves[1..])
  }

  /** One rock in each of two pits, and no other. */
  ghost predicate Two(b: Board, x: int, y: int) {
    x != y && forall k :: 1 <= k <= 12 ==> b[k] == if k == x || k == y then 1 else 0
  }

  function After(m: int): int { if m == 12 then 1 else m + 1 }

  function Opposite(m: int): int { if m <= 6 then m + 6 else m - 6 }

  /** The last player has moved a rock on from pit m, and the one opposite to it lags behind. */
  ghost predicate Lags(b: Board, last: int, m: int) {
    1 <= m <= 12 && OwnPit(last, m) && Two(b, After(m), Opposite(m))
  }

  /** The two rocks are six apart, or the next player's rock is the one that lags. */
  ghost predicate Circling(b: Board, last: int) {
    IsPlayer(last) && ((exists m :: 1 <= m <= 6 && Two(b, m, Opposite(m))) || exists m :: Lags(b, last, m))
  }

  lemma StalemateIsTwo(b: Board)
    requires Stalemate(b)
    ensures exists m :: 1 <= m <= 6 && Two(b, m, Opposite(m))
  {
    var m :| 1 <= m <= 6 && b[m] == 1 && b[m + 6] == 1;
    assert Two(b, m, Opposite(m));
  }

  /** A single rock that lands in an empty pit: nothing is captured. */
  lemma SingleRock(b: Board, last: int, m: int)
    requires 1 <= m <= 12 && b[m] == 1 && b[After(m)] == 0
    ensures TurnUnswept(b, last, m).0 == b[m := 0][After(m) := 1]
  {
    var after := b[m := 0][After(m) := 1];
    assert Sow(after, m, After(m) + 1, 0) == (after, After(m) + 1);
    assert Moved(b, m) == (after, After(m));
    assert after[After(m)] == 1;
  }

  lemma OpensGap(b: Board, last: int, m: int, x: int)
    requires IsPlayer(last) && 1 <= x <= 6 && Two(b, x, Opposite(x)) && Allowed(b, Rotate(last), m)
    ensures var (after, next) := TurnUnswept(b, last, m);
      next == Rotate(last) && Lags(after, next, m) && after[0] == b[0] && after[13] == b[13]
  {
    assert m == x || m == Opposite(x);
    SingleRock(b, last, m);
    RotatesOn(TurnUnswept(b, last, m).0, Rotate(last), m);
  }

  /** While a rock lags, the check for the end leaves the turn to its owner. */
  lemma RotatesOn(b: Board, player: int, m: int)
    requires IsPlayer(player) && Lags(b, player, m)
    ensures CheckedForEnd(b, player).1 == player
  {
    SidesOfTwo(b, player, m);
  }

  lemma SidesOfTwo(b: Board, player: int, m: int)
    requires IsPlayer(player) && Lags(b, player, m)
    ensures EmptySide(b) == if m == 6 || m == 12 then player else 0
  {
    assert OwnPit(Rotate(player), Opposite(m)) && b[Opposite(m)] == 1;
    assert m != 6 && m != 12 ==> OwnPit(player, After(m)) && b[After(m)] == 1;
  }

  lemma ClosesGap(b: Board, last: int, m: int, k: int)
    requires IsPlayer(last) && Lags(b, last, m) && Allowed(b, Rotate(last), k)
    ensures k == Opposite(m)
    ensures var (after, next) := TurnUnswept(b, last, k);
      && next == Rotate(last) && after[0] == b[0] && after[13] == b[13]
      && exists x :: 1 <= x <= 6 && Two(after, x, Opposite(x))
  {
    SidesOfTwo(b, last, m);
    assert k == Opposite(m);
    SingleRock(b, last, k);
    var after := TurnUnswept(b, last, k).0;
    var x := if After(m) <= 6 then After(m) else After(k);
    assert Two(after, x, Opposite(x));
    assert after[x] == 1 && after[Opposite(x)] == 1;
    assert OwnPit(1, x) && OwnPit(2, Opposite(x));
  }

  /** Whoever is to play has a move. */
  lemma NeverStuck(b: Board, last: int)
    requires Circling(b, last)
    ensures HasMove(b, Rotate(last))
  {
    if m :| 1 <= m <= 6 && Two(b, m, Opposite(m)) {
      assert OwnPit(1, m) && OwnPit(2, Opposite(m)) && b[m] == 1 && b[Opposite(m)] == 1;
      BothSides(b, Rotate(last));
    } else {
      var m :| Lags(b, last, m);
      SidesOfTwo(b, last, m);
      assert Allowed(b, Rotate(last), Opposite(m));
    }
  }

  lemma TurnCircles(b: Board, last: int, m: int)
    requires Circling(b, last) && Allowed(b, Rotate(last), m)
    ensures var (after, next) := TurnUnswept(b, last, m);
      Circling(after, next) && after[0] == b[0] && after[13] == b[13]
  {
    if x :| 1 <= x <= 6 && Two(b, x, Opposite(x)) {
      OpensGap(b, last, m, x);
    } else {
      var x :| Lags(b, last, x);
      ClosesGap(b, last, x, m);
    }
  }

  lemma {:induction false} CirclesOn(b: Board, last: int, moves: seq<int>)
    requires Circling(b, last) && PlayableOn(b, last, moves)
    ensures var (after, next) := PlayedOn(b, last, moves);
      Circling(after, next) && after[0] == b[0] && after[13] == b[13]
    decreases |moves|
  {
    if moves != [] {
      TurnCircles(b, last, moves[0]);
      var (after, next) := TurnUnswept(b, last, moves[0]);
      CirclesOn(after, next, moves[1..]);
    }
  }

  /** If the game went on from a stalemate, it would never end: somebody could always move, and nobody ever capture. */
  lemma StalemateLasts(b: Board, last: int, moves: seq<int>)
    requires Stalemate(b) && IsPlayer(last) && PlayableOn(b, last, moves)
    ensures var (after, next) := PlayedOn(b, last, moves);
      after[0] == b[0] && after[13] == b[13] && HasMove(after, Rotate(next))
  {
    StalemateIsTwo(b);
    CirclesOn(b, last, moves);
    var (after, next) := PlayedOn(b, last, moves);
    NeverStuck(after, next);
  }

  // ---------- The computer's choice ----------

  /** What a move brings into player 2's deposit. */
  function Gain(b: Board, m: int): int
    requires 1 <= m <= 12
  {
    var (sown, landed) := Moved(b, m);
    var now: int, before: int := Captured(sown, 2, landed)[13], b[13];
    now - before
  }

  /** It is the rocks of the pits taken. */
  lemma GainIsTaken(b: Board, m: int)
    requires 1 <= m <= 12
    ensures var (sown, landed) := Moved(b, m); Gain(b, m) == RocksIn(sown, Taken(sown, 2, landed), 12)
  {
    MoveCollects(b, 2, m);
  }

  datatype Scan = Scan(best: int, maxCaptures: int, captures: int)

  /** The best move so far, what it gains, and what the last allowed move gained. */
  function Scanned(b: Board, i: nat): Scan
    requires 7 <= i <= 13
  {
    if i == 7 then Scan(7, 0, 0)
    else
      var s := Scanned(b, i - 1);
      if !Allowed(b, 2, i - 1) then s
      else
        var gain := Gain(b, i - 1);
        if gain > s.maxCaptures then Scan(i - 1, gain, gain) else s.(captures := gain)
  }

  /** Whether the computer falls back on a random allowed move. */
  predicate Random(b: Board) { Scanned(b, 13).best == 7 && Scanned(b, 13).captures == 0 }

  /** The moves the computer may make. */
  ghost predicate Possible(b: Board, m: int) {
    if Random(b) then Allowed(b, 2, m) else m == Scanned(b, 13).best
  }

  /** No allowed move gains more. */
  ghost predicate Greediest(b: Board, m: int) {
    && Allowed(b, 2, m)
    && forall k :: 1 <= k <= 12 && Allowed(b, 2, k) ==> Gain(b, k) <= Gain(b, m)
  }

  lemma {:induction false} SowSparesDeposits(b: Board, origin: int, landed: int, rocks: nat)
    requires 1 <= origin <= 12 && 1 <= landed <= 13
    ensures Sow(b, origin, landed, rocks).0[13] == b[13] && Sow(b, origin, landed, rocks).0[0] == b[0]
    decreases rocks
  {
    if rocks > 0 {
      var p := NextPit(origin, landed);
      SowSparesDeposits(b[p := b[p] + 1], origin, p + 1, rocks - 1);
    }
  }

  lemma GainNotNegative(b: Board, m: int)
    requires 1 <= m <= 12
    ensures Gain(b, m) >= 0
  {
    var (sown, landed) := Moved(b, m);
    SowSparesDeposits(b[m := 0], m, m + 1, b[m]);
    CaptureKeepsRocks(sown, 13, 1, landed);
  }

  /** The last allowed move before pit i, or 0. */
  ghost function LastAllowed(b: Board, i: nat): (k: int)
    requires 7 <= i <= 13
    ensures k == 0 || (7 <= k < i && Allowed(b, 2, k))
    ensures forall j :: 7 <= j < i && Allowed(b, 2, j) ==> 0 < j <= k
  {
    if i == 7 then 0 else if Allowed(b, 2, i - 1) then i - 1 else LastAllowed(b, i - 1)
  }

  /** The scan keeps the first of the greatest gains, once one is positive. */
  lemma {:induction false} ScanFindsMost(b: Board, i: nat)
    requires 7 <= i <= 13
    ensures var s := Scanned(b, i);
      && 0 <= s.captures <= s.maxCaptures && 7 <= s.best <= 12
      && (forall k :: 7 <= k < i && Allowed(b, 2, k) ==> Gain(b, k) <= s.maxCaptures)
      && (forall k :: 7 <= k < s.best && Allowed(b, 2, k) ==> Gain(b, k) < s.maxCaptures)
      && (if s.maxCaptures > 0 then s.best < i && Allowed(b, 2, s.best) && Gain(b, s.best) == s.maxCaptures
          else s.best == 7)
  {
    if i > 7 {
      ScanFindsMost(b, i - 1);
      if Allowed(b, 2, i - 1) {
        GainNotNegative(b, i - 1);
      }
    }
  }

  /** The captures left over are those of the last move tried. */
  lemma {:induction false} ScanEndsWithLast(b: Board, i: nat)
    requires 7 <= i <= 13
    ensures Scanned(b, i).captures == if LastAllowed(b, i) == 0 then 0 else Gain(b, LastAllowed(b, i))
  {
    if i > 7 {
      ScanEndsWithLast(b, i - 1);
    }
  }

  /** The computer's move is always allowed. */
  lemma ComputerAllowed(b: Board, m: int)
    requires HasMove(b, 2) && Possible(b, m)
    ensures Allowed(b, 2, m)
  {
    ScanFindsMost(b, 13);
  }

  /** Pit 7 captures, no allowed move captures more, and the last allowed move captures nothing. */
  ghost predicate Overlooked(b: Board) {
    && Allowed(b, 2, 7) && Gain(b, 7) > 0
    && (forall k :: 1 <= k <= 12 && Allowed(b, 2, k) ==> Gain(b, k) <= Gain(b, 7))
    && Gain(b, LastAllowed(b, 13)) == 0
  }

  /** The computer is sure of the greatest capture except when it overlooks that of pit 7 and picks at random. */
  lemma ComputerGreedyExactlyWhen(b: Board)
    requires HasMove(b, 2)
    ensures (forall m :: Possible(b, m) ==> Greediest(b, m)) <==> !Overlooked(b)
  {
    ScanFindsMost(b, 13);
    ScanEndsWithLast(b, 13);
    var s := Scanned(b, 13);
    if Random(b) && s.maxCaptures > 0 {
      var k := LastAllowed(b, 13);
      assert Possible(b, k) && !Greediest(b, k);
    } else {
      forall m | Possible(b, m)
        ensures Greediest(b, m)
      {
        ComputerAllowed(b, m);
        GainNotNegative(b, m);
      }
    }
  }

  const OVERLOOKED: Board := [17, 1, 4, 0, 0, 0, 0, 6, 0, 0, 0, 0, 2, 18]

  /** On this board of 48 rocks pit 7 gains 2 and pit 12 nothing, and the computer may play pit 12. */
  lemma ComputerOverlooks()
    ensures Total(OVERLOOKED) == ROCKS && HasMove(OVERLOOKED, 2) && Overlooked(OVERLOOKED)
    ensures Gain(OVERLOOKED, 7) == 2 && Possible(OVERLOOKED, 12) && Gain(OVERLOOKED, 12) == 0
  {
    var b := OVERLOOKED;
    TotalOf(b);
    assert b[2] == 4 && b[12] == 2 && b[7] == 6;
    GainOfSeven();
    GainOfTwelve();
    MovesOverlooked();
    assert LastAllowed(b, 13) == 12;
    ScanFindsMost(b, 13);
    ScanEndsWithLast(b, 13);
  }

  lemma MovesOverlooked()
    ensures forall k :: Allowed(OVERLOOKED, 2, k) <==> k == 7 || k == 12
  {
    var b := OVERLOOKED;
    assert b[1] == 1 && b[7] == 6 && b[12] == 2 && b[8] == b[9] == b[10] == b[11] == 0;
    assert !SideEmpty(b, 1) && !SideEmpty(b, 2);
  }

  lemma GainOfSeven()
    ensures Gain(OVERLOOKED, 7) == 2
  {
    var b := OVERLOOKED;
    var sown := b[7 := 0][8 := 1][9 := 1][10 := 1][11 := 1][12 := 3][1 := 2];
    var two := b[7 := 0][8 := 1][9 := 1];
    var four := two[10 := 1][11 := 1];
    assert Sow(b[7 := 0], 7, 8, 6) == Sow(two, 7, 10, 4);
    assert Sow(two, 7, 10, 4) == Sow(four, 7, 12, 2);
    assert Sow(four, 7, 12, 2) == (sown, 2);
    assert CaptureFrom(sown, 13, 1, 1) == sown[13 := 20][1 := 0];
  }

  lemma GainOfTwelve()
    ensures Gain(OVERLOOKED, 12) == 0
  {
    var b := OVERLOOKED;
    assert Sow(b[12 := 0], 12, 13, 2) == (b[12 := 0][1 := 2][2 := 5], 3);
  }
}
