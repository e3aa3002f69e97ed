/**
 The Oware engine on its array of cells: every procedure does to the array what the functions on
 boards say.
 */
module OwareEngine {
  import opened Oware

  method TheMove(board: array<nat>, nextMove: int) returns (landed: int)
    requires board.Length == CELLS && 1 <= nextMove <= 12
    modifies board
    ensures (board[..], landed) == Moved(old(board[..]), nextMove)
  {
    var rocks := board[nextMove];
    board[nextMove] := 0;
    assert board[..] == old(board[..])[nextMove := 0];
    landed := nextMove + 1;
    ghost var goal := Sow(board[..], nextMove, landed, rocks);
    while rocks > 0
      invariant 1 <= landed <= 13 && Sow(board[..], nextMove, landed, rocks) == goal
    {
      landed := SowOne(board, nextMove, landed);
      rocks := rocks - 1;
    }
    return landed - 1;
  }

  /** The next rock passes over the pit played, then wraps round. */
  method SowOne(board: array<nat>, nextMove: int, landed: int) returns (next: int)
    requires board.Length == CELLS && 1 <= nextMove <= 12 && 1 <= landed <= 13
    modifies board
    ensures var p := NextPit(nextMove, landed); board[..] == old(board[..])[p := old(board[p]) + 1] && next == p + 1
  {
    next := landed;
    if next == nextMove {
      next := next + 1;
    }
    if next == 13 {
      next := 1;
    }
    board[next] := board[next] + 1;
    next := next + 1;
  }

  method Capture(board: array<nat>, player: int, landed: int)
    requires board.Length == CELLS && 0 <= landed <= 12
    modifies board
    ensures board[..] == Captured(old(board[..]), player, landed)
    ensures Collected(old(board[..]), board[..], player, Taken(old(board[..]), player, landed))
  {
    CaptureCollects(board[..], player, landed);
    if player == 1 {
      if landed >= 7 && landed <= 12 {
        CaptureBack(board, 0, 7, landed);
      }
    } else {
      if landed >= 1 && landed <= 6 {
        CaptureBack(board, 13, 1, landed);
      }
    }
  }

  /** The capture loop for either side. */
  method CaptureBack(board: array<nat>, deposit: nat, low: nat, landed: nat)
    requires board.Length == CELLS && (deposit == 0 || deposit == 13) && 1 <= low && landed <= 12
    modifies board
    ensures board[..] == CaptureFrom(old(board[..]), deposit, low, landed)
  {
    var i := landed;
    while (board[i] == 2 || board[i] == 3) && i >= low
      invariant 0 <= i <= 12
      invariant CaptureFrom(board[..], deposit, low, i) == CaptureFrom(old(board[..]), deposit, low, landed)
    {
      ghost var before := board[..];
      board[deposit] := board[deposit] + board[i];
      board[i] := 0;
      assert board[..] == before[deposit := before[deposit] + before[i]][i := 0];
      i := i - 1;
    }
  }

  method CheckWin(board: array<nat>) returns (playerWon: int)
    requires board.Length == CELLS
    ensures playerWon == Winner(board[..])
  {
    playerWon := 0;
    if board[0] >= 25 {
      playerWon := 1;
    } else if board[13] >= 25 {
      playerWon := 2;
    } else if board[0] == 24 && board[13] == 24 {
      playerWon := -1;
    }
  }

  method CheckNRocks(board: array<nat>) returns (p: int)
    requires board.Length == CELLS
    ensures p == EmptySide(board[..])
  {
    p := 0;
    ghost var b: Board := board[..];
    assert forall i :: 0 <= i < CELLS ==> b[i] == board[i];
    if board[1] == 0 && board[2] == 0 && board[3] == 0 && board[4] == 0 && board[5] == 0 && board[6] == 0 {
      p := 1;
    } else if board[7] == 0 && board[8] == 0 && board[9] == 0 && board[10] == 0 && board[11] == 0 && board[12] == 0 {
      p := 2;
    }
    SidesByPits(b);
  }

  lemma SidesByPits(b: Board)
    ensures SideEmpty(b, 1) <==> b[1] == 0 && b[2] == 0 && b[3] == 0 && b[4] == 0 && b[5] == 0 && b[6] == 0
    ensures SideEmpty(b, 2) <==> b[7] == 0 && b[8] == 0 && b[9] == 0 && b[10] == 0 && b[11] == 0 && b[12] == 0
  {
    assert OwnPit(1, 1) && OwnPit(1, 2) && OwnPit(1, 3) && OwnPit(1, 4) && OwnPit(1, 5) && OwnPit(1, 6);
    assert OwnPit(2, 7) && OwnPit(2, 8) && OwnPit(2, 9) && OwnPit(2, 10) && OwnPit(2, 11) && OwnPit(2, 12);
  }

  method WhenNoRocks(board: array<nat>) returns (movePossible: bool)
    requires board.Length == CELLS
    ensures movePossible <==> CanFeed(board[..])
  {
    movePossible := false;
    var checkRocks := CheckNRocks(board);
    if checkRocks == 1 {
      if board[7] > 5 || board[8] > 4 || board[9] > 3 || board[10] > 2 || board[11] > 1 || board[12] >= 1 {
        movePossible := true;
      }
    } else if checkRocks == 2 {
      if board[1] > 5 || board[2] > 4 || board[3] > 3 || board[4] > 2 || board[5] > 1 || board[6] >= 1 {
        movePossible := true;
      }
    }
    FeedByPits(board[..]);
  }

  lemma FeedByPits(b: Board)
    ensures EmptySide(b) == 1 ==>
      (CanFeed(b) <==> b[7] > 5 || b[8] > 4 || b[9] > 3 || b[10] > 2 || b[11] > 1 || b[12] >= 1)
    ensures EmptySide(b) == 2 ==>
      (CanFeed(b) <==> b[1] > 5 || b[2] > 4 || b[3] > 3 || b[4] > 2 || b[5] > 1 || b[6] >= 1)
  {
    assert OwnPit(1, 1) && OwnPit(1, 2) && OwnPit(1, 3) && OwnPit(1, 4) && OwnPit(1, 5) && OwnPit(1, 6);
    assert (Crosses(b, 1) <==> b[1] > 5) && (Crosses(b, 2) <==> b[2] > 4) && (Crosses(b, 3) <==> b[3] > 3);
    assert (Crosses(b, 4) <==> b[4] > 2) && (Crosses(b, 5) <==> b[5] > 1) && (Crosses(b, 6) <==> b[6] >= 1);
    assert (Crosses(b, 7) <==> b[7] > 5) && (Crosses(b, 8) <==> b[8] > 4) && (Crosses(b, 9) <==> b[9] > 3);
    assert (Crosses(b, 10) <==> b[10] > 2) && (Crosses(b, 11) <==> b[11] > 1) && (Crosses(b, 12) <==> b[12] >= 1);
    assert OwnPit(2, 7) && OwnPit(2, 8) && OwnPit(2, 9) && OwnPit(2, 10) && OwnPit(2, 11) && OwnPit(2, 12);
  }

  method AllRocksToDeposit(board: array<nat>)
    requires board.Length == CELLS
    modifies board
    ensures board[..] == Cleared(old(board[..]))
  {
    ghost var b := board[..];
    for i := 1 to 7
      invariant board[0] == SideTo(b, 0, 1, i) && board[13] == b[13]
      invariant forall k :: 1 <= k <= 12 ==> board[k] == if k < i then 0 else b[k]
    {
      board[0] := board[0] + board[i];
      board[i] := 0;
    }
    for i := 7 to 13
      invariant board[0] == SideTo(b, 0, 1, 7) && board[13] == SideTo(b, 13, 7, i)
      invariant forall k :: 1 <= k <= 12 ==> board[k] == if k < i then 0 else b[k]
    {
      board[13] := board[13] + board[i];
      board[i] := 0;
    }
    SidesAdded(b);
    assert board[..] == Cleared(b);
  }

  /** A deposit with the rocks of pits from up to i. */
  ghost function SideTo(b: Board, deposit: nat, from: nat, i: nat): nat
    requires deposit < CELLS && from <= i <= CELLS
  {
    if i == from then b[deposit] else SideTo(b, deposit, from, i - 1) + b[i - 1]
  }

  lemma SidesAdded(b: Board)
    ensures SideTo(b, 0, 1, 7) == b[0] + b[1] + b[2] + b[3] + b[4] + b[5] + b[6]
    ensures SideTo(b, 13, 7, 13) == b[13] + b[7] + b[8] + b[9] + b[10] + b[11] + b[12]
  {
    SideStep(b, 0, 1, 1);
    SideStep(b, 0, 1, 3);
    SideStep(b, 0, 1, 5);
    SideStep(b, 13, 7, 7);
    SideStep(b, 13, 7, 9);
    SideStep(b, 13, 7, 11);
  }

  lemma SideStep(b: Board, deposit: nat, from: nat, i: nat)
    requires deposit < CELLS && from <= i && i + 2 <= CELLS
    ensures SideTo(b, deposit, from, from) == b[deposit]
    ensures SideTo(b, deposit, from, i + 2) == SideTo(b, deposit, from, i) + b[i] + b[i + 1]
  {
    assert SideTo(b, deposit, from, i + 1) == SideTo(b, deposit, from, i) + b[i];
  }

  /** The player counted as having played last may be turned round, so that the one who can feed plays next. */
  method CheckForEnd(board: array<nat>, player: int) returns (last: int, end: bool)
    requires board.Length == CELLS
    modifies board
    ensures (board[..], last, end) == CheckedForEnd(old(board[..]), player)
  {
    last, end := player, false;
    ghost var b: Board := board[..];
    var checkRocks := CheckNRocks(board);
    var totalRocks := PitRocks(board);
    var won := CheckWin(board);
    if won == 0 {
      if checkRocks != 0 {
        var movePossible := WhenNoRocks(board);
        if movePossible {
          if last != checkRocks {
            last := Rotate(last);
          }
        } else {
          end := true;
          AllRocksToDeposit(board);
        }
      } else if totalRocks == 2 {
        end := ClearOpposite(board);
      }
    } else {
      end := true;
    }
  }

  method PitRocks(board: array<nat>) returns (totalRocks: nat)
    requires board.Length == CELLS
    ensures totalRocks == Pits(board[..])
  {
    totalRocks := 0;
    ghost var b: Board := board[..];
    for i := 1 to 13
      invariant totalRocks + b[0] == TotalTo(b, i)
    {
      totalRocks := totalRocks + board[i];
    }
    TotalOf(b);
  }

  /** Two single rocks in opposite pits end the game; the pits are empty from then on. */
  method ClearOpposite(board: array<nat>) returns (end: bool)
    requires board.Length == CELLS && Pits(board[..]) == 2
    modifies board
    ensures end <==> Stalemate(old(board[..]))
    ensures board[..] == if end then Cleared(old(board[..])) else old(board[..])
  {
    ghost var b: Board := board[..];
    end := false;
    var i, j := 1, 7;
    while i <= 6 && j <= 12
      invariant 1 <= i <= 7 && j == i + 6
      invariant end <==> exists k :: 1 <= k < i && b[k] == 1 && b[k + 6] == 1
      invariant board[..] == if end then Cleared(b) else b
    {
      if board[i] == 1 && board[j] == 1 {
        assert !end && b[i] == 1 && b[i + 6] == 1;
        end := true;
        AllRocksToDeposit(board);
      }
      i, j := i + 1, j + 1;
    }
  }

  method CheckIfValid(board: array<nat>, player: int, nextMove: int) returns (valid: bool)
    requires board.Length == CELLS && IsPlayer(player)
    ensures valid <==> nextMove == 0 || Allowed(board[..], player, nextMove)
  {
    valid := false;
    var checkRocks := CheckNRocks(board);
    if nextMove == 0 {
      valid := true;
    } else if nextMove > 0 && nextMove <= 12 {
      if (player == 1 && nextMove > 6) || (player == 2 && nextMove < 7) {
        valid := false;
      } else if board[nextMove] == 0 {
        valid := false;
      } else if checkRocks != 0 {
        valid := ReachesOver(board, checkRocks, nextMove);
      } else if board[nextMove] == 1 {
        valid := OnlySingles(board, player);
      } else {
        valid := true;
      }
    }
  }

  /** The scan for the least number of rocks that crosses from the pit. */
  method ReachesOver(board: array<nat>, checkRocks: int, nextMove: int) returns (valid: bool)
    requires board.Length == CELLS && IsPlayer(checkRocks) && 1 <= nextMove <= 12
    ensures valid <==> !OwnPit(checkRocks, nextMove) && Crosses(board[..], nextMove)
  {
    valid := false;
    var i, j := if checkRocks == 1 then 7 else 1, 6;
    var last := i + 5;
    if i <= nextMove <= last {
      while i <= last
        invariant last - 5 <= i <= nextMove <= last && j == last + 1 - i
        decreases last - i
      {
        if nextMove == i {
          return board[nextMove] >= j;
        }
        i, j := i + 1, j - 1;
      }
    }
  }

  /** No pit of the player has more than one rock. */
  method OnlySingles(board: array<nat>, player: int) returns (valid: bool)
    requires board.Length == CELLS && IsPlayer(player)
    ensures valid <==> forall i :: 1 <= i <= 12 && OwnPit(player, i) ==> board[i] <= 1
  {
    var first := if player == 1 then 1 else 7;
    for i := first to first + 6
      invariant forall k :: first <= k < i ==> board[k] <= 1
    {
      if board[i] > 1 {
        return false;
      }
    }
    return true;
  }

  /** One turn: the move, the captures, and the check for the end. */
  method PlayTurn(board: array<nat>, last: int, move: int) returns (currentPlayer: int, win: int)
    requires board.Length == CELLS && IsPlayer(last) && Allowed(board[..], Rotate(last), move)
    modifies board
    ensures Game(board[..], currentPlayer, win) == Turn(Game(old(board[..]), last, 0), move)
  {
    currentPlayer := Rotate(last);
    win := 0;
    var landed := TheMove(board, move);
    Capture(board, currentPlayer, landed);
    var end;
    currentPlayer, end := CheckForEnd(board, currentPlayer);
    if end {
      win := CheckWin(board);
    }
  }

  lemma OneTurn(g: Game, moves: seq<int>)
    requires Sound(g) && Playable(g, moves) && moves != []
    ensures g.win == 0 && IsPlayer(g.last) && Allowed(g.board, Rotate(g.last), moves[0])
    ensures var t := Turn(g, moves[0]); Sound(t) && Playable(t, moves[1..]) && Played(t, moves[1..]) == Played(g, moves)
  {
    TurnKeeps(g, moves[0]);
  }

  method NewBoard() returns (board: array<nat>)
    ensures fresh(board) && board[..] == INITIAL
  {
    board := new nat[CELLS](i => if i == 0 || i == 13 then 0 else 4);
    assert board[..] == INITIAL;
  }

  /** A game between two players, as far as their moves go. */
  method PlayGame(moves: seq<int>) returns (board: array<nat>, currentPlayer: int, win: int)
    requires Playable(START, moves)
    ensures board.Length == CELLS && Game(board[..], currentPlayer, win) == Played(START, moves)
    ensures Sound(Played(START, moves))
  {
    board := NewBoard();
    currentPlayer, win := 2, 0;
    EveryGame([]);
    var rest := moves;
    while rest != []
      invariant board.Length == CELLS && fresh(board)
      invariant var g := Game(board[..], currentPlayer, win);
        Sound(g) && Playable(g, rest) && Played(g, rest) == Played(START, moves)
      decreases |rest|
    {
      ghost var g := Game(board[..], currentPlayer, win);
      OneTurn(g, rest);
      currentPlayer, win := PlayTurn(board, currentPlayer, rest[0]);
      rest := rest[1..];
    }
    EveryGame(moves);
  }

  // ---------- The computer's moves ----------

  /** A move is tried on a copy of the board; what counts is what the deposit gains. */
  method TryMove(board: array<nat>, move: int) returns (captures: int)
    requires board.Length == CELLS && 1 <= move <= 12
    ensures captures == Gain(board[..], move)
  {
    var tempBoard := new nat[CELLS](i requires 0 <= i < CELLS reads board => board[i]);
    assert tempBoard[..] == board[..];
    var landed := TheMove(tempBoard, move);
    Capture(tempBoard, 2, landed);
    var now: int, before: int := tempBoard[13], board[13];
    captures := now - before;
  }

  /** The first move with the greatest capture, or a random one; the random choice is left open. */
  method ComputerMove(board: array<nat>) returns (bestMove: int)
    requires board.Length == CELLS && HasMove(board[..], 2)
    ensures Possible(board[..], bestMove)
  {
    bestMove := 7;
    var maxCaptures, captures := 0, 0;
    for i := 7 to 13
      invariant Scan(bestMove, maxCaptures, captures) == Scanned(board[..], i)
    {
      var valid := CheckIfValid(board, 2, i);
      if valid {
        captures := TryMove(board, i);
        if captures > maxCaptures {
          maxCaptures := captures;
          bestMove := i;
        }
      }
    }
    if bestMove == 7 && captures == 0 {
      bestMove :| 1 <= bestMove <= 12 && Allowed(board[..], 2, bestMove);
    }
  }
}
