/** Placing a stone on a Go board array: capture first, then the suicide
    test. Both the engine's own moves and the AI's trial moves go through
    SimulateMove. */
module GoRules {
  import opened GoBoard
  import opened GoFlood
  import opened GoCapture

  /** A move is allowed by the suicide rule when, on the board with the new
      stone, it captures something or the new stone's group has a liberty. */
  ghost predicate NotSuicide(placed: Grid, p: Pos, player: int)
    requires IsGrid(placed) && InBoard(p)
  {
    CapturesAny(placed, p, player) || HasLiberty(placed, p)
  }

  /** The engine's step for one neighbour n of the new stone at p: an
      opponent stone there whose group has no liberty is removed with its
      group. */
  method CaptureAt(board: array2<int>, ghost h: Grid, ghost p: Pos, player: int, ghost done: seq<Pos>, n: Pos)
    returns (took: bool)
    requires IsSquare(board) && IsGrid(h) && InBoard(n) && Adjacent(p, n) && (player == 1 || player == -1)
    requires Snapshot(board) == CaptureAmong(h, p, player, done)
    modifies board
    ensures Snapshot(board) == CaptureAmong(h, p, player, done + [n])
    ensures AnyDead(h, p, player, done + [n]) <==> AnyDead(h, p, player, done) || took
  {
    AnyDeadSnoc(h, p, player, done, n);
    took := false;
    if board[n.0, n.1] == -player {
      CaptureStepStone(h, p, player, done, n);
      var lib := CheckLiberty(board, n.0, n.1);
      if !lib {
        CaptureStepDead(h, p, player, done, n);
        RemoveGroup(board, n.0, n.1);
        took := true;
      } else {
        CaptureStepAlive(h, p, player, done, n);
      }
    } else {
      CaptureStepSkip(h, p, player, done, n);
    }
  }

  /** Places a stone of `player` at (r, c), removes the neighbouring opponent
      groups left without liberties, and reports whether the move passes the
      suicide test. The board is changed in either case. */
  method SimulateMove(board: array2<int>, r: int, c: int, player: int) returns (legal: bool)
    requires IsSquare(board) && InBoard((r, c)) && (player == 1 || player == -1)
    modifies board
    ensures Snapshot(board) == Capture(Put(old(Snapshot(board)), (r, c), player), (r, c), player)
    ensures legal <==> NotSuicide(Put(old(Snapshot(board)), (r, c), player), (r, c), player)
  {
    ghost var p: Pos := (r, c);
    ghost var h := Put(Snapshot(board), p, player);
    board[r, c] := player;
    GridsEqual(Snapshot(board), h);
    CaptureAmongNone(h, p, player);
    var captured := false;
    var ns := GetNeighbors(r, c);
    for i := 0 to |ns|
      invariant Snapshot(board) == CaptureAmong(h, p, player, ns[..i])
      invariant captured <==> AnyDead(h, p, player, ns[..i])
    {
      PrefixSnoc(ns, i);
      var took := CaptureAt(board, h, p, player, ns[..i], ns[i]);
      captured := captured || took;
    }
    assert ns[..|ns|] == ns;
    CaptureAmongAll(h, p, player, ns);
    legal := true;
    if !captured {
      CaptureNone(h, p, player);
      var lib := CheckLiberty(board, r, c);
      if !lib {
        legal := false;
      }
    }
  }

  /** The engine's answer to a move: played, refused by the ko test, or
      refused by the suicide test. */
  datatype MoveResult = Success | Ko | Suicide

  /** The board after `player` places a stone at p and the captures it
      makes. */
  ghost function Outcome(g: Grid, p: Pos, player: int): (k: Grid)
    requires IsGrid(g) && InBoard(p)
    ensures IsGrid(k)
  {
    Capture(Put(g, p, player), p, player)
  }

  /** The ko test as the engine writes it: the new board is compared with
      the entry second from the end of the history. The history holds the
      board as it was before each committed move or pass, so that entry is
      the board before the mover's own previous turn, not the board the
      opponent has just changed. */
  predicate IsKoAsWritten(history: seq<Grid>, next: Grid) {
    |history| >= 2 && next == history[|history| - 2]
  }

  /** The ko test the engine means: a move may not bring back the board
      from before the opponent's last turn, which is the last entry of the
      history. */
  predicate IsKo(history: seq<Grid>, next: Grid) {
    |history| >= 1 && next == history[|history| - 1]
  }

  /** After the mover's turn (from g0 to g1) and the opponent's reply, the
      test as written flags only a return to g0 and lets the immediate
      recapture that brings back g1 through whenever the two differ. */
  lemma KoAsWrittenMissesRecapture(h: seq<Grid>, g0: Grid, g1: Grid, next: Grid)
    ensures IsKoAsWritten(h + [g0, g1], next) <==> next == g0
    ensures g0 != g1 ==> !IsKoAsWritten(h + [g0, g1], g1)
  {
  }

  /** After the mover's turn (from g0 to g1) and the opponent's reply, the
      ko test refuses exactly the move that brings back g1, the board the
      opponent moved from: the immediate recapture of a ko. */
  lemma KoRefusesRecapture(h: seq<Grid>, g0: Grid, g1: Grid, next: Grid)
    ensures IsKo(h + [g0, g1], next) <==> next == g1
  {
  }

  /** The verdict of the engine on a move of `player` at p: the suicide test
      comes first, and a trial move skips the ko test. */
  ghost function Judge(history: seq<Grid>, g: Grid, p: Pos, player: int, isSimulation: bool): MoveResult
    requires IsGrid(g) && InBoard(p)
  {
    if !NotSuicide(Put(g, p, player), p, player) then Suicide
    else if !isSimulation && IsKoAsWritten(history, Outcome(g, p, player)) then Ko
    else Success
  }

  /** The engine lets an immediate ko recapture through: after the mover's
      turn from g0 to g1 and the reply, a legal move that brings back g1 is
      judged a success whenever g1 differs from g0. */
  lemma RecaptureAccepted(h: seq<Grid>, g0: Grid, g1: Grid, g: Grid, p: Pos, player: int)
    requires IsGrid(g) && InBoard(p) && NotSuicide(Put(g, p, player), p, player)
    requires Outcome(g, p, player) == g1 && g0 != g1
    ensures Judge(h + [g0, g1], g, p, player, false) == Success
  {
    KoAsWrittenMissesRecapture(h, g0, g1, g1);
  }

  /** Only suicide is refused as suicide, and the ko test only refuses a
      move that would bring back a board the game has already had. */
  lemma JudgeRefuses(history: seq<Grid>, g: Grid, p: Pos, player: int, isSimulation: bool)
    requires IsGrid(g) && InBoard(p)
    ensures Judge(history, g, p, player, isSimulation) == Suicide <==> !NotSuicide(Put(g, p, player), p, player)
    ensures Judge(history, g, p, player, isSimulation) == Ko <==>
      !isSimulation && NotSuicide(Put(g, p, player), p, player) && IsKoAsWritten(history, Outcome(g, p, player))
    ensures Judge(history, g, p, player, isSimulation) == Ko ==>
      |history| >= 2 && Outcome(g, p, player) == history[|history| - 2]
    ensures isSimulation ==> Judge(history, g, p, player, isSimulation) != Ko
  {
  }

  /** A move keeps the board well formed, keeps its own stone, and changes
      no other cell except by removing opponent stones. */
  lemma OutcomeBoard(g: Grid, p: Pos, player: int)
    requires IsBoard(g) && InBoard(p) && (player == 1 || player == -1)
    ensures IsBoard(Outcome(g, p, player))
    ensures At(Outcome(g, p, player), p) == player
    ensures forall q | InBoard(q) && q != p && At(Outcome(g, p, player), q) != At(g, q) ::
      At(g, q) == -player && At(Outcome(g, p, player), q) == 0
  {
    var h := Put(g, p, player);
    var k := Outcome(g, p, player);
    CaptureEffect(h, p, player);
    forall r, c | 0 <= r < Size && 0 <= c < Size
      ensures -1 <= k[r][c] <= 1
    {
      assert At(k, (r, c)) == k[r][c] && At(g, (r, c)) == g[r][c];
    }
  }

  /** The suicide test, read on the finished board: a move is allowed exactly
      when the new stone's group has a liberty once the captures are made. */
  lemma NotSuicideLiberty(g: Grid, p: Pos, player: int)
    requires IsGrid(g) && InBoard(p) && (player == 1 || player == -1)
    ensures NotSuicide(Put(g, p, player), p, player) <==> HasLiberty(Outcome(g, p, player), p)
  {
    CaptureLiberty(Put(g, p, player), p, player);
  }
}
