/** The game object of the 9x9 Go engine: the board, whose turn it is, the
    boards of earlier turns, the count of consecutive passes, and whether
    the game is over. Black (1) is the human player, White (-1) the
    computer. */
module GoGame {
  import opened GoBoard
  import opened GoFlood
  import opened GoCapture
  import opened GoRules
  import opened GoScore
  import opened GoAi

  datatype Option<T> = None | Some(value: T)

  /** The result announced when the game ends. */
  datatype Verdict = Verdict(blackPoints: int, whitePoints: int, blackWins: bool)

  /** Area scoring of a final position: stones plus owned territory, and the
      fixed threshold of 40.5 points for Black. */
  ghost function FinalScore(g: Grid): (v: Verdict)
    requires IsBoard(g)
    ensures v.blackWins ==> v.blackPoints > v.whitePoints
    ensures v.blackPoints + v.whitePoints <= 81
  {
    ScoreBound(g);
    var black := |Stones(g, 1)| + |Territory(g, 1)|;
    var white := |Stones(g, -1)| + |Territory(g, -1)|;
    Verdict(black, white, BlackWins(black))
  }

  /** The board and history a correct undo returns to: the board from before
      the human's last move, which is the second entry from the end, and the
      history without the last two entries. */
  function Undone(history: seq<Grid>): (Grid, seq<Grid>)
    requires |history| >= 2
  {
    (history[|history| - 2], history[..|history| - 2])
  }

  /** What the undo code of the engine computes instead: after dropping the
      last two entries it loads the last entry left, or the empty board. */
  function UndoneAsWritten(history: seq<Grid>): (Grid, seq<Grid>)
    requires |history| >= 2
  {
    var rest := history[..|history| - 2];
    (if |rest| > 0 then rest[|rest| - 1] else EmptyGrid(), rest)
  }

  /** A move and its reply push the two boards they started from, so undoing
      right after them restores the board and history the human moved
      from. */
  lemma UndoInvertsRound(h: seq<Grid>, before: Grid, reply: Grid)
    ensures Undone(h + [before, reply]) == (before, h)
  {
    assert (h + [before, reply])[..|h|] == h;
  }

  /** The undo code as written goes back one move too far: after Black at
      (4, 4), White at (2, 2), Black at (6, 6) and a White reply, it loads
      the board with Black's stone at (4, 4) alone, with Black to play,
      instead of the board from before Black's move at (6, 6). */
  lemma UndoAsWrittenOvershoots()
    ensures var e := EmptyGrid();
      var b1 := Put(e, (4, 4), 1);
      var b2 := Put(b1, (2, 2), -1);
      var b3 := Put(b2, (6, 6), 1);
      var h := [e, b1, b2, b3];
      UndoneAsWritten(h).0 == b1 && Undone(h).0 == b2 && b1 != b2
  {
    var e := EmptyGrid();
    var b1 := Put(e, (4, 4), 1);
    var b2 := Put(b1, (2, 2), -1);
    assert At(b1, (2, 2)) != At(b2, (2, 2));
  }

  /** A fresh board array holding grid g. */
  method FromGrid(g: Grid) returns (a: array2<int>)
    requires IsGrid(g)
    ensures fresh(a) && IsSquare(a) && Snapshot(a) == g
  {
    a := new int[Size, Size]((r, c) requires 0 <= r < Size && 0 <= c < Size => g[r][c]);
    GridsEqual(Snapshot(a), g);
  }

  /** Plays `player` at (r, c) on a fresh copy of g, as both the engine's
      own moves and White's trial moves do. */
  method TryMove(g: Grid, r: int, c: int, player: int) returns (temp: array2<int>, after: Grid, legal: bool)
    requires IsBoard(g) && InBoard((r, c)) && (player == 1 || player == -1)
    ensures fresh(temp) && IsSquare(temp) && Snapshot(temp) == after && temp[r, c] == player
    ensures after == Outcome(g, (r, c), player) && IsBoard(after)
    ensures legal <==> NotSuicide(Put(g, (r, c), player), (r, c), player)
  {
    temp := FromGrid(g);
    legal := SimulateMove(temp, r, c, player);
    after := Snapshot(temp);
    OutcomeBoard(g, (r, c), player);
  }

  /** The board after `player` plays at (r, c) on g, and whether the move
      passes the suicide test. */
  method Play(g: Grid, r: int, c: int, player: int) returns (after: Grid, legal: bool)
    requires IsBoard(g) && InBoard((r, c)) && (player == 1 || player == -1)
    ensures after == Outcome(g, (r, c), player) && IsBoard(after)
    ensures legal <==> NotSuicide(Put(g, (r, c), player), (r, c), player)
  {
    var _, a, l := TryMove(g, r, c, player);
    after, legal := a, l;
  }

  /** The rating of a trial move at (r, c) whose result is on `temp`:
      liberties are counted on the trial board, contact with the opponent
      on the current board. */
  method EvaluateMove(current: Grid, temp: array2<int>, r: int, c: int, player: int, noise: real) returns (score: real)
    requires IsGrid(current) && IsSquare(temp) && InBoard((r, c)) && temp[r, c] != 0
    ensures score == MoveScore(current, Snapshot(temp), (r, c), player, noise)
  {
    score := 0.0;
    if StarPoint((r, c)) {
      score := score + 10.0;
    }
    if 2 <= r <= 6 && 2 <= c <= 6 {
      score := score + 4.0;
    }
    if r == 0 || r == 8 || c == 0 || c == 8 {
      score := score - 2.0;
    }
    var liberties := CountLiberties(temp, r, c);
    score := score + liberties as real * 2.0;
    var contact := HasContact(current, r, c, -player);
    if contact {
      score := score + 5.0;
    }
    score := score + noise;
  }

  /** Whether White may play at (r, c) on board g with the given history,
      and if so the move's rating. */
  method RateCell(g: Grid, history: seq<Grid>, noise: Pos -> real, r: int, c: int) returns (playable: bool, score: real)
    requires IsBoard(g) && InBoard((r, c))
    ensures playable == Candidate(g, history, (r, c))
    ensures playable ==> score == Value(g, noise, (r, c))
  {
    playable, score := false, 0.0;
    if g[r][c] == 0 {
      var temp, after, legal := TryMove(g, r, c, -1);
      if legal && !IsKoAsWritten(history, after) {
        playable := true;
        score := EvaluateMove(g, temp, r, c, -1, noise((r, c)));
      }
    }
  }

  /** White's search at one point (r, c), the k-th in row-major order, on
      board g with the given history. */
  method ConsiderCell(g: Grid, history: seq<Grid>, noise: Pos -> real, r: int, c: int, ghost k: int,
                      best: seq<Pos>, bestScore: real)
    returns (best': seq<Pos>, bestScore': real)
    requires IsBoard(g) && InBoard((r, c)) && k == Index((r, c))
    requires Best(best, bestScore) == BestAfter(WhiteCandidates(g, history), WhiteValues(g, noise), k)
    ensures Best(best', bestScore') == BestAfter(WhiteCandidates(g, history), WhiteValues(g, noise), k + 1)
  {
    IndexCellAt((r, c));
    var playable, score := RateCell(g, history, noise, r, c);
    assert WhiteCandidates(g, history)((r, c)) == playable;
    best', bestScore' := best, bestScore;
    if playable {
      assert WhiteValues(g, noise)((r, c)) == score;
      if best == [] || score > bestScore {
        best', bestScore' := [(r, c)], score;
      } else if score == bestScore {
        best' := best + [(r, c)];
      }
    }
  }

  /** White's search along row r. */
  method ScanRow(g: Grid, history: seq<Grid>, noise: Pos -> real, r: int, best: seq<Pos>, bestScore: real)
    returns (best': seq<Pos>, bestScore': real)
    requires IsBoard(g) && 0 <= r < Size
    requires Best(best, bestScore) == BestAfter(WhiteCandidates(g, history), WhiteValues(g, noise), r * 9)
    ensures Best(best', bestScore') == BestAfter(WhiteCandidates(g, history), WhiteValues(g, noise), r * 9 + 9)
  {
    best', bestScore' := best, bestScore;
    ghost var k := r * 9;
    for c := 0 to Size
      invariant k == r * 9 + c
      invariant Best(best', bestScore') == BestAfter(WhiteCandidates(g, history), WhiteValues(g, noise), k)
    {
      best', bestScore' := ConsiderCell(g, history, noise, r, c, k, best', bestScore');
      k := k + 1;
    }
  }

  /** White's search over the whole board, row by row. */
  method SearchBest(g: Grid, history: seq<Grid>, noise: Pos -> real) returns (best: seq<Pos>, bestScore: real)
    requires IsBoard(g)
    ensures Best(best, bestScore) == BestAfter(WhiteCandidates(g, history), WhiteValues(g, noise), 81)
    ensures best == BestAfter(WhiteCandidates(g, history), WhiteValues(g, noise), 81).moves
  {
    best := [];
    // An empty list is beaten by any rating, so its score is never read.
    bestScore := 0.0;
    for r := 0 to Size
      invariant Best(best, bestScore) == BestAfter(WhiteCandidates(g, history), WhiteValues(g, noise), r * 9)
    {
      best, bestScore := ScanRow(g, history, noise, r, best, bestScore);
    }
  }

  /** White's choice on board g: one of the top-rated legal points (the one
      at position `choice` modulo their number), or none when White has no
      legal point. */
  method ChooseMove(g: Grid, history: seq<Grid>, noise: Pos -> real, choice: nat) returns (move: Option<Pos>)
    requires IsBoard(g)
    ensures match move
      case Some(p) => Candidate(g, history, p) && forall q | Candidate(g, history, q) :: Value(g, noise, q) <= Value(g, noise, p)
      case None => forall q :: !Candidate(g, history, q)
  {
    var best, _ := SearchBest(g, history, noise);
    if |best| > 0 {
      WhiteChoice(g, history, noise, best, choice % |best|);
      move := Some(best[choice % |best|]);
    } else {
      NoCandidate(g, history, noise, best);
      move := None;
    }
  }

  class NineBoardGo {
    /** The position. The engine never writes into it: every move builds a
        new board and installs it. */
    var board: Grid
    var currentPlayer: int
    /** The board before each committed move or pass, oldest first. */
    var history: seq<Grid>
    var consecutivePasses: int
    var gameOver: bool

    ghost predicate Valid()
      reads this
    {
      && IsBoard(board)
      && (currentPlayer == 1 || currentPlayer == -1)
      && consecutivePasses >= 0
      && forall i | 0 <= i < |history| :: IsBoard(history[i])
    }

    /** A new game: empty board, Black to move. */
    constructor ()
      ensures Valid()
      ensures board == EmptyGrid() && currentPlayer == 1 && history == []
      ensures consecutivePasses == 0 && !gameOver
    {
      board := EmptyGrid();
      currentPlayer := 1;
      history := [];
      consecutivePasses := 0;
      gameOver := false;
    }

    /** Plays `player` at (r, c) on a copy of the board. A move that is
        suicide, or (outside a trial) repeats the ko board, is refused; a
        trial move is only judged. A committed move records the board it
        started from and installs the new board. */
    method MakeMove(r: int, c: int, player: int, isSimulation: bool) returns (result: MoveResult)
      requires Valid() && InBoard((r, c)) && (player == 1 || player == -1)
      modifies this
      ensures Valid()
      ensures result == Judge(old(history), old(board), (r, c), player, isSimulation)
      ensures if result == Success && !isSimulation then
          board == Outcome(old(board), (r, c), player) && history == old(history) + [old(board)]
        else unchanged(this)
      ensures currentPlayer == old(currentPlayer) && consecutivePasses == old(consecutivePasses)
      ensures gameOver == old(gameOver)
    {
      var next, legal := Play(board, r, c, player);
      if !legal {
        result := Suicide;
      } else if !isSimulation && IsKoAsWritten(history, next) {
        result := Ko;
      } else {
        result := Success;
        if !isSimulation {
          history := history + [board];
          board := next;
        }
      }
    }

    /** Hands the turn to the other side. */
    method NextTurn()
      requires Valid()
      modifies this
      ensures Valid() && currentPlayer == -old(currentPlayer)
      ensures board == old(board) && history == old(history)
      ensures consecutivePasses == old(consecutivePasses) && gameOver == old(gameOver)
    {
      currentPlayer := -currentPlayer;
    }

    /** A click of the human (Black) on (r, c): ignored when the game is
        over, the point is taken or it is White's turn; otherwise Black's
        move is tried, and on success the pass count restarts and the turn
        passes to White. */
    method HandleMove(r: int, c: int) returns (reply: Option<MoveResult>)
      requires Valid() && InBoard((r, c))
      modifies this
      ensures Valid()
      ensures old(gameOver || At(board, (r, c)) != 0 || currentPlayer != 1) ==> reply == None && unchanged(this)
      ensures !old(gameOver || At(board, (r, c)) != 0 || currentPlayer != 1) ==>
        reply == Some(Judge(old(history), old(board), (r, c), 1, false))
      ensures reply == Some(Success) ==>
        && board == Outcome(old(board), (r, c), 1)
        && history == old(history) + [old(board)]
        && consecutivePasses == 0 && currentPlayer == -1 && !gameOver
      ensures reply.Some? && reply != Some(Success) ==> unchanged(this)
    {
      if gameOver || board[r][c] != 0 || currentPlayer != 1 {
        return None;
      }
      var result := MakeMove(r, c, 1, false);
      if result == Success {
        consecutivePasses := 0;
        NextTurn();
      }
      reply := Some(result);
    }

    /** Ends the game and counts the score. */
    method EndGame() returns (v: Verdict)
      requires Valid()
      modifies this
      ensures Valid() && gameOver && v == FinalScore(board)
      ensures board == old(board) && history == old(history)
      ensures currentPlayer == old(currentPlayer) && consecutivePasses == old(consecutivePasses)
    {
      gameOver := true;
      var a := FromGrid(board);
      var black, white := AreaScore(a);
      v := Verdict(black, white, 2 * black > 81);
    }

    /** A pass: the second pass in a row ends the game; otherwise the
        unchanged board is recorded and the turn passes. */
    method Pass() returns (verdict: Option<Verdict>)
      requires Valid()
      modifies this
      ensures Valid() && board == old(board)
      ensures consecutivePasses == old(consecutivePasses) + 1
      ensures consecutivePasses >= 2 ==>
        && verdict == Some(FinalScore(board)) && gameOver
        && history == old(history) && currentPlayer == old(currentPlayer)
      ensures consecutivePasses < 2 ==>
        && verdict == None && gameOver == old(gameOver)
        && history == old(history) + [board] && currentPlayer == -old(currentPlayer)
    {
      consecutivePasses := consecutivePasses + 1;
      if consecutivePasses >= 2 {
        var v := EndGame();
        verdict := Some(v);
      } else {
        history := history + [board];
        NextTurn();
        verdict := None;
      }
    }

    /** White's turn: every empty point that is neither suicide nor ko is
        rated, and one of the top-rated points is played (the one at
        position `choice` modulo their number); with no such point White
        passes, and `verdict` is the pass's verdict (the final score when
        that pass is the second in a row). `noise` gives each point its
        random share of the rating. */
    method AiMove(noise: Pos -> real, choice: nat) returns (move: Option<Pos>, verdict: Option<Verdict>)
      requires Valid()
      modifies this
      ensures Valid()
      ensures move.Some? ==> verdict == None
      ensures old(gameOver) ==> move == None && verdict == None && unchanged(this)
      ensures !old(gameOver) && move.Some? ==>
        && Candidate(old(board), old(history), move.value)
        && (forall q | Candidate(old(board), old(history), q) ::
              Value(old(board), noise, q) <= Value(old(board), noise, move.value))
        && board == Outcome(old(board), move.value, -1)
        && history == old(history) + [old(board)]
        && consecutivePasses == 0 && currentPlayer == -old(currentPlayer) && !gameOver
      ensures !old(gameOver) && move.None? ==>
        && (forall q :: !Candidate(old(board), old(history), q))
        && board == old(board) && consecutivePasses == old(consecutivePasses) + 1
        && (consecutivePasses >= 2 ==>
              && verdict == Some(FinalScore(board)) && gameOver
              && history == old(history) && currentPlayer == old(currentPlayer))
        && (consecutivePasses < 2 ==>
              && verdict == None && gameOver == old(gameOver)
              && history == old(history) + [old(board)] && currentPlayer == -old(currentPlayer))
    {
      verdict := None;
      if gameOver {
        return None, None;
      }
      move := ChooseMove(board, history, noise, choice);
      if move.Some? {
        var p := move.value;
        CandidateJudged(board, history, p);
        var result := MakeMove(p.0, p.1, -1, false);
        consecutivePasses := 0;
        NextTurn();
      } else {
        verdict := Pass();
      }
    }

    /** Takes back the human's last move and White's reply: back to the board
        before the human's move, Black to play. With a single recorded turn
        the game restarts from the empty board. */
    method UndoMove()
      requires Valid()
      modifies this
      ensures Valid()
      ensures |old(history)| >= 2 && !old(gameOver) ==>
        && (board, history) == Undone(old(history))
        && currentPlayer == 1 && consecutivePasses == 0 && gameOver == old(gameOver)
      ensures |old(history)| == 1 ==>
        && board == EmptyGrid() && history == []
        && currentPlayer == 1 && consecutivePasses == old(consecutivePasses) && gameOver == old(gameOver)
      ensures (|old(history)| >= 2 && old(gameOver)) || |old(history)| == 0 ==> unchanged(this)
    {
      if |history| >= 2 && !gameOver {
        var prevState := history[|history| - 2];
        history := history[..|history| - 2];
        board := prevState;
        currentPlayer := 1;
        consecutivePasses := 0;
      } else if |history| == 1 {
        board := EmptyGrid();
        history := [];
        currentPlayer := 1;
      }
    }
  }
}
