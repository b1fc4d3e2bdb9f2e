/** The Tic-Tac-Toe page: the minimax search that tries moves on the live
    board and takes them back, and the game state the human's clicks and
    the computer's replies update. */
module TicTacToeGame {
  import opened TicTacToeRules

  /** Minimax on the board a with p to move. Each empty cell is tried in
      increasing order by writing p into it, searching on with the other
      player, and writing the cell back to empty; the outcome is the one
      Search specifies, and the board is left as it was found. */
  method Minimax(a: array<Cell>, p: Cell) returns (r: Outcome)
    requires a.Length == 9 && IsPlayer(p)
    modifies a
    ensures a[..] == old(a[..])
    ensures r == Search(old(a[..]), p)
    decreases |EmptyIndices(a[..])|
  {
    ghost var b := a[..];
    var spots := EmptyIndices(a[..]);
    if CheckWin(a[..], Human) {
      assert Search(b, p) == Terminal(-10);
      return Terminal(-10);
    } else if CheckWin(a[..], Computer) {
      assert Search(b, p) == Terminal(10);
      return Terminal(10);
    } else if |spots| == 0 {
      assert Search(b, p) == Terminal(0);
      return Terminal(0);
    }
    var moves := TryMoves(a, p, spots);
    var best := BestOf(p, moves);
    ghost var scores := Scores(b, p);
    assert ScoresOf(moves) == scores;
    assert Search(b, p) == Move(spots[best], scores[best]);
    r := Move(moves[best].0, moves[best].1);
  }

  /** Tries each of the given empty cells in turn, searching the position
      after it; returns the cells with their scores and leaves the board as
      it was found. */
  method TryMoves(a: array<Cell>, p: Cell, spots: seq<int>) returns (moves: seq<(int, int)>)
    requires a.Length == 9 && IsPlayer(p) && spots == EmptyIndices(a[..])
    requires !CheckWin(a[..], Human) && !CheckWin(a[..], Computer)
    modifies a
    ensures a[..] == old(a[..])
    ensures |moves| == |spots|
    ensures forall t | 0 <= t < |moves| :: moves[t] == (spots[t], Scores(old(a[..]), p)[t])
    decreases |EmptyIndices(a[..])|, 1
  {
    ghost var b := a[..];
    ghost var scores := Scores(b, p);
    moves := [];
    var i := 0;
    while i < |spots|
      invariant 0 <= i <= |spots|
      invariant a[..] == b
      invariant |moves| == i
      invariant forall t | 0 <= t < i :: moves[t] == (spots[t], scores[t])
    {
      var index := spots[i];
      var score := TryMove(a, p, index);
      moves := moves + [(index, score)];
      i := i + 1;
    }
  }

  /** Writes p into the empty cell `index`, searches on with the other
      player, and writes the cell back to empty; returns the score found. */
  method TryMove(a: array<Cell>, p: Cell, index: int) returns (score: int)
    requires a.Length == 9 && IsPlayer(p) && 0 <= index < 9 && a[index] == Empty
    modifies a
    ensures a[..] == old(a[..])
    ensures score == Trial(old(a[..]), p, index)
    decreases |EmptyIndices(a[..])|, 0
  {
    ghost var b := a[..];
    a[index] := p;
    FillShrinks(b, index, p);
    assert a[..] == b[index := p];
    var result := Minimax(a, Other(p));
    score := result.score;
    a[index] := Empty;
    assert a[..] == b;
  }

  /** The score column of a list of moves. */
  function ScoresOf(moves: seq<(int, int)>): (r: seq<int>)
    ensures |r| == |moves| && forall t | 0 <= t < |moves| :: r[t] == moves[t].1
  {
    seq(|moves|, t requires 0 <= t < |moves| => moves[t].1)
  }

  /** The position of the move kept: the moves are scanned in order
      against a best score that starts at minus infinity for the computer
      and plus infinity for the human, and a move replaces the one held
      only when its score is strictly better. */
  method BestOf(p: Cell, moves: seq<(int, int)>) returns (best: int)
    requires |moves| > 0
    ensures best == Pick(p, ScoresOf(moves))
  {
    if p == Computer {
      best := Highest(moves);
    } else {
      best := Lowest(moves);
    }
  }

  /** The computer's scan: the first move of highest score. */
  method Highest(moves: seq<(int, int)>) returns (best: int)
    requires |moves| > 0
    ensures best == Pick(Computer, ScoresOf(moves))
  {
    ghost var scores := ScoresOf(moves);
    // `held` is false while the best score is still minus infinity
    var held := false;
    var bestScore := 0;
    best := 0;
    var i := 0;
    while i < |moves|
      invariant 0 <= i <= |moves|
      invariant held <==> i > 0
      invariant held ==> best == Pick(Computer, scores[..i]) && bestScore == scores[best]
    {
      assert scores[..i + 1][..i] == scores[..i];
      if !held || moves[i].1 > bestScore {
        bestScore := moves[i].1;
        best := i;
        held := true;
      }
      i := i + 1;
    }
    assert scores[..|moves|] == scores;
  }

  /** The human's scan: the first move of lowest score. */
  method Lowest(moves: seq<(int, int)>) returns (best: int)
    requires |moves| > 0
    ensures best == Pick(Human, ScoresOf(moves))
  {
    ghost var scores := ScoresOf(moves);
    // `held` is false while the best score is still plus infinity
    var held := false;
    var bestScore := 0;
    best := 0;
    var i := 0;
    while i < |moves|
      invariant 0 <= i <= |moves|
      invariant held <==> i > 0
      invariant held ==> best == Pick(Human, scores[..i]) && bestScore == scores[best]
    {
      assert scores[..i + 1][..i] == scores[..i];
      if !held || moves[i].1 < bestScore {
        bestScore := moves[i].1;
        best := i;
        held := true;
      }
      i := i + 1;
    }
    assert scores[..|moves|] == scores;
  }

  /** The page's game: the board, whose turn it is, and whether the game
      is still running. */
  class TicTacToe {
    var board: array<Cell>
    var currentPlayer: Cell
    var isGameActive: bool

    ghost predicate Valid()
      reads this
    {
      board.Length == 9 && IsPlayer(currentPlayer)
    }

    /** A fresh game: an empty board, the human to move. */
    constructor()
      ensures Valid() && fresh(board)
      ensures board[..] == seq(9, _ => Empty)
      ensures currentPlayer == Human && isGameActive
    {
      board := new Cell[9](_ => Empty);
      currentPlayer := Human;
      isGameActive := true;
    }

    /** Restarts the game on a new empty board with the human to move. */
    method ResetGame()
      modifies this
      ensures Valid() && fresh(board)
      ensures board[..] == seq(9, _ => Empty)
      ensures currentPlayer == Human && isGameActive
    {
      board := new Cell[9](_ => Empty);
      isGameActive := true;
      currentPlayer := Human;
    }

    /** Marks the game as over. */
    method EndGame()
      modifies this
      ensures !isGameActive
      ensures board == old(board) && currentPlayer == old(currentPlayer)
    {
      isGameActive := false;
    }

    /** The human clicks cell `index`. The click is ignored unless the game
        is running, the cell is empty and it is the human's turn; otherwise
        X goes there, and the game ends on an X line or a full board, or
        else the turn passes to the computer. */
    method HandlePlayerMove(index: int)
      requires Valid() && 0 <= index < 9
      modifies this, board
      ensures Valid() && board == old(board)
      ensures !old(isGameActive) || old(board[index]) != Empty || old(currentPlayer) != Human ==>
        board[..] == old(board[..]) && currentPlayer == old(currentPlayer) && isGameActive == old(isGameActive)
      ensures old(isGameActive) && old(board[index]) == Empty && old(currentPlayer) == Human ==>
        board[..] == old(board[..])[index := Human] &&
        (if CheckWin(board[..], Human) || EmptyIndices(board[..]) == []
         then !isGameActive && currentPlayer == Human
         else isGameActive && currentPlayer == Computer)
    {
      if !isGameActive || board[index] != Empty || currentPlayer != Human {
        return;
      }
      board[index] := Human;
      if CheckWin(board[..], Human) {
        EndGame();
        return;
      }
      if |EmptyIndices(board[..])| == 0 {
        EndGame();
        return;
      }
      currentPlayer := Computer;
    }

    /** The computer's reply: minimax on the live board with O to move, O
        written into the cell it picks (nothing is written when the search
        finds the game already over), then the game ends on an O line or a
        full board, or else the turn passes back to the human. */
    method ComputerMove()
      requires Valid()
      modifies this, board
      ensures Valid() && board == old(board)
      ensures var r := Search(old(board[..]), Computer);
        board[..] == (if r.Move? then old(board[..])[r.index := Computer] else old(board[..]))
      ensures if CheckWin(board[..], Computer) || EmptyIndices(board[..]) == []
        then !isGameActive && currentPlayer == old(currentPlayer)
        else isGameActive == old(isGameActive) && currentPlayer == Human
    {
      var bestSpot := Minimax(board, Computer);
      if bestSpot.Move? {
        board[bestSpot.index] := Computer;
      }
      if CheckWin(board[..], Computer) {
        EndGame();
        return;
      }
      if |EmptyIndices(board[..])| == 0 {
        EndGame();
        return;
      }
      currentPlayer := Human;
    }
  }
}
