/** Tic-Tac-Toe against a minimax computer: the board, the win test, the
    list of empty cells, and the value of a position under exhaustive
    search. */
module TicTacToeRules {
  /** A cell of the board: empty (null on the page), or holding X or O. */
  datatype Cell = Empty | X | O

  /** The nine cells, row by row. */
  type Board = seq<Cell>

  predicate IsBoard(b: Board) {
    |b| == 9
  }

  /** The human plays X and moves first; the computer plays O. */
  const Human: Cell := X
  const Computer: Cell := O

  predicate IsPlayer(p: Cell) {
    p == X || p == O
  }

  /** The player who answers p. */
  function Other(p: Cell): (q: Cell)
    requires IsPlayer(p)
    ensures IsPlayer(q) && q != p
  {
    if p == Computer then Human else Computer
  }

  /** The eight winning lines: three rows, three columns, two diagonals. */
  const Lines: seq<(int, int, int)> :=
    [(0, 1, 2), (3, 4, 5), (6, 7, 8),
     (0, 3, 6), (1, 4, 7), (2, 5, 8),
     (0, 4, 8), (2, 4, 6)]

  /** p holds all three cells of line k. */
  predicate Holds(b: Board, p: Cell, k: int)
    requires IsBoard(b) && 0 <= k < |Lines|
  {
    var l := Lines[k];
    b[l.0] == p && b[l.1] == p && b[l.2] == p
  }

  /** Some line from k on is held by p, the lines tried in order. */
  function AnyLineFrom(b: Board, p: Cell, k: int): (r: bool)
    requires IsBoard(b) && 0 <= k <= |Lines|
    ensures r <==> exists t | k <= t < |Lines| :: Holds(b, p, t)
    decreases |Lines| - k
  {
    k < |Lines| && (Holds(b, p, k) || AnyLineFrom(b, p, k + 1))
  }

  /** Whether p has three in a row. */
  function CheckWin(b: Board, p: Cell): (r: bool)
    requires IsBoard(b)
    ensures r <==> exists k | 0 <= k < |Lines| :: Holds(b, p, k)
  {
    AnyLineFrom(b, p, 0)
  }

  /** The indices from i on of the empty cells of b, in increasing order. */
  function EmptyFrom(b: Board, i: nat): (r: seq<int>)
    requires i <= |b|
    ensures forall t | 0 <= t < |r| :: i <= r[t] < |b| && b[r[t]] == Empty
    ensures forall j | i <= j < |b| && b[j] == Empty :: j in r
    ensures forall t, u | 0 <= t < u < |r| :: r[t] < r[u]
    decreases |b| - i
  {
    if i == |b| then []
    else (if b[i] == Empty then [i] else []) + EmptyFrom(b, i + 1)
  }

  /** The indices of the empty cells, in increasing order. */
  function EmptyIndices(b: Board): (r: seq<int>)
    ensures forall t | 0 <= t < |r| :: 0 <= r[t] < |b| && b[r[t]] == Empty
    ensures forall j | 0 <= j < |b| && b[j] == Empty :: j in r
    ensures forall t, u | 0 <= t < u < |r| :: r[t] < r[u]
  {
    EmptyFrom(b, 0)
  }

  /** Filling an empty cell leaves one empty cell fewer from i on when the
      cell is at or after i. */
  lemma {:induction false} EmptyFromFill(b: Board, j: int, p: Cell, i: nat)
    requires 0 <= j < |b| && b[j] == Empty && p != Empty && i <= |b|
    ensures |EmptyFrom(b[j := p], i)| == |EmptyFrom(b, i)| - (if i <= j then 1 else 0)
    decreases |b| - i
  {
    if i < |b| {
      EmptyFromFill(b, j, p, i + 1);
    }
  }

  /** Filling an empty cell shortens the list of empty cells by one. */
  lemma FillShrinks(b: Board, j: int, p: Cell)
    requires 0 <= j < |b| && b[j] == Empty && p != Empty
    ensures |EmptyIndices(b[j := p])| == |EmptyIndices(b)| - 1
  {
    EmptyFromFill(b, j, p, 0);
  }

  /** What minimax returns: a score alone at the end of a game, or the move
      it picks with that move's score. */
  datatype Outcome = Terminal(score: int) | Move(index: int, score: int)

  /** Whether score a replaces the best score c so far for player p: the
      computer maximises, the human minimises, and only a strictly better
      score replaces. */
  predicate Better(p: Cell, a: int, c: int) {
    if p == Computer then a > c else a < c
  }

  /** The value of position b with p to move, as minimax searches it:
      a human line scores -10, a computer line 10 (the human's lines are
      tested first), a full board 0; otherwise every empty cell is tried in
      increasing order and Pick keeps one of them, with its score. */
  function Search(b: Board, p: Cell): (r: Outcome)
    requires IsBoard(b) && IsPlayer(p)
    ensures r.score == -10 || r.score == 0 || r.score == 10
    ensures r.Move? ==> 0 <= r.index < 9 && b[r.index] == Empty
    decreases |EmptyIndices(b)|, 2
  {
    if CheckWin(b, Human) then Terminal(-10)
    else if CheckWin(b, Computer) then Terminal(10)
    else if |EmptyIndices(b)| == 0 then Terminal(0)
    else
      var scores := Scores(b, p);
      var k := Pick(p, scores);
      Move(EmptyIndices(b)[k], scores[k])
  }

  /** The scores of p's moves, one per empty cell in increasing order. */
  function Scores(b: Board, p: Cell): (r: seq<int>)
    requires IsBoard(b) && IsPlayer(p)
    ensures |r| == |EmptyIndices(b)|
    decreases |EmptyIndices(b)|, 1
  {
    var spots := EmptyIndices(b);
    seq(|spots|, t requires 0 <= t < |spots| => Trial(b, p, spots[t]))
  }

  /** The score minimax gives to p playing the empty cell i: the value of
      the position after it, with the other player to move. */
  function Trial(b: Board, p: Cell, i: int): (r: int)
    requires IsBoard(b) && IsPlayer(p) && 0 <= i < 9 && b[i] == Empty
    ensures r == -10 || r == 0 || r == 10
    decreases |EmptyIndices(b)|, 0
  {
    FillShrinks(b, i, p);
    Search(b[i := p], Other(p)).score
  }

  /** The position in a non-empty list of scores of the move minimax keeps:
      the scores are scanned in order and one replaces the score held only
      when it is strictly better for p, so the first of the best wins. */
  function Pick(p: Cell, scores: seq<int>): (k: nat)
    requires |scores| > 0
    ensures k < |scores|
    ensures forall t | 0 <= t < |scores| :: !Better(p, scores[t], scores[k])
    ensures forall t | 0 <= t < k :: Better(p, scores[k], scores[t])
  {
    if |scores| == 1 then 0
    else
      var k := Pick(p, scores[..|scores| - 1]);
      if Better(p, scores[|scores| - 1], scores[k]) then |scores| - 1 else k
  }

  /** Minimax ends the search exactly when someone has three in a row or no
      cell is empty, with the human's line scored first. */
  lemma SearchEnds(b: Board, p: Cell)
    requires IsBoard(b) && IsPlayer(p)
    ensures Search(b, p).Terminal? <==>
      CheckWin(b, Human) || CheckWin(b, Computer) || forall i | 0 <= i < 9 :: b[i] != Empty
    ensures Search(b, p) == Terminal(-10) <==> CheckWin(b, Human)
    ensures Search(b, p) == Terminal(10) <==> !CheckWin(b, Human) && CheckWin(b, Computer)
  {
    var e := EmptyIndices(b);
    if |e| > 0 {
      assert b[e[0]] == Empty;
    }
  }

  /** The move minimax picks on an unfinished board is the best one for p
      among all the empty cells (highest for the computer, lowest for the
      human), and no empty cell before it scores as well. */
  lemma SearchBest(b: Board, p: Cell)
    requires IsBoard(b) && IsPlayer(p) && Search(b, p).Move?
    ensures Search(b, p).score == Trial(b, p, Search(b, p).index)
    ensures forall i | 0 <= i < 9 && b[i] == Empty :: !Better(p, Trial(b, p, i), Search(b, p).score)
    ensures forall i | 0 <= i < Search(b, p).index && b[i] == Empty ::
      Better(p, Search(b, p).score, Trial(b, p, i))
  {
    var scores := Scores(b, p);
    PickBest(b, p, Pick(p, scores));
  }

  /** The k-th score of p's moves, when it is the one Pick keeps, is the
      best over every empty cell and strictly better than any empty cell
      before its own. */
  lemma {:induction false} PickBest(b: Board, p: Cell, k: int)
    requires IsBoard(b) && IsPlayer(p) && |EmptyIndices(b)| > 0
    requires k == Pick(p, Scores(b, p))
    ensures Scores(b, p)[k] == Trial(b, p, EmptyIndices(b)[k])
    ensures forall i | 0 <= i < 9 && b[i] == Empty :: !Better(p, Trial(b, p, i), Scores(b, p)[k])
    ensures forall i | 0 <= i < EmptyIndices(b)[k] && b[i] == Empty ::
      Better(p, Scores(b, p)[k], Trial(b, p, i))
  {
    var spots := EmptyIndices(b);
    var scores := Scores(b, p);
    forall i | 0 <= i < 9 && b[i] == Empty
      ensures !Better(p, Trial(b, p, i), scores[k])
      ensures i < spots[k] ==> Better(p, scores[k], Trial(b, p, i))
    {
      var t :| 0 <= t < |spots| && spots[t] == i;
      assert scores[t] == Trial(b, p, i);
      if i < spots[k] {
        assert t < k;
      }
    }
  }

  /** Placing p leaves any line of another player as it was: the other
      player has no line after it unless they had one before. */
  lemma FillKeepsOther(b: Board, p: Cell, i: int, q: Cell)
    requires IsBoard(b) && 0 <= i < 9 && q != p && !CheckWin(b, q)
    ensures !CheckWin(b[i := p], q)
  {
    forall k | 0 <= k < |Lines|
      ensures Holds(b[i := p], q, k) ==> Holds(b, q, k)
    {
    }
  }

  /** A line p completes with the stone just placed. */
  predicate Completes(b: Board, p: Cell, i: int)
    requires IsBoard(b) && 0 <= i < 9
  {
    CheckWin(b[i := p], p)
  }

  /** On an unfinished board where p can complete a line at once, minimax
      finds a win for p: 10 for the computer, -10 for the human. */
  lemma ImmediateWin(b: Board, p: Cell, i: int)
    requires IsBoard(b) && IsPlayer(p) && 0 <= i < 9 && b[i] == Empty
    requires !CheckWin(b, Human) && !CheckWin(b, Computer)
    requires Completes(b, p, i)
    ensures Search(b, p).score == (if p == Computer then 10 else -10)
  {
    FillKeepsOther(b, p, i, Other(p));
    assert Trial(b, p, i) == (if p == Computer then 10 else -10);
    SearchEnds(b, p);
    SearchBest(b, p);
  }
}
