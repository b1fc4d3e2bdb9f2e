/** The computer player of the Go engine (White): which empty points it may
    play, how it rates each of them, and which of them it keeps as its best
    moves. */
module GoAi {
  import opened GoBoard
  import opened GoCapture
  import opened GoRules
  import opened GoScore

  /** The five marked points of the 9x9 board. */
  predicate StarPoint(p: Pos) {
    p == (2, 2) || p == (2, 6) || p == (4, 4) || p == (6, 2) || p == (6, 6)
  }

  /** The position part of the rating: a star point earns 10, the central
      5x5 area 4, and the first line costs 2. */
  function Placement(p: Pos): int {
    (if StarPoint(p) then 10 else 0)
    + (if 2 <= p.0 <= 6 && 2 <= p.1 <= 6 then 4 else 0)
    - (if p.0 == 0 || p.0 == 8 || p.1 == 0 || p.1 == 8 then 2 else 0)
  }

  /** The position part lies between -2 and 14; the star points, and only
      they, reach the top, and only first-line points go below zero. */
  lemma PlacementRange(p: Pos)
    ensures -2 <= Placement(p) <= 14
    ensures Placement(p) == 14 <==> StarPoint(p)
    ensures Placement(p) < 0 <==> p.0 == 0 || p.0 == 8 || p.1 == 0 || p.1 == 8
  {
  }

  /** Some neighbour of p holds a stone of `color`. */
  ghost predicate Contact(g: Grid, p: Pos, color: int)
    requires IsGrid(g)
  {
    exists q :: InBoard(q) && Adjacent(p, q) && At(g, q) == color
  }

  /** The rating of a move of `player` at p: the position part, twice the
      liberties of the new stone's group on the board after the move, 5 for
      touching an opponent stone on the board before the move, and a random
      amount below 2. */
  ghost function MoveScore(before: Grid, after: Grid, p: Pos, player: int, noise: real): real
    requires IsGrid(before) && IsGrid(after) && InBoard(p)
  {
    Placement(p) as real
    + 2.0 * |Liberties(after, p)| as real
    + (if Contact(before, p, -player) then 5.0 else 0.0)
    + noise
  }

  /** An empty point where White may play: not suicide and not refused by
      the ko test. */
  ghost predicate Candidate(g: Grid, history: seq<Grid>, p: Pos)
    requires IsGrid(g)
  {
    InBoard(p) && At(g, p) == 0 && NotSuicide(Put(g, p, -1), p, -1) && !IsKoAsWritten(history, Outcome(g, p, -1))
  }

  /** The rating White gives to a move at p, with p's random amount. */
  ghost function Value(g: Grid, noise: Pos -> real, p: Pos): real
    requires IsGrid(g) && InBoard(p)
  {
    MoveScore(g, Outcome(g, p, -1), p, -1, noise(p))
  }

  /** A legal move keeps at least one liberty, so a candidate is rated at
      least its position part plus 2 plus its random amount, and never
      below 0. */
  lemma CandidateValue(g: Grid, history: seq<Grid>, noise: Pos -> real, p: Pos)
    requires IsGrid(g) && Candidate(g, history, p) && noise(p) >= 0.0
    ensures Value(g, noise, p) >= Placement(p) as real + 2.0 + noise(p)
    ensures Value(g, noise, p) >= 0.0
  {
    var k := Outcome(g, p, -1);
    NotSuicideLiberty(g, p, -1);
    var q :| IsLiberty(k, p, q);
    assert q in Liberties(k, p);
    PlacementRange(p);
  }

  /** The engine accepts every candidate of White's as a committed move. */
  lemma CandidateJudged(g: Grid, history: seq<Grid>, p: Pos)
    requires IsGrid(g) && Candidate(g, history, p)
    ensures Judge(history, g, p, -1, false) == Success
  {
  }

  /** The best moves found so far and their common rating. */
  datatype Best = Best(moves: seq<Pos>, score: real)

  /** The search over the first k points in row-major order, for a test of
      which points may be played and a rating: a better rating starts a new
      list, an equal one joins it. */
  ghost function BestAfter(cand: Pos -> bool, value: Pos -> real, k: int): Best
    requires 0 <= k <= 81
  {
    if k == 0 then Best([], 0.0)
    else
      var b := BestAfter(cand, value, k - 1);
      var p := CellAt(k - 1);
      if !cand(p) then b
      else if b.moves == [] || value(p) > b.score then Best([p], value(p))
      else if value(p) == b.score then Best(b.moves + [p], value(p))
      else b
  }

  /** The list holds playable points among the first k, all rated at the
      list's score; every playable point among them is rated at most that
      score, and is in the list when it reaches it. */
  ghost predicate BestOf(cand: Pos -> bool, value: Pos -> real, k: int, b: Best) {
    && (forall i | 0 <= i < |b.moves| ::
          InBoard(b.moves[i]) && cand(b.moves[i]) && Index(b.moves[i]) < k && value(b.moves[i]) == b.score)
    && (forall q | InBoard(q) && Index(q) < k && cand(q) ::
          b.moves != [] && value(q) <= b.score && (value(q) == b.score ==> q in b.moves))
  }

  lemma {:induction false} BestAfterIsBest(cand: Pos -> bool, value: Pos -> real, k: int)
    requires 0 <= k <= 81
    ensures BestOf(cand, value, k, BestAfter(cand, value, k))
  {
    if k > 0 {
      BestAfterIsBest(cand, value, k - 1);
      BestStep(cand, value, k - 1);
    }
  }

  /** The points of m are among the first k in row-major order and come
      strictly one after another in that order. */
  predicate InScanOrder(m: seq<Pos>, k: int) {
    && (forall i | 0 <= i < |m| :: InBoard(m[i]) && Index(m[i]) < k)
    && (forall i, j | 0 <= i < j < |m| :: Index(m[i]) < Index(m[j]))
  }

  /** The kept list is in scan order. */
  lemma {:induction false} BestAfterOrdered(cand: Pos -> bool, value: Pos -> real, k: int)
    requires 0 <= k <= 81
    ensures InScanOrder(BestAfter(cand, value, k).moves, k)
  {
    if k > 0 {
      BestAfterOrdered(cand, value, k - 1);
      CellAtIndex(k - 1);
      var b := BestAfter(cand, value, k - 1);
      var p := CellAt(k - 1);
      if cand(p) && b.moves != [] && !(value(p) > b.score) && value(p) == b.score {
        var m := b.moves + [p];
        assert BestAfter(cand, value, k).moves == m;
        forall i | 0 <= i < |m|
          ensures InBoard(m[i]) && Index(m[i]) < k
        {
          if i < |b.moves| {
            assert m[i] == b.moves[i];
          }
        }
        forall i, j | 0 <= i < j < |m|
          ensures Index(m[i]) < Index(m[j])
        {
          assert m[i] == b.moves[i];
          if j < |b.moves| {
            assert m[j] == b.moves[j];
          }
        }
      } else if cand(p) && (b.moves == [] || value(p) > b.score) {
        assert BestAfter(cand, value, k).moves == [p];
      } else {
        assert BestAfter(cand, value, k).moves == b.moves;
        ScanOrderWiden(b.moves, k - 1, k);
      }
    }
  }

  /** A list in scan order among the first k points is also in scan order
      among the first k' >= k. */
  lemma ScanOrderWiden(m: seq<Pos>, k: int, k': int)
    requires InScanOrder(m, k) && k <= k'
    ensures InScanOrder(m, k')
  {
  }

  lemma BestStep(cand: Pos -> bool, value: Pos -> real, j: int)
    requires 0 <= j < 81
    requires BestOf(cand, value, j, BestAfter(cand, value, j))
    ensures BestOf(cand, value, j + 1, BestAfter(cand, value, j + 1))
  {
    var b := BestAfter(cand, value, j);
    var p := CellAt(j);
    CellAtIndex(j);
    forall q | InBoard(q) && Index(q) == j
      ensures q == p
    {
      IndexCellAt(q);
    }
  }

  /** The points White may play on board g. */
  ghost function WhiteCandidates(g: Grid, history: seq<Grid>): Pos -> bool {
    q => IsGrid(g) && Candidate(g, history, q)
  }

  /** White's ratings on board g; points off the board get 0. */
  ghost function WhiteValues(g: Grid, noise: Pos -> real): Pos -> real {
    q => if IsGrid(g) && InBoard(q) then Value(g, noise, q) else 0.0
  }

  /** At the end of the search over the whole board: the list is empty
      exactly when no point may be played, and otherwise holds playable
      points of the highest rating, every such point among them. */
  lemma BestMoves(cand: Pos -> bool, value: Pos -> real)
    ensures var b := BestAfter(cand, value, 81);
      && (b.moves == [] <==> forall q | InBoard(q) :: !cand(q))
      && (forall i | 0 <= i < |b.moves| :: InBoard(b.moves[i]) && cand(b.moves[i]) && value(b.moves[i]) == b.score)
      && (forall q | InBoard(q) && cand(q) :: value(q) <= b.score && (value(q) == b.score ==> q in b.moves))
  {
    var b := BestAfter(cand, value, 81);
    BestAfterIsBest(cand, value, 81);
    forall q | InBoard(q)
      ensures Index(q) < 81
    {
    }
    if b.moves != [] {
      assert InBoard(b.moves[0]) && cand(b.moves[0]);
    }
  }

  /** When White has a legal point, the search keeps a move. */
  lemma WhiteFinds(g: Grid, history: seq<Grid>, noise: Pos -> real, best: seq<Pos>, q: Pos)
    requires IsGrid(g) && best == BestAfter(WhiteCandidates(g, history), WhiteValues(g, noise), 81).moves
    requires Candidate(g, history, q)
    ensures best != []
  {
    var cand, value := WhiteCandidates(g, history), WhiteValues(g, noise);
    BestMoves(cand, value);
    assert cand(q);
  }

  /** When the search over the whole board keeps no move, White has no
      legal point. */
  lemma NoCandidate(g: Grid, history: seq<Grid>, noise: Pos -> real, best: seq<Pos>)
    requires IsGrid(g) && best == BestAfter(WhiteCandidates(g, history), WhiteValues(g, noise), 81).moves
    requires best == []
    ensures forall q :: !Candidate(g, history, q)
  {
    forall q
      ensures !Candidate(g, history, q)
    {
      if Candidate(g, history, q) {
        WhiteFinds(g, history, noise, best, q);
      }
    }
  }

  /** Every move the search keeps is legal for White and rated at least as
      high as every legal point. */
  lemma WhiteChoice(g: Grid, history: seq<Grid>, noise: Pos -> real, best: seq<Pos>, i: int)
    requires IsGrid(g) && best == BestAfter(WhiteCandidates(g, history), WhiteValues(g, noise), 81).moves
    requires 0 <= i < |best|
    ensures Candidate(g, history, best[i])
    ensures forall q | Candidate(g, history, q) :: Value(g, noise, q) <= Value(g, noise, best[i])
  {
    var cand, value := WhiteCandidates(g, history), WhiteValues(g, noise);
    BestMoves(cand, value);
    var b := BestAfter(cand, value, 81);
    var p := b.moves[i];
    assert cand(p) && value(p) == b.score;
    forall q | Candidate(g, history, q)
      ensures Value(g, noise, q) <= Value(g, noise, p)
    {
      assert cand(q);
    }
  }

  /** Whether a neighbour of (r, c) holds a stone of `color`. */
  method HasContact(g: Grid, r: int, c: int, color: int) returns (contact: bool)
    requires IsGrid(g) && InBoard((r, c))
    ensures contact == Contact(g, (r, c), color)
  {
    contact := false;
    var ns := GetNeighbors(r, c);
    for i := 0 to |ns|
      invariant contact <==> exists j | 0 <= j < i :: At(g, ns[j]) == color
    {
      var q := ns[i];
      if g[q.0][q.1] == color {
        contact := true;
      }
    }
    if contact {
      ghost var j :| 0 <= j < |ns| && At(g, ns[j]) == color;
      assert InBoard(ns[j]) && Adjacent((r, c), ns[j]);
    }
  }
}
