/** The Othello page's game state: the stones, the legal-move marks, the side
    to move, the displayed scores and the verdict, with the operations the
    page performs on them. */
module OthelloGame {
  import opened OthelloRules
  import opened OthelloMarks
  import opened OthelloOpening

  datatype Option<T> = None | Some(value: T)

  /** How the computer takes part: not at all, at random, or by weights. */
  datatype Mode = Pvp | Easy | Hard

  class Othello {
    /** The stones, indexed [row][column]. */
    var color: Grid
    /** The cells shown as legal moves. */
    var ok: Marks
    /** The side to move: 1 Black, -1 White. */
    var state: int
    /** The stone counts last computed. */
    var black: int
    var white: int
    /** The verdict shown once the game has ended. */
    var ending: Option<Ending>

    ghost predicate Valid()
      reads this
    {
      IsBoard(color) && IsMarks(ok) && (state == 1 || state == -1)
    }

    /** The marks are exactly the legal moves of the side to move. */
    ghost predicate Current()
      requires Valid()
      reads this
    {
      ok == Marked(Clear(), color, state)
    }

    /** The page at load: the opening position with Black to move, the
        scan for Black's moves, and the scores counted. */
    constructor ()
      ensures Valid()
      ensures color == Initial() && state == 1 && ok == Marked(Clear(), Initial(), 1) && Current()
      ensures black == 2 && white == 2 && ending == None
    {
      color := Initial();
      ok := Clear();
      state := 1;
      black, white := 0, 0;
      ending := None;
      new;
      InitialAnyMove();
      ScanAndShow();
      InitialCounts();
    }

    /** Whether a stone of the side to move at (x, y) brackets opponent
        stones in direction (dx, dy). */
    method CheckDirection(x: int, y: int, dx: int, dy: int) returns (b: bool)
      requires Valid() && InBoard(x, y) && IsDir(dx, dy)
      ensures b == Bracketed(color, state, x, y, dx, dy)
    {
      var x1, y1 := x + dx, y + dy;
      var flag := false;
      ghost var k: nat := 1;
      while InBoard(x1, y1) && color[x1][y1] != state && color[x1][y1] != 0
        invariant 1 <= k <= Size && x1 == Off(x, dx, k) && y1 == Off(y, dy, k)
        invariant RunFrom(color, state, x, y, dx, dy, k)
        invariant flag <==> k > 1
        decreases Size - k
      {
        if k >= Size { OffLeaves(x, y, dx, dy, k); }
        x1, y1 := x1 + dx, y1 + dy;
        flag := true;
        k := k + 1;
      }
      BracketedAt(color, state, x, y, dx, dy, k);
      b := flag && InBoard(x1, y1) && color[x1][y1] == state;
    }

    /** Whether the side to move may play at (x, y): the directions are
        tried in turn until one brackets. */
    method CanPut(x: int, y: int) returns (b: bool)
      requires Valid() && InBoard(x, y)
      ensures b == Playable(color, state, x, y)
    {
      b := CheckDirection(x, y, -1, -1);
      if !b { b := CheckDirection(x, y, -1, 0); }
      if !b { b := CheckDirection(x, y, -1, 1); }
      if !b { b := CheckDirection(x, y, 0, -1); }
      if !b { b := CheckDirection(x, y, 0, 1); }
      if !b { b := CheckDirection(x, y, 1, -1); }
      if !b { b := CheckDirection(x, y, 1, 0); }
      if !b { b := CheckDirection(x, y, 1, 1); }
    }

    /** Turns the stones bracketed from (x, y) in direction (dx, dy) to the
        side to move; nothing changes when there is no bracket. */
    method Reverse(x: int, y: int, dx: int, dy: int)
      requires Valid() && InBoard(x, y) && IsDir(dx, dy)
      modifies this
      ensures Valid() && color == Flip(old(color), state, x, y, dx, dy)
      ensures ok == old(ok) && state == old(state) && black == old(black) && white == old(white) && ending == old(ending)
    {
      var h := Flipped(x, y, dx, dy);
      FlipRecolors(color, state, x, y, dx, dy);
      RecolorsBoard(color, h, state);
      color := h;
    }

    /** The board Reverse leaves: the run of opposing stones from (x, y) is
        walked to its end, and when the side to move closes it, painted. */
    method Flipped(x: int, y: int, dx: int, dy: int) returns (h: Grid)
      requires Valid() && InBoard(x, y) && IsDir(dx, dy)
      ensures h == Flip(color, state, x, y, dx, dy)
    {
      var x1, y1, k := RunEnd(x, y, dx, dy);
      h := color;
      if InBoard(x1, y1) && color[x1][y1] == state {
        h := PaintRun(color, state, x, y, dx, dy, x1, y1, k - 1);
        if k == 1 {
          PaintedNone(color, state, x, y, dx, dy);
        }
      }
    }

    /** The first cell past the run of opposing stones from (x, y), k steps
        away. */
    method RunEnd(x: int, y: int, dx: int, dy: int) returns (x1: int, y1: int, ghost k: nat)
      requires Valid() && InBoard(x, y) && IsDir(dx, dy)
      ensures k >= 1 && x1 == Off(x, dx, k) && y1 == Off(y, dy, k)
      ensures RunLen(color, state, x, y, dx, dy, 1) == k - 1
      ensures Bracketed(color, state, x, y, dx, dy) <==> k > 1 && InBoard(x1, y1) && color[x1][y1] == state
    {
      x1, y1 := x + dx, y + dy;
      k := 1;
      while InBoard(x1, y1) && color[x1][y1] != state && color[x1][y1] != 0
        invariant 1 <= k <= Size && x1 == Off(x, dx, k) && y1 == Off(y, dy, k)
        invariant RunFrom(color, state, x, y, dx, dy, k)
        decreases Size - k
      {
        if k >= Size { OffLeaves(x, y, dx, dy, k); }
        x1, y1 := x1 + dx, y1 + dy;
        k := k + 1;
      }
      BracketedAt(color, state, x, y, dx, dy, k);
    }

    /** Applies Reverse in every direction CheckDirection accepts, the
        directions taken in the order of the page's two nested loops. */
    method DirectionReverse(x: int, y: int)
      requires Valid() && InBoard(x, y)
      modifies this
      ensures Valid() && color == FlipAll(old(color), state, x, y, Dirs)
      ensures ok == old(ok) && state == old(state) && black == old(black) && white == old(white) && ending == old(ending)
    {
      ghost var g := color;
      assert Dirs[..Rank(-1, -1)] == [];
      for dx := -1 to 2
        invariant Valid() && color == FlipAll(g, state, x, y, Dirs[..Rank(dx, -1)])
        invariant ok == old(ok) && state == old(state) && black == old(black) && white == old(white) && ending == old(ending)
      {
        ReverseColumn(x, y, dx, g);
      }
      assert Dirs[..Rank(2, -1)] == Dirs;
    }

    /** The inner loop of DirectionReverse: the directions (dx, -1), (dx, 0)
        and (dx, 1), skipping (0, 0). */
    method ReverseColumn(x: int, y: int, dx: int, ghost g: Grid)
      requires Valid() && InBoard(x, y) && -1 <= dx <= 1 && IsGrid(g)
      requires color == FlipAll(g, state, x, y, Dirs[..Rank(dx, -1)])
      modifies this
      ensures Valid() && color == FlipAll(g, state, x, y, Dirs[..Rank(dx + 1, -1)])
      ensures ok == old(ok) && state == old(state) && black == old(black) && white == old(white) && ending == old(ending)
    {
      for dy := -1 to 2
        invariant Valid() && color == FlipAll(g, state, x, y, Dirs[..Rank(dx, dy)])
        invariant ok == old(ok) && state == old(state) && black == old(black) && white == old(white) && ending == old(ending)
      {
        if dx == 0 && dy == 0 {
          continue;
        }
        DirsRank(dx, dy);
        ReverseStep(x, y, dx, dy, g);
      }
    }

    /** One direction of DirectionReverse: reversed when CheckDirection
        accepts it. */
    method ReverseStep(x: int, y: int, dx: int, dy: int, ghost g: Grid)
      requires Valid() && InBoard(x, y) && IsDir(dx, dy) && IsGrid(g)
      requires color == FlipAll(g, state, x, y, Dirs[..Rank(dx, dy)])
      modifies this
      ensures Valid() && color == FlipAll(g, state, x, y, Dirs[..Rank(dx, dy) + 1])
      ensures ok == old(ok) && state == old(state) && black == old(black) && white == old(white) && ending == old(ending)
    {
      DirsRank(dx, dy);
      FlipAllStep(g, state, x, y, Rank(dx, dy));
      var c := CheckDirection(x, y, dx, dy);
      if c {
        Reverse(x, y, dx, dy);
      }
    }

    /** Unmarks every cell, row by row. */
    method RemoveInfo()
      requires Valid()
      modifies this
      ensures Valid() && ok == Clear()
      ensures color == old(color) && state == old(state) && black == old(black) && white == old(white) && ending == old(ending)
    {
      var marks := ok;
      UnmarkedNone(ok);
      for i := 0 to Size
        invariant marks == Unmarked(ok, RowMajor(i, 0))
        modifies {}
      {
        marks := UnmarkRow(ok, i, marks);
      }
      UnmarkedAll(ok);
      ok := marks;
    }

    /** Hands the move to the other side. */
    method ChangeState()
      requires Valid()
      modifies this
      ensures Valid() && state == -old(state)
      ensures color == old(color) && ok == old(ok) && black == old(black) && white == old(white) && ending == old(ending)
    {
      state := -state;
    }

    /** The scan of OKDetect: marks every empty cell where the side to move
        may play, keeping the marks already set, and reports whether it
        found one. */
    method MarkMoves() returns (found: bool)
      requires Valid()
      modifies this
      ensures Valid() && ok == Marked(old(ok), color, state)
      ensures found <==> AnyMove(color, state)
      ensures color == old(color) && state == old(state) && black == old(black) && white == old(white) && ending == old(ending)
    {
      ghost var l := Legal(color, state);
      var marks := ok;
      MarkedNone(ok, l);
      found := false;
      for i := 0 to Size
        invariant marks == MarkedUpTo(ok, l, RowMajor(i, 0))
        invariant found <==> SomeBefore(l, RowMajor(i, 0))
        modifies {}
      {
        marks, found := ScanRow(i, marks, found, l);
      }
      SomeBeforeAll(color, state);
      ok := marks;
    }

    /** Row i of the scan, on the marks and the flag built so far. */
    method ScanRow(i: int, marks: Marks, found: bool, ghost l: Marks) returns (marks': Marks, found': bool)
      requires Valid() && 0 <= i < Size && l == Legal(color, state)
      requires marks == MarkedUpTo(ok, l, RowMajor(i, 0)) && (found <==> SomeBefore(l, RowMajor(i, 0)))
      ensures marks' == MarkedUpTo(ok, l, RowMajor(i + 1, 0)) && (found' <==> SomeBefore(l, RowMajor(i + 1, 0)))
    {
      marks', found' := marks, found;
      for j := 0 to Size
        invariant marks' == MarkedUpTo(ok, l, RowMajor(i, j))
        invariant found' <==> SomeBefore(l, RowMajor(i, j))
      {
        marks', found' := ScanStep(i, j, marks', found', l);
      }
      assert RowMajor(i, Size) == RowMajor(i + 1, 0);
    }

    /** Cell (i, j) of the scan, on the marks and the flag built so far. */
    method ScanStep(i: int, j: int, marks: Marks, found: bool, ghost l: Marks) returns (marks': Marks, found': bool)
      requires Valid() && InBoard(i, j) && l == Legal(color, state)
      requires marks == MarkedUpTo(ok, l, RowMajor(i, j)) && (found <==> SomeBefore(l, RowMajor(i, j)))
      ensures marks' == MarkedUpTo(ok, l, RowMajor(i, j + 1)) && (found' <==> SomeBefore(l, RowMajor(i, j + 1)))
    {
      MarkedStep(ok, l, i, j);
      SomeBeforeStep(l, i, j);
      assert RowMajor(i, j + 1) == RowMajor(i, j) + 1;
      marks', found' := marks, found;
      var hit := ScanCell(i, j);
      if hit {
        marks' := SetMark(marks, i, j, true);
        found' := true;
      }
    }

    /** One cell of the scan: empty, and a move there brackets something. */
    method ScanCell(i: int, j: int) returns (hit: bool)
      requires Valid() && InBoard(i, j)
      ensures hit == Legal(color, state)[i][j]
    {
      hit := false;
      if color[i][j] == 0 {
        hit := CanPut(i, j);
      }
    }

    /** Marks the moves of the side to move; a side with none passes, and
        when the other side has none either (level 1) the game ends on the
        scores last counted. */
    method OKDetect(level: nat)
      requires Valid() && level <= 1
      modifies this
      ensures Valid() && color == old(color)
      ensures AnyMove(color, old(state)) ==>
        && ok == Marked(old(ok), color, old(state)) && state == old(state)
        && black == old(black) && white == old(white) && ending == old(ending)
      ensures !AnyMove(color, old(state)) && level == 1 ==>
        && ok == old(ok) && state == old(state)
        && black == old(black) && white == old(white) && ending == Some(Outcome(old(white), old(black)))
      ensures !AnyMove(color, old(state)) && level == 0 ==>
        && state == -old(state) && black == Count(color, 1) && white == Count(color, -1)
        && (AnyMove(color, -old(state)) ==> ok == Marked(old(ok), color, -old(state)) && ending == old(ending))
        && (!AnyMove(color, -old(state)) ==> ok == old(ok) && ending == Some(Outcome(old(white), old(black))))
      ensures level == 0 && old(ok) == Clear() && old(black) == Count(color, 1) && old(white) == Count(color, -1) ==>
        Scored(color, black, white) && Settled(color, ok, state, ending, old(ending), -old(state))
      decreases 1 - level
    {
      var found := MarkMoves();
      if !found {
        MarkedMeaning(old(ok), color, old(state));
        if level == 1 {
          GameEnd();
          return;
        }
        state := -state;
        OKDetect(level + 1);
        UpdateBoard();
      }
    }

    /** Records the verdict from the scores last counted. */
    method GameEnd()
      requires Valid()
      modifies this
      ensures Valid() && ending == Some(Outcome(white, black))
      ensures color == old(color) && ok == old(ok) && state == old(state) && black == old(black) && white == old(white)
    {
      ending := Some(Outcome(white, black));
    }

    /** Counts the stones of each colour, row by row. */
    method Score()
      requires Valid()
      modifies this
      ensures Valid() && black == Count(color, 1) && white == Count(color, -1)
      ensures color == old(color) && ok == old(ok) && state == old(state) && ending == old(ending)
    {
      black, white := Tally(color);
    }

    /** Shows the marks and the scores; only the scores are state. */
    method UpdateBoard()
      requires Valid()
      modifies this
      ensures Valid() && black == Count(color, 1) && white == Count(color, -1)
      ensures color == old(color) && ok == old(ok) && state == old(state) && ending == old(ending)
    {
      Score();
    }

    /** The side to move plays at (x, y): the stone, the flips, the marks
        cleared, the turn handed over, the scores the flip animations
        count, the scan (with a pass or the end of the game when it finds
        nothing), and the board shown again. */
    method Put(x: int, y: int)
      requires Valid() && InBoard(x, y)
      modifies this
      ensures Valid() && color == Placed(old(color), old(state), x, y) && Current()
      ensures Scored(color, black, white) && Settled(color, ok, state, ending, old(ending), old(state))
    {
      PlaceStone(x, y);
      AfterPut(-state);
    }

    /** The part of put() that runs at once: the stone placed, the run
        turned in every direction, the marks cleared and the turn handed
        over. */
    method PlaceStone(x: int, y: int)
      requires Valid() && InBoard(x, y)
      modifies this
      ensures Valid() && color == Placed(old(color), old(state), x, y)
      ensures ok == Clear() && state == -old(state) && ending == old(ending)
    {
      color := Set(color, x, y, state);
      SetBoard(old(color), x, y, state);
      DirectionReverse(x, y);
      RemoveInfo();
      ChangeState();
    }

    /** The part of put() that runs once the turning is over: the stones are
        counted (the animation steps recount them), the scan runs for the
        side now to move, and the marks and scores are shown. */
    method AfterPut(mover: int)
      requires Valid() && ok == Clear() && state == -mover
      modifies this
      ensures Valid() && color == old(color) && Current()
      ensures Scored(color, black, white) && Settled(color, ok, state, ending, old(ending), mover)
    {
      Score();
      OKDetect(0);
      UpdateBoard();
      SettledMarks(color, ok, state, ending, old(ending), mover);
    }

    /** A click on (x, y): ignored while the computer is to move, and
        otherwise played when the cell is marked. */
    method HandleCellClick(mode: Mode, x: int, y: int)
      requires Valid() && InBoard(x, y)
      modifies this
      ensures Valid()
      ensures (mode != Pvp && old(state) == -1) || !old(ok[x][y]) ==> unchanged(this)
      ensures !(mode != Pvp && old(state) == -1) && old(ok[x][y]) ==>
        && color == Placed(old(color), old(state), x, y) && Current()
        && Scored(color, black, white) && Settled(color, ok, state, ending, old(ending), old(state))
      ensures old(Current()) && old(ok[x][y]) ==> old(color[x][y]) == 0 && Playable(old(color), old(state), x, y)
    {
      MarkedMeaning(Clear(), color, state);
      if mode != Pvp && state == -1 {
        return;
      }
      if ok[x][y] {
        Put(x, y);
      }
    }

    /** The computer's choice, when it is to move (White, outside the
        two-player mode): among the marked cells in row-major order, the
        one at position `choice` modulo their number in the easy mode,
        the first of the heaviest in the hard mode. */
    method ChooseTarget(mode: Mode, choice: nat) returns (target: Option<(int, int)>)
      requires Valid()
      ensures var l := MarkedCells(ok, Size * Size);
        && (mode == Pvp || state == 1 || l == [] ==> target == None)
        && (mode == Easy && state == -1 && l != [] ==> target == Some(l[choice % |l|]))
        && (mode == Hard && state == -1 && l != [] ==>
              (forall t | 0 <= t < |l| :: InBoard(l[t].0, l[t].1)) && target == Some(l[Heaviest(l)]))
    {
      MarkedCellsSound(ok, Size * Size);
      if mode == Pvp || state == 1 {
        return None;
      }
      var moves := MarkedMoves();
      if |moves| == 0 {
        return None;
      }
      if mode == Easy {
        target := Some(moves[choice % |moves|]);
      } else {
        assert forall t | 0 <= t < |moves| :: moves[t] in moves;
        target := Some(moves[Heaviest(moves)]);
      }
    }

    /** The marked cells, collected row by row. */
    method MarkedMoves() returns (moves: seq<(int, int)>)
      requires Valid()
      ensures moves == MarkedCells(ok, Size * Size)
    {
      moves := [];
      for i := 0 to Size
        invariant moves == MarkedCells(ok, RowMajor(i, 0))
      {
        moves := CollectRow(i, moves);
      }
    }

    /** moves, collected up to row i, extended with the marked cells of row
        i. */
    method CollectRow(i: int, moves: seq<(int, int)>) returns (moves': seq<(int, int)>)
      requires Valid() && 0 <= i < Size && moves == MarkedCells(ok, RowMajor(i, 0))
      ensures moves' == MarkedCells(ok, RowMajor(i + 1, 0))
    {
      moves' := moves;
      for j := 0 to Size
        invariant moves' == MarkedCells(ok, RowMajor(i, j))
      {
        moves' := CollectCell(i, j, moves');
      }
      assert RowMajor(i, Size) == RowMajor(i + 1, 0);
    }

    /** moves, collected up to cell (i, j), extended with (i, j) when it is
        marked. */
    method CollectCell(i: int, j: int, moves: seq<(int, int)>) returns (moves': seq<(int, int)>)
      requires Valid() && InBoard(i, j) && moves == MarkedCells(ok, RowMajor(i, j))
      ensures moves' == MarkedCells(ok, RowMajor(i, j + 1))
    {
      CellAtRowMajor(i, j);
      assert RowMajor(i, j + 1) == RowMajor(i, j) + 1;
      moves' := moves;
      if ok[i][j] {
        moves' := moves + [(i, j)];
      }
    }

    /** The computer's turn: the chosen cell, if any, is played. */
    method CheckAI(mode: Mode, choice: nat) returns (target: Option<(int, int)>)
      requires Valid()
      modifies this
      ensures Valid()
      ensures var l := MarkedCells(old(ok), Size * Size);
        && (mode == Pvp || old(state) == 1 || l == [] <==> target == None)
        && (mode == Easy && old(state) == -1 && l != [] ==> target == Some(l[choice % |l|]))
        && (mode == Hard && old(state) == -1 && l != [] ==>
              (forall t | 0 <= t < |l| :: InBoard(l[t].0, l[t].1)) && target == Some(l[Heaviest(l)]))
      ensures target == None ==> unchanged(this)
      ensures target.Some? ==> InBoard(target.value.0, target.value.1) && old(ok[target.value.0][target.value.1])
      ensures target.Some? && old(Current()) ==>
        old(color[target.value.0][target.value.1]) == 0 && Playable(old(color), old(state), target.value.0, target.value.1)
      ensures target.Some? ==>
        && color == Placed(old(color), old(state), target.value.0, target.value.1) && Current()
        && Scored(color, black, white) && Settled(color, ok, state, ending, old(ending), old(state))
    {
      MarkedMeaning(Clear(), color, state);
      target := ChooseTarget(mode, choice);
      if target.Some? {
        MarkedCellsSound(ok, Size * Size);
        var l := MarkedCells(ok, Size * Size);
        assert target.value in l;
        Put(target.value.0, target.value.1);
      }
    }

    /** A new game: the opening position with Black to move, the marks
        cleared and the scan for Black run again. The verdict of an ended
        game stays shown. */
    method ResetGame()
      requires Valid()
      modifies this
      ensures Valid() && color == Initial() && state == 1 && ok == Marked(Clear(), Initial(), 1) && Current()
      ensures black == 2 && white == 2 && ending == old(ending)
    {
      ResetPosition();
      InitialAnyMove();
      ScanAndShow();
      InitialCounts();
    }

    /** resetGame() as the page has it: the marks are not cleared before the
        scan, so the marks of the side that was to move stay set. */
    method ResetGameAsWritten()
      requires Valid()
      modifies this
      ensures Valid() && color == Initial() && state == 1 && ok == ResetMarksAsWritten(old(ok))
      ensures black == 2 && white == 2 && ending == old(ending)
    {
      color := Initial();
      state := 1;
      Score();
      InitialAnyMove();
      ScanAndShow();
      InitialCounts();
    }

    /** The scan and the redraw run at startup and at a reset, when the side
        to move has a move: the marks gain its legal cells and the scores are
        recounted. */
    method ScanAndShow()
      requires Valid() && AnyMove(color, state)
      modifies this
      ensures Valid() && color == old(color) && state == old(state) && ending == old(ending)
      ensures ok == Marked(old(ok), color, state) && Scored(color, black, white)
    {
      OKDetect(0);
      UpdateBoard();
    }

    /** The first half of a new game: the opening position, Black to move,
        the marks cleared and the stones counted. */
    method ResetPosition()
      requires Valid()
      modifies this
      ensures Valid() && color == Initial() && state == 1 && ok == Clear() && ending == old(ending)
    {
      color := Initial();
      state := 1;
      RemoveInfo();
      Score();
    }
  }

  /** g with the n stones of side -s after (x, y) turned to side s, walking
      up to (x1, y1). */
  method PaintRun(g: Grid, s: int, x: int, y: int, dx: int, dy: int, x1: int, y1: int, ghost n: nat) returns (h: Grid)
    requires IsGrid(g) && InBoard(x, y) && IsDir(dx, dy)
    requires n == RunLen(g, s, x, y, dx, dy, 1)
    requires x1 == Off(x, dx, n + 1) && y1 == Off(y, dy, n + 1)
    ensures h == Painted(g, s, x, y, dx, dy, n)
  {
    h := g;
    PaintedNone(g, s, x, y, dx, dy);
    var rx, ry := x + dx, y + dy;
    ghost var t: nat := 0;
    while rx != x1 || ry != y1
      invariant t <= n && rx == Off(x, dx, t + 1) && ry == Off(y, dy, t + 1)
      invariant h == Painted(g, s, x, y, dx, dy, t)
      decreases n - t
    {
      h, rx, ry := PaintStep(g, s, x, y, dx, dy, h, rx, ry, t);
      t := t + 1;
    }
    OffInjective(x, y, dx, dy, t + 1, n + 1);
  }

  /** One turn of PaintRun's loop: the stone t + 1 steps away is turned and
      the walk moves on. */
  method PaintStep(g: Grid, s: int, x: int, y: int, dx: int, dy: int, h: Grid, rx: int, ry: int, ghost t: nat)
      returns (h': Grid, rx': int, ry': int)
    requires IsGrid(g) && InBoard(x, y) && IsDir(dx, dy) && t < RunLen(g, s, x, y, dx, dy, 1)
    requires rx == Off(x, dx, t + 1) && ry == Off(y, dy, t + 1) && h == Painted(g, s, x, y, dx, dy, t)
    ensures rx' == Off(x, dx, t + 2) && ry' == Off(y, dy, t + 2) && h' == Painted(g, s, x, y, dx, dy, t + 1)
  {
    PaintedNext(g, s, x, y, dx, dy, t);
    h' := Set(h, rx, ry, s);
    rx', ry' := rx + dx, ry + dy;
  }

  /** Row i of RemoveInfo: the marks unmarked up to row i, unmarked up to
      row i + 1. */
  method UnmarkRow(m: Marks, i: int, marks: Marks) returns (marks': Marks)
    requires IsMarks(m) && 0 <= i < Size && marks == Unmarked(m, RowMajor(i, 0))
    ensures marks' == Unmarked(m, RowMajor(i + 1, 0))
  {
    marks' := marks;
    for j := 0 to Size
      invariant marks' == Unmarked(m, RowMajor(i, j))
    {
      UnmarkedStep(m, i, j);
      marks' := SetMark(marks', i, j, false);
    }
    assert RowMajor(i, Size) == RowMajor(i + 1, 0);
  }

  /** The counts of black and white stones, row by row, as score() takes
      them. */
  method Tally(g: Grid) returns (black: int, white: int)
    requires IsBoard(g)
    ensures black == Count(g, 1) && white == Count(g, -1)
  {
    black, white := 0, 0;
    for i := 0 to Size
      invariant black == Count(g[..i], 1) && white == Count(g[..i], -1)
    {
      var b, w := TallyRow(g[i]);
      black, white := black + b, white + w;
      assert g[..i + 1][..i] == g[..i];
    }
    assert g[..Size] == g;
  }

  /** The counts of black and white stones in one row. */
  method TallyRow(r: seq<int>) returns (black: int, white: int)
    ensures black == RowCount(r, 1) && white == RowCount(r, -1)
  {
    black, white := 0, 0;
    for j := 0 to |r|
      invariant black == RowCount(r[..j], 1) && white == RowCount(r[..j], -1)
    {
      assert r[..j + 1][..j] == r[..j];
      if r[j] == 1 {
        black := black + 1;
      } else if r[j] == -1 {
        white := white + 1;
      }
    }
    assert r[..|r|] == r;
  }

  /** Position of direction (dx, dy) in Dirs, counting the pairs the page's
      loops visit before it; dy == 2 stands for the end of a row. */
  function Rank(dx: int, dy: int): int {
    (dx + 1) * 3 + (dy + 1) - (if dx > 0 || (dx == 0 && dy > 0) then 1 else 0)
  }

  lemma DirsRank(dx: int, dy: int)
    requires IsDir(dx, dy)
    ensures 0 <= Rank(dx, dy) < |Dirs| && Dirs[Rank(dx, dy)] == (dx, dy)
    ensures Rank(dx, dy + 1) == Rank(dx, dy) + 1
  {
  }

  /** Whichever way the scan after a move ends, the marks are exactly the
      legal moves of the side left to move. */
  lemma SettledMarks(g: Grid, m: Marks, s: int, e: Option<Ending>, e0: Option<Ending>, mover: int)
    requires IsGrid(g) && Settled(g, m, s, e, e0, mover)
    ensures m == Marked(Clear(), g, s)
    ensures s == mover || s == -mover
  {
    if !AnyMove(g, -mover) && !AnyMove(g, mover) {
      MarkedMeaning(Clear(), g, s);
    }
  }

  /** The marks resetGame() leaves from the marks m it finds. */
  ghost function ResetMarksAsWritten(m: Marks): Marks
    requires IsMarks(m)
  {
    Marked(m, Initial(), 1)
  }

  /** Reset during White's turn, after Black opened at (2, 4): White's mark
      at (2, 3) survives, although (2, 3) is not a move for Black, so the
      marks differ from those a fresh page shows. */
  lemma ResetKeepsStaleMark()
    ensures var m := Marked(Clear(), Placed(Initial(), 1, 2, 4), -1);
      && ResetMarksAsWritten(m)[2][3]
      && !Marked(Clear(), Initial(), 1)[2][3]
      && ResetMarksAsWritten(m) != Marked(Clear(), Initial(), 1)
  {
    var m := Marked(Clear(), Placed(Initial(), 1, 2, 4), -1);
    WhiteAnswer23();
    NotBlackOpening23();
    MarkedMeaning(m, Initial(), 1);
    MarkedMeaning(Clear(), Initial(), 1);
  }

  /** The page after `mover` has played and the scan has run: the other
      side moves if it can, else the mover moves again if it can, else the
      game is over, decided by the stone counts, with the mover's side left
      to move and no cell marked. */
  ghost predicate Settled(g: Grid, m: Marks, s: int, e: Option<Ending>, e0: Option<Ending>, mover: int)
    requires IsGrid(g)
  {
    if AnyMove(g, -mover) then s == -mover && m == Marked(Clear(), g, s) && e == e0
    else if AnyMove(g, mover) then s == mover && m == Marked(Clear(), g, s) && e == e0
    else s == mover && m == Clear() && e == Some(Outcome(Count(g, -1), Count(g, 1)))
  }

  /** The scores shown are the stone counts of g. */
  ghost predicate Scored(g: Grid, black: int, white: int) {
    black == Count(g, 1) && white == Count(g, -1)
  }
}
