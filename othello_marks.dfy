/** The legal-move marks of the Othello page: clearing them, the scan that
    sets them, the list of marked cells the computer chooses from, and its
    weighted choice. */
module OthelloMarks {
  import opened OthelloRules

  /** The legal-move marks, one flag per cell. */
  type Marks = seq<seq<bool>>

  predicate IsMarks(m: Marks) {
    |m| == Size && forall i | 0 <= i < Size :: |m[i]| == Size
  }

  /** Position of cell (i, j) in row-major order. */
  function RowMajor(i: int, j: int): int {
    i * Size + j
  }

  /** The empty cells where side s may play. */
  ghost function Legal(g: Grid, s: int): (l: Marks)
    requires IsGrid(g)
    ensures IsMarks(l) && forall i, j | InBoard(i, j) :: l[i][j] == (g[i][j] == 0 && Playable(g, s, i, j))
  {
    seq(Size, i requires 0 <= i < Size =>
      seq(Size, j requires 0 <= j < Size => g[i][j] == 0 && Playable(g, s, i, j)))
  }

  /** The marks m with every cell before row-major position `upto` that l
      holds also marked. */
  function MarkedUpTo(m: Marks, l: Marks, upto: int): (r: Marks)
    requires IsMarks(m) && IsMarks(l)
    ensures IsMarks(r)
    ensures forall i, j | InBoard(i, j) :: r[i][j] == (m[i][j] || (RowMajor(i, j) < upto && l[i][j]))
  {
    seq(Size, i requires 0 <= i < Size =>
      seq(Size, j requires 0 <= j < Size => m[i][j] || (RowMajor(i, j) < upto && l[i][j])))
  }

  /** The marks after a full scan for side s. */
  ghost function Marked(m: Marks, g: Grid, s: int): (r: Marks)
    requires IsMarks(m) && IsGrid(g)
    ensures IsMarks(r)
  {
    MarkedUpTo(m, Legal(g, s), Size * Size)
  }

  /** Side s has an empty cell where it may play. */
  ghost predicate AnyMove(g: Grid, s: int)
    requires IsGrid(g)
  {
    exists i, j | InBoard(i, j) :: Legal(g, s)[i][j]
  }

  /** The marks with no cell marked. */
  function Clear(): (m: Marks)
    ensures IsMarks(m) && forall i, j | InBoard(i, j) :: !m[i][j]
  {
    seq(Size, i => seq(Size, j => false))
  }

  /** m with cell (i, j) set to b. */
  function SetMark(m: Marks, i: int, j: int, b: bool): (r: Marks)
    requires IsMarks(m) && InBoard(i, j)
    ensures IsMarks(r)
    ensures forall a, c | InBoard(a, c) :: r[a][c] == if a == i && c == j then b else m[a][c]
  {
    m[i := m[i][j := b]]
  }

  lemma MarksEqual(m: Marks, n: Marks)
    requires IsMarks(m) && IsMarks(n)
    requires forall i, j | InBoard(i, j) :: m[i][j] == n[i][j]
    ensures m == n
  {
    forall i | 0 <= i < Size
      ensures m[i] == n[i]
    {
      assert forall j | 0 <= j < Size :: m[i][j] == n[i][j] by {
        forall j | 0 <= j < Size
          ensures m[i][j] == n[i][j]
        {
          assert InBoard(i, j);
        }
      }
    }
  }

  /** m with every cell before row-major position `upto` unmarked. */
  ghost function Unmarked(m: Marks, upto: int): (r: Marks)
    requires IsMarks(m)
    ensures IsMarks(r)
    ensures forall i, j | InBoard(i, j) :: r[i][j] == (m[i][j] && RowMajor(i, j) >= upto)
  {
    seq(Size, i requires 0 <= i < Size =>
      seq(Size, j requires 0 <= j < Size => m[i][j] && RowMajor(i, j) >= upto))
  }

  lemma UnmarkedNone(m: Marks)
    requires IsMarks(m)
    ensures Unmarked(m, 0) == m
  {
    MarksEqual(Unmarked(m, 0), m);
  }

  lemma UnmarkedAll(m: Marks)
    requires IsMarks(m)
    ensures Unmarked(m, Size * Size) == Clear()
  {
    MarksEqual(Unmarked(m, Size * Size), Clear());
  }

  lemma UnmarkedStep(m: Marks, i: int, j: int)
    requires IsMarks(m) && InBoard(i, j)
    ensures Unmarked(m, RowMajor(i, j) + 1) == SetMark(Unmarked(m, RowMajor(i, j)), i, j, false)
  {
    MarksEqual(Unmarked(m, RowMajor(i, j) + 1), SetMark(Unmarked(m, RowMajor(i, j)), i, j, false));
  }

  lemma MarkedNone(m: Marks, l: Marks)
    requires IsMarks(m) && IsMarks(l)
    ensures MarkedUpTo(m, l, 0) == m
  {
    MarksEqual(MarkedUpTo(m, l, 0), m);
  }

  /** Scanning one more cell marks it exactly when l holds it. */
  lemma MarkedStep(m: Marks, l: Marks, i: int, j: int)
    requires IsMarks(m) && IsMarks(l) && InBoard(i, j)
    ensures MarkedUpTo(m, l, RowMajor(i, j) + 1) ==
      if l[i][j] then SetMark(MarkedUpTo(m, l, RowMajor(i, j)), i, j, true) else MarkedUpTo(m, l, RowMajor(i, j))
  {
    var a := MarkedUpTo(m, l, RowMajor(i, j) + 1);
    var b := MarkedUpTo(m, l, RowMajor(i, j));
    if l[i][j] {
      MarksEqual(a, SetMark(b, i, j, true));
    } else {
      MarksEqual(a, b);
    }
  }

  /** A scan marks exactly the empty cells where s may play, added to the
      marks already there; when s has no such cell the marks stay as they
      were. */
  lemma MarkedMeaning(m: Marks, g: Grid, s: int)
    requires IsMarks(m) && IsGrid(g)
    ensures forall i, j | InBoard(i, j) ::
      Marked(m, g, s)[i][j] <==> m[i][j] || (g[i][j] == 0 && Playable(g, s, i, j))
    ensures !AnyMove(g, s) ==> Marked(m, g, s) == m
  {
    if !AnyMove(g, s) {
      MarksEqual(Marked(m, g, s), m);
    }
  }

  /** l holds a cell before row-major position `upto`. */
  ghost predicate SomeBefore(l: Marks, upto: int)
    requires IsMarks(l)
  {
    exists i, j | InBoard(i, j) && RowMajor(i, j) < upto :: l[i][j]
  }

  lemma SomeBeforeStep(l: Marks, i: int, j: int)
    requires IsMarks(l) && InBoard(i, j)
    ensures SomeBefore(l, RowMajor(i, j) + 1) <==> SomeBefore(l, RowMajor(i, j)) || l[i][j]
  {
    if SomeBefore(l, RowMajor(i, j) + 1) {
      var a, c :| InBoard(a, c) && RowMajor(a, c) < RowMajor(i, j) + 1 && l[a][c];
      if RowMajor(a, c) == RowMajor(i, j) {
        assert a == i && c == j;
      }
    }
  }

  /** A full scan finds some legal cell exactly when s has a move. */
  lemma SomeBeforeAll(g: Grid, s: int)
    requires IsGrid(g)
    ensures SomeBefore(Legal(g, s), Size * Size) <==> AnyMove(g, s)
  {
    var l := Legal(g, s);
    if AnyMove(g, s) {
      var i, j :| InBoard(i, j) && l[i][j];
      assert RowMajor(i, j) < Size * Size;
    }
  }

  /** Black has a move in the opening position. */
  lemma InitialAnyMove()
    ensures AnyMove(Initial(), 1)
  {
    InitialMoves();
    assert Legal(Initial(), 1)[2][4];
  }

  /** The cell at row-major position k. */
  function CellAt(k: int): (p: (int, int))
    requires 0 <= k < Size * Size
    ensures InBoard(p.0, p.1) && RowMajor(p.0, p.1) == k
  {
    (k / Size, k % Size)
  }

  lemma CellAtRowMajor(i: int, j: int)
    requires InBoard(i, j)
    ensures CellAt(RowMajor(i, j)) == (i, j)
  {
  }

  /** The marked cells before row-major position `upto`, in row-major
      order. */
  ghost function MarkedCells(m: Marks, upto: int): seq<(int, int)>
    requires IsMarks(m) && upto <= Size * Size
    decreases upto
  {
    if upto <= 0 then []
    else
      var p := CellAt(upto - 1);
      MarkedCells(m, upto - 1) + (if m[p.0][p.1] then [p] else [])
  }

  /** The list holds marked cells before `upto` only. */
  lemma {:induction false} MarkedCellsSound(m: Marks, upto: int)
    requires IsMarks(m) && 0 <= upto <= Size * Size
    ensures forall p | p in MarkedCells(m, upto) :: InBoard(p.0, p.1) && m[p.0][p.1] && RowMajor(p.0, p.1) < upto
    decreases upto
  {
    if upto > 0 {
      MarkedCellsSound(m, upto - 1);
    }
  }

  /** The list holds every marked cell before `upto`. */
  lemma {:induction false} MarkedCellsComplete(m: Marks, upto: int)
    requires IsMarks(m) && 0 <= upto <= Size * Size
    ensures forall i, j | InBoard(i, j) && RowMajor(i, j) < upto && m[i][j] :: (i, j) in MarkedCells(m, upto)
    decreases upto
  {
    if upto > 0 {
      MarkedCellsComplete(m, upto - 1);
      forall i, j | InBoard(i, j) && RowMajor(i, j) < upto && m[i][j]
        ensures (i, j) in MarkedCells(m, upto)
      {
        if RowMajor(i, j) == upto - 1 {
          CellAtRowMajor(i, j);
        }
      }
    }
  }

  /** The cells of l are in increasing row-major order. */
  predicate InOrder(l: seq<(int, int)>) {
    forall t, u | 0 <= t < u < |l| :: RowMajor(l[t].0, l[t].1) < RowMajor(l[u].0, l[u].1)
  }

  /** The list is in increasing row-major order. */
  lemma {:induction false} MarkedCellsOrdered(m: Marks, upto: int)
    requires IsMarks(m) && 0 <= upto <= Size * Size
    ensures InOrder(MarkedCells(m, upto))
    decreases upto
  {
    if upto > 0 {
      MarkedCellsOrdered(m, upto - 1);
      MarkedCellsSound(m, upto - 1);
      var l := MarkedCells(m, upto);
      var k := MarkedCells(m, upto - 1);
      var p := CellAt(upto - 1);
      assert l == k + (if m[p.0][p.1] then [p] else []);
      forall t, u | 0 <= t < u < |l|
        ensures RowMajor(l[t].0, l[t].1) < RowMajor(l[u].0, l[u].1)
      {
        assert l[t] == k[t] && k[t] in k;
        if u == |k| {
          assert l[u] == p;
        } else {
          assert l[u] == k[u];
          assert RowMajor(k[t].0, k[t].1) < RowMajor(k[u].0, k[u].1);
        }
      }
    }
  }

  /** The position in a non-empty list of cells of the one the computer
      takes in its hard mode: the list is reduced from the front, and a later
      cell replaces the one held only when its weight is strictly greater,
      so the first of the heaviest cells wins. */
  function Heaviest(moves: seq<(int, int)>): (k: nat)
    requires |moves| > 0 && forall t | 0 <= t < |moves| :: InBoard(moves[t].0, moves[t].1)
    ensures k < |moves|
    ensures forall t | 0 <= t < |moves| :: Weight(moves[t].0, moves[t].1) <= Weight(moves[k].0, moves[k].1)
    ensures forall t | 0 <= t < k :: Weight(moves[t].0, moves[t].1) < Weight(moves[k].0, moves[k].1)
  {
    if |moves| == 1 then 0
    else
      var k := Heaviest(moves[..|moves| - 1]);
      var c := moves[|moves| - 1];
      if Weight(c.0, c.1) > Weight(moves[k].0, moves[k].1) then |moves| - 1 else k
  }

  /** Whenever a corner is among the cells, the hard mode takes a corner:
      the corners, and only they, carry the top weight. */
  lemma HeaviestCorner(moves: seq<(int, int)>, t: int)
    requires |moves| > 0 && forall u | 0 <= u < |moves| :: InBoard(moves[u].0, moves[u].1)
    requires 0 <= t < |moves| && (moves[t].0 == 0 || moves[t].0 == 7) && (moves[t].1 == 0 || moves[t].1 == 7)
    ensures var c := moves[Heaviest(moves)]; (c.0 == 0 || c.0 == 7) && (c.1 == 0 || c.1 == 7)
  {
    var k := Heaviest(moves);
    WeightsShape(moves[t].0, moves[t].1);
    WeightsShape(moves[k].0, moves[k].1);
  }
}
