/** The rules of the Othello board as functions on board values: rays from a
    cell, when a ray brackets opponent stones, which stones a move turns
    over, and stone counts. Cells hold 1 (Black), -1 (White) or 0 (empty);
    `s` is the side to move. */
module OthelloRules {

  const Size := 8

  /** A board value: Size rows of Size cells, indexed [row][column]. */
  type Grid = seq<seq<int>>

  predicate IsGrid(g: Grid) {
    |g| == Size && forall i | 0 <= i < Size :: |g[i]| == Size
  }

  /** Every cell holds Black, White or empty. */
  predicate IsBoard(g: Grid) {
    IsGrid(g) && forall i, j | 0 <= i < Size && 0 <= j < Size :: -1 <= g[i][j] <= 1
  }

  predicate InBoard(x: int, y: int) {
    x >= 0 && y >= 0 && x < Size && y < Size
  }

  /** g with cell (x, y) set to v. */
  function Set(g: Grid, x: int, y: int, v: int): (h: Grid)
    requires IsGrid(g) && InBoard(x, y)
    ensures IsGrid(h)
    ensures forall i, j | InBoard(i, j) :: h[i][j] == if i == x && j == y then v else g[i][j]
  {
    g[x := g[x][y := v]]
  }

  /** Setting a cell to a stone or to empty keeps a board a board. */
  lemma SetBoard(g: Grid, x: int, y: int, v: int)
    requires IsBoard(g) && InBoard(x, y) && -1 <= v <= 1
    ensures IsBoard(Set(g, x, y, v))
  {
    var h := Set(g, x, y, v);
    forall i, j | 0 <= i < Size && 0 <= j < Size
      ensures -1 <= h[i][j] <= 1
    {
      assert InBoard(i, j);
    }
  }

  /** The board at the start of a game: two stones of each colour in the
      centre, Black on the diagonal (3, 3)-(4, 4). */
  function Initial(): (g: Grid)
    ensures IsBoard(g)
  {
    [[0, 0, 0, 0, 0, 0, 0, 0],
     [0, 0, 0, 0, 0, 0, 0, 0],
     [0, 0, 0, 0, 0, 0, 0, 0],
     [0, 0, 0, 1, -1, 0, 0, 0],
     [0, 0, 0, -1, 1, 0, 0, 0],
     [0, 0, 0, 0, 0, 0, 0, 0],
     [0, 0, 0, 0, 0, 0, 0, 0],
     [0, 0, 0, 0, 0, 0, 0, 0]]
  }

  /** One of the eight unit steps between neighbouring cells. */
  predicate IsDir(dx: int, dy: int) {
    -1 <= dx <= 1 && -1 <= dy <= 1 && !(dx == 0 && dy == 0)
  }

  /** Coordinate a moved k steps in direction d (d is -1, 0 or 1). */
  function Off(a: int, d: int, k: int): int {
    if d > 0 then a + k else if d < 0 then a - k else a
  }

  /** Walking from an in-board cell, the ninth step is off the board. */
  lemma OffLeaves(x: int, y: int, dx: int, dy: int, k: int)
    requires InBoard(x, y) && IsDir(dx, dy) && k >= Size
    ensures !InBoard(Off(x, dx, k), Off(y, dy, k))
  {
  }

  /** (x, y) holds a stone of the side not to move. */
  predicate Opp(g: Grid, s: int, x: int, y: int)
    requires IsGrid(g)
  {
    InBoard(x, y) && g[x][y] != s && g[x][y] != 0
  }

  /** The number of opponent stones met in a row walking from the cell k
      steps away from (x, y) in direction (dx, dy). The test `k < Size` never
      decides anything for an in-board start (see OffLeaves); it only bounds
      the walk. */
  function RunLen(g: Grid, s: int, x: int, y: int, dx: int, dy: int, k: nat): nat
    requires IsGrid(g)
    decreases Size - k
  {
    if k < Size && Opp(g, s, Off(x, dx, k), Off(y, dy, k)) then 1 + RunLen(g, s, x, y, dx, dy, k + 1) else 0
  }

  /** The ray from (x, y) in direction (dx, dy) first crosses at least one
      opponent stone and then reaches a stone of the mover on the board. */
  predicate Bracketed(g: Grid, s: int, x: int, y: int, dx: int, dy: int)
    requires IsGrid(g)
  {
    var n := RunLen(g, s, x, y, dx, dy, 1);
    n >= 1 && InBoard(Off(x, dx, n + 1), Off(y, dy, n + 1)) && g[Off(x, dx, n + 1)][Off(y, dy, n + 1)] == s
  }

  /** A stone of side s at (x, y) would bracket something in one of the eight
      directions. */
  predicate Playable(g: Grid, s: int, x: int, y: int)
    requires IsGrid(g)
  {
    || Bracketed(g, s, x, y, -1, -1)
    || Bracketed(g, s, x, y, -1, 0)
    || Bracketed(g, s, x, y, -1, 1)
    || Bracketed(g, s, x, y, 0, -1)
    || Bracketed(g, s, x, y, 0, 1)
    || Bracketed(g, s, x, y, 1, -1)
    || Bracketed(g, s, x, y, 1, 0)
    || Bracketed(g, s, x, y, 1, 1)
  }

  /** One step of a walk along a ray: the next cell is one unit further,
      and the run from k is one longer than the run from k + 1 exactly when
      the cell k steps away holds an opponent stone. */
  lemma RunWalk(g: Grid, s: int, x: int, y: int, dx: int, dy: int, k: nat)
    requires IsGrid(g) && InBoard(x, y) && IsDir(dx, dy)
    ensures Off(x, dx, k + 1) == Off(x, dx, k) + dx && Off(y, dy, k + 1) == Off(y, dy, k) + dy
    ensures Opp(g, s, Off(x, dx, k), Off(y, dy, k)) ==> RunLen(g, s, x, y, dx, dy, k) == 1 + RunLen(g, s, x, y, dx, dy, k + 1)
    ensures !Opp(g, s, Off(x, dx, k), Off(y, dy, k)) ==> RunLen(g, s, x, y, dx, dy, k) == 0
  {
    if k >= Size {
      OffLeaves(x, y, dx, dy, k);
    }
  }

  /** The cells 1 .. k - 1 steps away from (x, y) are all opponent stones. */
  predicate RunFrom(g: Grid, s: int, x: int, y: int, dx: int, dy: int, k: nat)
    requires IsGrid(g)
  {
    k <= 1 || (RunFrom(g, s, x, y, dx, dy, k - 1) && Opp(g, s, Off(x, dx, k - 1), Off(y, dy, k - 1)))
  }

  lemma {:induction false} RunFromLen(g: Grid, s: int, x: int, y: int, dx: int, dy: int, k: nat)
    requires IsGrid(g) && InBoard(x, y) && IsDir(dx, dy) && k >= 1 && RunFrom(g, s, x, y, dx, dy, k)
    ensures RunLen(g, s, x, y, dx, dy, 1) == k - 1 + RunLen(g, s, x, y, dx, dy, k)
  {
    if k > 1 {
      RunFromLen(g, s, x, y, dx, dy, k - 1);
      RunWalk(g, s, x, y, dx, dy, k - 1);
    }
  }

  /** Where a walk over opponent stones stops decides the bracket. */
  lemma BracketedAt(g: Grid, s: int, x: int, y: int, dx: int, dy: int, k: nat)
    requires IsGrid(g) && InBoard(x, y) && IsDir(dx, dy) && k >= 1 && RunFrom(g, s, x, y, dx, dy, k)
    requires !Opp(g, s, Off(x, dx, k), Off(y, dy, k))
    ensures RunLen(g, s, x, y, dx, dy, 1) == k - 1
    ensures Bracketed(g, s, x, y, dx, dy) <==> k > 1 && InBoard(Off(x, dx, k), Off(y, dy, k)) && g[Off(x, dx, k)][Off(y, dy, k)] == s
  {
    RunFromLen(g, s, x, y, dx, dy, k);
    RunWalk(g, s, x, y, dx, dy, k);
  }

  /** The cells from `k` steps on, for RunLen(.., k) cells, are opponent
      stones; the cell after them is not. */
  lemma {:induction false} RunLenOpp(g: Grid, s: int, x: int, y: int, dx: int, dy: int, k: nat, i: nat)
    requires IsGrid(g) && k <= i < k + RunLen(g, s, x, y, dx, dy, k)
    ensures Opp(g, s, Off(x, dx, i), Off(y, dy, i))
    decreases i - k
  {
    if i > k {
      RunLenOpp(g, s, x, y, dx, dy, k + 1, i);
    }
  }

  /** A bracket in the declarative sense: the cells 1..n steps away are
      opponent stones and the cell n + 1 steps away is the mover's. */
  ghost predicate BracketOf(g: Grid, s: int, x: int, y: int, dx: int, dy: int, n: int)
    requires IsGrid(g)
  {
    && n >= 1
    && (forall k | 1 <= k <= n :: Opp(g, s, Off(x, dx, k), Off(y, dy, k)))
    && InBoard(Off(x, dx, n + 1), Off(y, dy, n + 1))
    && g[Off(x, dx, n + 1)][Off(y, dy, n + 1)] == s
  }

  /** Where a run of opponent stones reaches from k steps on. */
  lemma {:induction false} RunLenExact(g: Grid, s: int, x: int, y: int, dx: int, dy: int, k: nat, n: int)
    requires IsGrid(g) && InBoard(x, y) && IsDir(dx, dy) && k <= n + 1
    requires forall i | k <= i <= n :: Opp(g, s, Off(x, dx, i), Off(y, dy, i))
    requires !Opp(g, s, Off(x, dx, n + 1), Off(y, dy, n + 1))
    ensures RunLen(g, s, x, y, dx, dy, k) == n + 1 - k
    decreases n + 1 - k
  {
    if k <= n {
      assert Opp(g, s, Off(x, dx, k), Off(y, dy, k));
      if k >= Size {
        OffLeaves(x, y, dx, dy, k);
      }
      RunLenExact(g, s, x, y, dx, dy, k + 1, n);
    } else if k < Size {
      assert !Opp(g, s, Off(x, dx, k), Off(y, dy, k));
    }
  }

  /** The walking definition of a bracket agrees with the declarative one,
      and the bracket length is the number of opponent stones met. */
  lemma BracketedIff(g: Grid, s: int, x: int, y: int, dx: int, dy: int)
    requires IsGrid(g) && InBoard(x, y) && IsDir(dx, dy) && s != 0
    ensures Bracketed(g, s, x, y, dx, dy) <==> exists n :: BracketOf(g, s, x, y, dx, dy, n)
    ensures Bracketed(g, s, x, y, dx, dy) ==> BracketOf(g, s, x, y, dx, dy, RunLen(g, s, x, y, dx, dy, 1))
  {
    var n := RunLen(g, s, x, y, dx, dy, 1);
    if Bracketed(g, s, x, y, dx, dy) {
      forall k | 1 <= k <= n
        ensures Opp(g, s, Off(x, dx, k), Off(y, dy, k))
      {
        RunLenOpp(g, s, x, y, dx, dy, 1, k);
      }
      assert BracketOf(g, s, x, y, dx, dy, n);
    }
    if m :| BracketOf(g, s, x, y, dx, dy, m) {
      RunLenExact(g, s, x, y, dx, dy, 1, m);
    }
  }

  /** (i, j) lies strictly between (x, y) and the cell n + 1 steps away. */
  ghost predicate Between(x: int, y: int, dx: int, dy: int, n: int, i: int, j: int) {
    exists k :: 1 <= k <= n && i == Off(x, dx, k) && j == Off(y, dy, k)
  }

  /** g with the first n cells of the ray from (x, y) turned to s. */
  ghost function Painted(g: Grid, s: int, x: int, y: int, dx: int, dy: int, n: int): (h: Grid)
    requires IsGrid(g)
    ensures IsGrid(h)
    ensures forall i, j | InBoard(i, j) :: h[i][j] == if Between(x, y, dx, dy, n, i, j) then s else g[i][j]
  {
    seq(Size, i requires 0 <= i < Size =>
      seq(Size, j requires 0 <= j < Size => if Between(x, y, dx, dy, n, i, j) then s else g[i][j]))
  }

  /** The board after the stones bracketed in direction (dx, dy) from (x, y)
      are turned to s; unchanged when nothing is bracketed. */
  ghost function Flip(g: Grid, s: int, x: int, y: int, dx: int, dy: int): (h: Grid)
    requires IsGrid(g)
    ensures IsGrid(h)
  {
    if Bracketed(g, s, x, y, dx, dy) then Painted(g, s, x, y, dx, dy, RunLen(g, s, x, y, dx, dy, 1)) else g
  }

  /** The eight directions in the order the engine tries them. */
  const Dirs: seq<(int, int)> := [(-1, -1), (-1, 0), (-1, 1), (0, -1), (0, 1), (1, -1), (1, 0), (1, 1)]

  /** Flipping along each direction of ds in turn, each on the board the
      previous one left. */
  ghost function FlipAll(g: Grid, s: int, x: int, y: int, ds: seq<(int, int)>): (h: Grid)
    requires IsGrid(g)
    ensures IsGrid(h)
  {
    if ds == [] then g
    else
      var d := ds[|ds| - 1];
      Flip(FlipAll(g, s, x, y, ds[..|ds| - 1]), s, x, y, d.0, d.1)
  }

  /** Applying the directions up to k + 1 is applying those up to k and then
      the next. */
  lemma FlipAllStep(g: Grid, s: int, x: int, y: int, k: int)
    requires IsGrid(g) && 0 <= k < |Dirs|
    ensures FlipAll(g, s, x, y, Dirs[..k + 1]) == Flip(FlipAll(g, s, x, y, Dirs[..k]), s, x, y, Dirs[k].0, Dirs[k].1)
  {
    assert Dirs[..k + 1][..k] == Dirs[..k];
  }

  /** The board after side s plays at (x, y). */
  ghost function Placed(g: Grid, s: int, x: int, y: int): (h: Grid)
    requires IsGrid(g) && InBoard(x, y)
    ensures IsGrid(h)
  {
    FlipAll(Set(g, x, y, s), s, x, y, Dirs)
  }

  /** h differs from g only where an opponent stone of g became s. */
  ghost predicate Recolors(g: Grid, h: Grid, s: int)
    requires IsGrid(g) && IsGrid(h)
  {
    forall i, j | InBoard(i, j) :: h[i][j] == g[i][j] || (Opp(g, s, i, j) && h[i][j] == s)
  }

  /** Turning opponent stones to a colour keeps a board a board. */
  lemma RecolorsBoard(g: Grid, h: Grid, s: int)
    requires IsBoard(g) && IsGrid(h) && Recolors(g, h, s) && (s == 1 || s == -1)
    ensures IsBoard(h)
  {
    forall i, j | 0 <= i < Size && 0 <= j < Size
      ensures -1 <= h[i][j] <= 1
    {
      assert InBoard(i, j);
    }
  }

  lemma RecolorsTrans(g: Grid, h: Grid, k: Grid, s: int)
    requires IsGrid(g) && IsGrid(h) && IsGrid(k)
    requires Recolors(g, h, s) && Recolors(h, k, s)
    ensures Recolors(g, k, s)
  {
    forall i, j | InBoard(i, j)
      ensures k[i][j] == g[i][j] || (Opp(g, s, i, j) && k[i][j] == s)
    {
      if k[i][j] != h[i][j] {
        assert Opp(h, s, i, j);
      }
    }
  }

  /** Flipping one direction turns over exactly the stones strictly between
      (x, y) and the bracketing stone, and those were all opponent stones. */
  lemma FlipRecolors(g: Grid, s: int, x: int, y: int, dx: int, dy: int)
    requires IsGrid(g)
    ensures Recolors(g, Flip(g, s, x, y, dx, dy), s)
  {
    if Bracketed(g, s, x, y, dx, dy) {
      var n := RunLen(g, s, x, y, dx, dy, 1);
      var h := Flip(g, s, x, y, dx, dy);
      forall i, j | InBoard(i, j) && Between(x, y, dx, dy, n, i, j)
        ensures Opp(g, s, i, j)
      {
        var k :| 1 <= k <= n && i == Off(x, dx, k) && j == Off(y, dy, k);
        RunLenOpp(g, s, x, y, dx, dy, 1, k);
      }
    }
  }

  lemma {:induction false} FlipAllRecolors(g: Grid, s: int, x: int, y: int, ds: seq<(int, int)>)
    requires IsGrid(g)
    ensures Recolors(g, FlipAll(g, s, x, y, ds), s)
    decreases |ds|
  {
    if ds == [] {
    } else {
      var d := ds[|ds| - 1];
      var h := FlipAll(g, s, x, y, ds[..|ds| - 1]);
      FlipAllRecolors(g, s, x, y, ds[..|ds| - 1]);
      FlipRecolors(h, s, x, y, d.0, d.1);
      RecolorsTrans(g, h, FlipAll(g, s, x, y, ds), s);
    }
  }

  /** The number of cells of row r holding v. */
  function RowCount(r: seq<int>, v: int): (n: nat)
    ensures n <= |r|
  {
    if r == [] then 0 else RowCount(r[..|r| - 1], v) + (if r[|r| - 1] == v then 1 else 0)
  }

  /** The number of cells of g holding v. */
  function Count(g: Grid, v: int): nat {
    if g == [] then 0 else Count(g[..|g| - 1], v) + RowCount(g[|g| - 1], v)
  }

  lemma {:induction false} RowCountAgree(r: seq<int>, t: seq<int>, v: int)
    requires |r| == |t| && forall j | 0 <= j < |r| :: (r[j] == v) == (t[j] == v)
    ensures RowCount(r, v) == RowCount(t, v)
    decreases |r|
  {
    if r != [] {
      RowCountAgree(r[..|r| - 1], t[..|t| - 1], v);
    }
  }

  /** Boards with v in the same cells have the same count of v. */
  lemma {:induction false} CountAgree(g: Grid, h: Grid, v: int)
    requires |g| == |h|
    requires forall i | 0 <= i < |g| :: |g[i]| == |h[i]| && forall j | 0 <= j < |g[i]| :: (g[i][j] == v) == (h[i][j] == v)
    ensures Count(g, v) == Count(h, v)
    decreases |g|
  {
    if g != [] {
      CountAgree(g[..|g| - 1], h[..|h| - 1], v);
      RowCountAgree(g[|g| - 1], h[|h| - 1], v);
    }
  }

  lemma {:induction false} RowCountSet(r: seq<int>, j: int, w: int, v: int)
    requires 0 <= j < |r|
    ensures RowCount(r[j := w], v) + (if r[j] == v then 1 else 0) == RowCount(r, v) + (if w == v then 1 else 0)
    decreases |r|
  {
    if j < |r| - 1 {
      assert r[j := w][..|r| - 1] == r[..|r| - 1][j := w];
      RowCountSet(r[..|r| - 1], j, w, v);
    } else {
      assert r[j := w][..|r| - 1] == r[..|r| - 1];
    }
  }

  /** Writing w into one cell changes the count of v by at most one, as the
      old and new contents say. */
  lemma {:induction false} CountSet(g: Grid, x: int, y: int, w: int, v: int)
    requires IsGrid(g) && InBoard(x, y)
    ensures Count(Set(g, x, y, w), v) + (if g[x][y] == v then 1 else 0) == Count(g, v) + (if w == v then 1 else 0)
  {
    CountRowSet(g, x, g[x][y := w], v);
    RowCountSet(g[x], y, w, v);
  }

  lemma {:induction false} CountRowSet(g: Grid, x: int, r: seq<int>, v: int)
    requires 0 <= x < |g|
    ensures Count(g[x := r], v) + RowCount(g[x], v) == Count(g, v) + RowCount(r, v)
    decreases |g|
  {
    if x < |g| - 1 {
      assert g[x := r][..|g| - 1] == g[..|g| - 1][x := r];
      CountRowSet(g[..|g| - 1], x, r, v);
    } else {
      assert g[x := r][..|g| - 1] == g[..|g| - 1];
    }
  }

  lemma {:induction false} RowCountTotal(r: seq<int>)
    requires forall j | 0 <= j < |r| :: -1 <= r[j] <= 1
    ensures RowCount(r, 1) + RowCount(r, -1) + RowCount(r, 0) == |r|
    decreases |r|
  {
    if r != [] {
      RowCountTotal(r[..|r| - 1]);
    }
  }

  lemma {:induction false} CountTotalRows(g: Grid)
    requires forall i | 0 <= i < |g| :: |g[i]| == Size && forall j | 0 <= j < Size :: -1 <= g[i][j] <= 1
    ensures Count(g, 1) + Count(g, -1) + Count(g, 0) == Size * |g|
    decreases |g|
  {
    if g != [] {
      CountTotalRows(g[..|g| - 1]);
      RowCountTotal(g[|g| - 1]);
    }
  }

  /** Every cell is black, white or empty, so the stones of both colours
      number at most 64. */
  lemma CountTotal(g: Grid)
    requires IsBoard(g)
    ensures Count(g, 1) + Count(g, -1) + Count(g, 0) == 64
    ensures Count(g, 1) + Count(g, -1) <= 64
  {
    CountTotalRows(g);
  }

  /** A move by side s on an empty cell: the new stone is s, every other
      change turns an opponent stone into s, the board stays a board, and
      exactly one empty cell fewer remains, so there is exactly one more
      stone. */
  lemma PlacedEffect(g: Grid, s: int, x: int, y: int)
    requires IsBoard(g) && InBoard(x, y) && g[x][y] == 0 && (s == 1 || s == -1)
    ensures var h := Placed(g, s, x, y);
      && IsBoard(h)
      && h[x][y] == s
      && (forall i, j | InBoard(i, j) && (i != x || j != y) :: h[i][j] == g[i][j] || (Opp(g, s, i, j) && h[i][j] == s))
      && Count(h, 0) + 1 == Count(g, 0)
      && Count(h, 1) + Count(h, -1) == Count(g, 1) + Count(g, -1) + 1
  {
    var p := Set(g, x, y, s);
    var h := Placed(g, s, x, y);
    FlipAllRecolors(p, s, x, y, Dirs);
    assert h[x][y] == s by {
      assert !Opp(p, s, x, y);
    }
    forall i, j | InBoard(i, j) && (i != x || j != y)
      ensures h[i][j] == g[i][j] || (Opp(g, s, i, j) && h[i][j] == s)
    {
      assert p[i][j] == g[i][j];
    }
    assert IsBoard(h) by {
      forall i, j | 0 <= i < Size && 0 <= j < Size
        ensures -1 <= h[i][j] <= 1
      {
        assert InBoard(i, j);
      }
    }
    CountSet(g, x, y, s, 0);
    CountAgree(p, h, 0);
    CountTotal(g);
    CountTotal(h);
  }

  /** A board without any cell holding v counts no v. */
  lemma {:induction false} CountNone(g: Grid, v: int)
    requires forall i, j | 0 <= i < |g| && 0 <= j < |g[i]| :: g[i][j] != v
    ensures Count(g, v) == 0
    decreases |g|
  {
    if g != [] {
      CountNone(g[..|g| - 1], v);
      RowCountNone(g[|g| - 1], v);
    }
  }

  lemma {:induction false} RowCountNone(r: seq<int>, v: int)
    requires forall j | 0 <= j < |r| :: r[j] != v
    ensures RowCount(r, v) == 0
    decreases |r|
  {
    if r != [] {
      RowCountNone(r[..|r| - 1], v);
    }
  }

  /** The empty board. */
  function Empty(): (g: Grid)
    ensures IsBoard(g) && Count(g, 1) == 0 && Count(g, -1) == 0 && Count(g, 0) == 64
  {
    var e: Grid := seq(Size, i => seq(Size, j => 0));
    CountNone(e, 1);
    CountNone(e, -1);
    CountTotal(e);
    e
  }

  /** The opening board is the empty board with its four stones set. */
  lemma InitialBuilt()
    ensures Initial() == Set(Set(Set(Set(Empty(), 3, 3, 1), 3, 4, -1), 4, 3, -1), 4, 4, 1)
  {
    var g := Set(Set(Set(Set(Empty(), 3, 3, 1), 3, 4, -1), 4, 3, -1), 4, 4, 1);
    forall i | 0 <= i < Size
      ensures g[i] == Initial()[i]
    {
      assert forall j | 0 <= j < Size :: g[i][j] == Initial()[i][j];
    }
  }

  /** The count of v after the four opening stones are set one by one. */
  lemma InitialCount(v: int)
    ensures Count(Initial(), v) ==
      Count(Empty(), v) + (if v == 1 then 2 else 0) + (if v == -1 then 2 else 0) - (if v == 0 then 4 else 0)
  {
    InitialBuilt();
    var g1 := Set(Empty(), 3, 3, 1);
    var g2 := Set(g1, 3, 4, -1);
    var g3 := Set(g2, 4, 3, -1);
    CountSet(Empty(), 3, 3, 1, v);
    CountSet(g1, 3, 4, -1, v);
    CountSet(g2, 4, 3, -1, v);
    CountSet(g3, 4, 4, 1, v);
  }

  /** The opening board has two stones of each colour and 60 empty cells. */
  lemma InitialCounts()
    ensures Count(Initial(), 1) == 2 && Count(Initial(), -1) == 2 && Count(Initial(), 0) == 60
  {
    InitialCount(1);
    InitialCount(-1);
    InitialCount(0);
  }

  /** Black's four opening moves, each bracketing one white stone. */
  lemma InitialMoves()
    ensures Playable(Initial(), 1, 2, 4) && Playable(Initial(), 1, 3, 5)
    ensures Playable(Initial(), 1, 4, 2) && Playable(Initial(), 1, 5, 3)
  {
    var g := Initial();
    assert RunLen(g, 1, 2, 4, 1, 0, 2) == 0;
    assert Bracketed(g, 1, 2, 4, 1, 0);
    assert RunLen(g, 1, 3, 5, 0, -1, 2) == 0;
    assert Bracketed(g, 1, 3, 5, 0, -1);
    assert RunLen(g, 1, 4, 2, 0, 1, 2) == 0;
    assert Bracketed(g, 1, 4, 2, 0, 1);
    assert RunLen(g, 1, 5, 3, -1, 0, 2) == 0;
    assert Bracketed(g, 1, 5, 3, -1, 0);
  }

  lemma GridsEqual(g: Grid, h: Grid)
    requires IsGrid(g) && IsGrid(h)
    requires forall i, j | InBoard(i, j) :: g[i][j] == h[i][j]
    ensures g == h
  {
    forall i | 0 <= i < Size
      ensures g[i] == h[i]
    {
      assert forall j | 0 <= j < Size :: g[i][j] == h[i][j] by {
        forall j | 0 <= j < Size
          ensures g[i][j] == h[i][j]
        {
          assert InBoard(i, j);
        }
      }
    }
  }

  /** Painting a run of n cells and then the next cell paints n + 1. */
  lemma PaintedStep(g: Grid, s: int, x: int, y: int, dx: int, dy: int, n: nat)
    requires IsGrid(g) && InBoard(Off(x, dx, n + 1), Off(y, dy, n + 1))
    ensures Set(Painted(g, s, x, y, dx, dy, n), Off(x, dx, n + 1), Off(y, dy, n + 1), s)
         == Painted(g, s, x, y, dx, dy, n + 1)
  {
    var a := Set(Painted(g, s, x, y, dx, dy, n), Off(x, dx, n + 1), Off(y, dy, n + 1), s);
    var b := Painted(g, s, x, y, dx, dy, n + 1);
    forall i, j | InBoard(i, j)
      ensures a[i][j] == b[i][j]
    {
      if i == Off(x, dx, n + 1) && j == Off(y, dy, n + 1) {
        assert Between(x, y, dx, dy, n + 1, i, j);
      } else if Between(x, y, dx, dy, n + 1, i, j) {
        var k :| 1 <= k <= n + 1 && i == Off(x, dx, k) && j == Off(y, dy, k);
        assert Between(x, y, dx, dy, n, i, j);
      }
    }
    GridsEqual(a, b);
  }

  /** One more step of the painting walk, inside the run, turns the next
      cell. */
  lemma PaintedNext(g: Grid, s: int, x: int, y: int, dx: int, dy: int, t: nat)
    requires IsGrid(g) && InBoard(x, y) && IsDir(dx, dy) && t < RunLen(g, s, x, y, dx, dy, 1)
    ensures InBoard(Off(x, dx, t + 1), Off(y, dy, t + 1))
    ensures Off(x, dx, t + 2) == Off(x, dx, t + 1) + dx && Off(y, dy, t + 2) == Off(y, dy, t + 1) + dy
    ensures Painted(g, s, x, y, dx, dy, t + 1) == Set(Painted(g, s, x, y, dx, dy, t), Off(x, dx, t + 1), Off(y, dy, t + 1), s)
  {
    RunLenOpp(g, s, x, y, dx, dy, 1, t + 1);
    PaintedStep(g, s, x, y, dx, dy, t);
  }

  /** Different numbers of steps in one direction reach different cells. */
  lemma OffInjective(x: int, y: int, dx: int, dy: int, a: int, b: int)
    requires IsDir(dx, dy)
    ensures Off(x, dx, a) == Off(x, dx, b) && Off(y, dy, a) == Off(y, dy, b) ==> a == b
  {
  }

  /** Painting no cell leaves the board as it is. */
  lemma PaintedNone(g: Grid, s: int, x: int, y: int, dx: int, dy: int)
    requires IsGrid(g)
    ensures Painted(g, s, x, y, dx, dy, 0) == g
  {
    GridsEqual(Painted(g, s, x, y, dx, dy, 0), g);
  }

  /** The verdict at the end of a game, from the two stone counts. */
  datatype Ending = WhiteWin | BlackWin | Draw

  function Outcome(white: int, black: int): (e: Ending)
    ensures e == WhiteWin <==> white > black
    ensures e == BlackWin <==> white < black
    ensures e == Draw <==> white == black
  {
    if white > black then WhiteWin
    else if white < black then BlackWin
    else Draw
  }

  /** The computer's weight of each cell: corners 100, the cells diagonal to
      a corner -40, those beside a corner -20, other edge cells 10 or 5. */
  const Weights: seq<seq<int>> :=
    [[100, -20, 10, 5, 5, 10, -20, 100],
     [-20, -40, 1, 1, 1, 1, -40, -20],
     [10, 1, 5, 2, 2, 5, 1, 10],
     [5, 1, 2, 1, 1, 2, 1, 5],
     [5, 1, 2, 1, 1, 2, 1, 5],
     [10, 1, 5, 2, 2, 5, 1, 10],
     [-20, -40, 1, 1, 1, 1, -40, -20],
     [100, -20, 10, 5, 5, 10, -20, 100]]

  function Weight(i: int, j: int): int
    requires InBoard(i, j)
  {
    Weights[i][j]
  }

  /** The table looks the same from every side of the board, and the
      corners, and only they, carry the top weight 100. */
  lemma WeightsShape(i: int, j: int)
    requires InBoard(i, j)
    ensures Weight(i, j) == Weight(j, i)
    ensures Weight(i, j) == Weight(7 - i, j) && Weight(i, j) == Weight(i, 7 - j)
    ensures Weight(i, j) <= 100
    ensures Weight(i, j) == 100 <==> (i == 0 || i == 7) && (j == 0 || j == 7)
  {
  }
}
