/** Board geometry of the 9x9 Go engine and the specification of groups and
    liberties: a group is what a walk over orthogonally adjacent cells of one
    colour can reach, a liberty is an empty cell next to the group.
    Cells hold 1 (Black), -1 (White) or 0 (empty). */
module GoBoard {

  const Size := 9

  type Pos = (int, int)

  /** A board snapshot: Size rows of Size cells. */
  type Grid = seq<seq<int>>

  predicate InBoard(p: Pos) {
    0 <= p.0 < Size && 0 <= p.1 < Size
  }

  predicate IsGrid(g: Grid) {
    |g| == Size && forall r | 0 <= r < Size :: |g[r]| == Size
  }

  /** Every cell holds Black, White or empty. */
  predicate IsBoard(g: Grid) {
    IsGrid(g) && forall r, c | 0 <= r < Size && 0 <= c < Size :: -1 <= g[r][c] <= 1
  }

  function At(g: Grid, p: Pos): int
    requires IsGrid(g) && InBoard(p)
  {
    g[p.0][p.1]
  }

  /** The grid g with cell p set to v. */
  function Put(g: Grid, p: Pos, v: int): (h: Grid)
    requires IsGrid(g) && InBoard(p)
    ensures IsGrid(h)
    ensures forall q | InBoard(q) :: At(h, q) == if q == p then v else At(g, q)
  {
    g[p.0 := g[p.0][p.1 := v]]
  }

  /** The empty board the game starts from. */
  function EmptyGrid(): (g: Grid)
    ensures IsBoard(g) && forall p | InBoard(p) :: At(g, p) == 0
  {
    seq(Size, r => seq(Size, c => 0))
  }

  predicate IsSquare(a: array2<int>) {
    a.Length0 == Size && a.Length1 == Size
  }

  /** The value of the board array a, cell for cell. */
  function Snapshot(a: array2<int>): (g: Grid)
    requires IsSquare(a)
    reads a
    ensures IsGrid(g) && forall p | InBoard(p) :: At(g, p) == a[p.0, p.1]
  {
    seq(Size, r requires 0 <= r < Size reads a =>
      seq(Size, c requires 0 <= c < Size reads a => a[r, c]))
  }

  function AllCells(): (cells: set<Pos>)
    ensures forall p :: p in cells <==> InBoard(p)
  {
    set r, c | 0 <= r < Size && 0 <= c < Size :: (r, c)
  }

  predicate Adjacent(p: Pos, q: Pos) {
    || (p.0 == q.0 && (p.1 == q.1 + 1 || q.1 == p.1 + 1))
    || (p.1 == q.1 && (p.0 == q.0 + 1 || q.0 == p.0 + 1))
  }

  /** The orthogonal neighbours of (r, c) that lie on the board, in the
      order up, down, left, right. */
  method GetNeighbors(r: int, c: int) returns (ns: seq<Pos>)
    ensures forall j | 0 <= j < |ns| :: Adjacent((r, c), ns[j]) && (InBoard((r, c)) ==> InBoard(ns[j]))
    ensures InBoard((r, c)) ==> forall q | InBoard(q) && Adjacent((r, c), q) :: q in ns
  {
    ns := [];
    if r > 0 { ns := ns + [(r - 1, c)]; }
    if r < Size - 1 { ns := ns + [(r + 1, c)]; }
    if c > 0 { ns := ns + [(r, c - 1)]; }
    if c < Size - 1 { ns := ns + [(r, c + 1)]; }
  }

  /** w is a path of orthogonal steps over cells of the given colour. */
  ghost predicate IsWalk(g: Grid, color: int, w: seq<Pos>)
    requires IsGrid(g)
  {
    && |w| > 0
    && (forall i | 0 <= i < |w| :: InBoard(w[i]) && At(g, w[i]) == color)
    && (forall i | 0 <= i < |w| - 1 :: Adjacent(w[i], w[i + 1]))
  }

  /** t belongs to the group of s: some walk over s's colour leads from s to t. */
  ghost predicate Connected(g: Grid, s: Pos, t: Pos)
    requires IsGrid(g) && InBoard(s)
  {
    exists w :: IsWalk(g, At(g, s), w) && w[0] == s && w[|w| - 1] == t
  }

  /** q is an empty cell next to the group of s. */
  ghost predicate IsLiberty(g: Grid, s: Pos, q: Pos)
    requires IsGrid(g) && InBoard(s)
  {
    InBoard(q) && At(g, q) == 0 && exists t :: InBoard(t) && Connected(g, s, t) && Adjacent(t, q)
  }

  ghost predicate HasLiberty(g: Grid, s: Pos)
    requires IsGrid(g) && InBoard(s)
  {
    exists q :: IsLiberty(g, s, q)
  }

  /** The distinct liberties of the group of s. */
  ghost function Liberties(g: Grid, s: Pos): set<Pos>
    requires IsGrid(g) && InBoard(s)
  {
    set q | q in AllCells() && IsLiberty(g, s, q)
  }

  /** g with the whole group of s emptied. */
  ghost function WithoutGroup(g: Grid, s: Pos): (h: Grid)
    requires IsGrid(g) && InBoard(s)
    ensures IsGrid(h)
    ensures forall p | InBoard(p) :: At(h, p) == if Connected(g, s, p) then 0 else At(g, p)
  {
    seq(Size, r requires 0 <= r < Size =>
      seq(Size, c requires 0 <= c < Size => if Connected(g, s, (r, c)) then 0 else g[r][c]))
  }

  /** V contains every neighbour of colour `color` of its own members. */
  ghost predicate Closed(g: Grid, color: int, V: set<Pos>)
    requires IsGrid(g)
  {
    forall v, q | v in V && InBoard(v) && InBoard(q) && Adjacent(v, q) && At(g, q) == color :: q in V
  }

  lemma GridsEqual(g: Grid, h: Grid)
    requires IsGrid(g) && IsGrid(h)
    requires forall p | InBoard(p) :: At(g, p) == At(h, p)
    ensures g == h
  {
    forall r | 0 <= r < Size
      ensures g[r] == h[r]
    {
      forall c | 0 <= c < Size
        ensures g[r][c] == h[r][c]
      {
        assert At(g, (r, c)) == At(h, (r, c));
      }
    }
  }

  lemma ConnectedRefl(g: Grid, s: Pos)
    requires IsGrid(g) && InBoard(s)
    ensures Connected(g, s, s)
  {
    assert IsWalk(g, At(g, s), [s]);
  }

  /** Members of a group lie on the board and carry the group's colour. */
  lemma ConnectedColor(g: Grid, s: Pos, t: Pos)
    requires IsGrid(g) && InBoard(s) && Connected(g, s, t)
    ensures InBoard(t) && At(g, t) == At(g, s)
  {
    var w :| IsWalk(g, At(g, s), w) && w[0] == s && w[|w| - 1] == t;
  }

  /** A group extends to an adjacent cell of its colour. */
  lemma ConnectedStep(g: Grid, s: Pos, t: Pos, u: Pos)
    requires IsGrid(g) && InBoard(s) && Connected(g, s, t)
    requires InBoard(u) && Adjacent(t, u) && At(g, u) == At(g, s)
    ensures Connected(g, s, u)
  {
    var w :| IsWalk(g, At(g, s), w) && w[0] == s && w[|w| - 1] == t;
    var w' := w + [u];
    assert IsWalk(g, At(g, s), w');
    assert w'[0] == s && w'[|w'| - 1] == u;
  }

  lemma {:induction false} WalkStaysInClosed(g: Grid, color: int, w: seq<Pos>, V: set<Pos>)
    requires IsGrid(g) && IsWalk(g, color, w) && w[0] in V && Closed(g, color, V)
    ensures w[|w| - 1] in V
    decreases |w|
  {
    if |w| > 1 {
      var w' := w[..|w| - 1];
      assert IsWalk(g, color, w');
      WalkStaysInClosed(g, color, w', V);
      assert Adjacent(w[|w| - 2], w[|w| - 1]);
    }
  }

  /** A set that contains s and is closed under s's colour contains the whole
      group of s: this is why a flood fill that stops with an empty stack has
      seen every stone of the group. */
  lemma ClosedContainsGroup(g: Grid, s: Pos, V: set<Pos>, t: Pos)
    requires IsGrid(g) && InBoard(s) && s in V && Closed(g, At(g, s), V)
    requires Connected(g, s, t)
    ensures t in V
  {
    var w :| IsWalk(g, At(g, s), w) && w[0] == s && w[|w| - 1] == t;
    WalkStaysInClosed(g, At(g, s), w, V);
  }

  lemma ConnectedSym(g: Grid, s: Pos, t: Pos)
    requires IsGrid(g) && InBoard(s) && Connected(g, s, t)
    ensures InBoard(t) && Connected(g, t, s)
  {
    var w :| IsWalk(g, At(g, s), w) && w[0] == s && w[|w| - 1] == t;
    var n := |w|;
    var rw := seq(n, i requires 0 <= i < n => w[n - 1 - i]);
    forall i | 0 <= i < n - 1
      ensures Adjacent(rw[i], rw[i + 1])
    {
      assert Adjacent(w[n - 2 - i], w[n - 1 - i]);
    }
    assert IsWalk(g, At(g, t), rw);
    assert rw[0] == t && rw[n - 1] == s;
  }

  lemma ConnectedTrans(g: Grid, s: Pos, t: Pos, u: Pos)
    requires IsGrid(g) && InBoard(s) && Connected(g, s, t)
    requires InBoard(t) && Connected(g, t, u)
    ensures Connected(g, s, u)
  {
    ConnectedColor(g, s, t);
    var w1 :| IsWalk(g, At(g, s), w1) && w1[0] == s && w1[|w1| - 1] == t;
    var w2 :| IsWalk(g, At(g, t), w2) && w2[0] == t && w2[|w2| - 1] == u;
    var w := w1 + w2[1..];
    forall i | 0 <= i < |w| - 1
      ensures Adjacent(w[i], w[i + 1])
    {
      if i < |w1| - 1 {
      } else {
        assert w[i] == w2[i - |w1| + 1] && w[i + 1] == w2[i - |w1| + 2];
      }
    }
    assert IsWalk(g, At(g, s), w);
    assert w[0] == s && w[|w| - 1] == u;
  }

  /** Two cells of one group have the same group. */
  lemma SameGroup(g: Grid, s: Pos, t: Pos, u: Pos)
    requires IsGrid(g) && InBoard(s) && Connected(g, s, t)
    ensures InBoard(t) && (Connected(g, t, u) <==> Connected(g, s, u))
  {
    ConnectedSym(g, s, t);
    if Connected(g, t, u) {
      ConnectedTrans(g, s, t, u);
    }
    if Connected(g, s, u) {
      ConnectedTrans(g, t, s, u);
    }
  }

  /** Growing a prefix of s by one element. */
  lemma PrefixSnoc<T>(s: seq<T>, i: int)
    requires 0 <= i < |s|
    ensures s[..i + 1] == s[..i] + [s[i]]
  {
  }
}
