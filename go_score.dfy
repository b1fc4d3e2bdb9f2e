/** Area scoring at the end of a Go game: every stone counts for its colour,
    and every empty region counts for the one colour that alone borders it.
    Regions are found by a flood fill over empty cells that marks a shared
    board of visited flags, so each region is measured once. */
module GoScore {
  import opened GoBoard
  import opened GoFlood

  predicate IsSquareFlags(a: array2<bool>) {
    a.Length0 == Size && a.Length1 == Size
  }

  /** The cells whose visited flag is set. */
  ghost function Marked(visited: array2<bool>): set<Pos>
    requires IsSquareFlags(visited)
    reads visited
  {
    set q | q in AllCells() && visited[q.0, q.1]
  }

  /** The set flags are exactly those of the cells in V. */
  ghost predicate MarksExactly(visited: array2<bool>, V: set<Pos>)
    reads visited
  {
    IsSquareFlags(visited) && forall q | InBoard(q) :: visited[q.0, q.1] <==> q in V
  }

  /** Some cell of V has an orthogonal neighbour holding `color`. */
  ghost predicate TouchesFrom(g: Grid, V: set<Pos>, color: int)
    requires IsGrid(g)
  {
    exists v, q | v in V && InBoard(v) && InBoard(q) && Adjacent(v, q) :: At(g, q) == color
  }

  /** The empty region of s borders a stone of `color`. */
  ghost predicate Touches(g: Grid, s: Pos, color: int)
    requires IsGrid(g) && InBoard(s)
  {
    exists t, q | InBoard(t) && Connected(g, s, t) && InBoard(q) && Adjacent(t, q) :: At(g, q) == color
  }

  /** Who owns the empty region of s: the colour that alone borders it, or
      nobody (0). */
  ghost function Owner(g: Grid, s: Pos): int
    requires IsGrid(g) && InBoard(s)
  {
    var black := Touches(g, s, 1);
    var white := Touches(g, s, -1);
    if black && !white then 1 else if white && !black then -1 else 0
  }

  /** The cells of the region (or group) of s. */
  ghost function Region(g: Grid, s: Pos): set<Pos>
    requires IsGrid(g) && InBoard(s)
  {
    set t | t in AllCells() && Connected(g, s, t)
  }

  /** V holds empty cells only, and with each of them its whole region. */
  ghost predicate EmptyClosed(g: Grid, V: set<Pos>)
    requires IsGrid(g)
  {
    (forall v | v in V :: InBoard(v) && At(g, v) == 0) && Closed(g, 0, V)
  }

  /** A region meets no closed set of regions that does not hold its start. */
  lemma RegionOutside(g: Grid, V: set<Pos>, s: Pos, t: Pos)
    requires IsGrid(g) && EmptyClosed(g, V) && InBoard(s) && At(g, s) == 0 && s !in V
    requires Connected(g, s, t)
    ensures t !in V
  {
    if t in V {
      ConnectedSym(g, s, t);
      ConnectedColor(g, s, t);
      ClosedContainsGroup(g, t, V, s);
    }
  }

  /** Adding a whole region keeps a set of regions closed. */
  lemma AddRegion(g: Grid, V: set<Pos>, s: Pos)
    requires IsGrid(g) && EmptyClosed(g, V) && InBoard(s) && At(g, s) == 0
    ensures EmptyClosed(g, V + Region(g, s))
  {
    forall v | v in Region(g, s)
      ensures InBoard(v) && At(g, v) == 0
    {
      ConnectedColor(g, s, v);
    }
    forall v, q | v in V + Region(g, s) && InBoard(v) && InBoard(q) && Adjacent(v, q) && At(g, q) == 0
      ensures q in V + Region(g, s)
    {
      if v in Region(g, s) {
        ConnectedStep(g, s, v, q);
      }
    }
  }

  /** Cells of one region have the same owner. */
  lemma OwnerSameRegion(g: Grid, s: Pos, t: Pos)
    requires IsGrid(g) && InBoard(s) && Connected(g, s, t)
    ensures InBoard(t) && Owner(g, t) == Owner(g, s)
  {
    ConnectedColor(g, s, t);
    forall color
      ensures Touches(g, s, color) <==> Touches(g, t, color)
    {
      if Touches(g, s, color) {
        var u, q :| InBoard(u) && Connected(g, s, u) && InBoard(q) && Adjacent(u, q) && At(g, q) == color;
        SameGroup(g, s, t, u);
      }
      if Touches(g, t, color) {
        var u, q :| InBoard(u) && Connected(g, t, u) && InBoard(q) && Adjacent(u, q) && At(g, q) == color;
        SameGroup(g, s, t, u);
      }
    }
  }

  /** Visiting one more cell adds what its neighbours touch. */
  lemma TouchesVisit(g: Grid, V: set<Pos>, cur: Pos, color: int)
    requires IsGrid(g)
    ensures TouchesFrom(g, V + {cur}, color) <==>
      TouchesFrom(g, V, color) || exists q | InBoard(cur) && InBoard(q) && Adjacent(cur, q) :: At(g, q) == color
  {
  }

  /** CalculateArea's look at one neighbour q of the region cell cur, whose
      value is v and whose visited flag is seenFlag: a stone is noted by
      colour, an empty cell not yet visited is pushed. */
  method LookAt(ghost g: Grid, ghost s: Pos, ghost V: set<Pos>, cur: Pos, q: Pos, v: int, seenFlag: bool,
                stack: seq<Pos>, black: bool, white: bool)
    returns (stack': seq<Pos>, black': bool, white': bool)
    requires IsGrid(g) && InBoard(s) && At(g, s) == 0
    requires InBoard(cur) && Connected(g, s, cur) && InBoard(q) && Adjacent(cur, q)
    requires v == At(g, q) && -1 <= v <= 1 && (seenFlag <==> q in V)
    ensures stack' == stack || (stack' == stack + [q] && Connected(g, s, q))
    ensures At(g, q) == 0 ==> q in V || q in stack'
    ensures black' <==> black || At(g, q) == 1
    ensures white' <==> white || At(g, q) == -1
  {
    stack', black', white' := stack, black, white;
    if v == 1 {
      black' := true;
    } else if v == -1 {
      white' := true;
    } else if !seenFlag {
      ConnectedStep(g, s, cur, q);
      stack' := stack + [q];
    }
  }

  /** One round of CalculateArea's loop on a cell cur of the region: stones
      next to it are noted by colour, empty neighbours not yet visited are
      pushed. */
  method ScanRegionNeighbours(board: array2<int>, visited: array2<bool>, ghost g: Grid, ghost s: Pos,
                              ghost V: set<Pos>, cur: Pos, stack: seq<Pos>, black: bool, white: bool)
    returns (stack': seq<Pos>, black': bool, white': bool)
    requires Holds(board, g) && IsBoard(g) && IsSquareFlags(visited) && InBoard(s) && At(g, s) == 0
    requires InBoard(cur) && Connected(g, s, cur)
    requires forall p | p in stack :: InBoard(p) && Connected(g, s, p)
    requires MarksExactly(visited, V)
    ensures forall p | p in stack' :: InBoard(p) && Connected(g, s, p)
    ensures forall p | p in stack :: p in stack'
    ensures forall q | InBoard(q) && Adjacent(cur, q) && At(g, q) == 0 :: q in V || q in stack'
    ensures black' <==> black || exists q | InBoard(q) && Adjacent(cur, q) :: At(g, q) == 1
    ensures white' <==> white || exists q | InBoard(q) && Adjacent(cur, q) :: At(g, q) == -1
  {
    var ns := GetNeighbors(cur.0, cur.1);
    stack', black', white' := stack, black, white;
    for i := 0 to |ns|
      invariant ScanProgress(g, s, V, stack, stack', ns, i, black, black', white, white')
    {
      var q := ns[i];
      ghost var before := stack';
      var b, w := black', white';
      assert board[q.0, q.1] == At(g, q) && -1 <= g[q.0][q.1] <= 1;
      stack', black', white' := LookAt(g, s, V, cur, q, board[q.0, q.1], visited[q.0, q.1], stack', black', white');
      ScanProgressStep(g, s, V, stack, before, stack', ns, i, black, b, black', white, w, white');
    }
    assert ns[..|ns|] == ns;
    NotedAll(g, cur, ns, black, black', 1);
    NotedAll(g, cur, ns, white, white', -1);
  }

  /** What ScanRegionNeighbours keeps true of the neighbours ns looked at so
      far: the stack only grows, holds cells of the region, and holds every
      empty neighbour looked at that was not visited. */
  ghost predicate Scanned(g: Grid, s: Pos, V: set<Pos>, stack: seq<Pos>, stack': seq<Pos>, ns: seq<Pos>) {
    && IsGrid(g) && InBoard(s)
    && (forall p | p in stack' :: InBoard(p) && Connected(g, s, p))
    && (forall p | p in stack :: p in stack')
    && (forall j | 0 <= j < |ns| :: InBoard(ns[j]) && (At(g, ns[j]) == 0 ==> ns[j] in V || ns[j] in stack'))
  }

  /** ScanRegionNeighbours' loop invariant after looking at ns[..i]. */
  ghost predicate ScanProgress(g: Grid, s: Pos, V: set<Pos>, stack: seq<Pos>, stack': seq<Pos>, ns: seq<Pos>, i: int,
                               black: bool, black': bool, white: bool, white': bool) {
    && 0 <= i <= |ns|
    && Scanned(g, s, V, stack, stack', ns[..i])
    && Noted(g, ns[..i], black, black', 1) && Noted(g, ns[..i], white, white', -1)
  }

  lemma ScanProgressStep(g: Grid, s: Pos, V: set<Pos>, stack: seq<Pos>, st: seq<Pos>, st': seq<Pos>, ns: seq<Pos>, i: int,
                         black: bool, b: bool, b': bool, white: bool, w: bool, w': bool)
    requires ScanProgress(g, s, V, stack, st, ns, i, black, b, white, w) && i < |ns| && InBoard(ns[i])
    requires st' == st || (st' == st + [ns[i]] && Connected(g, s, ns[i]))
    requires At(g, ns[i]) == 0 ==> ns[i] in V || ns[i] in st'
    requires (b' <==> b || At(g, ns[i]) == 1) && (w' <==> w || At(g, ns[i]) == -1)
    ensures ScanProgress(g, s, V, stack, st', ns, i + 1, black, b', white, w')
  {
    PrefixSnoc(ns, i);
    ScannedStep(g, s, V, stack, st, st', ns[..i], ns[i]);
    NotedStep(g, ns[..i], black, b, b', 1, ns[i]);
    NotedStep(g, ns[..i], white, w, w', -1, ns[i]);
  }

  lemma ScannedStep(g: Grid, s: Pos, V: set<Pos>, stack: seq<Pos>, st: seq<Pos>, st': seq<Pos>, ns: seq<Pos>, q: Pos)
    requires Scanned(g, s, V, stack, st, ns) && InBoard(q)
    requires st' == st || (st' == st + [q] && Connected(g, s, q))
    requires At(g, q) == 0 ==> q in V || q in st'
    ensures Scanned(g, s, V, stack, st', ns + [q])
  {
    ConnectedRefl(g, s);
    assert forall p | p in st :: p in st';
  }

  lemma NotedStep(g: Grid, ns: seq<Pos>, flag: bool, f: bool, f': bool, color: int, q: Pos)
    requires Noted(g, ns, flag, f, color) && InBoard(q)
    requires f' <==> f || At(g, q) == color
    ensures Noted(g, ns + [q], flag, f', color)
  {
    if exists j | 0 <= j < |ns| :: At(g, ns[j]) == color {
      var j :| 0 <= j < |ns| && At(g, ns[j]) == color;
      assert (ns + [q])[j] == ns[j];
    }
    assert (ns + [q])[|ns|] == q;
  }

  /** The flag was set before or some cell of ns holds `color`. */
  ghost predicate Noted(g: Grid, ns: seq<Pos>, flag: bool, flag': bool, color: int) {
    && IsGrid(g)
    && (forall j | 0 <= j < |ns| :: InBoard(ns[j]))
    && (flag' <==> flag || exists j | 0 <= j < |ns| :: At(g, ns[j]) == color)
  }

  lemma NotedAll(g: Grid, cur: Pos, ns: seq<Pos>, flag: bool, flag': bool, color: int)
    requires Noted(g, ns, flag, flag', color) && InBoard(cur)
    requires forall j | 0 <= j < |ns| :: Adjacent(cur, ns[j])
    requires forall q | InBoard(q) && Adjacent(cur, q) :: q in ns
    ensures flag' <==> flag || exists q | InBoard(q) && Adjacent(cur, q) :: At(g, q) == color
  {
    if exists q | InBoard(q) && Adjacent(cur, q) :: At(g, q) == color {
      var q :| InBoard(q) && Adjacent(cur, q) && At(g, q) == color;
      var j :| 0 <= j < |ns| && ns[j] == q;
    }
  }

  /** What CalculateArea keeps true besides the search invariant: the flags
      record whether a visited cell borders Black or White. */
  ghost predicate Bordering(g: Grid, seen: set<Pos>, black: bool, white: bool) {
    && IsGrid(g)
    && (black <==> TouchesFrom(g, seen, 1))
    && (white <==> TouchesFrom(g, seen, -1))
  }

  /** A finished search of the region of s has seen exactly that region. */
  lemma RegionDone(g: Grid, s: Pos, seen: set<Pos>, black: bool, white: bool)
    requires IsGrid(g) && InBoard(s) && Searching(g, s, seen, []) && Bordering(g, seen, black, white)
    ensures seen == Region(g, s)
    ensures black <==> Touches(g, s, 1)
    ensures white <==> Touches(g, s, -1)
  {
    forall t | t in Region(g, s)
      ensures t in seen
    {
      SearchDone(g, s, seen, t);
    }
    forall color | color == 1 || color == -1
      ensures TouchesFrom(g, seen, color) <==> Touches(g, s, color)
    {
      if Touches(g, s, color) {
        var t, q :| InBoard(t) && Connected(g, s, t) && InBoard(q) && Adjacent(t, q) && At(g, q) == color;
        SearchDone(g, s, seen, t);
      }
    }
  }

  /** One round of CalculateArea's loop: pop a cell; unless it is visited or
      not empty, mark it, count it and scan its neighbours. */
  method AreaStep(board: array2<int>, visited: array2<bool>, ghost g: Grid, ghost s: Pos, ghost V0: set<Pos>,
                  ghost seen: set<Pos>, stack: seq<Pos>, cells: seq<Pos>, black: bool, white: bool)
    returns (ghost seen': set<Pos>, stack': seq<Pos>, cells': seq<Pos>, black': bool, white': bool)
    requires Holds(board, g) && IsBoard(g) && IsSquareFlags(visited) && InBoard(s) && At(g, s) == 0
    requires EmptyClosed(g, V0) && s !in V0 && |stack| > 0
    requires Searching(g, s, seen, stack) && Bordering(g, seen, black, white)
    requires MarksExactly(visited, V0 + seen) && |cells| == |seen|
    modifies visited
    ensures Searching(g, s, seen', stack') && Bordering(g, seen', black', white')
    ensures MarksExactly(visited, V0 + seen') && |cells'| == |seen'|
    ensures (seen' == seen && |stack'| < |stack|) || exists cur :: InBoard(cur) && cur !in seen && seen' == seen + {cur}
  {
    ghost var before := stack;
    var cur := stack[|stack| - 1];
    stack' := stack[..|stack| - 1];
    assert before == stack' + [cur];
    assert cur in before;
    ConnectedColor(g, s, cur);
    RegionOutside(g, V0, s, cur);
    assert board[cur.0, cur.1] == At(g, cur) == 0;
    if visited[cur.0, cur.1] || board[cur.0, cur.1] != 0 {
      SearchSkip(g, s, seen, stack', cur);
      seen', cells', black', white' := seen, cells, black, white;
      return;
    }
    seen', stack', cells', black', white' := AreaVisit(board, visited, g, s, V0, seen, stack', cur, cells, black, white);
  }

  /** The visiting half of AreaStep, for a popped cell cur of the region
      that is not yet visited. */
  method AreaVisit(board: array2<int>, visited: array2<bool>, ghost g: Grid, ghost s: Pos, ghost V0: set<Pos>,
                   ghost seen: set<Pos>, stack: seq<Pos>, cur: Pos, cells: seq<Pos>, black: bool, white: bool)
    returns (ghost seen': set<Pos>, stack': seq<Pos>, cells': seq<Pos>, black': bool, white': bool)
    requires Holds(board, g) && IsBoard(g) && IsSquareFlags(visited) && InBoard(s) && At(g, s) == 0
    requires EmptyClosed(g, V0) && s !in V0
    requires Searching(g, s, seen, stack + [cur]) && Bordering(g, seen, black, white)
    requires MarksExactly(visited, V0 + seen) && |cells| == |seen| && cur !in V0 + seen
    modifies visited
    ensures Searching(g, s, seen', stack') && Bordering(g, seen', black', white')
    ensures MarksExactly(visited, V0 + seen') && |cells'| == |seen'|
    ensures InBoard(cur) && seen' == seen + {cur}
  {
    assert cur in stack + [cur];
    visited[cur.0, cur.1] := true;
    ghost var M' := V0 + seen + {cur};
    assert MarksExactly(visited, M');
    cells' := cells + [cur];
    assert |seen + {cur}| == |seen| + 1 by {
      assert cur !in seen;
    }
    var next;
    next, black', white' := ScanRegionNeighbours(board, visited, g, s, M', cur, stack, black, white);
    forall q | InBoard(q) && Adjacent(cur, q) && At(g, q) == 0
      ensures q in seen || q in next
    {
      if q !in next {
        ConnectedStep(g, s, cur, q);
        RegionOutside(g, V0, s, q);
      }
    }
    SearchVisit(g, s, seen, stack, cur, next);
    TouchesVisit(g, seen, cur, 1);
    TouchesVisit(g, seen, cur, -1);
    seen', stack' := seen + {cur}, next;
  }

  /** Measures the empty region of (r, c) and finds its owner, marking its
      cells as visited. The region must not have been visited before. */
  method CalculateArea(board: array2<int>, r: int, c: int, visited: array2<bool>) returns (size: int, owner: int)
    requires IsSquare(board) && IsBoard(Snapshot(board)) && IsSquareFlags(visited)
    requires InBoard((r, c)) && board[r, c] == 0
    requires EmptyClosed(Snapshot(board), Marked(visited)) && (r, c) !in Marked(visited)
    modifies visited
    ensures Marked(visited) == old(Marked(visited)) + Region(Snapshot(board), (r, c))
    ensures size == |Region(Snapshot(board), (r, c))|
    ensures owner == Owner(Snapshot(board), (r, c))
  {
    ghost var g := Snapshot(board);
    SnapshotHolds(board);
    ghost var s: Pos := (r, c);
    ghost var V0 := Marked(visited);
    assert MarksExactly(visited, V0);
    var stack: seq<Pos> := [(r, c)];
    var cells: seq<Pos> := [];
    var black := false;
    var white := false;
    ghost var seen: set<Pos> := {};
    ConnectedRefl(g, s);
    while |stack| > 0
      invariant Searching(g, s, seen, stack) && Bordering(g, seen, black, white)
      invariant MarksExactly(visited, V0 + seen) && |cells| == |seen|
      decreases AllCells() - seen, |stack|
    {
      seen, stack, cells, black, white := AreaStep(board, visited, g, s, V0, seen, stack, cells, black, white);
    }
    RegionDone(g, s, seen, black, white);
    assert Marked(visited) == V0 + seen;
    size := |cells|;
    owner := 0;
    if black && !white {
      owner := 1;
    }
    if white && !black {
      owner := -1;
    }
  }

  /** Row-major position of a cell: the order in which the scoring scan
      visits the board. */
  function Index(p: Pos): int {
    p.0 * 9 + p.1
  }

  /** The stones of `color` among the first k cells of the scan. */
  ghost function StonesBefore(g: Grid, color: int, k: int): set<Pos>
    requires IsGrid(g)
  {
    set q | q in AllCells() && Index(q) < k && At(g, q) == color
  }

  /** All stones of `color`. */
  ghost function Stones(g: Grid, color: int): set<Pos>
    requires IsGrid(g)
  {
    set q | q in AllCells() && At(g, q) == color
  }

  /** The empty cells of M whose region `color` owns. */
  ghost function Owned(g: Grid, M: set<Pos>, color: int): set<Pos>
    requires IsGrid(g)
  {
    set q | q in M && InBoard(q) && At(g, q) == 0 && Owner(g, q) == color
  }

  /** The territory of `color`: the empty cells whose region it owns. */
  ghost function Territory(g: Grid, color: int): set<Pos>
    requires IsGrid(g)
  {
    set q | q in AllCells() && At(g, q) == 0 && Owner(g, q) == color
  }

  /** What the scoring scan keeps true after the first k cells: every
      empty cell seen so far lies in a marked region, and each side's points
      are its stones seen so far plus the marked cells it owns. */
  ghost predicate Tallied(g: Grid, M: set<Pos>, k: int, black: int, white: int) {
    && IsGrid(g) && EmptyClosed(g, M) && 0 <= k <= 81
    && Covered(g, M, k)
    && black == |StonesBefore(g, 1, k)| + |Owned(g, M, 1)|
    && white == |StonesBefore(g, -1, k)| + |Owned(g, M, -1)|
  }

  /** Every empty cell among the first k of the scan lies in M. */
  ghost predicate Covered(g: Grid, M: set<Pos>, k: int) {
    IsGrid(g) && forall q | InBoard(q) && Index(q) < k && At(g, q) == 0 :: q in M
  }

  /** Distinct cells have distinct scan positions. */
  lemma IndexInjective(p: Pos, q: Pos)
    requires InBoard(p) && InBoard(q) && Index(p) == Index(q)
    ensures p == q
  {
  }

  lemma CoveredStep(g: Grid, M: set<Pos>, M': set<Pos>, p: Pos, k: int)
    requires k == Index(p) && Covered(g, M, k) && InBoard(p) && M <= M' && (At(g, p) == 0 ==> p in M')
    ensures Covered(g, M', k + 1)
  {
    forall q | InBoard(q) && Index(q) < k + 1 && At(g, q) == 0
      ensures q in M'
    {
      if Index(q) == Index(p) {
        IndexInjective(p, q);
      }
    }
  }

  /** Scanning cell p adds it to the stones of its own colour ... */
  lemma StonesGrow(g: Grid, color: int, p: Pos, k: int)
    requires IsGrid(g) && InBoard(p) && At(g, p) == color && k == Index(p)
    ensures |StonesBefore(g, color, k + 1)| == |StonesBefore(g, color, k)| + 1
  {
    var A := StonesBefore(g, color, k);
    var B := StonesBefore(g, color, k + 1);
    forall q | q in B
      ensures q in A + {p}
    {
      if Index(q) == Index(p) {
        IndexInjective(p, q);
      }
    }
    assert B == A + {p};
    assert p !in A;
  }

  /** ... and leaves the stones of every other colour as they were. */
  lemma StonesSame(g: Grid, color: int, p: Pos, k: int)
    requires IsGrid(g) && InBoard(p) && At(g, p) != color && k == Index(p)
    ensures StonesBefore(g, color, k + 1) == StonesBefore(g, color, k)
  {
    forall q | q in StonesBefore(g, color, k + 1)
      ensures Index(q) < k
    {
      if Index(q) == Index(p) {
        IndexInjective(p, q);
      }
    }
  }

  /** Marking a new region adds it to its owner's cells. */
  lemma OwnedAdd(g: Grid, M: set<Pos>, p: Pos, color: int)
    requires IsGrid(g) && EmptyClosed(g, M) && InBoard(p) && At(g, p) == 0 && p !in M
    ensures |Owned(g, M + Region(g, p), color)| ==
      |Owned(g, M, color)| + if Owner(g, p) == color then |Region(g, p)| else 0
  {
    ConnectedRefl(g, p);
    var R := Region(g, p);
    var added := if Owner(g, p) == color then R else {};
    forall q | q in R
      ensures q !in M && InBoard(q) && At(g, q) == 0 && Owner(g, q) == Owner(g, p)
    {
      RegionOutside(g, M, p, q);
      ConnectedColor(g, p, q);
      OwnerSameRegion(g, p, q);
    }
    OwnedUnion(g, M, R, color, added);
  }

  lemma OwnedUnion(g: Grid, M: set<Pos>, R: set<Pos>, color: int, added: set<Pos>)
    requires IsGrid(g) && M !! R
    requires forall q | q in R :: InBoard(q) && At(g, q) == 0
    requires added == R || added == {}
    requires forall q | q in R :: (q in added <==> Owner(g, q) == color)
    ensures |Owned(g, M + R, color)| == |Owned(g, M, color)| + |added|
  {
    var A := Owned(g, M + R, color);
    var B := Owned(g, M, color);
    assert A == B + added by {
      forall q | q in A
        ensures q in B + added
      {
      }
      forall q | q in B + added
        ensures q in A
      {
      }
    }
    assert B !! added;
  }

  /** A completed scan has counted every stone and every owned region. */
  lemma TallyDone(g: Grid, M: set<Pos>, black: int, white: int)
    requires Tallied(g, M, 81, black, white)
    ensures black == |Stones(g, 1)| + |Territory(g, 1)|
    ensures white == |Stones(g, -1)| + |Territory(g, -1)|
  {
    assert StonesBefore(g, 1, 81) == Stones(g, 1);
    assert StonesBefore(g, -1, 81) == Stones(g, -1);
    assert Owned(g, M, 1) == Territory(g, 1);
    assert Owned(g, M, -1) == Territory(g, -1);
  }

  /** Scanning a stone scores it for its colour. */
  lemma TallyStone(g: Grid, M: set<Pos>, p: Pos, k: int, black: int, white: int)
    requires k == Index(p) && Tallied(g, M, k, black, white) && InBoard(p) && (At(g, p) == 1 || At(g, p) == -1)
    ensures Tallied(g, M, k + 1, black + (if At(g, p) == 1 then 1 else 0), white + (if At(g, p) == -1 then 1 else 0))
  {
    CoveredStep(g, M, M, p, k);
    if At(g, p) == 1 {
      StonesGrow(g, 1, p, k);
      StonesSame(g, -1, p, k);
    } else {
      StonesSame(g, 1, p, k);
      StonesGrow(g, -1, p, k);
    }
  }

  /** Scanning an empty cell whose region is already marked changes nothing. */
  lemma TallyMarked(g: Grid, M: set<Pos>, p: Pos, k: int, black: int, white: int)
    requires k == Index(p) && Tallied(g, M, k, black, white) && InBoard(p) && At(g, p) == 0 && p in M
    ensures Tallied(g, M, k + 1, black, white)
  {
    CoveredStep(g, M, M, p, k);
    StonesSame(g, 1, p, k);
    StonesSame(g, -1, p, k);
  }

  /** Scanning an empty cell of an unmarked region marks the region and
      scores it for its owner. */
  lemma TallyRegion(g: Grid, M: set<Pos>, p: Pos, k: int, black: int, white: int,
                    M': set<Pos>, size: int, owner: int, black': int, white': int)
    requires k == Index(p) && Tallied(g, M, k, black, white) && InBoard(p) && At(g, p) == 0 && p !in M
    requires M' == M + Region(g, p) && size == |Region(g, p)| && owner == Owner(g, p)
    requires black' == black + (if owner == 1 then size else 0)
    requires white' == white + (if owner == -1 then size else 0)
    ensures Tallied(g, M', k + 1, black', white')
  {
    ConnectedRefl(g, p);
    CoveredStep(g, M, M + Region(g, p), p, k);
    StonesSame(g, 1, p, k);
    StonesSame(g, -1, p, k);
    AddRegion(g, M, p);
    OwnedAdd(g, M, p, 1);
    OwnedAdd(g, M, p, -1);
  }

  /** The cell at scan position k, counted row by row. */
  function CellAt(k: int): Pos {
    if k < 9 then (0, k) else if k < 18 then (1, k - 9) else if k < 27 then (2, k - 18)
    else if k < 36 then (3, k - 27) else if k < 45 then (4, k - 36) else if k < 54 then (5, k - 45)
    else if k < 63 then (6, k - 54) else if k < 72 then (7, k - 63) else (8, k - 72)
  }

  lemma CellAtIndex(k: int)
    requires 0 <= k < 81
    ensures InBoard(CellAt(k)) && Index(CellAt(k)) == k
  {
  }

  lemma IndexCellAt(p: Pos)
    requires InBoard(p)
    ensures CellAt(Index(p)) == p
  {
  }

  /** The cells the scoring scan has marked after its first k cells: each
      empty cell it meets outside the regions marked so far adds its
      region. */
  ghost function MarkedAfter(g: Grid, k: int): set<Pos>
    requires IsGrid(g) && 0 <= k <= 81
  {
    if k == 0 then {}
    else
      var M := MarkedAfter(g, k - 1);
      var p := CellAt(k - 1);
      CellAtIndex(k - 1);
      if At(g, p) == 0 && p !in M then M + Region(g, p) else M
  }

  /** The points of `color` after the first k cells of the scan: one per
      stone of that colour, and the size of each newly met region it owns. */
  ghost function ScoreAfter(g: Grid, k: int, color: int): int
    requires IsGrid(g) && 0 <= k <= 81
  {
    if k == 0 then 0
    else
      var M := MarkedAfter(g, k - 1);
      var p := CellAt(k - 1);
      CellAtIndex(k - 1);
      ScoreAfter(g, k - 1, color) +
        if At(g, p) == color then 1
        else if At(g, p) == 0 && p !in M && Owner(g, p) == color then |Region(g, p)|
        else 0
  }

  /** The reference scan keeps the tally: after k cells its marked set is a
      closed set of empty regions holding every empty cell met, and its
      scores count the stones met and the marked cells owned. */
  lemma {:induction false} TalliedAfter(g: Grid, k: int)
    requires IsBoard(g) && 0 <= k <= 81
    ensures Tallied(g, MarkedAfter(g, k), k, ScoreAfter(g, k, 1), ScoreAfter(g, k, -1))
  {
    if k == 0 {
      assert StonesBefore(g, 1, 0) == {} && StonesBefore(g, -1, 0) == {};
      assert Owned(g, {}, 1) == {} && Owned(g, {}, -1) == {};
    } else {
      TalliedAfter(g, k - 1);
      TalliedNext(g, k - 1);
    }
  }

  lemma TalliedNext(g: Grid, j: int)
    requires IsBoard(g) && 0 <= j < 81
    requires Tallied(g, MarkedAfter(g, j), j, ScoreAfter(g, j, 1), ScoreAfter(g, j, -1))
    ensures Tallied(g, MarkedAfter(g, j + 1), j + 1, ScoreAfter(g, j + 1, 1), ScoreAfter(g, j + 1, -1))
  {
    var M := MarkedAfter(g, j);
    var p := CellAt(j);
    CellAtIndex(j);
    var black, white := ScoreAfter(g, j, 1), ScoreAfter(g, j, -1);
    assert -1 <= g[p.0][p.1] <= 1;
    if At(g, p) != 0 {
      assert MarkedAfter(g, j + 1) == M;
      assert ScoreAfter(g, j + 1, 1) == black + (if At(g, p) == 1 then 1 else 0);
      assert ScoreAfter(g, j + 1, -1) == white + (if At(g, p) == -1 then 1 else 0);
      TallyStone(g, M, p, j, black, white);
    } else if p in M {
      assert MarkedAfter(g, j + 1) == M;
      assert ScoreAfter(g, j + 1, 1) == black && ScoreAfter(g, j + 1, -1) == white;
      TallyMarked(g, M, p, j, black, white);
    } else {
      TallyRegion(g, M, p, j, black, white, MarkedAfter(g, j + 1), |Region(g, p)|, Owner(g, p),
                  ScoreAfter(g, j + 1, 1), ScoreAfter(g, j + 1, -1));
    }
  }

  /** One cell of the scoring scan: a stone scores for its colour, an empty
      cell not yet visited has its region measured and scored for its
      owner. */
  method TallyCell(board: array2<int>, visited: array2<bool>, ghost g: Grid, r: int, c: int, ghost k: int,
                   black: int, white: int)
    returns (black': int, white': int)
    requires Holds(board, g) && IsBoard(g) && IsSquareFlags(visited) && InBoard((r, c)) && k == Index((r, c))
    requires Marked(visited) == MarkedAfter(g, k) && black == ScoreAfter(g, k, 1) && white == ScoreAfter(g, k, -1)
    modifies visited
    ensures Marked(visited) == MarkedAfter(g, k + 1) && black' == ScoreAfter(g, k + 1, 1) && white' == ScoreAfter(g, k + 1, -1)
  {
    ghost var p: Pos := (r, c);
    IndexCellAt(p);
    assert CellAt(k) == p;
    black', white' := black, white;
    assert board[r, c] == At(g, p);
    if board[r, c] == 1 {
      black' := black + 1;
    } else if board[r, c] == -1 {
      white' := white + 1;
    } else if !visited[r, c] {
      ghost var M := Marked(visited);
      assert p !in M;
      TalliedAfter(g, k);
      SnapshotHolds(board);
      GridsEqual(Snapshot(board), g);
      var size, owner := CalculateArea(board, r, c, visited);
      assert Snapshot(board) == g;
      if owner == 1 {
        black' := black' + size;
      }
      if owner == -1 {
        white' := white' + size;
      }
    } else {
      assert p in Marked(visited);
    }
  }

  /** The scoring scan over row r. */
  method TallyRow(board: array2<int>, visited: array2<bool>, ghost g: Grid, r: int, black: int, white: int)
    returns (black': int, white': int)
    requires Holds(board, g) && IsBoard(g) && IsSquareFlags(visited) && 0 <= r < Size
    requires Marked(visited) == MarkedAfter(g, r * 9) && black == ScoreAfter(g, r * 9, 1) && white == ScoreAfter(g, r * 9, -1)
    modifies visited
    ensures Marked(visited) == MarkedAfter(g, r * 9 + 9) && black' == ScoreAfter(g, r * 9 + 9, 1) && white' == ScoreAfter(g, r * 9 + 9, -1)
  {
    black', white' := black, white;
    ghost var k := r * 9;
    for c := 0 to Size
      invariant k == r * 9 + c
      invariant Marked(visited) == MarkedAfter(g, k) && black' == ScoreAfter(g, k, 1) && white' == ScoreAfter(g, k, -1)
    {
      black', white' := TallyCell(board, visited, g, r, c, k, black', white');
      k := k + 1;
    }
  }

  /** The end-of-game count: each side scores its stones plus the empty
      regions that border its stones only. */
  method AreaScore(board: array2<int>) returns (blackPoints: int, whitePoints: int)
    requires IsSquare(board) && IsBoard(Snapshot(board))
    ensures blackPoints == |Stones(Snapshot(board), 1)| + |Territory(Snapshot(board), 1)|
    ensures whitePoints == |Stones(Snapshot(board), -1)| + |Territory(Snapshot(board), -1)|
  {
    ghost var g := Snapshot(board);
    SnapshotHolds(board);
    var visited := new bool[Size, Size]((r, c) => false);
    blackPoints, whitePoints := 0, 0;
    assert Marked(visited) == {};
    for r := 0 to Size
      invariant Marked(visited) == MarkedAfter(g, r * 9)
      invariant blackPoints == ScoreAfter(g, r * 9, 1) && whitePoints == ScoreAfter(g, r * 9, -1)
    {
      blackPoints, whitePoints := TallyRow(board, visited, g, r, blackPoints, whitePoints);
    }
    TalliedAfter(g, 81);
    TallyDone(g, MarkedAfter(g, 81), blackPoints, whitePoints);
  }

  /** The cells before scan position k. */
  ghost function CellsBefore(k: int): set<Pos> {
    set q | q in AllCells() && Index(q) < k
  }

  lemma {:induction false} CellsBeforeCount(k: int)
    requires 0 <= k <= 81
    ensures |CellsBefore(k)| == k
  {
    if k > 0 {
      CellsBeforeCount(k - 1);
      var p := CellAt(k - 1);
      CellAtIndex(k - 1);
      assert CellsBefore(k) == CellsBefore(k - 1) + {p} by {
        forall q | q in CellsBefore(k) && q !in CellsBefore(k - 1)
          ensures q == p
        {
          IndexCellAt(q);
        }
      }
    }
  }

  /** The board has 81 cells, so the two final scores add up to at most 81:
      stones and territories of the two sides never overlap. Empty regions
      that border both colours (or none) count for nobody. */
  lemma ScoreBound(g: Grid)
    requires IsBoard(g)
    ensures |Stones(g, 1)| + |Territory(g, 1)| + |Stones(g, -1)| + |Territory(g, -1)| <= 81
  {
    CellsBeforeCount(81);
    forall q | q in AllCells()
      ensures q in CellsBefore(81)
    {
      assert Index(q) < 81;
    }
    assert AllCells() <= CellsBefore(81);
    DisjointSizes(Stones(g, 1), Territory(g, 1), Stones(g, -1), Territory(g, -1), CellsBefore(81));
  }

  /** Four pairwise disjoint subsets of U hold at most |U| elements together. */
  lemma DisjointSizes<T>(A: set<T>, B: set<T>, C: set<T>, D: set<T>, U: set<T>)
    requires A <= U && B <= U && C <= U && D <= U
    requires forall x | x in A :: x !in B && x !in C && x !in D
    requires forall x | x in B :: x !in C && x !in D
    requires forall x | x in C :: x !in D
    ensures |A| + |B| + |C| + |D| <= |U|
  {
    assert A * B == {};
    assert (A + B) * C == {};
    assert (A + B + C) * D == {};
    SubsetSize(A + B + C + D, U);
  }

  lemma {:induction false} SubsetSize<T>(A: set<T>, U: set<T>)
    requires A <= U
    ensures |A| <= |U|
    decreases A
  {
    if A != {} {
      var x :| x in A;
      SubsetSize(A - {x}, U - {x});
    }
  }

  /** The game's verdict: Black wins with more than 40.5 points, otherwise
      White wins. */
  predicate BlackWins(blackPoints: int) {
    2 * blackPoints > 81
  }

  /** A declared Black win means Black has strictly more points than White. */
  lemma BlackWinLeads(g: Grid, blackPoints: int, whitePoints: int)
    requires IsBoard(g)
    requires blackPoints == |Stones(g, 1)| + |Territory(g, 1)|
    requires whitePoints == |Stones(g, -1)| + |Territory(g, -1)|
    ensures BlackWins(blackPoints) ==> blackPoints > whitePoints
    ensures whitePoints > 40 ==> !BlackWins(blackPoints)
  {
    ScoreBound(g);
  }
}
