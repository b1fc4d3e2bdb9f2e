/** The three flood fills of the Go engine over a board array: liberty
    detection, liberty counting and group removal. Each walks an explicit
    stack; the first two keep a set of visited cells. */
module GoFlood {
  import opened GoBoard

  /** The board array holds the grid g, cell for cell. */
  ghost predicate Holds(board: array2<int>, g: Grid)
    reads board
  {
    IsSquare(board) && IsGrid(g) && forall p | InBoard(p) :: board[p.0, p.1] == At(g, p)
  }

  lemma SnapshotHolds(board: array2<int>)
    requires IsSquare(board)
    ensures Holds(board, Snapshot(board))
  {
  }

  /** Every neighbour of colour `color` of a member of V is in V or on the stack. */
  ghost predicate ClosedUpTo(g: Grid, color: int, V: set<Pos>, stack: seq<Pos>) {
    IsGrid(g) && forall v, q | v in V && InBoard(v) && InBoard(q) && Adjacent(v, q) && At(g, q) == color :: q in V || q in stack
  }

  /** What a search of the group of s keeps true: everything seen belongs to
      the group, and the visited set is closed up to what is still stacked. */
  ghost predicate Searching(g: Grid, s: Pos, visited: set<Pos>, stack: seq<Pos>) {
    && IsGrid(g) && InBoard(s)
    && (forall p | p in stack :: InBoard(p) && Connected(g, s, p))
    && (forall v | v in visited :: InBoard(v) && Connected(g, s, v))
    && ClosedUpTo(g, At(g, s), visited, stack)
    && (s in visited || s in stack)
  }

  /** Popping an already visited cell keeps the search invariant. */
  lemma SearchSkip(g: Grid, s: Pos, visited: set<Pos>, stack: seq<Pos>, cur: Pos)
    requires IsGrid(g) && InBoard(s) && cur in visited
    requires Searching(g, s, visited, stack + [cur])
    ensures Searching(g, s, visited, stack)
  {
    forall v, q | v in visited && InBoard(v) && InBoard(q) && Adjacent(v, q) && At(g, q) == At(g, s)
      ensures q in visited || q in stack
    {
      assert q in visited || q in stack + [cur];
    }
  }

  /** Visiting cur, whose neighbours of the group's colour are now visited or
      stacked, keeps the search invariant. */
  lemma SearchVisit(g: Grid, s: Pos, visited: set<Pos>, stack: seq<Pos>, cur: Pos, stack': seq<Pos>)
    requires IsGrid(g) && InBoard(s)
    requires Searching(g, s, visited, stack + [cur])
    requires forall p | p in stack' :: InBoard(p) && Connected(g, s, p)
    requires forall p | p in stack :: p in stack'
    requires forall q | InBoard(q) && Adjacent(cur, q) && At(g, q) == At(g, s) :: q in visited || q in stack'
    ensures Searching(g, s, visited + {cur}, stack')
  {
    assert cur in stack + [cur];
    forall v, q | v in visited + {cur} && InBoard(v) && InBoard(q) && Adjacent(v, q) && At(g, q) == At(g, s)
      ensures q in visited + {cur} || q in stack'
    {
      if v != cur {
        assert q in visited || q in stack + [cur];
      }
    }
    assert s in visited + {cur} || s in stack' by {
      assert s in visited || s in stack + [cur];
    }
  }

  /** A finished search has visited the whole group of s. */
  lemma SearchDone(g: Grid, s: Pos, visited: set<Pos>, t: Pos)
    requires IsGrid(g) && InBoard(s)
    requires Searching(g, s, visited, [])
    requires Connected(g, s, t)
    ensures t in visited
  {
    ClosedContainsGroup(g, s, visited, t);
  }

  /** No member of V has an empty neighbour. */
  ghost predicate NoEmptyNext(g: Grid, V: set<Pos>) {
    IsGrid(g) && forall v, q | v in V && InBoard(v) && InBoard(q) && Adjacent(v, q) :: At(g, q) != 0
  }

  lemma NoEmptyVisit(g: Grid, V: set<Pos>, cur: Pos)
    requires IsGrid(g) && NoEmptyNext(g, V)
    requires forall q | InBoard(q) && Adjacent(cur, q) :: At(g, q) != 0
    ensures NoEmptyNext(g, V + {cur})
  {
  }

  /** A finished search none of whose cells has an empty neighbour proves the
      group of s has no liberty. */
  lemma NoLibertyWhenClosed(g: Grid, s: Pos, visited: set<Pos>)
    requires IsGrid(g) && InBoard(s)
    requires Searching(g, s, visited, []) && NoEmptyNext(g, visited)
    ensures !HasLiberty(g, s)
  {
    if HasLiberty(g, s) {
      var q :| IsLiberty(g, s, q);
      var t :| InBoard(t) && Connected(g, s, t) && Adjacent(t, q);
      SearchDone(g, s, visited, t);
      assert false;
    }
  }

  /** One round of CheckLiberty's loop: the neighbours of cur are looked at
      in order; an empty one ends the search, and those of the group's colour
      not yet visited are pushed. */
  method ScanForLiberty(board: array2<int>, ghost g: Grid, ghost s: Pos, color: int, cur: Pos, visited: set<Pos>, stack: seq<Pos>)
    returns (found: bool, stack': seq<Pos>)
    requires Holds(board, g) && InBoard(s) && color == At(g, s)
    requires InBoard(cur) && Connected(g, s, cur)
    requires forall p | p in stack :: InBoard(p) && Connected(g, s, p)
    ensures forall p | p in stack' :: InBoard(p) && Connected(g, s, p)
    ensures forall p | p in stack :: p in stack'
    ensures found ==> HasLiberty(g, s)
    ensures !found ==> forall q | InBoard(q) && Adjacent(cur, q) ::
      At(g, q) != 0 && (At(g, q) == color ==> q in visited || q in stack')
  {
    var ns := GetNeighbors(cur.0, cur.1);
    stack' := stack;
    for i := 0 to |ns|
      invariant forall p | p in stack' :: InBoard(p) && Connected(g, s, p)
      invariant forall p | p in stack :: p in stack'
      invariant forall j | 0 <= j < i :: At(g, ns[j]) != 0 && (At(g, ns[j]) == color ==> ns[j] in visited || ns[j] in stack')
    {
      var q := ns[i];
      if board[q.0, q.1] == 0 {
        assert IsLiberty(g, s, q);
        return true, stack';
      }
      if board[q.0, q.1] == color && q !in visited {
        ConnectedStep(g, s, cur, q);
        stack' := stack' + [q];
      }
    }
    found := false;
  }

  /** Whether the group of (r, c) has a liberty; the search stops at the
      first empty neighbour it meets. */
  method CheckLiberty(board: array2<int>, r: int, c: int) returns (b: bool)
    requires IsSquare(board) && InBoard((r, c))
    ensures b == HasLiberty(Snapshot(board), (r, c))
  {
    ghost var g := Snapshot(board);
    SnapshotHolds(board);
    ghost var s: Pos := (r, c);
    var color := board[r, c];
    var visited: set<Pos> := {};
    var stack: seq<Pos> := [(r, c)];
    ConnectedRefl(g, s);
    while |stack| > 0
      invariant Searching(g, s, visited, stack) && NoEmptyNext(g, visited)
      decreases AllCells() - visited, |stack|
    {
      ghost var before := stack;
      var cur := stack[|stack| - 1];
      stack := stack[..|stack| - 1];
      assert before == stack + [cur];
      if cur in visited {
        SearchSkip(g, s, visited, stack, cur);
        continue;
      }
      var found, stack' := ScanForLiberty(board, g, s, color, cur, visited, stack);
      if found {
        return true;
      }
      SearchVisit(g, s, visited, stack, cur, stack');
      NoEmptyVisit(g, visited, cur);
      visited, stack := visited + {cur}, stack';
    }
    NoLibertyWhenClosed(g, s, visited);
    return false;
  }

  /** What CountLiberties keeps true of its liberty set: it holds liberties
      only, and every empty neighbour of a visited cell. */
  ghost predicate Collected(g: Grid, s: Pos, visited: set<Pos>, libSet: set<Pos>) {
    && IsGrid(g) && InBoard(s)
    && libSet <= Liberties(g, s)
    && forall v, q | v in visited && InBoard(v) && InBoard(q) && Adjacent(v, q) && At(g, q) == 0 :: q in libSet
  }

  lemma CollectVisit(g: Grid, s: Pos, visited: set<Pos>, libSet: set<Pos>, cur: Pos, libSet': set<Pos>)
    requires IsGrid(g) && InBoard(s) && Collected(g, s, visited, libSet)
    requires libSet <= libSet' <= Liberties(g, s)
    requires forall q | InBoard(q) && Adjacent(cur, q) && At(g, q) == 0 :: q in libSet'
    ensures Collected(g, s, visited + {cur}, libSet')
  {
  }

  /** A finished search has collected every liberty of the group. */
  lemma CollectDone(g: Grid, s: Pos, visited: set<Pos>, libSet: set<Pos>)
    requires IsGrid(g) && InBoard(s)
    requires Searching(g, s, visited, []) && Collected(g, s, visited, libSet)
    ensures libSet == Liberties(g, s)
  {
    forall q | q in Liberties(g, s)
      ensures q in libSet
    {
      var t :| InBoard(t) && Connected(g, s, t) && Adjacent(t, q);
      SearchDone(g, s, visited, t);
    }
  }

  /** One round of CountLiberties' loop: empty neighbours of cur join the
      liberty set, neighbours of the group's colour are pushed. */
  method CollectLiberties(board: array2<int>, ghost g: Grid, ghost s: Pos, color: int, cur: Pos, libSet: set<Pos>, stack: seq<Pos>)
    returns (libSet': set<Pos>, stack': seq<Pos>)
    requires Holds(board, g) && InBoard(s) && color == At(g, s) != 0
    requires InBoard(cur) && Connected(g, s, cur)
    requires forall p | p in stack :: InBoard(p) && Connected(g, s, p)
    requires libSet <= Liberties(g, s)
    ensures forall p | p in stack' :: InBoard(p) && Connected(g, s, p)
    ensures forall p | p in stack :: p in stack'
    ensures libSet <= libSet' <= Liberties(g, s)
    ensures forall q | InBoard(q) && Adjacent(cur, q) ::
      && (At(g, q) == 0 ==> q in libSet')
      && (At(g, q) == color ==> q in stack')
  {
    var ns := GetNeighbors(cur.0, cur.1);
    libSet', stack' := libSet, stack;
    for i := 0 to |ns|
      invariant forall p | p in stack' :: InBoard(p) && Connected(g, s, p)
      invariant forall p | p in stack :: p in stack'
      invariant libSet <= libSet' <= Liberties(g, s)
      invariant forall j | 0 <= j < i :: (At(g, ns[j]) == 0 ==> ns[j] in libSet') && (At(g, ns[j]) == color ==> ns[j] in stack')
    {
      var q := ns[i];
      if board[q.0, q.1] == 0 {
        assert IsLiberty(g, s, q);
        libSet' := libSet' + {q};
      } else if board[q.0, q.1] == color {
        ConnectedStep(g, s, cur, q);
        stack' := stack' + [q];
      }
    }
  }

  /** The number of distinct liberties of the group of the stone at (r, c). */
  method CountLiberties(board: array2<int>, r: int, c: int) returns (n: nat)
    requires IsSquare(board) && InBoard((r, c)) && board[r, c] != 0
    ensures n == |Liberties(Snapshot(board), (r, c))|
  {
    ghost var g := Snapshot(board);
    SnapshotHolds(board);
    ghost var s: Pos := (r, c);
    var color := board[r, c];
    var visited: set<Pos> := {};
    var stack: seq<Pos> := [(r, c)];
    var libSet: set<Pos> := {};
    ConnectedRefl(g, s);
    while |stack| > 0
      invariant Searching(g, s, visited, stack) && Collected(g, s, visited, libSet)
      decreases AllCells() - visited, |stack|
    {
      ghost var before := stack;
      var cur := stack[|stack| - 1];
      stack := stack[..|stack| - 1];
      assert before == stack + [cur];
      if cur in visited {
        SearchSkip(g, s, visited, stack, cur);
        continue;
      }
      var libSet', stack' := CollectLiberties(board, g, s, color, cur, libSet, stack);
      SearchVisit(g, s, visited, stack, cur, stack');
      CollectVisit(g, s, visited, libSet, cur, libSet');
      visited, stack, libSet := visited + {cur}, stack', libSet';
    }
    CollectDone(g, s, visited, libSet);
    n := |libSet|;
  }

  /** What RemoveGroup keeps true: the removed cells belong to the group,
      stacked cells of the group's colour too, and the removed set is closed
      up to what is still stacked. */
  ghost predicate Removing(g: Grid, s: Pos, removed: set<Pos>, stack: seq<Pos>) {
    && IsGrid(g) && InBoard(s)
    && (forall p | p in stack :: InBoard(p))
    && (forall p | p in stack && At(g, p) == At(g, s) :: Connected(g, s, p))
    && (forall p | p in removed :: InBoard(p) && Connected(g, s, p))
    && (forall p, q | p in removed && InBoard(q) && Adjacent(p, q) && At(g, q) == At(g, s) && q !in removed :: q in stack)
    && (s in removed || s in stack)
  }

  /** Popping a cell that is already empty or of another colour. */
  lemma RemoveSkip(g: Grid, s: Pos, removed: set<Pos>, stack: seq<Pos>, cur: Pos)
    requires IsGrid(g) && InBoard(s)
    requires Removing(g, s, removed, stack + [cur])
    requires cur in removed || At(g, cur) != At(g, s)
    ensures Removing(g, s, removed, stack)
  {
    assert forall p | p in stack :: p in stack + [cur];
    forall p, q | p in removed && InBoard(q) && Adjacent(p, q) && At(g, q) == At(g, s) && q !in removed
      ensures q in stack
    {
      assert q in stack + [cur];
    }
    assert s in removed || s in stack + [cur];
  }

  /** Removing cur, a stone of the group, and pushing all its neighbours. */
  lemma RemoveStep(g: Grid, s: Pos, removed: set<Pos>, stack: seq<Pos>, cur: Pos, ns: seq<Pos>)
    requires IsGrid(g) && InBoard(s)
    requires Removing(g, s, removed, stack + [cur])
    requires cur !in removed && At(g, cur) == At(g, s)
    requires forall j | 0 <= j < |ns| :: InBoard(ns[j]) && Adjacent(cur, ns[j])
    requires forall q | InBoard(q) && Adjacent(cur, q) :: q in ns
    ensures Removing(g, s, removed + {cur}, stack + ns)
  {
    assert cur in stack + [cur];
    assert InBoard(cur) && Connected(g, s, cur);
    forall p | p in stack + ns
      ensures InBoard(p) && (At(g, p) == At(g, s) ==> Connected(g, s, p))
    {
      if p in stack {
        assert p in stack + [cur];
      } else {
        var j :| 0 <= j < |ns| && ns[j] == p;
        if At(g, p) == At(g, s) {
          ConnectedStep(g, s, cur, p);
        }
      }
    }
    forall p, q | p in removed + {cur} && InBoard(q) && Adjacent(p, q) && At(g, q) == At(g, s) && q !in removed + {cur}
      ensures q in stack + ns
    {
      if p == cur {
        assert q in ns;
      } else {
        assert q in stack + [cur];
      }
    }
  }

  /** A finished removal has removed exactly the group of s. */
  lemma RemoveDone(g: Grid, s: Pos, removed: set<Pos>)
    requires IsGrid(g) && InBoard(s) && Removing(g, s, removed, [])
    ensures forall p | InBoard(p) :: p in removed <==> Connected(g, s, p)
  {
    forall p | InBoard(p) && Connected(g, s, p)
      ensures p in removed
    {
      ClosedContainsGroup(g, s, removed, p);
    }
  }

  /** The board array holds g with the cells of `removed` emptied. */
  ghost predicate Erased(board: array2<int>, g: Grid, removed: set<Pos>)
    reads board
  {
    IsSquare(board) && IsGrid(g) && forall p | InBoard(p) :: board[p.0, p.1] == if p in removed then 0 else At(g, p)
  }

  /** One round of RemoveGroup's loop: pop a cell; if it still holds the
      group's colour, empty it and push all its neighbours. */
  method RemoveNext(board: array2<int>, ghost g: Grid, ghost s: Pos, color: int, ghost removed: set<Pos>, stack: seq<Pos>)
    returns (ghost removed': set<Pos>, stack': seq<Pos>)
    requires Removing(g, s, removed, stack) && Erased(board, g, removed)
    requires |stack| > 0 && color == At(g, s) != 0
    modifies board
    ensures Removing(g, s, removed', stack') && Erased(board, g, removed')
    ensures (removed' == removed && |stack'| < |stack|) || exists cur :: InBoard(cur) && cur !in removed && removed' == removed + {cur}
  {
    ghost var before := stack;
    var cur := stack[|stack| - 1];
    stack' := stack[..|stack| - 1];
    assert before == stack' + [cur];
    assert InBoard(cur);
    if board[cur.0, cur.1] == color {
      var ns := GetNeighbors(cur.0, cur.1);
      RemoveStep(g, s, removed, stack', cur, ns);
      board[cur.0, cur.1] := 0;
      removed', stack' := removed + {cur}, stack' + ns;
    } else {
      RemoveSkip(g, s, removed, stack', cur);
      removed' := removed;
    }
  }

  /** When the removal is finished the board holds g without the group of s. */
  lemma ErasedGroup(board: array2<int>, g: Grid, s: Pos, removed: set<Pos>)
    requires Removing(g, s, removed, []) && Erased(board, g, removed)
    ensures Snapshot(board) == WithoutGroup(g, s)
  {
    RemoveDone(g, s, removed);
    GridsEqual(Snapshot(board), WithoutGroup(g, s));
  }

  /** Empties the group of (r, c). Neighbours are pushed whether or not they
      were seen before; each push follows the removal of a stone, so the
      stack is finite. */
  method RemoveGroup(board: array2<int>, r: int, c: int)
    requires IsSquare(board) && InBoard((r, c)) && board[r, c] != 0
    modifies board
    ensures Snapshot(board) == WithoutGroup(old(Snapshot(board)), (r, c))
  {
    ghost var g := Snapshot(board);
    ghost var s: Pos := (r, c);
    var color := board[r, c];
    var stack: seq<Pos> := [(r, c)];
    ghost var removed: set<Pos> := {};
    ConnectedRefl(g, s);
    while |stack| > 0
      invariant Removing(g, s, removed, stack) && Erased(board, g, removed)
      decreases AllCells() - removed, |stack|
    {
      removed, stack := RemoveNext(board, g, s, color, removed, stack);
    }
    ErasedGroup(board, g, s, removed);
  }
}
