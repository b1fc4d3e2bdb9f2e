/** Capturing in Go, on board values: after a stone of `player` is placed at
    p, every opponent group next to p that has no liberty is taken off the
    board. The engine removes these groups one neighbour at a time; the
    lemmas here show that this equals removing all of them at once. */
module GoCapture {
  import opened GoBoard

  /** n is a neighbour of p holding an opponent stone whose group has no
      liberty in h. */
  ghost predicate Dead(h: Grid, p: Pos, player: int, n: Pos)
    requires IsGrid(h)
  {
    InBoard(n) && Adjacent(p, n) && At(h, n) == -player && !HasLiberty(h, n)
  }

  /** Some neighbour of p holds a dead opponent group. */
  ghost predicate CapturesAny(h: Grid, p: Pos, player: int)
    requires IsGrid(h)
  {
    exists n :: Dead(h, p, player, n)
  }

  /** q belongs to a dead opponent group next to p. */
  ghost predicate Captured(h: Grid, p: Pos, player: int, q: Pos)
    requires IsGrid(h)
  {
    exists n :: Dead(h, p, player, n) && Connected(h, n, q)
  }

  /** h with every dead opponent group next to p removed. */
  ghost function Capture(h: Grid, p: Pos, player: int): (k: Grid)
    requires IsGrid(h)
    ensures IsGrid(k)
    ensures forall q | InBoard(q) :: At(k, q) == if Captured(h, p, player, q) then 0 else At(h, q)
  {
    seq(Size, r requires 0 <= r < Size =>
      seq(Size, c requires 0 <= c < Size => if Captured(h, p, player, (r, c)) then 0 else h[r][c]))
  }

  /** One of the cells ns holds a dead opponent group. */
  ghost predicate AnyDead(h: Grid, p: Pos, player: int, ns: seq<Pos>)
    requires IsGrid(h)
  {
    exists j | 0 <= j < |ns| :: Dead(h, p, player, ns[j])
  }

  /** q belongs to the dead group of one of the cells ns. */
  ghost predicate CapturedAmong(h: Grid, p: Pos, player: int, ns: seq<Pos>, q: Pos)
    requires IsGrid(h)
  {
    exists j | 0 <= j < |ns| :: Dead(h, p, player, ns[j]) && Connected(h, ns[j], q)
  }

  /** h with the dead groups of the cells ns removed: the board after the
      engine has looked at the neighbours ns. */
  ghost function CaptureAmong(h: Grid, p: Pos, player: int, ns: seq<Pos>): (k: Grid)
    requires IsGrid(h)
    ensures IsGrid(k)
    ensures forall q | InBoard(q) :: At(k, q) == if CapturedAmong(h, p, player, ns, q) then 0 else At(h, q)
  {
    seq(Size, r requires 0 <= r < Size =>
      seq(Size, c requires 0 <= c < Size => if CapturedAmong(h, p, player, ns, (r, c)) then 0 else h[r][c]))
  }

  /** Every cell of a walk from s is in the group of s. */
  lemma WalkPrefix(g: Grid, s: Pos, w: seq<Pos>, i: int)
    requires IsGrid(g) && InBoard(s) && IsWalk(g, At(g, s), w) && w[0] == s && 0 <= i < |w|
    ensures Connected(g, s, w[i])
  {
    var w' := w[..i + 1];
    assert IsWalk(g, At(g, s), w');
    assert w'[|w'| - 1] == w[i];
  }

  /** Two cells of one group have the same liberties. */
  lemma SameGroupLiberty(g: Grid, s: Pos, t: Pos)
    requires IsGrid(g) && InBoard(s) && Connected(g, s, t)
    ensures InBoard(t) && (HasLiberty(g, t) <==> HasLiberty(g, s))
  {
    ConnectedColor(g, s, t);
    if HasLiberty(g, s) {
      var q :| IsLiberty(g, s, q);
      var u :| InBoard(u) && Connected(g, s, u) && Adjacent(u, q);
      SameGroup(g, s, t, u);
      assert IsLiberty(g, t, q);
    }
    if HasLiberty(g, t) {
      var q :| IsLiberty(g, t, q);
      var u :| InBoard(u) && Connected(g, t, u) && Adjacent(u, q);
      SameGroup(g, s, t, u);
      assert IsLiberty(g, s, q);
    }
  }

  /** Emptying stones of n's colour that lie outside n's group changes neither
      the group of n nor whether it has a liberty. */
  lemma RemovalStable(h: Grid, k: Grid, n: Pos)
    requires IsGrid(h) && IsGrid(k) && InBoard(n) && At(h, n) != 0 && At(k, n) == At(h, n)
    requires forall q | InBoard(q) && At(k, q) != At(h, q) :: At(k, q) == 0 && At(h, q) == At(h, n) && !Connected(h, n, q)
    ensures forall q :: Connected(k, n, q) <==> Connected(h, n, q)
    ensures HasLiberty(k, n) <==> HasLiberty(h, n)
  {
    forall q | Connected(k, n, q)
      ensures Connected(h, n, q)
    {
      var w :| IsWalk(k, At(k, n), w) && w[0] == n && w[|w| - 1] == q;
      forall i | 0 <= i < |w|
        ensures At(h, w[i]) == At(h, n)
      {
        assert InBoard(w[i]) && At(k, w[i]) == At(k, n);
      }
      assert IsWalk(h, At(h, n), w);
    }
    forall q | Connected(h, n, q)
      ensures Connected(k, n, q)
    {
      var w :| IsWalk(h, At(h, n), w) && w[0] == n && w[|w| - 1] == q;
      forall i | 0 <= i < |w|
        ensures At(k, w[i]) == At(k, n)
      {
        WalkPrefix(h, n, w, i);
      }
      assert IsWalk(k, At(k, n), w);
    }
    if HasLiberty(k, n) {
      var q :| IsLiberty(k, n, q);
      var t :| InBoard(t) && Connected(k, n, t) && Adjacent(t, q);
      if At(h, q) != 0 {
        ConnectedColor(h, n, t);
        ConnectedStep(h, n, t, q);
      }
      assert IsLiberty(h, n, q);
    }
    if HasLiberty(h, n) {
      var q :| IsLiberty(h, n, q);
      var t :| InBoard(t) && Connected(h, n, t) && Adjacent(t, q);
      assert IsLiberty(k, n, q);
    }
  }

  /** The cells removed after the neighbours ns were looked at are opponent
      stones outside the group of any opponent stone still on the board. */
  lemma CapturedAmongOutside(h: Grid, p: Pos, player: int, ns: seq<Pos>, n: Pos)
    requires IsGrid(h) && player != 0 && InBoard(n) && At(h, n) == -player
    requires !CapturedAmong(h, p, player, ns, n)
    ensures forall q | InBoard(q) && At(CaptureAmong(h, p, player, ns), q) != At(h, q) ::
      At(CaptureAmong(h, p, player, ns), q) == 0 && At(h, q) == At(h, n) && !Connected(h, n, q)
  {
    var k := CaptureAmong(h, p, player, ns);
    forall q | InBoard(q) && At(k, q) != At(h, q)
      ensures At(k, q) == 0 && At(h, q) == At(h, n) && !Connected(h, n, q)
    {
      var j :| 0 <= j < |ns| && Dead(h, p, player, ns[j]) && Connected(h, ns[j], q);
      ConnectedColor(h, ns[j], q);
      if Connected(h, n, q) {
        ConnectedSym(h, n, q);
        ConnectedTrans(h, ns[j], q, n);
      }
    }
  }

  /** Looking at the next neighbour n of p when it still holds an opponent
      stone: its group and liberties are those it had before any capture. */
  lemma CaptureStepStone(h: Grid, p: Pos, player: int, ns: seq<Pos>, n: Pos)
    requires IsGrid(h) && player != 0 && InBoard(n)
    requires At(CaptureAmong(h, p, player, ns), n) == -player
    ensures At(h, n) == -player
    ensures forall q :: Connected(CaptureAmong(h, p, player, ns), n, q) <==> Connected(h, n, q)
    ensures HasLiberty(CaptureAmong(h, p, player, ns), n) <==> HasLiberty(h, n)
  {
    var k := CaptureAmong(h, p, player, ns);
    assert !CapturedAmong(h, p, player, ns, n);
    CapturedAmongOutside(h, p, player, ns, n);
    RemovalStable(h, k, n);
  }

  /** Looking at one more neighbour n adds the dead group of n, if any. */
  lemma CapturedAmongSnoc(h: Grid, p: Pos, player: int, ns: seq<Pos>, n: Pos, q: Pos)
    requires IsGrid(h)
    ensures CapturedAmong(h, p, player, ns + [n], q) <==>
      CapturedAmong(h, p, player, ns, q) || (Dead(h, p, player, n) && Connected(h, n, q))
  {
    var ns' := ns + [n];
    if CapturedAmong(h, p, player, ns', q) {
      var j :| 0 <= j < |ns'| && Dead(h, p, player, ns'[j]) && Connected(h, ns'[j], q);
      if j < |ns| {
        assert ns'[j] == ns[j];
      }
    }
    if CapturedAmong(h, p, player, ns, q) {
      var j :| 0 <= j < |ns| && Dead(h, p, player, ns[j]) && Connected(h, ns[j], q);
      assert ns'[j] == ns[j];
    }
    assert ns'[|ns|] == n;
  }

  lemma AnyDeadSnoc(h: Grid, p: Pos, player: int, ns: seq<Pos>, n: Pos)
    requires IsGrid(h)
    ensures AnyDead(h, p, player, ns + [n]) <==> AnyDead(h, p, player, ns) || Dead(h, p, player, n)
  {
    var ns' := ns + [n];
    if AnyDead(h, p, player, ns') {
      var j :| 0 <= j < |ns'| && Dead(h, p, player, ns'[j]);
      if j < |ns| {
        assert ns'[j] == ns[j];
      }
    }
    if AnyDead(h, p, player, ns) {
      var j :| 0 <= j < |ns| && Dead(h, p, player, ns[j]);
      assert ns'[j] == ns[j];
    }
    assert ns'[|ns|] == n;
  }

  /** ... and when that group has a liberty nothing is removed. */
  lemma CaptureStepAlive(h: Grid, p: Pos, player: int, ns: seq<Pos>, n: Pos)
    requires IsGrid(h) && InBoard(n) && HasLiberty(h, n)
    ensures CaptureAmong(h, p, player, ns + [n]) == CaptureAmong(h, p, player, ns)
  {
    var k := CaptureAmong(h, p, player, ns);
    var k' := CaptureAmong(h, p, player, ns + [n]);
    forall q | InBoard(q)
      ensures At(k', q) == At(k, q)
    {
      CapturedAmongSnoc(h, p, player, ns, n, q);
    }
    GridsEqual(k', k);
  }

  /** ... and when it has none, its group is removed. */
  lemma CaptureStepDead(h: Grid, p: Pos, player: int, ns: seq<Pos>, n: Pos)
    requires IsGrid(h) && player != 0 && InBoard(n) && Adjacent(p, n)
    requires At(h, n) == -player && !HasLiberty(h, n)
    requires forall q :: Connected(CaptureAmong(h, p, player, ns), n, q) <==> Connected(h, n, q)
    ensures CaptureAmong(h, p, player, ns + [n]) == WithoutGroup(CaptureAmong(h, p, player, ns), n)
  {
    var k := CaptureAmong(h, p, player, ns);
    var k' := CaptureAmong(h, p, player, ns + [n]);
    var w := WithoutGroup(k, n);
    forall q | InBoard(q)
      ensures At(k', q) == At(w, q)
    {
      CapturedAmongSnoc(h, p, player, ns, n, q);
    }
    GridsEqual(k', w);
  }

  /** Looking at a neighbour n of p that no longer holds an opponent stone
      leaves the board as it is; if n was next to p in a dead group, an
      earlier neighbour was too. */
  lemma CaptureStepSkip(h: Grid, p: Pos, player: int, ns: seq<Pos>, n: Pos)
    requires IsGrid(h) && player != 0 && InBoard(n)
    requires At(CaptureAmong(h, p, player, ns), n) != -player
    ensures CaptureAmong(h, p, player, ns + [n]) == CaptureAmong(h, p, player, ns)
    ensures Dead(h, p, player, n) ==> AnyDead(h, p, player, ns)
  {
    var k := CaptureAmong(h, p, player, ns);
    var k' := CaptureAmong(h, p, player, ns + [n]);
    if Dead(h, p, player, n) {
      assert CapturedAmong(h, p, player, ns, n);
      var i :| 0 <= i < |ns| && Dead(h, p, player, ns[i]) && Connected(h, ns[i], n);
      forall q | Connected(h, n, q)
        ensures CapturedAmong(h, p, player, ns, q)
      {
        ConnectedTrans(h, ns[i], n, q);
      }
    }
    forall q | InBoard(q)
      ensures At(k', q) == At(k, q)
    {
      CapturedAmongSnoc(h, p, player, ns, n, q);
    }
    GridsEqual(k', k);
  }

  /** Before any neighbour is looked at, nothing is removed. */
  lemma CaptureAmongNone(h: Grid, p: Pos, player: int)
    requires IsGrid(h)
    ensures CaptureAmong(h, p, player, []) == h
  {
    GridsEqual(CaptureAmong(h, p, player, []), h);
  }

  /** Once every neighbour of p has been looked at, the dead groups of all of
      them are gone: one at a time amounts to all at once. */
  lemma CaptureAmongAll(h: Grid, p: Pos, player: int, ns: seq<Pos>)
    requires IsGrid(h)
    requires forall q | InBoard(q) && Adjacent(p, q) :: q in ns
    ensures CaptureAmong(h, p, player, ns) == Capture(h, p, player)
    ensures AnyDead(h, p, player, ns) <==> CapturesAny(h, p, player)
  {
    forall q | InBoard(q)
      ensures CapturedAmong(h, p, player, ns, q) <==> Captured(h, p, player, q)
    {
      if Captured(h, p, player, q) {
        var n :| Dead(h, p, player, n) && Connected(h, n, q);
        assert n in ns;
      }
    }
    GridsEqual(CaptureAmong(h, p, player, ns), Capture(h, p, player));
    if CapturesAny(h, p, player) {
      var n :| Dead(h, p, player, n);
      assert n in ns;
    }
  }

  /** With no dead neighbour group the board is left as it is. */
  lemma CaptureNone(h: Grid, p: Pos, player: int)
    requires IsGrid(h) && !CapturesAny(h, p, player)
    ensures Capture(h, p, player) == h
  {
    GridsEqual(Capture(h, p, player), h);
  }

  /** What capturing does to the board after a stone of `player` was placed
      at p: the new stone stays, only opponent stones are removed, each dead
      group next to p is removed whole, and no opponent group next to p is
      left without a liberty. */
  lemma CaptureEffect(h: Grid, p: Pos, player: int)
    requires IsGrid(h) && InBoard(p) && player != 0 && At(h, p) == player
    ensures At(Capture(h, p, player), p) == player
    ensures forall q | InBoard(q) && At(Capture(h, p, player), q) != At(h, q) ::
      At(h, q) == -player && At(Capture(h, p, player), q) == 0
    ensures forall n, q | Dead(h, p, player, n) && Connected(h, n, q) :: At(Capture(h, p, player), q) == 0
    ensures forall n | InBoard(n) && Adjacent(p, n) && At(Capture(h, p, player), n) == -player ::
      HasLiberty(Capture(h, p, player), n)
  {
    var k := Capture(h, p, player);
    forall q | InBoard(q) && Captured(h, p, player, q)
      ensures At(h, q) == -player
    {
      var n :| Dead(h, p, player, n) && Connected(h, n, q);
      ConnectedColor(h, n, q);
    }
    forall n, q | Dead(h, p, player, n) && Connected(h, n, q)
      ensures At(k, q) == 0
    {
      ConnectedColor(h, n, q);
    }
    forall n | InBoard(n) && Adjacent(p, n) && At(k, n) == -player
      ensures HasLiberty(k, n)
    {
      ConnectedRefl(h, n);
      forall q | InBoard(q) && At(k, q) != At(h, q)
        ensures At(k, q) == 0 && At(h, q) == At(h, n) && !Connected(h, n, q)
      {
        var m :| Dead(h, p, player, m) && Connected(h, m, q);
        ConnectedColor(h, m, q);
        if Connected(h, n, q) {
          ConnectedSym(h, n, q);
          ConnectedTrans(h, m, q, n);
        }
      }
      RemovalStable(h, k, n);
    }
  }

  /** The placed stone's group has a liberty after capturing exactly when
      something was captured or it had one already: the engine's suicide
      test, read the other way round. */
  lemma CaptureLiberty(h: Grid, p: Pos, player: int)
    requires IsGrid(h) && InBoard(p) && player != 0 && At(h, p) == player
    ensures HasLiberty(Capture(h, p, player), p) <==> CapturesAny(h, p, player) || HasLiberty(h, p)
  {
    var k := Capture(h, p, player);
    CaptureEffect(h, p, player);
    if CapturesAny(h, p, player) {
      var n :| Dead(h, p, player, n);
      ConnectedRefl(h, n);
      ConnectedRefl(k, p);
      assert At(k, n) == 0;
      assert IsLiberty(k, p, n);
    } else {
      CaptureNone(h, p, player);
    }
  }
}
