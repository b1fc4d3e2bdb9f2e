/** Facts about the first moves of a game, computed on the concrete boards. */
module OthelloOpening {
  import opened OthelloRules
  import opened OthelloMarks

  /** Black's opening at (2, 4) turns the white stone at (3, 4) and nothing
      else. */
  lemma OpeningAt24()
    ensures Placed(Initial(), 1, 2, 4) == Set(Set(Initial(), 2, 4, 1), 3, 4, 1)
  {
    var p := Set(Initial(), 2, 4, 1);
    var q := Set(p, 3, 4, 1);
    assert Dirs[..0] == [];
    assert RunLen(p, 1, 2, 4, -1, -1, 1) == 0;
    assert RunLen(p, 1, 2, 4, -1, 0, 1) == 0;
    assert RunLen(p, 1, 2, 4, -1, 1, 1) == 0;
    assert RunLen(p, 1, 2, 4, 0, -1, 1) == 0;
    assert RunLen(p, 1, 2, 4, 0, 1, 1) == 0;
    assert RunLen(p, 1, 2, 4, 1, -1, 1) == 0;
    FlipAllStep(p, 1, 2, 4, 0);
    FlipAllStep(p, 1, 2, 4, 1);
    FlipAllStep(p, 1, 2, 4, 2);
    FlipAllStep(p, 1, 2, 4, 3);
    FlipAllStep(p, 1, 2, 4, 4);
    FlipAllStep(p, 1, 2, 4, 5);
    assert FlipAll(p, 1, 2, 4, Dirs[..6]) == p;
    assert RunLen(p, 1, 2, 4, 1, 0, 2) == 0;
    assert RunLen(p, 1, 2, 4, 1, 0, 1) == 1;
    PaintedNone(p, 1, 2, 4, 1, 0);
    PaintedStep(p, 1, 2, 4, 1, 0, 0);
    FlipAllStep(p, 1, 2, 4, 6);
    assert FlipAll(p, 1, 2, 4, Dirs[..7]) == q;
    assert RunLen(q, 1, 2, 4, 1, 1, 1) == 0;
    FlipAllStep(p, 1, 2, 4, 7);
    assert Dirs[..8] == Dirs;
  }

  /** After Black opens at (2, 4), White's scan marks (2, 3): the black
      stone at (3, 3) lies between it and the white stone at (4, 3). */
  lemma WhiteAnswer23()
    ensures Marked(Clear(), Placed(Initial(), 1, 2, 4), -1)[2][3]
  {
    OpeningAt24();
    var q := Set(Set(Initial(), 2, 4, 1), 3, 4, 1);
    assert RunLen(q, -1, 2, 3, 1, 0, 2) == 0;
    assert Bracketed(q, -1, 2, 3, 1, 0);
    MarkedMeaning(Clear(), q, -1);
  }

  /** (2, 3) is empty but not a move for Black in the opening position. */
  lemma NotBlackOpening23()
    ensures Initial()[2][3] == 0 && !Playable(Initial(), 1, 2, 3)
  {
    var g := Initial();
    assert RunLen(g, 1, 2, 3, -1, -1, 1) == 0;
    assert RunLen(g, 1, 2, 3, -1, 0, 1) == 0;
    assert RunLen(g, 1, 2, 3, -1, 1, 1) == 0;
    assert RunLen(g, 1, 2, 3, 0, -1, 1) == 0;
    assert RunLen(g, 1, 2, 3, 0, 1, 1) == 0;
    assert RunLen(g, 1, 2, 3, 1, -1, 1) == 0;
    assert RunLen(g, 1, 2, 3, 1, 0, 1) == 0;
    assert RunLen(g, 1, 2, 3, 1, 1, 2) == 0;
    assert RunLen(g, 1, 2, 3, 1, 1, 1) == 1;
  }
}
