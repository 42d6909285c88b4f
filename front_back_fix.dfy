/** F and B of the `TestCube` of RubiksSolverTests.cpp as written move the
    stickers round the turned face along one eight-cell cycle, so that F then
    FI (and B then BI) restores only grids whose faces are each one colour.
    This module exhibits a grid they do not restore, then defines the moves as
    evidently intended, F as the inverse of FI and B as the inverse of BI, and
    proves the laws the test program expects of them on every grid. */
module FrontBackFix {
  import opened Stickers
  import opened TestMoves

  // ---------------------------------------------------------------------------
  // The moves as written

  /** F then FI brings onto TOP(1,0) the sticker of TOP(1,1), on any grid. */
  lemma FrontThenInverseAt(g: Grid<Color>)
    requires WellFormed(g)
    ensures At(Turn(Turn(g, F), FI), Cell(TOP, 1, 0)) == At(g, Cell(TOP, 1, 1))
  {
    TurnAt(Turn(g, F), FI, Cell(TOP, 1, 0));
    assert Src(FI, Cell(TOP, 1, 0)) == Cell(RIGHT, 0, 0);
    TurnAt(g, F, Cell(RIGHT, 0, 0));
    assert Src(F, Cell(RIGHT, 0, 0)) == Cell(TOP, 1, 1);
  }

  /** B then BI brings onto TOP(0,0) the sticker of TOP(0,1), on any grid. */
  lemma BackThenInverseAt(g: Grid<Color>)
    requires WellFormed(g)
    ensures At(Turn(Turn(g, B), BI), Cell(TOP, 0, 0)) == At(g, Cell(TOP, 0, 1))
  {
    TurnAt(Turn(g, B), BI, Cell(TOP, 0, 0));
    assert Src(BI, Cell(TOP, 0, 0)) == Cell(RIGHT, 0, 1);
    TurnAt(g, B, Cell(RIGHT, 0, 1));
    assert Src(B, Cell(RIGHT, 0, 1)) == Cell(TOP, 0, 1);
  }

  /** R from the initial state brings FRONT's blue onto column 1 of TOP and
      leaves TOP's yellow on column 0. */
  lemma AfterR(g: Grid<Color>)
    requires g == Turn(InitialGrid(), R)
    ensures At(g, Cell(TOP, 0, 0)) == YELLOW && At(g, Cell(TOP, 1, 0)) == YELLOW
    ensures At(g, Cell(TOP, 0, 1)) == BLUE && At(g, Cell(TOP, 1, 1)) == BLUE
  {
    var g0 := InitialGrid();
    TurnAt(g0, R, Cell(TOP, 0, 0));
    TurnAt(g0, R, Cell(TOP, 1, 0));
    TurnAt(g0, R, Cell(TOP, 0, 1));
    TurnAt(g0, R, Cell(TOP, 1, 1));
    assert Src(R, Cell(TOP, 0, 0)) == Cell(TOP, 0, 0);
    assert Src(R, Cell(TOP, 1, 0)) == Cell(TOP, 1, 0);
    assert Src(R, Cell(TOP, 0, 1)) == Cell(FRONT, 0, 1);
    assert Src(R, Cell(TOP, 1, 1)) == Cell(FRONT, 1, 1);
  }

  /** After R from the initial state, F then FI does not restore the grid: the
      blue sticker R brought to TOP(1,1) ends on TOP(1,0). */
  lemma FrontNotUndone(g: Grid<Color>)
    requires g == Turn(InitialGrid(), R)
    ensures At(Turn(Turn(g, F), FI), Cell(TOP, 1, 0)) == BLUE != At(g, Cell(TOP, 1, 0))
    ensures Turn(Turn(g, F), FI) != g
  {
    AfterR(g);
    FrontThenInverseAt(g);
  }

  /** After R from the initial state, B then BI does not restore the grid: the
      blue sticker R brought to TOP(0,1) ends on TOP(0,0). */
  lemma BackNotUndone(g: Grid<Color>)
    requires g == Turn(InitialGrid(), R)
    ensures At(Turn(Turn(g, B), BI), Cell(TOP, 0, 0)) == BLUE != At(g, Cell(TOP, 0, 0))
    ensures Turn(Turn(g, B), BI) != g
  {
    AfterR(g);
    BackThenInverseAt(g);
  }

  // ---------------------------------------------------------------------------
  // The moves as evidently intended

  /** F with `_matrix[BOTTOM][0][_cCol - 1 - i]` in place of
      `_matrix[BOTTOM][0][i]` and `tempTop[i]` in place of
      `tempTop[_cCol - 1 - i]`: the mirror image of FI's loop. */
  function FixedSrcF(p: Cell): Cell {
    if p.face == FRONT then RotSrc(FRONT, true, p)
    else if p.face == TOP && p.row == 1 then Cell(LEFT, 1 - p.col, 1)
    else if p.face == LEFT && p.col == 1 then Cell(BOTTOM, 0, p.row)
    else if p.face == BOTTOM && p.row == 0 then Cell(RIGHT, 1 - p.col, 0)
    else if p.face == RIGHT && p.col == 0 then Cell(TOP, 1, p.row)
    else p
  }

  /** B with `tempTop[i]` in place of `tempTop[_cCol - 1 - i]`: the mirror
      image of BI's loop. */
  function FixedSrcB(p: Cell): Cell {
    if p.face == BACK then RotSrc(BACK, true, p)
    else if p.face == TOP && p.row == 0 then Cell(LEFT, 1 - p.col, 0)
    else if p.face == LEFT && p.col == 0 then Cell(BOTTOM, 1, p.row)
    else if p.face == BOTTOM && p.row == 1 then Cell(RIGHT, 1 - p.col, 1)
    else if p.face == RIGHT && p.col == 1 then Cell(TOP, 0, p.row)
    else p
  }

  /** The corrected engine: F and B replaced, the ten other moves as written. */
  function FixedSrc(r: Rotation, p: Cell): (q: Cell)
    ensures ValidCell(p) ==> ValidCell(q)
  {
    if !ValidCell(p) then p
    else if r == F then FixedSrcF(p)
    else if r == B then FixedSrcB(p)
    else Src(r, p)
  }

  function FixedTurn(g: Grid<Color>, m: Rotation): (h: Grid<Color>)
    requires WellFormed(g)
    ensures WellFormed(h)
  {
    seq(FACES, f requires 0 <= f < FACES =>
      seq(ROWS, r requires 0 <= r < ROWS =>
        seq(COLS, c requires 0 <= c < COLS =>
          assert ValidCell(Cell(f, r, c)); At(g, FixedSrc(m, Cell(f, r, c))))))
  }

  lemma FixedTurnAt(g: Grid<Color>, m: Rotation, p: Cell)
    requires WellFormed(g) && ValidCell(p)
    ensures At(FixedTurn(g, m), p) == At(g, FixedSrc(m, p))
  {
  }

  lemma FixedUndoF(p: Cell) requires ValidCell(p) ensures FixedSrcF(SrcFI(p)) == p {
    if p.face == TOP {} else if p.face == FRONT {} else if p.face == RIGHT {}
    else if p.face == BOTTOM {} else if p.face == BACK {}
  }
  lemma FixedUndoFI(p: Cell) requires ValidCell(p) ensures SrcFI(FixedSrcF(p)) == p {
    if p.face == TOP {} else if p.face == FRONT {} else if p.face == RIGHT {}
    else if p.face == BOTTOM {} else if p.face == BACK {}
  }
  lemma FixedUndoB(p: Cell) requires ValidCell(p) ensures FixedSrcB(SrcBI(p)) == p {
    if p.face == TOP {} else if p.face == FRONT {} else if p.face == RIGHT {}
    else if p.face == BOTTOM {} else if p.face == BACK {}
  }
  lemma FixedUndoBI(p: Cell) requires ValidCell(p) ensures SrcBI(FixedSrcB(p)) == p {
    if p.face == TOP {} else if p.face == FRONT {} else if p.face == RIGHT {}
    else if p.face == BOTTOM {} else if p.face == BACK {}
  }
  lemma FixedFourF(p: Cell) requires ValidCell(p) ensures FixedSrcF(FixedSrcF(FixedSrcF(FixedSrcF(p)))) == p {
    if p == Cell(TOP, 0, 0) {} else if p == Cell(TOP, 0, 1) {} else if p == Cell(TOP, 1, 0) {} else if p == Cell(TOP, 1, 1) {}
    else if p == Cell(FRONT, 0, 0) {} else if p == Cell(FRONT, 0, 1) {} else if p == Cell(FRONT, 1, 0) {} else if p == Cell(FRONT, 1, 1) {}
    else if p == Cell(RIGHT, 0, 0) {} else if p == Cell(RIGHT, 0, 1) {} else if p == Cell(RIGHT, 1, 0) {} else if p == Cell(RIGHT, 1, 1) {}
    else if p == Cell(BOTTOM, 0, 0) {} else if p == Cell(BOTTOM, 0, 1) {} else if p == Cell(BOTTOM, 1, 0) {} else if p == Cell(BOTTOM, 1, 1) {}
    else if p == Cell(BACK, 0, 0) {} else if p == Cell(BACK, 0, 1) {} else if p == Cell(BACK, 1, 0) {} else if p == Cell(BACK, 1, 1) {}
    else if p == Cell(LEFT, 0, 0) {} else if p == Cell(LEFT, 0, 1) {} else if p == Cell(LEFT, 1, 0) {} else if p == Cell(LEFT, 1, 1) {}
  }
  lemma FixedFourB(p: Cell) requires ValidCell(p) ensures FixedSrcB(FixedSrcB(FixedSrcB(FixedSrcB(p)))) == p {
    if p == Cell(TOP, 0, 0) {} else if p == Cell(TOP, 0, 1) {} else if p == Cell(TOP, 1, 0) {} else if p == Cell(TOP, 1, 1) {}
    else if p == Cell(FRONT, 0, 0) {} else if p == Cell(FRONT, 0, 1) {} else if p == Cell(FRONT, 1, 0) {} else if p == Cell(FRONT, 1, 1) {}
    else if p == Cell(RIGHT, 0, 0) {} else if p == Cell(RIGHT, 0, 1) {} else if p == Cell(RIGHT, 1, 0) {} else if p == Cell(RIGHT, 1, 1) {}
    else if p == Cell(BOTTOM, 0, 0) {} else if p == Cell(BOTTOM, 0, 1) {} else if p == Cell(BOTTOM, 1, 0) {} else if p == Cell(BOTTOM, 1, 1) {}
    else if p == Cell(BACK, 0, 0) {} else if p == Cell(BACK, 0, 1) {} else if p == Cell(BACK, 1, 0) {} else if p == Cell(BACK, 1, 1) {}
    else if p == Cell(LEFT, 0, 0) {} else if p == Cell(LEFT, 0, 1) {} else if p == Cell(LEFT, 1, 0) {} else if p == Cell(LEFT, 1, 1) {}
  }

  /** The corrected F and B send every sticker to the same face as the moves
      as written. */
  lemma FixedSameFace(r: Rotation, p: Cell)
    requires ValidCell(p)
    ensures FixedSrc(r, p).face == Src(r, p).face
  {
  }

  lemma FixedSrcUndo(r: Rotation, p: Cell)
    requires ValidCell(p)
    ensures FixedSrc(r, FixedSrc(Inverse(r), p)) == p
  {
    match r
    case F => FixedUndoF(p);
    case FI => FixedUndoFI(p);
    case B => FixedUndoB(p);
    case BI => FixedUndoBI(p);
    case _ => SrcUndo(r, p);
  }

  lemma FixedSrcFour(r: Rotation, p: Cell)
    requires ValidCell(p)
    ensures FixedSrc(r, FixedSrc(r, FixedSrc(r, FixedSrc(r, p)))) == p
  {
    if r == F {
      FixedFourF(p);
    } else if r == B {
      FixedFourB(p);
    } else {
      SrcFour(r, p);
    }
  }

  /** With the correction any move followed by its inverse restores any grid. */
  lemma FixedTurnThenInverse(g: Grid<Color>, r: Rotation)
    requires WellFormed(g)
    ensures FixedTurn(FixedTurn(g, r), Inverse(r)) == g
  {
    var h := FixedTurn(FixedTurn(g, r), Inverse(r));
    forall p | ValidCell(p) ensures At(h, p) == At(g, p) {
      FixedTurnAt(FixedTurn(g, r), Inverse(r), p);
      FixedTurnAt(g, r, FixedSrc(Inverse(r), p));
      FixedSrcUndo(r, p);
    }
    GridEquality(h, g);
  }

  /** With the correction any move four times restores any grid. */
  lemma FixedTurnFourTimes(g: Grid<Color>, r: Rotation)
    requires WellFormed(g)
    ensures FixedTurn(FixedTurn(FixedTurn(FixedTurn(g, r), r), r), r) == g
  {
    var h1 := FixedTurn(g, r);
    var h2 := FixedTurn(h1, r);
    var h3 := FixedTurn(h2, r);
    var h4 := FixedTurn(h3, r);
    forall p | ValidCell(p) ensures At(h4, p) == At(g, p) {
      var p1 := FixedSrc(r, p);
      var p2 := FixedSrc(r, p1);
      var p3 := FixedSrc(r, p2);
      FixedTurnAt(h3, r, p);
      FixedTurnAt(h2, r, p1);
      FixedTurnAt(h1, r, p2);
      FixedTurnAt(g, r, p3);
      FixedSrcFour(r, p);
    }
    GridEquality(h4, g);
  }

  /** On a grid whose faces are each one colour (the initial state among them)
      the moves as written and as corrected agree, which is why the checks of
      the test program starting from the initial state hold for both. */
  lemma FixedAgreesOnUniform(g: Grid<Color>, r: Rotation)
    requires WellFormed(g) && FacesUniform(g)
    ensures FixedTurn(g, r) == Turn(g, r)
  {
    forall p | ValidCell(p) ensures At(FixedTurn(g, r), p) == At(Turn(g, r), p) {
      FixedTurnAt(g, r, p);
      TurnAt(g, r, p);
      FixedSameFace(r, p);
      UniformAt(g, FixedSrc(r, p), Src(r, p));
    }
    GridEquality(FixedTurn(g, r), Turn(g, r));
  }
}
