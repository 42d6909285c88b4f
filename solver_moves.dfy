/** The move engine of RubiksSolver.cpp (`Cube222::applyRotation` and
    `Cube222::rotateFace`) as a sticker permutation on values, with the laws it
    obeys. The class in module RubiksSolver performs these moves in place and is
    proved to compute exactly `Turn`. */
module SolverMoves {
  import opened Stickers

  datatype Color = RED | BLUE | ORANGE | GREEN | WHITE | YELLOW

  /** The eight quarter turns, in the order of the enumeration. */
  datatype Rotation = U | D | R | L | UI | DI | RI | LI

  /** The candidate list of `dfs`. */
  const AllRotations: seq<Rotation> := [U, D, R, L, UI, DI, RI, LI]

  function Inverse(r: Rotation): Rotation {
    match r
    case U => UI  case UI => U
    case D => DI  case DI => D
    case R => RI  case RI => R
    case L => LI  case LI => L
  }

  /** The face whose own stickers `applyRotation(r)` turns with `rotateFace`. */
  function TurnedFace(r: Rotation): Face {
    match r
    case U | UI => TOP
    case D | DI => BOTTOM
    case L | LI => LEFT
    case R | RI => RIGHT
  }

  /** The `clockwise` argument `applyRotation(r)` passes to `rotateFace`. */
  predicate IsClockwise(r: Rotation) {
    r == U || r == D || r == L || r == R
  }

  /** The cell whose sticker `applyRotation(r)` moves onto p. */
  function Src(r: Rotation, p: Cell): (q: Cell)
    ensures ValidCell(p) ==> ValidCell(q)
  {
    if !ValidCell(p) then p
    else if p.face == TurnedFace(r) then RotSrc(TurnedFace(r), IsClockwise(r), p)
    else match r
      case U => if p.row == 0 && IsSide(p.face) then Cell(NextSide(p.face), 0, p.col) else p
      case UI => if p.row == 0 && IsSide(p.face) then Cell(PrevSide(p.face), 0, p.col) else p
      case D => if p.row == 1 && IsSide(p.face) then Cell(NextSide(p.face), 1, p.col) else p
      case DI => if p.row == 1 && IsSide(p.face) then Cell(PrevSide(p.face), 1, p.col) else p
      case L =>
        if p.face == TOP && p.col == 0 then Cell(BACK, 1 - p.row, 1)
        else if p.face == BACK && p.col == 1 then Cell(BOTTOM, 1 - p.row, 0)
        else if p.face == BOTTOM && p.col == 0 then Cell(FRONT, p.row, 0)
        else if p.face == FRONT && p.col == 0 then Cell(TOP, p.row, 0)
        else p
      case LI =>
        if p.face == TOP && p.col == 0 then Cell(FRONT, p.row, 0)
        else if p.face == FRONT && p.col == 0 then Cell(BOTTOM, p.row, 0)
        else if p.face == BOTTOM && p.col == 0 then Cell(BACK, 1 - p.row, 1)
        else if p.face == BACK && p.col == 1 then Cell(TOP, 1 - p.row, 0)
        else p
      case R =>
        if p.face == TOP && p.col == 1 then Cell(FRONT, p.row, 1)
        else if p.face == FRONT && p.col == 1 then Cell(BOTTOM, p.row, 1)
        else if p.face == BOTTOM && p.col == 1 then Cell(BACK, 1 - p.row, 0)
        else if p.face == BACK && p.col == 0 then Cell(TOP, 1 - p.row, 1)
        else p
      case RI =>
        if p.face == TOP && p.col == 1 then Cell(BACK, 1 - p.row, 0)
        else if p.face == BACK && p.col == 0 then Cell(BOTTOM, 1 - p.row, 1)
        else if p.face == BOTTOM && p.col == 1 then Cell(FRONT, p.row, 1)
        else if p.face == FRONT && p.col == 1 then Cell(TOP, p.row, 1)
        else p
  }

  /** The grid after `applyRotation(m)`: every cell p holds the sticker that was
      on `Src(m, p)`. */
  function Turn(g: Grid<Color>, m: Rotation): (h: Grid<Color>)
    requires WellFormed(g)
    ensures WellFormed(h)
  {
    seq(FACES, f requires 0 <= f < FACES =>
      seq(ROWS, r requires 0 <= r < ROWS =>
        seq(COLS, c requires 0 <= c < COLS =>
          assert ValidCell(Cell(f, r, c)); At(g, Src(m, Cell(f, r, c))))))
  }

  lemma TurnAt(g: Grid<Color>, m: Rotation, p: Cell)
    requires WellFormed(g) && ValidCell(p)
    ensures At(Turn(g, m), p) == At(g, Src(m, p))
  {
  }

  /** The grid after `applySolution(w)`: the moves of w, first to last. */
  ghost function Run(g: Grid<Color>, w: seq<Rotation>): (h: Grid<Color>)
    requires WellFormed(g)
    ensures WellFormed(h)
    decreases |w|
  {
    if w == [] then g else Turn(Run(g, w[..|w| - 1]), w[|w| - 1])
  }

  /** The colour `setColorsToInitState` gives each face. */
  function HomeColor(f: Face): Color {
    if f == FRONT then BLUE
    else if f == RIGHT then RED
    else if f == TOP then YELLOW
    else if f == BOTTOM then WHITE
    else if f == BACK then GREEN
    else ORANGE
  }

  /** The grid `setColorsToInitState` leaves: every face in its home colour. */
  function InitialGrid(): (g: Grid<Color>)
    ensures WellFormed(g) && FacesUniform(g)
    ensures forall p :: ValidCell(p) ==> At(g, p) == HomeColor(p.face)
  {
    [Solid(YELLOW), Solid(BLUE), Solid(RED), Solid(WHITE), Solid(GREEN), Solid(ORANGE)]
  }

  // ---------------------------------------------------------------------------
  // How `applyRotation` computes a move: the face turn, then the rows or the
  // columns around the face, statement by statement

  predicate IsRowMove(r: Rotation) {
    r == U || r == UI || r == D || r == DI
  }

  predicate IsColumnMove(r: Rotation) {
    r == L || r == LI || r == R || r == RI
  }

  /** The row of the side faces a row move cycles: 0 for U and UI, 1 for D and DI. */
  function RowOf(r: Rotation): int
    requires IsRowMove(r)
  {
    if r == U || r == UI then 0 else 1
  }

  /** The U and D branches: the turned face, then FRONT takes RIGHT's row, RIGHT
      BACK's, BACK LEFT's and LEFT FRONT's; UI and DI run the cycle the other way. */
  lemma TurnByRows(g: Grid<Color>, r: Rotation)
    requires WellFormed(g) && IsRowMove(r)
    ensures Turn(g, r) ==
      if IsClockwise(r) then CycleRows(FaceTurn(g, TurnedFace(r), true), RowOf(r), FRONT, RIGHT, BACK, LEFT)
      else CycleRows(FaceTurn(g, TurnedFace(r), false), RowOf(r), FRONT, LEFT, BACK, RIGHT)
  {
    var t := FaceTurn(g, TurnedFace(r), IsClockwise(r));
    var b, d := if IsClockwise(r) then RIGHT else LEFT, if IsClockwise(r) then LEFT else RIGHT;
    var h := CycleRows(t, RowOf(r), FRONT, b, BACK, d);
    forall q | ValidCell(q) ensures At(h, q) == At(Turn(g, r), q) {
      CycleRowsAt(t, RowOf(r), FRONT, b, BACK, d, q);
      TurnAt(g, r, q);
      FaceTurnAt(g, TurnedFace(r), IsClockwise(r), q);
      FaceTurnAt(g, TurnedFace(r), IsClockwise(r), Cell(NextSide(q.face), q.row, q.col));
      FaceTurnAt(g, TurnedFace(r), IsClockwise(r), Cell(PrevSide(q.face), q.row, q.col));
    }
    GridEquality(h, Turn(g, r));
  }

  /** Pass i of the column loop of a column move on g: four stickers move one
      place along the lane, the last taking `tempColumn[i]`, the colour that the
      TOP cell of the lane had in t, the grid before the loop. */
  function ColumnPass(g: Grid<Color>, t: Grid<Color>, r: Rotation, i: int): (h: Grid<Color>)
    requires WellFormed(g) && WellFormed(t) && IsColumnMove(r) && 0 <= i < COLS
    ensures WellFormed(h)
  {
    match r
    case L => ShiftCells(g, Cell(TOP, i, 0), Cell(BACK, 1 - i, 1), Cell(BOTTOM, i, 0), Cell(FRONT, i, 0), t[TOP][i][0])
    case LI => ShiftCells(g, Cell(TOP, i, 0), Cell(FRONT, i, 0), Cell(BOTTOM, i, 0), Cell(BACK, 1 - i, 1), t[TOP][i][0])
    case R => ShiftCells(g, Cell(TOP, i, 1), Cell(FRONT, i, 1), Cell(BOTTOM, i, 1), Cell(BACK, 1 - i, 0), t[TOP][i][1])
    case RI => ShiftCells(g, Cell(TOP, i, 1), Cell(BACK, 1 - i, 0), Cell(BOTTOM, i, 1), Cell(FRONT, i, 1), t[TOP][i][1])
  }

  /** The grid after the first n passes of the column loop, starting from t. */
  function Sweep(t: Grid<Color>, r: Rotation, n: int): (h: Grid<Color>)
    requires WellFormed(t) && IsColumnMove(r) && 0 <= n <= COLS
    ensures WellFormed(h)
    decreases n
  {
    if n == 0 then t else ColumnPass(Sweep(t, r, n - 1), t, r, n - 1)
  }

  /** The column of TOP a column move's loop saves in `tempColumn`. */
  function ColOf(r: Rotation): int
    requires IsColumnMove(r)
  {
    if r == L || r == LI then 0 else 1
  }

  /** The first pass leaves the TOP cell of the second lane alone, so the saved
      `tempColumn[i]` is still the colour on that cell when pass i starts. */
  lemma SweepKeepsTop(t: Grid<Color>, r: Rotation, i: int)
    requires WellFormed(t) && IsColumnMove(r) && 0 <= i < COLS
    ensures Sweep(t, r, i)[TOP][i][ColOf(r)] == t[TOP][i][ColOf(r)]
  {
    if i == 1 {
      var q := Cell(TOP, 1, ColOf(r));
      match r
      case L => ShiftCellsAt(t, Cell(TOP, 0, 0), Cell(BACK, 1, 1), Cell(BOTTOM, 0, 0), Cell(FRONT, 0, 0), t[TOP][0][0], q);
      case LI => ShiftCellsAt(t, Cell(TOP, 0, 0), Cell(FRONT, 0, 0), Cell(BOTTOM, 0, 0), Cell(BACK, 1, 1), t[TOP][0][0], q);
      case R => ShiftCellsAt(t, Cell(TOP, 0, 1), Cell(FRONT, 0, 1), Cell(BOTTOM, 0, 1), Cell(BACK, 1, 0), t[TOP][0][1], q);
      case RI => ShiftCellsAt(t, Cell(TOP, 0, 1), Cell(BACK, 1, 0), Cell(BOTTOM, 0, 1), Cell(FRONT, 0, 1), t[TOP][0][1], q);
    }
  }

  /** The L and R branches: the turned face, then both passes of the column loop. */
  lemma TurnByColumns(g: Grid<Color>, r: Rotation)
    requires WellFormed(g) && IsColumnMove(r)
    ensures Turn(g, r) == Sweep(FaceTurn(g, TurnedFace(r), IsClockwise(r)), r, COLS)
  {
    match r
    case L => TurnByColumnsL(g);
    case LI => TurnByColumnsLI(g);
    case R => TurnByColumnsR(g);
    case RI => TurnByColumnsRI(g);
  }

  lemma TurnByColumnsL(g: Grid<Color>)
    requires WellFormed(g)
    ensures Turn(g, L) == Sweep(FaceTurn(g, LEFT, true), L, COLS)
  {
    var s2 := Sweep(FaceTurn(g, LEFT, true), L, COLS);
    forall q | ValidCell(q) ensures At(s2, q) == At(Turn(g, L), q) {
      ColumnsAtL(g, q);
    }
    GridEquality(s2, Turn(g, L));
  }

  lemma ColumnsAtL(g: Grid<Color>, q: Cell)
    requires WellFormed(g) && ValidCell(q)
    ensures At(Sweep(FaceTurn(g, LEFT, true), L, COLS), q) == At(Turn(g, L), q)
  {
    var t := FaceTurn(g, LEFT, true);
    var s1 := ColumnPass(t, t, L, 0);
    var s2 := ColumnPass(s1, t, L, 1);
    assert Sweep(t, L, COLS) == s2;
    ShiftCellsAt(s1, Cell(TOP, 1, 0), Cell(BACK, 0, 1), Cell(BOTTOM, 1, 0), Cell(FRONT, 1, 0), t[TOP][1][0], q);
    ShiftCellsAt(t, Cell(TOP, 0, 0), Cell(BACK, 1, 1), Cell(BOTTOM, 0, 0), Cell(FRONT, 0, 0), t[TOP][0][0], q);
    TurnAt(g, L, q);
    FaceTurnAt(g, LEFT, true, Src(L, q));
    FaceTurnAt(g, LEFT, true, q);
  }

  lemma TurnByColumnsLI(g: Grid<Color>)
    requires WellFormed(g)
    ensures Turn(g, LI) == Sweep(FaceTurn(g, LEFT, false), LI, COLS)
  {
    var s2 := Sweep(FaceTurn(g, LEFT, false), LI, COLS);
    forall q | ValidCell(q) ensures At(s2, q) == At(Turn(g, LI), q) {
      ColumnsAtLI(g, q);
    }
    GridEquality(s2, Turn(g, LI));
  }

  lemma ColumnsAtLI(g: Grid<Color>, q: Cell)
    requires WellFormed(g) && ValidCell(q)
    ensures At(Sweep(FaceTurn(g, LEFT, false), LI, COLS), q) == At(Turn(g, LI), q)
  {
    var t := FaceTurn(g, LEFT, false);
    var s1 := ColumnPass(t, t, LI, 0);
    var s2 := ColumnPass(s1, t, LI, 1);
    assert Sweep(t, LI, COLS) == s2;
    ShiftCellsAt(s1, Cell(TOP, 1, 0), Cell(FRONT, 1, 0), Cell(BOTTOM, 1, 0), Cell(BACK, 0, 1), t[TOP][1][0], q);
    ShiftCellsAt(t, Cell(TOP, 0, 0), Cell(FRONT, 0, 0), Cell(BOTTOM, 0, 0), Cell(BACK, 1, 1), t[TOP][0][0], q);
    TurnAt(g, LI, q);
    FaceTurnAt(g, LEFT, false, Src(LI, q));
    FaceTurnAt(g, LEFT, false, q);
  }

  lemma TurnByColumnsR(g: Grid<Color>)
    requires WellFormed(g)
    ensures Turn(g, R) == Sweep(FaceTurn(g, RIGHT, true), R, COLS)
  {
    var s2 := Sweep(FaceTurn(g, RIGHT, true), R, COLS);
    forall q | ValidCell(q) ensures At(s2, q) == At(Turn(g, R), q) {
      ColumnsAtR(g, q);
    }
    GridEquality(s2, Turn(g, R));
  }

  lemma ColumnsAtR(g: Grid<Color>, q: Cell)
    requires WellFormed(g) && ValidCell(q)
    ensures At(Sweep(FaceTurn(g, RIGHT, true), R, COLS), q) == At(Turn(g, R), q)
  {
    var t := FaceTurn(g, RIGHT, true);
    var s1 := ColumnPass(t, t, R, 0);
    var s2 := ColumnPass(s1, t, R, 1);
    assert Sweep(t, R, COLS) == s2;
    ShiftCellsAt(s1, Cell(TOP, 1, 1), Cell(FRONT, 1, 1), Cell(BOTTOM, 1, 1), Cell(BACK, 0, 0), t[TOP][1][1], q);
    ShiftCellsAt(t, Cell(TOP, 0, 1), Cell(FRONT, 0, 1), Cell(BOTTOM, 0, 1), Cell(BACK, 1, 0), t[TOP][0][1], q);
    TurnAt(g, R, q);
    FaceTurnAt(g, RIGHT, true, Src(R, q));
    FaceTurnAt(g, RIGHT, true, q);
  }

  lemma TurnByColumnsRI(g: Grid<Color>)
    requires WellFormed(g)
    ensures Turn(g, RI) == Sweep(FaceTurn(g, RIGHT, false), RI, COLS)
  {
    var s2 := Sweep(FaceTurn(g, RIGHT, false), RI, COLS);
    forall q | ValidCell(q) ensures At(s2, q) == At(Turn(g, RI), q) {
      ColumnsAtRI(g, q);
    }
    GridEquality(s2, Turn(g, RI));
  }

  lemma ColumnsAtRI(g: Grid<Color>, q: Cell)
    requires WellFormed(g) && ValidCell(q)
    ensures At(Sweep(FaceTurn(g, RIGHT, false), RI, COLS), q) == At(Turn(g, RI), q)
  {
    var t := FaceTurn(g, RIGHT, false);
    var s1 := ColumnPass(t, t, RI, 0);
    var s2 := ColumnPass(s1, t, RI, 1);
    assert Sweep(t, RI, COLS) == s2;
    ShiftCellsAt(s1, Cell(TOP, 1, 1), Cell(BACK, 0, 0), Cell(BOTTOM, 1, 1), Cell(FRONT, 1, 1), t[TOP][1][1], q);
    ShiftCellsAt(t, Cell(TOP, 0, 1), Cell(BACK, 1, 0), Cell(BOTTOM, 0, 1), Cell(FRONT, 0, 1), t[TOP][0][1], q);
    TurnAt(g, RI, q);
    FaceTurnAt(g, RIGHT, false, Src(RI, q));
    FaceTurnAt(g, RIGHT, false, q);
  }

  /** `getColor(face, row, col)`: out-of-range reads yield WHITE. */
  function ReadColor(g: Grid<Color>, face: Face, row: int, col: int): Color
    requires WellFormed(g)
  {
    if InBounds(row, col) then g[face][row][col] else WHITE
  }

  /** `setColor(face, row, col, color)`: out-of-range writes change nothing. */
  function WriteColor(g: Grid<Color>, face: Face, row: int, col: int, x: Color): (h: Grid<Color>)
    requires WellFormed(g)
    ensures WellFormed(h)
  {
    if InBounds(row, col) then Update(g, Cell(face, row, col), x) else g
  }

  // ---------------------------------------------------------------------------
  // Laws of the move engine

  /** The cells a move can change, as the branches of `applyRotation` name them:
      U/UI the TOP face and row 0 of the four side faces, D/DI the BOTTOM face
      and row 1 of the side faces, L/LI the LEFT face, column 0 of TOP, FRONT and
      BOTTOM and column 1 of BACK, R/RI the mirror image of that. */
  predicate Touches(r: Rotation, p: Cell) {
    match r
    case U | UI => p.face == TOP || (IsSide(p.face) && p.row == 0)
    case D | DI => p.face == BOTTOM || (IsSide(p.face) && p.row == 1)
    case L | LI =>
      p.face == LEFT || (p.face == BACK && p.col == 1) ||
      ((p.face == TOP || p.face == FRONT || p.face == BOTTOM) && p.col == 0)
    case R | RI =>
      p.face == RIGHT || (p.face == BACK && p.col == 0) ||
      ((p.face == TOP || p.face == FRONT || p.face == BOTTOM) && p.col == 1)
  }

  /** A move moves a sticker onto p exactly when p lies in the layer it turns. */
  lemma SrcSupport(r: Rotation, p: Cell)
    requires ValidCell(p)
    ensures Src(r, p) != p <==> Touches(r, p)
  {
    match r
    case U => case UI => case D => case DI =>
    case L => case LI => case R => case RI =>
  }

  /** Nothing outside the turned layer changes. */
  lemma TurnFrame(g: Grid<Color>, r: Rotation)
    requires WellFormed(g)
    ensures forall p :: ValidCell(p) && !Touches(r, p) ==> At(Turn(g, r), p) == At(g, p)
  {
    forall p | ValidCell(p) && !Touches(r, p) ensures At(Turn(g, r), p) == At(g, p) {
      SrcSupport(r, p);
      TurnAt(g, r, p);
    }
  }

  /** In particular L and LI leave the RIGHT face alone, and R and RI the LEFT face. */
  lemma TurnSparesOppositeFace(g: Grid<Color>, r: Rotation, p: Cell)
    requires WellFormed(g) && ValidCell(p)
    requires (p.face == RIGHT && (r == L || r == LI)) || (p.face == LEFT && (r == R || r == RI))
    ensures At(Turn(g, r), p) == At(g, p)
  {
    SrcSupport(r, p);
    TurnAt(g, r, p);
  }

  lemma InverseInvolution(r: Rotation)
    ensures Inverse(Inverse(r)) == r
  {
    match r
    case U => case UI => case D => case DI =>
    case L => case LI => case R => case RI =>
  }

  /** The inverse move takes every sticker back: one lemma per move keeps each
      case analysis small. */
  lemma SrcInverseU(p: Cell) requires ValidCell(p) ensures Src(U, Src(UI, p)) == p {}
  lemma SrcInverseUI(p: Cell) requires ValidCell(p) ensures Src(UI, Src(U, p)) == p {}
  lemma SrcInverseD(p: Cell) requires ValidCell(p) ensures Src(D, Src(DI, p)) == p {}
  lemma SrcInverseDI(p: Cell) requires ValidCell(p) ensures Src(DI, Src(D, p)) == p {}
  lemma SrcInverseL(p: Cell) requires ValidCell(p) ensures Src(L, Src(LI, p)) == p {}
  lemma SrcInverseLI(p: Cell) requires ValidCell(p) ensures Src(LI, Src(L, p)) == p {}
  lemma SrcInverseR(p: Cell) requires ValidCell(p) ensures Src(R, Src(RI, p)) == p {}
  lemma SrcInverseRI(p: Cell) requires ValidCell(p) ensures Src(RI, Src(R, p)) == p {}

  lemma SrcInverse(r: Rotation, p: Cell)
    requires ValidCell(p)
    ensures Src(r, Src(Inverse(r), p)) == p
  {
    match r
    case U => SrcInverseU(p);   case UI => SrcInverseUI(p);
    case D => SrcInverseD(p);   case DI => SrcInverseDI(p);
    case L => SrcInverseL(p);   case LI => SrcInverseLI(p);
    case R => SrcInverseR(p);   case RI => SrcInverseRI(p);
  }

  /** Two quarter turns of one layer are two quarter turns back: a half turn. */
  lemma SrcHalfU(p: Cell) requires ValidCell(p) ensures Src(U, Src(U, p)) == Src(UI, Src(UI, p)) {}
  lemma SrcHalfD(p: Cell) requires ValidCell(p) ensures Src(D, Src(D, p)) == Src(DI, Src(DI, p)) {}
  lemma SrcHalfL(p: Cell) requires ValidCell(p) ensures Src(L, Src(L, p)) == Src(LI, Src(LI, p)) {}
  lemma SrcHalfR(p: Cell) requires ValidCell(p) ensures Src(R, Src(R, p)) == Src(RI, Src(RI, p)) {}

  lemma SrcHalf(r: Rotation, p: Cell)
    requires ValidCell(p)
    ensures Src(r, Src(r, p)) == Src(Inverse(r), Src(Inverse(r), p))
  {
    match r
    case U => SrcHalfU(p);   case UI => SrcHalfU(p);
    case D => SrcHalfD(p);   case DI => SrcHalfD(p);
    case L => SrcHalfL(p);   case LI => SrcHalfL(p);
    case R => SrcHalfR(p);   case RI => SrcHalfR(p);
  }

  /** Four quarter turns of one layer take every sticker back to its cell: the
      last two undo the first two, read as a half turn back. */
  lemma SrcFourTimes(r: Rotation, p: Cell)
    requires ValidCell(p)
    ensures Src(r, Src(r, Src(r, Src(r, p)))) == p
  {
    var back := Src(Inverse(r), p);
    SrcHalf(r, p);
    SrcInverse(r, back);
    SrcInverse(r, p);
  }

  /** A move followed by its inverse restores any grid. */
  lemma TurnThenInverse(g: Grid<Color>, r: Rotation)
    requires WellFormed(g)
    ensures Turn(Turn(g, r), Inverse(r)) == g
  {
    var h1 := Turn(g, r);
    var h2 := Turn(h1, Inverse(r));
    forall p | ValidCell(p) ensures At(h2, p) == At(g, p) {
      var q := Src(Inverse(r), p);
      TurnAt(h1, Inverse(r), p);
      TurnAt(g, r, q);
      SrcInverse(r, p);
    }
    GridEquality(h2, g);
  }

  /** ... and so does the inverse followed by the move. */
  lemma InverseThenTurn(g: Grid<Color>, r: Rotation)
    requires WellFormed(g)
    ensures Turn(Turn(g, Inverse(r)), r) == g
  {
    InverseInvolution(r);
    TurnThenInverse(g, Inverse(r));
  }

  /** Any move applied four times in a row restores any grid. */
  lemma TurnFourTimes(g: Grid<Color>, r: Rotation)
    requires WellFormed(g)
    ensures Run(g, [r, r, r, r]) == g
  {
    var w := [r, r, r, r];
    assert w[..3] == [r, r, r] && [r, r, r][..2] == [r, r] && [r, r][..1] == [r] && [r][..0] == [];
    var h1 := Turn(g, r);
    var h2 := Turn(h1, r);
    var h3 := Turn(h2, r);
    var h4 := Turn(h3, r);
    assert Run(g, [r]) == h1;
    assert Run(g, [r, r]) == h2;
    assert Run(g, [r, r, r]) == h3;
    assert Run(g, w) == h4;
    forall p | ValidCell(p) ensures At(h4, p) == At(g, p) {
      var p1 := Src(r, p);
      var p2 := Src(r, p1);
      var p3 := Src(r, p2);
      TurnAt(h3, r, p);
      TurnAt(h2, r, p1);
      TurnAt(h1, r, p2);
      TurnAt(g, r, p3);
      SrcFourTimes(r, p);
    }
    GridEquality(h4, g);
  }

  lemma {:induction false} RunAppend(g: Grid<Color>, a: seq<Rotation>, b: seq<Rotation>)
    requires WellFormed(g)
    ensures Run(g, a + b) == Run(Run(g, a), b)
    decreases |b|
  {
    if b == [] {
      assert a + b == a;
    } else {
      var b' := b[..|b| - 1];
      assert (a + b)[..|a + b| - 1] == a + b';
      RunAppend(g, a, b');
    }
  }

  /** A word runs as its first move and then the rest of it. */
  lemma RunFirst(g: Grid<Color>, w: seq<Rotation>)
    requires WellFormed(g) && w != []
    ensures Run(g, w) == Run(Turn(g, w[0]), w[1..])
  {
    assert w == [w[0]] + w[1..];
    assert [w[0]][..0] == [];
    assert Run(g, [w[0]]) == Turn(g, w[0]);
    RunAppend(g, [w[0]], w[1..]);
  }

  /** The word that undoes w: the inverses of its moves in reverse order. */
  function InverseWord(w: seq<Rotation>): (v: seq<Rotation>)
    ensures |v| == |w|
  {
    if w == [] then [] else [Inverse(w[|w| - 1])] + InverseWord(w[..|w| - 1])
  }

  /** Any move sequence followed by its inverse word restores any grid; the tests
      `SuperflipEquivalent` and `CommutatorPattern` are two instances. */
  lemma {:induction false} RunInverseWord(g: Grid<Color>, w: seq<Rotation>)
    requires WellFormed(g)
    ensures Run(g, w + InverseWord(w)) == g
    decreases |w|
  {
    if w != [] {
      var w', m := w[..|w| - 1], w[|w| - 1];
      var pair := [m, Inverse(m)];
      assert w == w' + [m];
      assert w + InverseWord(w) == (w' + pair) + InverseWord(w');
      var x := Run(g, w');
      assert pair[..1] == [m] && [m][..0] == [];
      assert Run(x, [m]) == Turn(x, m);
      assert Run(x, pair) == Turn(Turn(x, m), Inverse(m));
      TurnThenInverse(x, m);
      RunAppend(g, w', pair);
      RunAppend(g, w' + pair, InverseWord(w'));
      RunAppend(g, w', InverseWord(w'));
      RunInverseWord(g, w');
    }
  }

  lemma HomeColorInjective(f: Face, f': Face)
    ensures HomeColor(f) == HomeColor(f') ==> f == f'
  {
  }

  /** A move that brings two stickers from different faces onto one face of a
      grid in home colours leaves that face mixed. */
  lemma TurnMixes(g: Grid<Color>, r: Rotation, p: Cell)
    requires WellFormed(g) && ValidCell(p)
    requires forall q :: ValidCell(q) ==> At(g, q) == HomeColor(q.face)
    requires Src(r, p).face != Src(r, Cell(p.face, 0, 0)).face
    ensures !FacesUniform(Turn(g, r))
  {
    var h := Turn(g, r);
    var a, b := Src(r, p), Src(r, Cell(p.face, 0, 0));
    HomeColorInjective(a.face, b.face);
    TurnAt(g, r, p);
    TurnAt(g, r, Cell(p.face, 0, 0));
    assert At(h, p) == HomeColor(a.face);
    assert At(h, Cell(p.face, 0, 0)) == HomeColor(b.face);
    Mixed(h, p);
  }

  /** From the initial state every single move leaves a face mixed
      (test_rubiks_solver.cpp `SingleRotationChangesState` checks U). */
  lemma SingleTurnUnsolves(r: Rotation)
    ensures !FacesUniform(Turn(InitialGrid(), r))
  {
    var p, q := Cell(FRONT, 1, 0), Cell(FRONT, 0, 1);
    match r
    case U | UI | D | DI => TurnMixes(InitialGrid(), r, p);
    case L | LI | R | RI => TurnMixes(InitialGrid(), r, q);
  }

  /** Reading back a written cell yields the written colour; every other cell,
      and every cell after an out-of-range write, reads as before; an out-of-range
      read yields WHITE. */
  lemma ReadAfterWrite(g: Grid<Color>, face: Face, row: int, col: int, x: Color,
                       face': Face, row': int, col': int)
    requires WellFormed(g)
    ensures ReadColor(WriteColor(g, face, row, col, x), face', row', col') ==
      if InBounds(row, col) && face' == face && row' == row && col' == col then x
      else ReadColor(g, face', row', col')
    ensures !InBounds(row, col) ==> WriteColor(g, face, row, col, x) == g
    ensures !InBounds(row', col') ==> ReadColor(g, face', row', col') == WHITE
  {
    if InBounds(row, col) && InBounds(row', col') {
      assert At(WriteColor(g, face, row, col, x), Cell(face', row', col')) ==
        if Cell(face', row', col') == Cell(face, row, col) then x else At(g, Cell(face', row', col'));
    }
  }
}
