/** The `TestCube` class of RubiksSolverTests.cpp: a sticker grid changed in
    place by twelve quarter turns. Every method is proved to leave exactly the
    grid the value functions of module TestMoves describe, so the laws proved
    there (a move and its inverse, four moves, R U RI UI six times) are laws of
    the class. */
module RubiksSolverTests {
  import opened Stickers
  import opened TestMoves

  class TestCube {
    /** `_matrix[face][row][col]`. */
    var matrix: Grid<Color>

    ghost predicate Valid()
      reads this
    {
      WellFormed(matrix)
    }

    /** `TestCube()`: every sticker starts WHITE, then the initial state. */
    constructor()
      ensures Valid() && matrix == InitialGrid()
    {
      matrix := seq(FACES, _ => seq(ROWS, _ => seq(COLS, _ => WHITE)));
      new;
      SetColorsToInitState();
    }

    /** `setColorsToInitState`: every face painted its home colour. */
    method SetColorsToInitState()
      requires Valid()
      modifies this
      ensures Valid() && matrix == InitialGrid()
    {
      SetColor(FRONT, BLUE);
      SetColor(RIGHT, RED);
      SetColor(TOP, YELLOW);
      SetColor(BOTTOM, WHITE);
      SetColor(BACK, GREEN);
      SetColor(LEFT, ORANGE);
      GridEquality(matrix, InitialGrid());
    }

    /** `setColor(face, color)`: every cell of the face, row by row. */
    method SetColor(face: Face, color: Color)
      requires Valid()
      modifies this
      ensures Valid() && matrix == Paint(old(matrix), face, color)
    {
      for r := 0 to ROWS
        invariant WellFormed(matrix)
        invariant forall p :: ValidCell(p) ==>
          At(matrix, p) == if p.face == face && p.row < r then color else At(old(matrix), p)
      {
        for c := 0 to COLS
          invariant WellFormed(matrix)
          invariant forall p :: ValidCell(p) ==>
            At(matrix, p) == if p.face == face && (p.row < r || (p.row == r && p.col < c)) then color
                             else At(old(matrix), p)
        {
          matrix := Update(matrix, Cell(face, r, c), color);
        }
      }
      GridEquality(matrix, Paint(old(matrix), face, color));
    }

    /** `equals(other)`: true exactly when every sticker matches. */
    method Equals(other: TestCube) returns (eq: bool)
      requires Valid() && other.Valid()
      ensures eq <==> matrix == other.matrix
    {
      for f := 0 to FACES
        invariant forall p :: ValidCell(p) && p.face < f ==> At(matrix, p) == At(other.matrix, p)
      {
        for r := 0 to ROWS
          invariant forall p :: ValidCell(p) && (p.face < f || (p.face == f && p.row < r)) ==>
            At(matrix, p) == At(other.matrix, p)
        {
          for c := 0 to COLS
            invariant forall p :: ValidCell(p) && (p.face < f || (p.face == f && (p.row < r || (p.row == r && p.col < c)))) ==>
              At(matrix, p) == At(other.matrix, p)
          {
            if matrix[f][r][c] != other.matrix[f][r][c] {
              return false;
            }
          }
        }
      }
      GridEquality(matrix, other.matrix);
      return true;
    }

    /** `rotateFace(face, clockwise)`: a quarter turn of the face's own stickers. */
    method RotateFace(face: Face, clockwise: bool)
      requires Valid()
      modifies this
      ensures Valid() && matrix == FaceTurn(old(matrix), face, clockwise)
    {
      var temp := matrix[face][0][0];
      if clockwise {
        matrix := Update(matrix, Cell(face, 0, 0), matrix[face][1][0]);
        matrix := Update(matrix, Cell(face, 1, 0), matrix[face][1][1]);
        matrix := Update(matrix, Cell(face, 1, 1), matrix[face][0][1]);
        matrix := Update(matrix, Cell(face, 0, 1), temp);
      } else {
        matrix := Update(matrix, Cell(face, 0, 0), matrix[face][0][1]);
        matrix := Update(matrix, Cell(face, 0, 1), matrix[face][1][1]);
        matrix := Update(matrix, Cell(face, 1, 1), matrix[face][1][0]);
        matrix := Update(matrix, Cell(face, 1, 0), temp);
      }
      FaceAgreeEqual(matrix[face], QuarterTurn(old(matrix)[face], clockwise));
      assert matrix == old(matrix)[face := matrix[face]];
    }

    /** `applyRotation(r)`: one branch per layer, the face turn and then the
        rows, columns or strips around it. */
    method ApplyRotation(r: Rotation)
      requires Valid()
      modifies this
      ensures Valid() && matrix == Turn(old(matrix), r)
    {
      if r == U || r == UI {
        TurnTopLayer(r);
      } else if r == D || r == DI {
        TurnBottomLayer(r);
      } else if r == L || r == LI {
        TurnLeftLayer(r);
      } else if r == R || r == RI {
        TurnRightLayer(r);
      } else if r == F || r == FI {
        TurnFrontLayer(r);
      } else {
        TurnBackLayer(r);
      }
    }

    /** `applySolution(solution)`: the moves in order. */
    method ApplySolution(solution: seq<Rotation>)
      requires Valid()
      modifies this
      ensures Valid() && matrix == Run(old(matrix), solution)
    {
      for i := 0 to |solution|
        invariant Valid() && matrix == Run(old(matrix), solution[..i])
      {
        ApplyRotation(solution[i]);
        assert solution[..i + 1][..i] == solution[..i];
      }
      assert solution[..|solution|] == solution;
    }

    /** The U/UI branch: TOP turns, then the top rows of the side faces cycle,
        FRONT taking RIGHT's for U and LEFT's for UI. */
    method TurnTopLayer(r: Rotation)
      requires Valid() && (r == U || r == UI)
      modifies this
      ensures Valid() && matrix == Turn(old(matrix), r)
    {
      RotateFace(TOP, r == U);
      if r == U {
        CycleSideRows(0, FRONT, RIGHT, BACK, LEFT);
      } else {
        CycleSideRows(0, FRONT, LEFT, BACK, RIGHT);
      }
      TurnByRows(old(matrix), r);
    }

    /** The D/DI branch: BOTTOM turns, then the bottom rows of the side faces
        cycle, FRONT taking LEFT's for D and RIGHT's for DI. */
    method TurnBottomLayer(r: Rotation)
      requires Valid() && (r == D || r == DI)
      modifies this
      ensures Valid() && matrix == Turn(old(matrix), r)
    {
      RotateFace(BOTTOM, r == D);
      if r == D {
        CycleSideRows(1, FRONT, LEFT, BACK, RIGHT);
      } else {
        CycleSideRows(1, FRONT, RIGHT, BACK, LEFT);
      }
      TurnByRows(old(matrix), r);
    }

    /** The row assignments of a U or D branch: `tempRow` keeps row `row` of a,
        then a takes b's row, b c's, c d's, and d the saved row. */
    method CycleSideRows(row: int, a: Face, b: Face, c: Face, d: Face)
      requires Valid() && 0 <= row < ROWS
      modifies this
      ensures Valid() && matrix == CycleRows(old(matrix), row, a, b, c, d)
    {
      var tempRow := matrix[a][row];
      matrix := UpdateRow(matrix, a, row, matrix[b][row]);
      matrix := UpdateRow(matrix, b, row, matrix[c][row]);
      matrix := UpdateRow(matrix, c, row, matrix[d][row]);
      matrix := UpdateRow(matrix, d, row, tempRow);
    }

    /** The L/LI branch: LEFT turns, TOP's column 0 is saved, then the loop. */
    method TurnLeftLayer(r: Rotation)
      requires Valid() && (r == L || r == LI)
      modifies this
      ensures Valid() && matrix == Turn(old(matrix), r)
    {
      ghost var g := matrix;
      assert TurnedFace(r) == LEFT && IsClockwise(r) == (r == L);
      RotateFace(LEFT, r == L);
      SweepLeftColumns(r, g);
    }

    /** The R/RI branch: RIGHT turns, TOP's column 1 is saved, then the loop. */
    method TurnRightLayer(r: Rotation)
      requires Valid() && (r == R || r == RI)
      modifies this
      ensures Valid() && matrix == Turn(old(matrix), r)
    {
      ghost var g := matrix;
      assert TurnedFace(r) == RIGHT && IsClockwise(r) == (r == R);
      RotateFace(RIGHT, r == R);
      SweepRightColumns(r, g);
    }

    /** The F/FI branch: FRONT turns, TOP's row 1 is saved, then the loop. */
    method TurnFrontLayer(r: Rotation)
      requires Valid() && (r == F || r == FI)
      modifies this
      ensures Valid() && matrix == Turn(old(matrix), r)
    {
      ghost var g := matrix;
      assert TurnedFace(r) == FRONT && IsClockwise(r) == (r == F);
      RotateFace(FRONT, r == F);
      SweepFrontStrips(r, g);
    }

    /** The B/BI branch: BACK turns, TOP's row 0 is saved, then the loop. */
    method TurnBackLayer(r: Rotation)
      requires Valid() && (r == B || r == BI)
      modifies this
      ensures Valid() && matrix == Turn(old(matrix), r)
    {
      ghost var g := matrix;
      assert TurnedFace(r) == BACK && IsClockwise(r) == (r == B);
      RotateFace(BACK, r == B);
      SweepBackStrips(r, g);
    }

    /** One pass of a strip loop: p0 takes the sticker on p1, p1 the one on
        p2, p2 the one on p3, and p3 the saved colour x. */
    method ShiftLane(p0: Cell, p1: Cell, p2: Cell, p3: Cell, x: Color)
      requires Valid() && ValidCell(p0) && ValidCell(p1) && ValidCell(p2) && ValidCell(p3)
      modifies this
      ensures Valid() && matrix == ShiftCells(old(matrix), p0, p1, p2, p3, x)
    {
      matrix := Update(matrix, p0, At(matrix, p1));
      matrix := Update(matrix, p1, At(matrix, p2));
      matrix := Update(matrix, p2, At(matrix, p3));
      matrix := Update(matrix, p3, x);
    }

    /** The loop filling `tempColumn` with column `col` of TOP. */
    method SaveTopColumn(col: int) returns (tempColumn: seq<Color>)
      requires Valid() && 0 <= col < COLS
      ensures tempColumn == [matrix[TOP][0][col], matrix[TOP][1][col]]
    {
      tempColumn := seq(COLS, _ => RED);
      for i := 0 to COLS
        invariant |tempColumn| == COLS
        invariant forall j :: 0 <= j < i ==> tempColumn[j] == matrix[TOP][j][col]
      {
        tempColumn := tempColumn[i := matrix[TOP][i][col]];
      }
    }

    /** The loop filling `tempTop` with row `row` of TOP. */
    method SaveTopRow(row: int) returns (tempTop: seq<Color>)
      requires Valid() && 0 <= row < ROWS
      ensures tempTop == matrix[TOP][row]
    {
      tempTop := seq(COLS, _ => RED);
      for i := 0 to COLS
        invariant |tempTop| == COLS
        invariant forall j :: 0 <= j < i ==> tempTop[j] == matrix[TOP][row][j]
      {
        tempTop := tempTop[i := matrix[TOP][row][i]];
      }
    }

    /** TOP's column 0 is saved, then the loop of the L/LI branch moves column 0
        of TOP, FRONT and BOTTOM and column 1 of BACK (upside down) one face
        along; after LEFT's own turn `g`, that completes the move. */
    method SweepLeftColumns(r: Rotation, ghost g: Grid<Color>)
      requires Valid() && (r == L || r == LI) && WellFormed(g)
      requires matrix == FaceTurn(g, TurnedFace(r), IsClockwise(r))
      modifies this
      ensures Valid() && matrix == Turn(g, r)
    {
      var tempColumn := SaveTopColumn(0);
      if r == L {
        for i := 0 to COLS
          invariant matrix == Sweep(old(matrix), L, i)
        {
          ShiftLane(Cell(TOP, i, 0), Cell(BACK, 1 - i, 1), Cell(BOTTOM, i, 0), Cell(FRONT, i, 0), tempColumn[i]);
        }
        SweptTurn(g, old(matrix), matrix, L);
      } else {
        for i := 0 to COLS
          invariant matrix == Sweep(old(matrix), LI, i)
        {
          ShiftLane(Cell(TOP, i, 0), Cell(FRONT, i, 0), Cell(BOTTOM, i, 0), Cell(BACK, 1 - i, 1), tempColumn[i]);
        }
        SweptTurn(g, old(matrix), matrix, LI);
      }
    }

    /** TOP's column 1 is saved, then the loop of the R/RI branch moves column 1
        of TOP, FRONT and BOTTOM and column 0 of BACK (upside down) one face
        along; after RIGHT's own turn `g`, that completes the move. */
    method SweepRightColumns(r: Rotation, ghost g: Grid<Color>)
      requires Valid() && (r == R || r == RI) && WellFormed(g)
      requires matrix == FaceTurn(g, TurnedFace(r), IsClockwise(r))
      modifies this
      ensures Valid() && matrix == Turn(g, r)
    {
      var tempColumn := SaveTopColumn(1);
      if r == R {
        for i := 0 to COLS
          invariant matrix == Sweep(old(matrix), R, i)
        {
          ShiftLane(Cell(TOP, i, 1), Cell(FRONT, i, 1), Cell(BOTTOM, i, 1), Cell(BACK, 1 - i, 0), tempColumn[i]);
        }
        SweptTurn(g, old(matrix), matrix, R);
      } else {
        for i := 0 to COLS
          invariant matrix == Sweep(old(matrix), RI, i)
        {
          ShiftLane(Cell(TOP, i, 1), Cell(BACK, 1 - i, 0), Cell(BOTTOM, i, 1), Cell(FRONT, i, 1), tempColumn[i]);
        }
        SweptTurn(g, old(matrix), matrix, RI);
      }
    }

    /** TOP's row 1 is saved, then the loop of the F/FI branch moves row 1 of
        TOP, column 1 of LEFT, row 0 of BOTTOM and column 0 of RIGHT, with the
        indices as written; after FRONT's own turn `g`, that completes the move. */
    method SweepFrontStrips(r: Rotation, ghost g: Grid<Color>)
      requires Valid() && (r == F || r == FI) && WellFormed(g)
      requires matrix == FaceTurn(g, TurnedFace(r), IsClockwise(r))
      modifies this
      ensures Valid() && matrix == Turn(g, r)
    {
      var tempTop := SaveTopRow(ROWS - 1);
      if r == F {
        SweepFrontClockwise(tempTop, g);
      } else {
        SweepFrontCounter(tempTop, g);
      }
    }

    method SweepFrontClockwise(tempTop: seq<Color>, ghost g: Grid<Color>)
      requires Valid() && tempTop == matrix[TOP][1]
      requires WellFormed(g) && matrix == FaceTurn(g, FRONT, true)
      modifies this
      ensures Valid() && matrix == Turn(g, F)
    {
      for i := 0 to COLS
        invariant matrix == Sweep(old(matrix), F, i)
      {
        ShiftLane(Cell(TOP, 1, i), Cell(LEFT, 1 - i, 1), Cell(BOTTOM, 0, i), Cell(RIGHT, i, 0), tempTop[1 - i]);
      }
      SweptTurn(g, old(matrix), matrix, F);
    }

    method SweepFrontCounter(tempTop: seq<Color>, ghost g: Grid<Color>)
      requires Valid() && tempTop == matrix[TOP][1]
      requires WellFormed(g) && matrix == FaceTurn(g, FRONT, false)
      modifies this
      ensures Valid() && matrix == Turn(g, FI)
    {
      for i := 0 to COLS
        invariant matrix == Sweep(old(matrix), FI, i)
      {
        ShiftLane(Cell(TOP, 1, i), Cell(RIGHT, i, 0), Cell(BOTTOM, 0, 1 - i), Cell(LEFT, 1 - i, 1), tempTop[i]);
      }
      SweptTurn(g, old(matrix), matrix, FI);
    }

    /** TOP's row 0 is saved, then the loop of the B/BI branch moves row 0 of
        TOP, column 0 of LEFT, row 1 of BOTTOM and column 1 of RIGHT, with the
        indices as written; after BACK's own turn `g`, that completes the move. */
    method SweepBackStrips(r: Rotation, ghost g: Grid<Color>)
      requires Valid() && (r == B || r == BI) && WellFormed(g)
      requires matrix == FaceTurn(g, TurnedFace(r), IsClockwise(r))
      modifies this
      ensures Valid() && matrix == Turn(g, r)
    {
      var tempTop := SaveTopRow(0);
      if r == B {
        SweepBackClockwise(tempTop, g);
      } else {
        SweepBackCounter(tempTop, g);
      }
    }

    method SweepBackClockwise(tempTop: seq<Color>, ghost g: Grid<Color>)
      requires Valid() && tempTop == matrix[TOP][0]
      requires WellFormed(g) && matrix == FaceTurn(g, BACK, true)
      modifies this
      ensures Valid() && matrix == Turn(g, B)
    {
      for i := 0 to COLS
        invariant matrix == Sweep(old(matrix), B, i)
      {
        ShiftLane(Cell(TOP, 0, i), Cell(LEFT, 1 - i, 0), Cell(BOTTOM, 1, 1 - i), Cell(RIGHT, i, 1), tempTop[1 - i]);
      }
      SweptTurn(g, old(matrix), matrix, B);
    }

    method SweepBackCounter(tempTop: seq<Color>, ghost g: Grid<Color>)
      requires Valid() && tempTop == matrix[TOP][0]
      requires WellFormed(g) && matrix == FaceTurn(g, BACK, false)
      modifies this
      ensures Valid() && matrix == Turn(g, BI)
    {
      for i := 0 to COLS
        invariant matrix == Sweep(old(matrix), BI, i)
      {
        ShiftLane(Cell(TOP, 0, i), Cell(RIGHT, i, 1), Cell(BOTTOM, 1, 1 - i), Cell(LEFT, 1 - i, 0), tempTop[i]);
      }
      SweptTurn(g, old(matrix), matrix, BI);
    }
  }
}
