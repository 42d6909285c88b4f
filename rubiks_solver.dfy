/** `Cube222` of RubiksSolver.cpp, with the members it inherits from `Cube`: a
    sticker grid updated in place, a log of the moves applied, and the
    brute-force search `dfs`. Each method is proved to compute the value-level
    operation of module SolverMoves. */
module RubiksSolver {
  import opened Stickers
  import opened SolverMoves
  import opened Combinations

  /** How a bounded `dfs` ends: the cube was already solved, a solving move
      sequence was found, or no sequence up to the ceiling solves it. */
  datatype Outcome = AlreadySolved | Found(solution: seq<Rotation>) | Exhausted

  /** Applying w to g leaves every face one colour: the empty word when g is
      already solved, otherwise the rest of w after its first move. */
  ghost predicate Solves(g: Grid<Color>, w: seq<Rotation>)
    requires WellFormed(g)
    decreases |w|
  {
    if w == [] then FacesUniform(g) else Solves(Turn(g, w[0]), w[1..])
  }

  /** w solves g exactly when every face is one colour after `applySolution(w)`. */
  lemma {:induction false} SolvesRun(g: Grid<Color>, w: seq<Rotation>)
    requires WellFormed(g)
    ensures Solves(g, w) <==> FacesUniform(Run(g, w))
    decreases |w|
  {
    if w != [] {
      SolvesRun(Turn(g, w[0]), w[1..]);
      RunFirst(g, w);
    }
  }

  lemma AllRotationsDistinct()
    ensures Distinct(AllRotations)
  {
  }

  /** The eight moves of `allRotations` are all the moves there are. */
  lemma InAllRotations(r: Rotation)
    ensures r in AllRotations
  {
  }

  /** So the candidates of depth d are all move words of length d. */
  lemma EveryWordListed(w: seq<Rotation>)
    ensures w in Words(AllRotations, |w|)
  {
    forall i | 0 <= i < |w| ensures w[i] in AllRotations {
      InAllRotations(w[i]);
    }
    WordsComplete(AllRotations, w);
  }

  /** When no candidate of depth d solves g, no move word of length d does. */
  lemma NoneOfLength(g: Grid<Color>, d: nat)
    requires WellFormed(g)
    requires forall j :: 0 <= j < |Words(AllRotations, d)| ==> !Solves(g, Words(AllRotations, d)[j])
    ensures forall w :: |w| == d ==> !Solves(g, w)
  {
    forall w | |w| == d ensures !Solves(g, w) {
      EveryWordListed(w);
    }
  }

  /** When candidate k of depth d is the first that solves g, no word of length
      d that comes lexicographically before it (in the order U, D, R, L, UI,
      DI, RI, LI) solves g. */
  lemma FirstSolving(g: Grid<Color>, d: nat, k: nat)
    requires WellFormed(g) && k < |Words(AllRotations, d)|
    requires forall j :: 0 <= j < k ==> !Solves(g, Words(AllRotations, d)[j])
    ensures forall w :: |w| == |Words(AllRotations, d)[k]| && LexBefore(AllRotations, w, Words(AllRotations, d)[k]) ==>
      !Solves(g, w)
  {
    WordsSorted(AllRotations, d);
    AllRotationsDistinct();
    forall w | |w| == |Words(AllRotations, d)[k]| && LexBefore(AllRotations, w, Words(AllRotations, d)[k])
      ensures !Solves(g, w)
    {
      EveryWordListed(w);
      FirstInOrder(AllRotations, d, k, w);
    }
  }

  /** A cube scrambled by w from the initial state is solved by the inverse
      word, which is as long as w: searching up to depth |w| always succeeds. */
  lemma ScrambleSolvable(w: seq<Rotation>)
    ensures |InverseWord(w)| == |w|
    ensures Solves(Run(InitialGrid(), w), InverseWord(w))
  {
    RunInverseWord(InitialGrid(), w);
    RunAppend(InitialGrid(), w, InverseWord(w));
    SolvesRun(Run(InitialGrid(), w), InverseWord(w));
  }

  class Cube222 {
    /** `_matrix[face][row][col]`. */
    var matrix: Grid<Color>
    /** `_rotations`: every move applied since the last reset, in order. */
    var rotations: seq<Rotation>

    ghost predicate Valid()
      reads this
    {
      WellFormed(matrix)
    }

    /** `Cube222(initialColor)`: every sticker starts as `initialColor`, and then
        the constructor resets to the initial state. */
    constructor(initialColor: Color)
      ensures Valid() && matrix == InitialGrid() && rotations == []
    {
      matrix := seq(FACES, _ => seq(COLS, _ => seq(ROWS, _ => initialColor)));
      rotations := [];
      new;
      SetColorsToInitState();
    }

    /** The member-wise copy constructor `Cube222(const Cube222&)`. */
    constructor Clone(other: Cube222)
      requires other.Valid()
      ensures Valid() && matrix == other.matrix && rotations == other.rotations
    {
      matrix := other.matrix;
      rotations := other.rotations;
    }

    /** `setColorsToInitState`: clears the log and paints every face its home colour. */
    method SetColorsToInitState()
      requires Valid()
      modifies this
      ensures Valid() && matrix == InitialGrid() && rotations == []
    {
      rotations := [];
      SetFaceColor(FRONT, BLUE);
      SetFaceColor(RIGHT, RED);
      SetFaceColor(TOP, YELLOW);
      SetFaceColor(BOTTOM, WHITE);
      SetFaceColor(BACK, GREEN);
      SetFaceColor(LEFT, ORANGE);
      GridEquality(matrix, InitialGrid());
    }

    /** `setColor(face, color)`: every cell of the face, row by row. */
    method SetFaceColor(face: Face, color: Color)
      requires Valid()
      modifies this
      ensures Valid() && matrix == Paint(old(matrix), face, color) && rotations == old(rotations)
    {
      for r := 0 to ROWS
        invariant WellFormed(matrix) && rotations == old(rotations)
        invariant forall p :: ValidCell(p) ==>
          At(matrix, p) == if p.face == face && p.row < r then color else At(old(matrix), p)
      {
        for c := 0 to COLS
          invariant WellFormed(matrix) && rotations == old(rotations)
          invariant forall p :: ValidCell(p) ==>
            At(matrix, p) == if p.face == face && (p.row < r || (p.row == r && p.col < c)) then color
                             else At(old(matrix), p)
        {
          SetColor(face, r, c, color);
        }
      }
      GridEquality(matrix, Paint(old(matrix), face, color));
    }

    /** `setColor(face, row, col, color)`: an out-of-range cell is left alone. */
    method SetColor(face: Face, row: int, col: int, color: Color)
      requires Valid()
      modifies this
      ensures Valid() && matrix == WriteColor(old(matrix), face, row, col, color)
      ensures rotations == old(rotations)
    {
      if InBounds(row, col) {
        matrix := Update(matrix, Cell(face, row, col), color);
      }
    }

    /** `getColor(face, row, col)`. */
    function GetColor(face: Face, row: int, col: int): Color
      reads this
      requires Valid()
    {
      ReadColor(matrix, face, row, col)
    }

    /** `isSolved`: every face shows one colour. */
    method IsSolved() returns (solved: bool)
      requires Valid()
      ensures solved <==> FacesUniform(matrix)
    {
      for f := 0 to FACES
        invariant forall p :: ValidCell(p) && p.face < f ==> At(matrix, p) == At(matrix, Cell(p.face, 0, 0))
      {
        var firstColor := matrix[f][0][0];
        for r := 0 to ROWS
          invariant forall p :: ValidCell(p) && p.face == f && p.row < r ==> At(matrix, p) == firstColor
        {
          for c := 0 to COLS
            invariant forall p :: ValidCell(p) && p.face == f && (p.row < r || (p.row == r && p.col < c)) ==>
              At(matrix, p) == firstColor
          {
            if matrix[f][r][c] != firstColor {
              Mixed(matrix, Cell(f, r, c));
              return false;
            }
          }
        }
      }
      return true;
    }

    /** `applySolution(solution)`: the moves in order. */
    method ApplySolution(solution: seq<Rotation>)
      requires Valid()
      modifies this
      ensures Valid() && matrix == Run(old(matrix), solution)
      ensures rotations == old(rotations) + solution
    {
      for i := 0 to |solution|
        invariant Valid() && matrix == Run(old(matrix), solution[..i])
        invariant rotations == old(rotations) + solution[..i]
      {
        ApplyRotation(solution[i]);
        assert solution[..i + 1][..i] == solution[..i];
      }
      assert solution[..|solution|] == solution;
    }

    /** `copy`: a new cube with the same stickers and the same log. */
    method Copy() returns (c: Cube222)
      requires Valid()
      ensures fresh(c) && c.Valid() && c.matrix == matrix && c.rotations == rotations
    {
      c := new Cube222.Clone(this);
      c.matrix := matrix;
    }

    /** `dfs(depth)` with the search cut off after depth `ceiling`: nothing when
        the cube is solved; otherwise the candidates of length `depth` in the
        order `generateCombinations` lists them, each tried on a copy, the first
        that solves being the answer; otherwise the next depth. */
    method Dfs(depth: nat, ceiling: nat) returns (outcome: Outcome)
      requires Valid()
      ensures outcome == AlreadySolved <==> FacesUniform(matrix)
      ensures outcome.Found? ==> depth <= |outcome.solution| <= ceiling && Solves(matrix, outcome.solution)
      ensures outcome.Found? ==> forall w :: depth <= |w| < |outcome.solution| ==> !Solves(matrix, w)
      ensures outcome.Found? ==> forall w :: |w| == |outcome.solution| && LexBefore(AllRotations, w, outcome.solution) ==>
        !Solves(matrix, w)
      ensures outcome == Exhausted ==> forall w :: depth <= |w| <= ceiling ==> !Solves(matrix, w)
      decreases ceiling + 1 - depth
    {
      var solved := IsSolved();
      if solved {
        return AlreadySolved;
      }
      if depth > ceiling {
        return Exhausted;
      }
      var found, solution := SearchDepth(depth);
      if found {
        return Found(solution);
      }
      outcome := Dfs(depth + 1, ceiling);
    }

    /** One level of `dfs`: the candidates of length `depth`, in the order
        `generateCombinations` lists them, each tried on a copy; the first that
        solves is the answer. */
    method SearchDepth(depth: nat) returns (found: bool, solution: seq<Rotation>)
      requires Valid()
      ensures found ==> |solution| == depth && Solves(matrix, solution)
      ensures found ==> forall w :: |w| == depth && LexBefore(AllRotations, w, solution) ==> !Solves(matrix, w)
      ensures !found ==> forall w :: |w| == depth ==> !Solves(matrix, w)
    {
      var currentPath, potentialSolutions := GenerateCombinations(AllRotations, depth, [], []);
      assert potentialSolutions == Words(AllRotations, depth) by {
        PrefixEmptyPath(Words(AllRotations, depth));
      }
      var k;
      found, k := FirstSolution(potentialSolutions);
      if found {
        FirstSolving(matrix, depth, k);
        WordsLength(AllRotations, depth, k);
        solution := potentialSolutions[k];
      } else {
        NoneOfLength(matrix, depth);
        solution := [];
      }
    }

    /** The loop of `dfs` over the candidates of one depth: the index of the
        first candidate that solves the cube, tried in order on copies. */
    method FirstSolution(candidates: seq<seq<Rotation>>) returns (found: bool, k: nat)
      requires Valid()
      ensures found ==> k < |candidates| && Solves(matrix, candidates[k])
      ensures found ==> forall j :: 0 <= j < k ==> !Solves(matrix, candidates[j])
      ensures !found ==> forall j :: 0 <= j < |candidates| ==> !Solves(matrix, candidates[j])
    {
      ghost var g := matrix;
      for i := 0 to |candidates|
        invariant matrix == g
        invariant forall j :: 0 <= j < i ==> !Solves(g, candidates[j])
      {
        var solvesIt := TrySolution(candidates[i]);
        if solvesIt {
          return true, i;
        }
      }
      return false, 0;
    }

    /** One iteration of the search loop of `dfs`: a copy of the cube takes
        the candidate, and the copy, never the cube itself, is tested. */
    method TrySolution(solution: seq<Rotation>) returns (solved: bool)
      requires Valid()
      ensures solved <==> Solves(matrix, solution)
    {
      var testCube := Copy();
      testCube.ApplySolution(solution);
      solved := testCube.IsSolved();
      SolvesRun(matrix, solution);
    }

    /** `rotateFace(face, clockwise)`: a quarter turn of the face's own stickers. */
    method RotateFace(face: Face, clockwise: bool)
      requires Valid()
      modifies this
      ensures Valid() && matrix == FaceTurn(old(matrix), face, clockwise)
      ensures rotations == old(rotations)
    {
      var temp := matrix[face][0][0];
      if clockwise {
        matrix := Update(matrix, Cell(face, 0, 0), matrix[face][1][0]);
        matrix := Update(matrix, Cell(face, 1, 0), matrix[face][1][1]);
        matrix := Update(matrix, Cell(face, 1, 1), matrix[face][0][1]);
        matrix := Update(matrix, Cell(face, 0, 1), temp);
      } else {
        matrix := Update(matrix, Cell(face, 0, 0), matrix[face][0][1]);
        matrix := Update(matrix, Cell(face, 0, 1), matrix[face][1][1]);
        matrix := Update(matrix, Cell(face, 1, 1), matrix[face][1][0]);
        matrix := Update(matrix, Cell(face, 1, 0), temp);
      }
      FaceAgreeEqual(matrix[face], QuarterTurn(old(matrix)[face], clockwise));
      assert matrix == old(matrix)[face := matrix[face]];
    }

    /** `applyRotation(r)`: one branch per layer (the face turn and the cycle
        of rows or columns around it), then the entry in the log. */
    method ApplyRotation(r: Rotation)
      requires Valid()
      modifies this
      ensures Valid() && matrix == Turn(old(matrix), r)
      ensures rotations == old(rotations) + [r]
    {
      if r == U || r == UI {
        TurnTopLayer(r);
      } else if r == D || r == DI {
        TurnBottomLayer(r);
      } else if r == L || r == LI {
        TurnLeftLayer(r);
      } else {
        TurnRightLayer(r);
      }
      rotations := rotations + [r];
    }

    /** The U/UI branch: TOP turns, then the top rows of the side faces cycle. */
    method TurnTopLayer(r: Rotation)
      requires Valid() && (r == U || r == UI)
      modifies this
      ensures Valid() && matrix == Turn(old(matrix), r) && rotations == old(rotations)
    {
      RotateFace(TOP, r == U);
      if r == U {
        CycleSideRows(0, FRONT, RIGHT, BACK, LEFT);
      } else {
        CycleSideRows(0, FRONT, LEFT, BACK, RIGHT);
      }
      TurnByRows(old(matrix), r);
    }

    /** The D/DI branch: BOTTOM turns, then the bottom rows of the side faces
        cycle, in the same direction as U's. */
    method TurnBottomLayer(r: Rotation)
      requires Valid() && (r == D || r == DI)
      modifies this
      ensures Valid() && matrix == Turn(old(matrix), r) && rotations == old(rotations)
    {
      RotateFace(BOTTOM, r == D);
      if r == D {
        CycleSideRows(1, FRONT, RIGHT, BACK, LEFT);
      } else {
        CycleSideRows(1, FRONT, LEFT, BACK, RIGHT);
      }
      TurnByRows(old(matrix), r);
    }

    /** The row assignments of a U or D branch: `tempRow` keeps row `row` of a,
        then a takes b's row, b c's, c d's, and d the saved row. */
    method CycleSideRows(row: int, a: Face, b: Face, c: Face, d: Face)
      requires Valid() && 0 <= row < ROWS
      modifies this
      ensures Valid() && matrix == CycleRows(old(matrix), row, a, b, c, d) && rotations == old(rotations)
    {
      var tempRow := matrix[a][row];
      matrix := UpdateRow(matrix, a, row, matrix[b][row]);
      matrix := UpdateRow(matrix, b, row, matrix[c][row]);
      matrix := UpdateRow(matrix, c, row, matrix[d][row]);
      matrix := UpdateRow(matrix, d, row, tempRow);
    }

    /** The L/LI branch: LEFT turns, TOP's column 0 is saved, then one pass per
        row moves column 0 of TOP, FRONT and BOTTOM and column 1 of BACK (upside
        down) one face along. */
    method TurnLeftLayer(r: Rotation)
      requires Valid() && (r == L || r == LI)
      modifies this
      ensures Valid() && matrix == Turn(old(matrix), r) && rotations == old(rotations)
    {
      ghost var g := matrix;
      RotateFace(LEFT, r == L);
      assert matrix == FaceTurn(g, TurnedFace(r), IsClockwise(r));
      var tempColumn := SaveTopColumn(0);
      SweepLeftColumns(r, tempColumn);
      TurnByColumns(g, r);
    }

    /** The R/RI branch: RIGHT turns, TOP's column 1 is saved, then one pass per
        row moves column 1 of TOP, FRONT and BOTTOM and column 0 of BACK (upside
        down) one face along. */
    method TurnRightLayer(r: Rotation)
      requires Valid() && (r == R || r == RI)
      modifies this
      ensures Valid() && matrix == Turn(old(matrix), r) && rotations == old(rotations)
    {
      ghost var g := matrix;
      RotateFace(RIGHT, r == R);
      assert matrix == FaceTurn(g, TurnedFace(r), IsClockwise(r));
      var tempColumn := SaveTopColumn(1);
      SweepRightColumns(r, tempColumn);
      TurnByColumns(g, r);
    }

    /** The loop filling `tempColumn` with column `col` of TOP. */
    method SaveTopColumn(col: int) returns (tempColumn: seq<Color>)
      requires Valid() && 0 <= col < COLS
      ensures tempColumn == [matrix[TOP][0][col], matrix[TOP][1][col]]
    {
      tempColumn := seq(COLS, _ => RED);
      for i := 0 to COLS
        invariant |tempColumn| == COLS
        invariant forall j :: 0 <= j < i ==> tempColumn[j] == matrix[TOP][j][col]
      {
        tempColumn := tempColumn[i := matrix[TOP][i][col]];
      }
    }

    /** One pass of a column loop: p0 takes the sticker on p1, p1 the one on
        p2, p2 the one on p3, and p3 the saved colour x. */
    method ShiftLane(p0: Cell, p1: Cell, p2: Cell, p3: Cell, x: Color)
      requires Valid() && ValidCell(p0) && ValidCell(p1) && ValidCell(p2) && ValidCell(p3)
      modifies this
      ensures Valid() && matrix == ShiftCells(old(matrix), p0, p1, p2, p3, x) && rotations == old(rotations)
    {
      matrix := Update(matrix, p0, At(matrix, p1));
      matrix := Update(matrix, p1, At(matrix, p2));
      matrix := Update(matrix, p2, At(matrix, p3));
      matrix := Update(matrix, p3, x);
    }

    /** The two passes of the L/LI branch, with TOP's column 0 saved beforehand. */
    method SweepLeftColumns(r: Rotation, tempColumn: seq<Color>)
      requires Valid() && (r == L || r == LI)
      requires tempColumn == [matrix[TOP][0][0], matrix[TOP][1][0]]
      modifies this
      ensures Valid() && matrix == Sweep(old(matrix), r, COLS) && rotations == old(rotations)
    {
      if r == L {
        for i := 0 to COLS
          invariant matrix == Sweep(old(matrix), L, i) && rotations == old(rotations)
        {
          SweepKeepsTop(old(matrix), L, i);
          ShiftLane(Cell(TOP, i, 0), Cell(BACK, 1 - i, 1), Cell(BOTTOM, i, 0), Cell(FRONT, i, 0), tempColumn[i]);
        }
      } else {
        for i := 0 to COLS
          invariant matrix == Sweep(old(matrix), LI, i) && rotations == old(rotations)
        {
          SweepKeepsTop(old(matrix), LI, i);
          ShiftLane(Cell(TOP, i, 0), Cell(FRONT, i, 0), Cell(BOTTOM, i, 0), Cell(BACK, 1 - i, 1), tempColumn[i]);
        }
      }
    }

    /** The two passes of the R/RI branch, with TOP's column 1 saved beforehand. */
    method SweepRightColumns(r: Rotation, tempColumn: seq<Color>)
      requires Valid() && (r == R || r == RI)
      requires tempColumn == [matrix[TOP][0][1], matrix[TOP][1][1]]
      modifies this
      ensures Valid() && matrix == Sweep(old(matrix), r, COLS) && rotations == old(rotations)
    {
      if r == R {
        for i := 0 to COLS
          invariant matrix == Sweep(old(matrix), R, i) && rotations == old(rotations)
        {
          SweepKeepsTop(old(matrix), R, i);
          ShiftLane(Cell(TOP, i, 1), Cell(FRONT, i, 1), Cell(BOTTOM, i, 1), Cell(BACK, 1 - i, 0), tempColumn[i]);
        }
      } else {
        for i := 0 to COLS
          invariant matrix == Sweep(old(matrix), RI, i) && rotations == old(rotations)
        {
          SweepKeepsTop(old(matrix), RI, i);
          ShiftLane(Cell(TOP, i, 1), Cell(BACK, 1 - i, 0), Cell(BOTTOM, i, 1), Cell(FRONT, i, 1), tempColumn[i]);
        }
      }
    }
  }
}
