/** The sticker grid shared by both cube engines: six faces, each a 2x2 grid of
    colours, stored as the nested vectors `_matrix[face][row][col]` of the
    original program. The colour type is a parameter because the two engines
    declare their own colour enumerations. */
module Stickers {

  /** The face enumeration, in the order of its declaration (TOP = 0 ... LEFT = 5). */
  const TOP := 0
  const FRONT := 1
  const RIGHT := 2
  const BOTTOM := 3
  const BACK := 4
  const LEFT := 5

  /** Face count and per-face row and column counts of the 2x2x2 cube. */
  const FACES := 6
  const ROWS := 2
  const COLS := 2

  /** A value of the face enumeration. */
  type Face = f: int | 0 <= f < FACES

  /** One sticker position. */
  datatype Cell = Cell(face: int, row: int, col: int)

  predicate ValidCell(p: Cell) {
    0 <= p.face < FACES && 0 <= p.row < ROWS && 0 <= p.col < COLS
  }

  predicate InBounds(row: int, col: int) {
    0 <= row < ROWS && 0 <= col < COLS
  }

  /** The four faces around the vertical axis, in the order the U move pulls
      stickers from: FRONT takes RIGHT's row, RIGHT takes BACK's, and so on. */
  predicate IsSide(f: int) {
    f == FRONT || f == RIGHT || f == BACK || f == LEFT
  }

  function NextSide(f: int): int {
    if f == FRONT then RIGHT
    else if f == RIGHT then BACK
    else if f == BACK then LEFT
    else if f == LEFT then FRONT
    else f
  }

  function PrevSide(f: int): int {
    if f == FRONT then LEFT
    else if f == LEFT then BACK
    else if f == BACK then RIGHT
    else if f == RIGHT then FRONT
    else f
  }

  type Grid<C> = seq<seq<seq<C>>>

  /** The 6 x 2 x 2 shape every grid of the program has. */
  ghost predicate WellFormed<C>(g: Grid<C>) {
    |g| == FACES &&
    forall f :: 0 <= f < FACES ==>
      |g[f]| == ROWS && forall r :: 0 <= r < ROWS ==> |g[f][r]| == COLS
  }

  function At<C>(g: Grid<C>, p: Cell): C
    requires WellFormed(g) && ValidCell(p)
  {
    g[p.face][p.row][p.col]
  }

  /** Two grids of the right shape are equal exactly when they agree on every cell. */
  lemma GridEquality<C>(g: Grid<C>, h: Grid<C>)
    requires WellFormed(g) && WellFormed(h)
    ensures g == h <==> forall p :: ValidCell(p) ==> At(g, p) == At(h, p)
  {
    if forall p :: ValidCell(p) ==> At(g, p) == At(h, p) {
      forall f | 0 <= f < FACES ensures g[f] == h[f] {
        forall r | 0 <= r < ROWS ensures g[f][r] == h[f][r] {
          forall c | 0 <= c < COLS ensures g[f][r][c] == h[f][r][c] {
            assert At(g, Cell(f, r, c)) == At(h, Cell(f, r, c));
          }
        }
      }
    }
  }

  /** The grid with one cell overwritten; the C++ assignment `_matrix[f][r][c] = x`. */
  function Update<C>(g: Grid<C>, p: Cell, x: C): (h: Grid<C>)
    requires WellFormed(g) && ValidCell(p)
    ensures WellFormed(h)
  {
    g[p.face := g[p.face][p.row := g[p.face][p.row][p.col := x]]]
  }

  /** The grid with one row replaced; the C++ vector assignment `_matrix[f][r] = row`. */
  function UpdateRow<C>(g: Grid<C>, f: int, r: int, row: seq<C>): (h: Grid<C>)
    requires WellFormed(g) && 0 <= f < FACES && 0 <= r < ROWS && |row| == COLS
    ensures WellFormed(h)
  {
    g[f := g[f][r := row]]
  }

  /** The four-row cycle of the U and D moves: row `row` of face a takes the row
      of b, b that of c, c that of d, and d the row a had, statement by statement
      through a temporary as the C++ code does it. */
  function CycleRows<C>(g: Grid<C>, row: int, a: Face, b: Face, c: Face, d: Face): (h: Grid<C>)
    requires WellFormed(g) && 0 <= row < ROWS
    ensures WellFormed(h)
  {
    var tempRow := g[a][row];
    var g1 := UpdateRow(g, a, row, g[b][row]);
    var g2 := UpdateRow(g1, b, row, g1[c][row]);
    var g3 := UpdateRow(g2, c, row, g2[d][row]);
    UpdateRow(g3, d, row, tempRow)
  }

  /** One pass of a column loop: p0 takes the sticker on p1, p1 the one on p2,
      p2 the one on p3, and p3 the saved colour x. */
  function ShiftCells<C>(g: Grid<C>, p0: Cell, p1: Cell, p2: Cell, p3: Cell, x: C): (h: Grid<C>)
    requires WellFormed(g) && ValidCell(p0) && ValidCell(p1) && ValidCell(p2) && ValidCell(p3)
    ensures WellFormed(h)
  {
    var g1 := Update(g, p0, At(g, p1));
    var g2 := Update(g1, p1, At(g1, p2));
    var g3 := Update(g2, p2, At(g2, p3));
    Update(g3, p3, x)
  }

  lemma UpdateAt<C>(g: Grid<C>, p: Cell, x: C, q: Cell)
    requires WellFormed(g) && ValidCell(p) && ValidCell(q)
    ensures At(Update(g, p, x), q) == if q == p then x else At(g, q)
  {
  }

  lemma UpdateRowAt<C>(g: Grid<C>, f: int, r: int, row: seq<C>, q: Cell)
    requires WellFormed(g) && 0 <= f < FACES && 0 <= r < ROWS && |row| == COLS && ValidCell(q)
    ensures At(UpdateRow(g, f, r, row), q) == if q.face == f && q.row == r then row[q.col] else At(g, q)
  {
  }

  /** Cell by cell, `CycleRows` moves each of the four rows one face along. */
  lemma CycleRowsAt<C>(g: Grid<C>, row: int, a: Face, b: Face, c: Face, d: Face, q: Cell)
    requires WellFormed(g) && 0 <= row < ROWS && ValidCell(q)
    requires a != b && a != c && a != d && b != c && b != d && c != d
    ensures At(CycleRows(g, row, a, b, c, d), q) ==
      if q.row != row then At(g, q)
      else if q.face == a then At(g, Cell(b, row, q.col))
      else if q.face == b then At(g, Cell(c, row, q.col))
      else if q.face == c then At(g, Cell(d, row, q.col))
      else if q.face == d then At(g, Cell(a, row, q.col))
      else At(g, q)
  {
    var g1 := UpdateRow(g, a, row, g[b][row]);
    var g2 := UpdateRow(g1, b, row, g1[c][row]);
    var g3 := UpdateRow(g2, c, row, g2[d][row]);
    UpdateRowAt(g, a, row, g[b][row], q);
    UpdateRowAt(g1, b, row, g1[c][row], q);
    UpdateRowAt(g2, c, row, g2[d][row], q);
    UpdateRowAt(g3, d, row, g[a][row], q);
  }

  /** Cell by cell, `ShiftCells` moves each sticker one place along the chain. */
  lemma ShiftCellsAt<C>(g: Grid<C>, p0: Cell, p1: Cell, p2: Cell, p3: Cell, x: C, q: Cell)
    requires WellFormed(g) && ValidCell(p0) && ValidCell(p1) && ValidCell(p2) && ValidCell(p3)
    requires ValidCell(q)
    requires p0 != p1 && p0 != p2 && p0 != p3 && p1 != p2 && p1 != p3 && p2 != p3
    ensures At(ShiftCells(g, p0, p1, p2, p3, x), q) ==
      if q == p0 then At(g, p1) else if q == p1 then At(g, p2) else if q == p2 then At(g, p3)
      else if q == p3 then x else At(g, q)
  {
    var g1 := Update(g, p0, At(g, p1));
    var g2 := Update(g1, p1, At(g1, p2));
    var g3 := Update(g2, p2, At(g2, p3));
    UpdateAt(g, p0, At(g, p1), p2);
    UpdateAt(g, p0, At(g, p1), p3);
    UpdateAt(g1, p1, At(g1, p2), p3);
    UpdateAt(g, p0, At(g, p1), q);
    UpdateAt(g1, p1, At(g1, p2), q);
    UpdateAt(g2, p2, At(g2, p3), q);
    UpdateAt(g3, p3, x, q);
  }

  /** A face showing one colour on all four stickers. */
  function Solid<C>(x: C): seq<seq<C>> {
    [[x, x], [x, x]]
  }

  /** The grid with every sticker of one face set to x. */
  function Paint<C>(g: Grid<C>, face: int, x: C): (h: Grid<C>)
    requires WellFormed(g) && 0 <= face < FACES
    ensures WellFormed(h)
  {
    g[face := Solid(x)]
  }

  /** Where `rotateFace(face, clockwise)` takes the sticker of p from. Clockwise:
      [0][0] <- [1][0] <- [1][1] <- [0][1] <- [0][0]; counter-clockwise the reverse.
      Cells of other faces keep their sticker. */
  function RotSrc(face: int, clockwise: bool, p: Cell): (q: Cell)
    ensures ValidCell(p) ==> ValidCell(q)
    ensures q.face == p.face
  {
    if p.face != face || !InBounds(p.row, p.col) then p
    else if clockwise then
      (if p.row == 0 && p.col == 0 then Cell(face, 1, 0)
       else if p.row == 1 && p.col == 0 then Cell(face, 1, 1)
       else if p.row == 1 && p.col == 1 then Cell(face, 0, 1)
       else Cell(face, 0, 0))
    else
      (if p.row == 0 && p.col == 0 then Cell(face, 0, 1)
       else if p.row == 0 && p.col == 1 then Cell(face, 1, 1)
       else if p.row == 1 && p.col == 1 then Cell(face, 1, 0)
       else Cell(face, 0, 0))
  }

  /** One face whose four stickers have been turned a quarter: clockwise,
      [0][0] <- [1][0] <- [1][1] <- [0][1] <- [0][0]; counter-clockwise the reverse. */
  function QuarterTurn<C>(a: seq<seq<C>>, clockwise: bool): (b: seq<seq<C>>)
    requires |a| == ROWS && |a[0]| == COLS && |a[1]| == COLS
    ensures |b| == ROWS && |b[0]| == COLS && |b[1]| == COLS
  {
    if clockwise then [[a[1][0], a[0][0]], [a[1][1], a[0][1]]]
    else [[a[0][1], a[1][1]], [a[0][0], a[1][0]]]
  }

  /** The grid after `rotateFace(face, clockwise)`: that face turned, every other
      face as it was. */
  function FaceTurn<C>(g: Grid<C>, face: Face, clockwise: bool): (h: Grid<C>)
    requires WellFormed(g)
    ensures WellFormed(h)
  {
    g[face := QuarterTurn(g[face], clockwise)]
  }

  /** Every cell of the turned grid takes its sticker from where `RotSrc` says. */
  lemma FaceTurnAt<C>(g: Grid<C>, face: Face, clockwise: bool, p: Cell)
    requires WellFormed(g) && ValidCell(p)
    ensures At(FaceTurn(g, face, clockwise), p) == At(g, RotSrc(face, clockwise, p))
  {
  }

  /** The two faces agree on all four stickers. */
  ghost predicate FaceAgree<C>(a: seq<seq<C>>, b: seq<seq<C>>)
    requires |a| == ROWS && |a[0]| == COLS && |a[1]| == COLS
    requires |b| == ROWS && |b[0]| == COLS && |b[1]| == COLS
  {
    a[0][0] == b[0][0] && a[0][1] == b[0][1] && a[1][0] == b[1][0] && a[1][1] == b[1][1]
  }

  /** The two grids agree on all 24 stickers, checked cell by cell. */
  ghost predicate Agree<C>(g: Grid<C>, h: Grid<C>)
    requires WellFormed(g) && WellFormed(h)
  {
    FaceAgree(g[0], h[0]) && FaceAgree(g[1], h[1]) && FaceAgree(g[2], h[2]) &&
    FaceAgree(g[3], h[3]) && FaceAgree(g[4], h[4]) && FaceAgree(g[5], h[5])
  }

  lemma FaceAgreeEqual<C>(a: seq<seq<C>>, b: seq<seq<C>>)
    requires |a| == ROWS && |a[0]| == COLS && |a[1]| == COLS
    requires |b| == ROWS && |b[0]| == COLS && |b[1]| == COLS
    requires FaceAgree(a, b)
    ensures a == b
  {
    assert a[0] == b[0] && a[1] == b[1];
  }

  /** Grids that agree cell by cell are equal. */
  lemma AgreeEqual<C>(g: Grid<C>, h: Grid<C>)
    requires WellFormed(g) && WellFormed(h) && Agree(g, h)
    ensures g == h
  {
    forall f | 0 <= f < FACES ensures g[f] == h[f] {
      FaceAgreeEqual(g[f], h[f]);
    }
  }

  /** Every face shows a single colour: the condition `isSolved` tests. */
  ghost predicate FacesUniform<C>(g: Grid<C>)
    requires WellFormed(g)
  {
    forall p :: ValidCell(p) ==> At(g, p) == At(g, Cell(p.face, 0, 0))
  }

  /** One cell that differs from its face's first cell makes the faces mixed. */
  lemma Mixed<C>(g: Grid<C>, p: Cell)
    requires WellFormed(g) && ValidCell(p) && At(g, p) != At(g, Cell(p.face, 0, 0))
    ensures !FacesUniform(g)
  {
  }
}
