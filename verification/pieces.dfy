/** Piece geometry: rotation states, the active matrix, absolute occupied
    cells and the spawn rule (main/main.py, class Piece, convert_shape_format
    and get_shape). */
module Pieces {
  import opened Geometry

  /** One rotation state: rows of 0/1 flags. Only an entry equal to 1 is
      occupied, exactly as the program tests `val == 1`. */
  type Matrix = seq<seq<int>>

  /** A shape is a non-empty list of rotation states.

      The program's catalog stores each shape as a single matrix, while
      `Piece.image` and `Piece.rotate` index `shape` as a list of rotation
      states: as written, `image()` yields one row of the matrix and
      `convert_shape_format` would then enumerate an integer. This model
      follows the reading `Piece` assumes (a list of rotation matrices) and
      leaves the catalog contents abstract. */
  type Shape = s: seq<Matrix> | |s| > 0 witness [[]]

  /** A falling piece: origin (top-left of its local matrix), shape,
      rotation index and colour. */
  datatype Piece = Piece(x: int, y: int, shape: Shape, rotation: int, color: PieceColor)

  /** The active rotation matrix: the rotation index taken modulo the number
      of states (Python's `%` agrees with Dafny's for a positive divisor). */
  function Image(p: Piece): Matrix {
    p.shape[p.rotation % |p.shape|]
  }

  /** The active state is the one the index names when it is in range, a
      whole turn more selects the same state, and after a rotation it is the
      state one index further on. */
  lemma ImageIsActiveState(p: Piece)
    ensures 0 <= p.rotation < |p.shape| ==> Image(p) == p.shape[p.rotation]
    ensures 0 <= p.rotation < |p.shape| ==> Image(p.(rotation := p.rotation + |p.shape|)) == Image(p)
    ensures Image(Rotate(p)) == Image(p.(rotation := p.rotation + 1))
  {
    var n := |p.shape|;
    if 0 <= p.rotation < n {
      ModInRange(p.rotation, n);
      ModWholeTurn(p.rotation, n);
    }
    ModInRange((p.rotation + 1) % n, n);
  }

  lemma ModInRange(a: int, n: int)
    requires 0 <= a < n
    ensures a % n == a
  {
  }

  lemma ModWholeTurn(a: int, n: int)
    requires 0 <= a < n
    ensures (a + n) % n == a
  {
    assert (a + n) / n == 1;
  }

  /** Advance the rotation index by one, cyclically. */
  function Rotate(p: Piece): (r: Piece)
    ensures 0 <= r.rotation < |p.shape|
    ensures r.x == p.x && r.y == p.y && r.shape == p.shape && r.color == p.color
  {
    p.(rotation := (p.rotation + 1) % |p.shape|)
  }

  /** The key handler's undo of a rotation: step the index back by one. */
  function Unrotate(p: Piece): Piece {
    p.(rotation := (p.rotation - 1) % |p.shape|)
  }

  /** Rotating and then undoing restores the rotation index exactly, for
      every index a piece can hold (0 at spawn, then only `Rotate` results). */
  lemma UnrotateUndoesRotate(p: Piece)
    requires 0 <= p.rotation < |p.shape|
    ensures Unrotate(Rotate(p)) == p
  {
    var n := |p.shape|;
    if p.rotation + 1 < n {
      assert (p.rotation + 1) % n == p.rotation + 1;
    } else {
      assert (p.rotation + 1) % n == 0;
      assert (0 - 1) % n == n - 1;
    }
  }

  /** k successive rotations. */
  function RotateN(p: Piece, k: nat): Piece {
    if k == 0 then p else Rotate(RotateN(p, k - 1))
  }

  /** One rotation from an in-range index: the next index, wrapping to 0. */
  lemma RotateStep(p: Piece)
    requires 0 <= p.rotation < |p.shape|
    ensures Rotate(p).rotation == if p.rotation + 1 < |p.shape| then p.rotation + 1 else 0
  {
    if p.rotation + 1 < |p.shape| {
      assert (p.rotation + 1) % |p.shape| == p.rotation + 1;
    }
  }

  /** Up to a full cycle, k rotations advance the index by k, wrapping once. */
  lemma {:induction false} RotateNIndex(p: Piece, k: nat)
    requires 0 <= p.rotation < |p.shape| && k <= |p.shape|
    ensures RotateN(p, k).x == p.x && RotateN(p, k).y == p.y
    ensures RotateN(p, k).shape == p.shape && RotateN(p, k).color == p.color
    ensures RotateN(p, k).rotation ==
      if p.rotation + k < |p.shape| then p.rotation + k else p.rotation + k - |p.shape|
  {
    if k > 0 {
      RotateNIndex(p, k - 1);
      RotateStep(RotateN(p, k - 1));
    }
  }

  /** As many rotations as the shape has states bring the piece back to
      where it started. */
  lemma RotateCycle(p: Piece)
    requires 0 <= p.rotation < |p.shape|
    ensures RotateN(p, |p.shape|) == p
  {
    RotateNIndex(p, |p.shape|);
  }

  /** Number of occupied (== 1) entries of one matrix row. */
  function RowOnes(row: seq<int>): nat {
    if |row| == 0 then 0
    else RowOnes(row[..|row| - 1]) + (if row[|row| - 1] == 1 then 1 else 0)
  }

  /** Number of occupied entries of a matrix. */
  function Ones(m: Matrix): nat {
    if |m| == 0 then 0 else Ones(m[..|m| - 1]) + RowOnes(m[|m| - 1])
  }

  /** The absolute cells of one matrix row laid at (x, y), in column order. */
  function RowCells(row: seq<int>, x: int, y: int): (r: seq<Cell>)
    ensures forall c :: c in r <==> RowCovers(row, x, y, c)
    ensures forall a, b :: 0 <= a < b < |r| ==> r[a].0 < r[b].0
    ensures |r| == RowOnes(row)
  {
    if |row| == 0 then []
    else
      var front := row[..|row| - 1];
      var rest := RowCells(front, x, y);
      assert forall j :: 0 <= j < |front| ==> front[j] == row[j];
      assert forall c :: c in rest ==> c.0 < x + |row| - 1;
      rest + (if row[|row| - 1] == 1 then [(x + |row| - 1, y)] else [])
  }

  /** The absolute cells of a matrix laid with its top-left at (x, y), in
      row-major order: the loop of convert_shape_format. */
  function MatrixCells(m: Matrix, x: int, y: int): (r: seq<Cell>)
    ensures forall c :: c in r <==> Covers(m, x, y, c)
    ensures RowMajor(r)
    ensures |r| == Ones(m)
  {
    if |m| == 0 then []
    else
      var front := m[..|m| - 1];
      var rest := MatrixCells(front, x, y);
      var last := RowCells(m[|m| - 1], x, y + |m| - 1);
      assert forall i :: 0 <= i < |front| ==> front[i] == m[i];
      RowMajorAppend(rest, last, y + |m| - 1);
      rest + last
  }

  /** Row-major order: by row, then by column. */
  predicate RowMajor(r: seq<Cell>) {
    forall a, b :: 0 <= a < b < |r| ==> r[a].1 < r[b].1 || (r[a].1 == r[b].1 && r[a].0 < r[b].0)
  }

  /** Appending one row's cells, in column order, after cells of earlier
      rows keeps row-major order. */
  lemma RowMajorAppend(rest: seq<Cell>, last: seq<Cell>, row: int)
    requires RowMajor(rest) && (forall c :: c in rest ==> c.1 < row)
    requires forall c :: c in last ==> c.1 == row
    requires forall a, b :: 0 <= a < b < |last| ==> last[a].0 < last[b].0
    ensures RowMajor(rest + last)
  {
    var r := rest + last;
    forall a, b | 0 <= a < b < |r|
      ensures r[a].1 < r[b].1 || (r[a].1 == r[b].1 && r[a].0 < r[b].0)
    {
      if b < |rest| {
        assert r[a] == rest[a] && r[b] == rest[b];
      } else if a < |rest| {
        assert r[a] in rest && r[b] in last;
      } else {
        assert r[a] == last[a - |rest|] && r[b] == last[b - |rest|];
      }
    }
  }

  /** convert_shape_format: the cells the piece covers. A cell is covered
      exactly when it lies under a 1 entry of the active state laid with its
      top-left at the origin. */
  function Cells(p: Piece): (r: seq<Cell>)
    ensures forall c :: c in r <==> Covers(Image(p), p.x, p.y, c)
  {
    MatrixCells(Image(p), p.x, p.y)
  }

  /** Cell c lies on the row laid at (x, y) over an occupied entry. */
  predicate RowCovers(row: seq<int>, x: int, y: int, c: Cell) {
    c.1 == y && x <= c.0 < x + |row| && row[c.0 - x] == 1
  }

  /** The cell c lies under a 1 entry of matrix m laid with its top-left at (x, y). */

  predicate Covers(m: Matrix, x: int, y: int, c: Cell) {
    && y <= c.1 < y + |m|
    && x <= c.0 < x + |m[c.1 - y]|
    && m[c.1 - y][c.0 - x] == 1
  }

  /** The piece with its origin moved by (dx, dy). */
  function Shift(p: Piece, dx: int, dy: int): Piece {
    p.(x := p.x + dx, y := p.y + dy)
  }

  /** q covers exactly the cells of p moved by (dx, dy). */
  ghost predicate Translated(p: Piece, q: Piece, dx: int, dy: int) {
    forall c :: c in Cells(q) <==> (c.0 - dx, c.1 - dy) in Cells(p)
  }

  /** Moving the origin by (dx, dy) moves every covered cell by (dx, dy). */
  lemma TranslateCells(p: Piece, dx: int, dy: int)
    ensures Translated(p, Shift(p, dx, dy), dx, dy)
  {
    forall c | true
      ensures c in Cells(Shift(p, dx, dy)) <==> (c.0 - dx, c.1 - dy) in Cells(p)
    {
      CoversShift(Image(p), p.x, p.y, dx, dy, c);
    }
  }

  /** Laying a matrix (dx, dy) further on covers the cells (dx, dy) further on. */
  lemma CoversShift(m: Matrix, x: int, y: int, dx: int, dy: int, c: Cell)
    ensures Covers(m, x + dx, y + dy, c) <==> Covers(m, x, y, (c.0 - dx, c.1 - dy))
  {
  }

  /** Every occupied cell lies in the rows from the origin down, so a piece
      whose origin row is not negative has no cell above the board. */
  lemma CellsBelowOrigin(p: Piece)
    ensures forall c :: c in Cells(p) ==> c.1 >= p.y
  {
  }

  /** The number of covered cells is the number of 1 entries of the active
      matrix, wherever the piece stands. */
  lemma CellCountIgnoresPosition(p: Piece, x: int, y: int)
    ensures |Cells(p.(x := x, y := y))| == |Cells(p)| == Ones(Image(p))
  {
  }

  /** Spawn column: the board's middle column minus two. */
  const SpawnX: int := Cols / 2 - 2

  /** A shape whose first rotation state fits on the board when laid at the
      spawn origin (every shape of the program's catalog does: at most two
      rows and four columns). */
  predicate FitsAtSpawn(s: Shape) {
    |s[0]| <= Rows && forall i :: 0 <= i < |s[0]| ==> |s[0][i]| <= Cols - SpawnX
  }

  /** get_shape with the random choices made by the caller: a piece at
      (Cols / 2 - 2, 0) in rotation state 0. */
  function Spawn(s: Shape, color: PieceColor): Piece {
    Piece(SpawnX, 0, s, 0, color)
  }

  /** A piece spawned with a fitting shape covers only on-board cells. */
  lemma SpawnInBounds(s: Shape, color: PieceColor)
    requires FitsAtSpawn(s)
    ensures forall c :: c in Cells(Spawn(s, color)) ==> InBounds(c)
  {
    var p := Spawn(s, color);
    assert Image(p) == s[0];
    forall c | c in Cells(p)
      ensures InBounds(c)
    {
      assert |s[0][c.1]| <= Cols - SpawnX;
    }
  }

  /** A spawned piece covers exactly the cells under the 1 entries of its
      shape's first state, laid from column Cols / 2 - 2 of row 0. */
  lemma SpawnCells(s: Shape, color: PieceColor)
    ensures forall c :: c in Cells(Spawn(s, color)) <==> Covers(s[0], SpawnX, 0, c)
  {
    var p := Spawn(s, color);
    assert Image(p) == s[0];
  }
}
