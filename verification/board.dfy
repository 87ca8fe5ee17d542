/** The locked cells, the per-frame grid snapshot built from them, the
    collision oracle and the loss check (main/main.py: create_grid,
    valid_space, check_lost and the locking loop of main). */
module Board {
  import opened Geometry
  import opened Pieces

  /** Locked cells: coordinate to the colour of the piece that left it. */
  type Locked = map<Cell, PieceColor>

  /** A rendered snapshot, indexed grid[row][column]. */
  type Grid = seq<seq<Color>>

  predicate WellShaped(g: Grid) {
    |g| == Rows && forall r :: 0 <= r < Rows ==> |g[r]| == Cols
  }

  /** Every locked entry on a visible row (row >= 0) names a cell of the
      board, so create_grid can paint it. */
  predicate GridSafe(m: Locked) {
    forall k :: k in m && k.1 >= 0 ==> InBounds(k)
  }

  /** Every locked entry is a board cell (what every reachable state keeps). */
  predicate LockedInBounds(m: Locked) {
    forall k :: k in m ==> InBounds(k)
  }

  /** create_grid: a Rows x Cols background of Black with every locked entry
      on a visible row painted in its colour. */
  function CreateGrid(m: Locked): (g: Grid)
    requires GridSafe(m)
    ensures WellShaped(g)
    ensures forall r, c :: 0 <= r < Rows && 0 <= c < Cols ==> (g[r][c] == Black <==> (c, r) !in m)
    ensures forall k :: k in m && k.1 >= 0 ==> g[k.1][k.0] == m[k]
  {
    seq(Rows, r => seq(Cols, c => if (c, r) in m then var v: Color := m[(c, r)]; v else Black))
  }

  /** Paint the given cells with a colour, skipping those above the board:
      the per-frame overlay of the falling piece onto the snapshot. */
  function PaintCells(g: Grid, cells: seq<Cell>, color: PieceColor): (r: Grid)
    requires WellShaped(g)
    requires forall c :: c in cells && c.1 >= 0 ==> InBounds(c)
    ensures WellShaped(r)
    ensures forall row, col :: 0 <= row < Rows && 0 <= col < Cols ==>
      r[row][col] == (if (col, row) in cells then color else g[row][col])
    decreases |cells|
  {
    if |cells| == 0 then g
    else
      var c := cells[0];
      var g' := if c.1 >= 0 then assert c in cells && InBounds(c); g[c.1 := g[c.1][c.0 := color]] else g;
      PaintCells(g', cells[1..], color)
  }

  /** Lock the given cells with a colour, one assignment per cell in order,
      whatever their row (cells above the board are recorded too). */
  function LockCells(m: Locked, cells: seq<Cell>, color: PieceColor): (r: Locked)
    ensures r.Keys == m.Keys + set c | c in cells
    ensures forall c :: c in cells ==> r[c] == color
    ensures forall k :: k in m && k !in cells ==> r[k] == m[k]
    decreases |cells|
  {
    if |cells| == 0 then m
    else LockCells(m[cells[0] := color], cells[1..], color)
  }

  /** Locking the piece's cells into the map: every covered cell takes the
      piece's colour and every other entry keeps its own. */
  function Lock(m: Locked, p: Piece): (r: Locked)
    ensures r.Keys == m.Keys + set c | c in Cells(p)
    ensures forall c :: c in Cells(p) ==> r[c] == p.color
    ensures forall k :: k in m && k !in Cells(p) ==> r[k] == m[k]
  {
    LockCells(m, Cells(p), p.color)
  }

  /** The free board cells of a snapshot: in bounds and Black. */
  function Accepted(g: Grid): set<Cell>
    requires WellShaped(g)
  {
    set i, j | 0 <= i < Rows && 0 <= j < Cols && g[i][j] == Black :: (j, i)
  }

  /** valid_space: no covered cell on a visible row is outside the free
      cells of the snapshot. Cells above the board are never checked. */
  predicate Valid(p: Piece, g: Grid)
    requires WellShaped(g)
  {
    forall c :: c in Cells(p) ==> c in Accepted(g) || c.1 < 0
  }

  /** valid_space on any well-shaped grid: a piece is accepted exactly when
      each of its cells on a visible row is on the board and Black there. */
  lemma ValidExactly(p: Piece, g: Grid)
    requires WellShaped(g)
    ensures Valid(p, g) <==>
      forall c :: c in Cells(p) && c.1 >= 0 ==> InBounds(c) && g[c.1][c.0] == Black
  {
    forall c | c in Cells(p) && c.1 >= 0
      ensures c in Accepted(g) <==> InBounds(c) && g[c.1][c.0] == Black
    {
      if InBounds(c) && g[c.1][c.0] == Black {
        assert c == (c.0, c.1);
      }
    }
  }

  /** On a snapshot of the locked cells, a piece is rejected exactly when
      one of its cells on a visible row is off the board or already locked;
      cells on negative rows never cause a rejection, whatever their column. */
  lemma ValidOnSnapshot(p: Piece, m: Locked)
    requires GridSafe(m)
    ensures Valid(p, CreateGrid(m)) <==>
      forall c :: c in Cells(p) && c.1 >= 0 ==> InBounds(c) && c !in m
  {
    var g := CreateGrid(m);
    forall c | c in Cells(p) && c.1 >= 0
      ensures c in Accepted(g) <==> InBounds(c) && c !in m
    {
      if InBounds(c) && c !in m {
        assert g[c.1][c.0] == Black;
      }
    }
  }

  /** A valid piece has every cell on a visible row inside the board. */
  lemma ValidInBounds(p: Piece, g: Grid)
    requires WellShaped(g) && Valid(p, g)
    ensures forall c :: c in Cells(p) && c.1 >= 0 ==> InBounds(c)
  {
    forall c | c in Cells(p) && c.1 >= 0
      ensures InBounds(c)
    {
      assert c in Accepted(g);
    }
  }

  /** The snapshot the frame hands to the line clearer (locked cells with
      the piece painted over) is the grid of the locked cells after the lock. */
  lemma SnapshotAfterLock(m: Locked, cells: seq<Cell>, color: PieceColor)
    requires GridSafe(m)
    requires forall c :: c in cells && c.1 >= 0 ==> InBounds(c)
    ensures GridSafe(LockCells(m, cells, color))
    ensures PaintCells(CreateGrid(m), cells, color) == CreateGrid(LockCells(m, cells, color))
  {
    var m' := LockCells(m, cells, color);
    var a := PaintCells(CreateGrid(m), cells, color);
    var b := CreateGrid(m');
    forall row | 0 <= row < Rows
      ensures a[row] == b[row]
    {
      forall col | 0 <= col < Cols
        ensures a[row][col] == b[row][col]
      {
        if (col, row) in cells {
          assert b[row][col] == m'[(col, row)];
        } else if (col, row) in m {
          assert b[row][col] == m'[(col, row)];
        }
      }
    }
  }

  /** Some locked cell lies on row 0 or above the board. */
  predicate Lost(m: Locked) {
    exists k :: k in m && k.1 < 1
  }

  /** check_lost: scan the positions in order and stop at the first one on
      row 0 or above. */
  function CheckLost(positions: seq<Cell>): (r: bool)
    ensures r <==> exists n :: 0 <= n < |positions| && positions[n].1 < 1
    decreases |positions|
  {
    if |positions| == 0 then false
    else if positions[0].1 < 1 then true
    else
      assert forall n :: 1 <= n < |positions| ==> positions[n] == positions[1..][n - 1];
      CheckLost(positions[1..])
  }

  /** Scanning the locked keys, in whatever order the map yields them,
      decides Lost. */
  lemma CheckLostDecides(m: Locked, keys: seq<Cell>)
    requires forall k :: k in m <==> k in keys
    ensures CheckLost(keys) <==> Lost(m)
  {
    if Lost(m) {
      var k :| k in m && k.1 < 1;
      var n :| 0 <= n < |keys| && keys[n] == k;
    }
  }
}
