/** The line clearer (main/main.py, clear_rows): scan the snapshot rows from
    the bottom up; for every row of the snapshot with no Black cell, delete
    that row's locked entries and move every entry above it down one row.

    Fullness is always read from the snapshot taken before any clearing, and
    the snapshot is never refreshed after a shift. With two adjacent full
    rows the second deletion therefore hits the row that has just slid into
    that index (see ClearAdjacentRows); the model keeps that behaviour. */
module LineClear {
  import opened Geometry
  import opened Board

  /** A snapshot row with no background cell. */
  predicate RowFull(row: seq<Color>) {
    Black !in row
  }

  /** The full snapshot rows among 0..i. */
  function FullRowsUpTo(g: Grid, i: int): set<int> {
    set j | 0 <= j <= i && j < |g| && RowFull(g[j])
  }

  /** The delete loop: drop the entries (j, i) for every board column j.
      An entry on row i with a column off the board is not touched. */
  function DeleteRow(m: Locked, i: int): Locked {
    map k | k in m && !(k.1 == i && 0 <= k.0 < Cols) :: m[k]
  }

  lemma DeleteRowAt(m: Locked, i: int, k: Cell)
    ensures k in DeleteRow(m, i) <==> k in m && !(k.1 == i && 0 <= k.0 < Cols)
    ensures k in DeleteRow(m, i) ==> DeleteRow(m, i)[k] == m[k]
  {
  }

  /** The delete loop as the program writes it: for each board column from
      j on, remove (column, i) when it is locked and otherwise carry on (the
      KeyError the loop swallows). */
  function DeleteCols(m: Locked, i: int, j: int): Locked
    requires 0 <= j <= Cols
    decreases Cols - j
  {
    if j == Cols then m
    else DeleteCols(if (j, i) in m then m - {(j, i)} else m, i, j + 1)
  }

  /** Once the loop has visited columns j .. Cols - 1 of row i, exactly the
      entries of row i in those columns are gone. */
  lemma {:induction false} DeleteColsFrom(m: Locked, i: int, j: int)
    requires 0 <= j <= Cols
    ensures DeleteCols(m, i, j) == map k | k in m && !(k.1 == i && j <= k.0 < Cols) :: m[k]
    decreases Cols - j
  {
    if j < Cols {
      var m' := if (j, i) in m then m - {(j, i)} else m;
      DeleteColsFrom(m', i, j + 1);
      assert (map k | k in m' && !(k.1 == i && j + 1 <= k.0 < Cols) :: m'[k]) ==
             (map k | k in m && !(k.1 == i && j <= k.0 < Cols) :: m[k]);
    }
  }

  /** The whole delete loop removes exactly the row-i entries on board columns. */
  lemma DeleteColsIsDeleteRow(m: Locked, i: int)
    ensures DeleteCols(m, i, 0) == DeleteRow(m, i)
  {
    DeleteColsFrom(m, i, 0);
  }

  /** The cell one row up. */
  function CellAbove(k: Cell): Cell {
    (k.0, k.1 - 1)
  }

  function Shifted(s: set<Cell>): set<Cell> {
    set k | k in s :: (k.0, k.1 + 1)
  }

  lemma ShiftedAt(s: set<Cell>, k: Cell)
    ensures k in Shifted(s) <==> CellAbove(k) in s
  {
    if CellAbove(k) in s {
      assert k == (CellAbove(k).0, CellAbove(k).1 + 1);
    }
  }

  /** The shift after a deletion, as one rebuild of the map: a cell at row
      <= i receives the entry from the cell above it when that one lies
      above row i; otherwise a cell at row >= i keeps its own entry. */
  function ShiftAbove(m: Locked, i: int): (r: Locked)
    ensures forall k :: k in m && k.1 < i ==> (k.0, k.1 + 1) in r && r[(k.0, k.1 + 1)] == m[k]
    ensures forall k :: k in m && k.1 > i ==> k in r && r[k] == m[k]
    ensures forall k :: k in r ==>
      (k.1 <= i && CellAbove(k) in m && r[k] == m[CellAbove(k)]) || (k.1 >= i && k in m && r[k] == m[k])
  {
    map k | k in m.Keys + Shifted(m.Keys) && ((CellAbove(k) in m && k.1 <= i) || (k in m && k.1 >= i)) ::
      if CellAbove(k) in m && k.1 <= i then m[CellAbove(k)] else m[k]
  }

  /** Membership and contents of ShiftAbove, one cell at a time. */
  lemma ShiftAboveAt(m: Locked, i: int, k: Cell)
    ensures k in ShiftAbove(m, i) <==> (CellAbove(k) in m && k.1 <= i) || (k in m && k.1 >= i)
    ensures k in ShiftAbove(m, i) ==>
      ShiftAbove(m, i)[k] == if CellAbove(k) in m && k.1 <= i then m[CellAbove(k)] else m[k]
  {
    ShiftedAt(m.Keys, k);
  }

  /** Part-way through the in-place shift, once the keys in `done` have been
      visited, a cell holds the entry moved in from the cell above (a visited
      key above row i) ... */
  predicate MovedIn(m: Locked, i: int, done: set<Cell>, k: Cell) {
    CellAbove(k) in done && CellAbove(k) in m && k.1 <= i
  }

  /** ... or else its own entry, unless that entry has been popped. */
  predicate Kept(m: Locked, i: int, done: set<Cell>, k: Cell) {
    k in m && !(k in done && k.1 < i)
  }

  /** r is the map part-way through the in-place shift of m. */
  ghost predicate Agrees(r: Locked, m: Locked, i: int, done: set<Cell>) {
    forall k ::
      && (k in r <==> MovedIn(m, i, done, k) || Kept(m, i, done, k))
      && (k in r ==> r[k] == if MovedIn(m, i, done, k) then m[CellAbove(k)] else m[k])
  }

  lemma AgreesStart(m: Locked, i: int)
    ensures Agrees(m, m, i, {})
  {
  }

  /** Once every key has been visited the map is the rebuilt shift. */
  lemma AgreesEnd(r: Locked, m: Locked, i: int)
    requires Agrees(r, m, i, m.Keys)
    ensures r == ShiftAbove(m, i)
  {
    var s := ShiftAbove(m, i);
    forall k
      ensures (k in r <==> k in s) && (k in r ==> r[k] == s[k])
    {
      ShiftAboveAt(m, i, k);
      assert MovedIn(m, i, m.Keys, k) <==> CellAbove(k) in m && k.1 <= i;
      assert Kept(m, i, m.Keys, k) <==> k in m && k.1 >= i;
    }
  }

  /** Visiting one more key, no lower than any visited key: the key still
      holds its original colour, and popping it and storing that colour one
      row lower (for a key above row i), or doing nothing (otherwise), keeps
      the map in step. */
  lemma AgreesStep(r: Locked, m: Locked, i: int, done: set<Cell>, key: Cell)
    requires Agrees(r, m, i, done)
    requires key in m && key !in done
    requires forall d :: d in done ==> d.1 >= key.1
    ensures key in r && r[key] == m[key]
    ensures key.1 < i ==> Agrees((r - {key})[(key.0, key.1 + 1) := r[key]], m, i, done + {key})
    ensures key.1 >= i ==> Agrees(r, m, i, done + {key})
  {
    assert CellAbove(key) !in done;
    assert !MovedIn(m, i, done, key) && Kept(m, i, done, key);
    var done' := done + {key};
    var below := (key.0, key.1 + 1);
    if key.1 < i {
      var r' := (r - {key})[below := r[key]];
      forall k
        ensures && (k in r' <==> MovedIn(m, i, done', k) || Kept(m, i, done', k))
                && (k in r' ==> r'[k] == if MovedIn(m, i, done', k) then m[CellAbove(k)] else m[k])
      {
        if k == below {
          assert CellAbove(k) == key && MovedIn(m, i, done', k);
        } else if k == key {
          assert !MovedIn(m, i, done', k) && !Kept(m, i, done', k);
        } else {
          assert CellAbove(k) != key;
          assert MovedIn(m, i, done', k) == MovedIn(m, i, done, k);
          assert Kept(m, i, done', k) == Kept(m, i, done, k);
        }
      }
    } else {
      forall k
        ensures && (k in r <==> MovedIn(m, i, done', k) || Kept(m, i, done', k))
                && (k in r ==> r[k] == if MovedIn(m, i, done', k) then m[CellAbove(k)] else m[k])
      {
        assert MovedIn(m, i, done', k) == MovedIn(m, i, done, k);
        assert Kept(m, i, done', k) == Kept(m, i, done, k);
      }
    }
  }

  /** The keys visited after n steps of the in-place loop. */
  function Visited(order: seq<Cell>, n: int): set<Cell>
    requires 0 <= n <= |order|
  {
    set a | 0 <= a < n :: order[a]
  }

  lemma VisitedStep(order: seq<Cell>, n: int)
    requires 0 <= n < |order|
    ensures Visited(order, n + 1) == Visited(order, n) + {order[n]}
  {
  }

  /** In a row-descending order without repeats, the next key has not been
      visited yet and every visited key lies on its row or below it. */
  lemma VisitedBefore(order: seq<Cell>, n: int)
    requires 0 <= n < |order|
    requires forall a, b :: 0 <= a < b < |order| ==> order[a] != order[b]
    requires forall a, b :: 0 <= a < b < |order| ==> order[a].1 >= order[b].1
    ensures order[n] !in Visited(order, n)
    ensures forall d :: d in Visited(order, n) ==> d.1 >= order[n].1
  {
  }

  lemma VisitedAll(order: seq<Cell>, m: Locked)
    requires forall k :: k in m <==> k in order
    ensures Visited(order, |order|) == m.Keys
  {
    forall k | k in m
      ensures k in Visited(order, |order|)
    {
      var a :| 0 <= a < |order| && order[a] == k;
    }
  }

  /** The shift loop as the program writes it: visit every key in
      descending row order and, for a key above row i, pop it and store its
      colour one row lower. Its result is the rebuilt map ShiftAbove. */
  method ShiftAboveInPlace(m: Locked, i: int, order: seq<Cell>) returns (r: Locked)
    requires forall a, b :: 0 <= a < b < |order| ==> order[a] != order[b]
    requires forall k :: k in m <==> k in order
    requires forall a, b :: 0 <= a < b < |order| ==> order[a].1 >= order[b].1
    ensures r == ShiftAbove(m, i)
  {
    r := m;
    AgreesStart(m, i);
    var n := 0;
    while n < |order|
      invariant 0 <= n <= |order|
      invariant Agrees(r, m, i, Visited(order, n))
    {
      var key := order[n];
      assert key in m;
      VisitedStep(order, n);
      VisitedBefore(order, n);
      AgreesStep(r, m, i, Visited(order, n), key);
      if key.1 < i {
        var colour := r[key];
        r := r - {key};
        r := r[(key.0, key.1 + 1) := colour];
      }
      n := n + 1;
    }
    VisitedAll(order, m);
    AgreesEnd(r, m, i);
  }

  /** The result of clear_rows: the count it returns and the locked map it
      leaves behind. */
  datatype Cleared = Cleared(count: nat, locked: Locked)

  /** The scan over rows i, i - 1, ..., 0 of the snapshot. The count is the
      number of full snapshot rows among them. */
  function ClearFrom(g: Grid, m: Locked, i: int): (r: Cleared)
    requires i < |g|
    ensures r.count == |FullRowsUpTo(g, i)|
    decreases i + 1
  {
    if i < 0 then
      assert FullRowsUpTo(g, i) == {};
      Cleared(0, m)
    else
      var lower := FullRowsUpTo(g, i - 1);
      assert i !in lower;
      if RowFull(g[i]) then
        assert FullRowsUpTo(g, i) == lower + {i};
        var r := ClearFrom(g, ShiftAbove(DeleteRow(m, i), i), i - 1);
        Cleared(r.count + 1, r.locked)
      else
        assert FullRowsUpTo(g, i) == lower;
        ClearFrom(g, m, i - 1)
  }

  /** The number of board rows of a snapshot with no Black cell. */
  function FullRowCount(g: Grid): nat
    requires |g| == Rows
  {
    |set j | 0 <= j < Rows && RowFull(g[j])|
  }

  /** clear_rows on a snapshot of the board. The returned count is the
      number of snapshot rows without a Black cell. */
  function ClearRows(g: Grid, m: Locked): (r: Cleared)
    requires |g| == Rows
    ensures r.count == FullRowCount(g)
  {
    assert FullRowsUpTo(g, Rows - 1) == set j | 0 <= j < Rows && RowFull(g[j]);
    ClearFrom(g, m, Rows - 1)
  }

  /** With no full row in the scanned range nothing changes. */
  lemma {:induction false} ClearFromNoneFull(g: Grid, m: Locked, i: int)
    requires i < |g| && FullRowsUpTo(g, i) == {}
    ensures ClearFrom(g, m, i) == Cleared(0, m)
    decreases i + 1
  {
    if i >= 0 {
      assert !RowFull(g[i]) by { assert i !in FullRowsUpTo(g, i); }
      assert FullRowsUpTo(g, i - 1) <= FullRowsUpTo(g, i);
      ClearFromNoneFull(g, m, i - 1);
    }
  }

  /** When row i is the only full row in the scanned range, the scan performs
      exactly one delete-and-shift, at row i. */
  lemma {:induction false} ClearFromSingle(g: Grid, m: Locked, j: int, i: int)
    requires 0 <= i <= j < |g| && FullRowsUpTo(g, j) == {i}
    ensures ClearFrom(g, m, j) == Cleared(1, ShiftAbove(DeleteRow(m, i), i))
    decreases j
  {
    assert FullRowsUpTo(g, j - 1) <= FullRowsUpTo(g, j);
    if j == i {
      assert RowFull(g[i]) by { assert i in FullRowsUpTo(g, j); }
      assert i !in FullRowsUpTo(g, i - 1);
      assert FullRowsUpTo(g, i - 1) == {};
      ClearFromNoneFull(g, ShiftAbove(DeleteRow(m, i), i), i - 1);
    } else {
      assert !RowFull(g[j]) by { assert j !in FullRowsUpTo(g, j); }
      assert i in FullRowsUpTo(g, j - 1);
      assert FullRowsUpTo(g, j - 1) == {i};
      ClearFromSingle(g, m, j - 1, i);
    }
  }

  /** Moving a set of cells one row down keeps its size. */
  lemma {:induction false} ShiftedSize(s: set<Cell>)
    ensures |Shifted(s)| == |s|
    decreases |s|
  {
    if s != {} {
      var k :| k in s;
      ShiftedSize(s - {k});
      assert Shifted(s) == Shifted(s - {k}) + {(k.0, k.1 + 1)};
      assert (k.0, k.1 + 1) !in Shifted(s - {k});
    }
  }

  /** The locked entries on row i. */
  function RowKeys(m: Locked, i: int): set<Cell> {
    set k | k in m && k.1 == i
  }

  /** The locked entries above row i. */
  function KeysAbove(m: Locked, i: int): set<Cell> {
    set k | k in m && k.1 < i
  }

  /** The locked entries below row i. */
  function KeysBelow(m: Locked, i: int): set<Cell> {
    set k | k in m && k.1 > i
  }

  /** Every cell occupied after clearing row i (all of whose entries lie on
      board columns) is an untouched one below row i or comes from above. */
  lemma RowClearKeysFrom(m: Locked, i: int, k: Cell)
    requires forall k :: k in m && k.1 == i ==> 0 <= k.0 < Cols
    ensures k in ShiftAbove(DeleteRow(m, i), i) ==> k in KeysBelow(m, i) || CellAbove(k) in KeysAbove(m, i)
  {
    var d := DeleteRow(m, i);
    ShiftAboveAt(d, i, k);
    if k in ShiftAbove(d, i) {
      if k.1 <= i && CellAbove(k) in d {
        DeleteRowAt(m, i, CellAbove(k));
      } else {
        DeleteRowAt(m, i, k);
      }
    }
  }

  /** Every entry below row i, and every entry above it moved one row down,
      is occupied after the clear. */
  lemma RowClearKeysTo(m: Locked, i: int, k: Cell)
    requires k in KeysBelow(m, i) || CellAbove(k) in KeysAbove(m, i)
    ensures k in ShiftAbove(DeleteRow(m, i), i)
  {
    var d := DeleteRow(m, i);
    if k in KeysBelow(m, i) {
      DeleteRowAt(m, i, k);
    } else {
      DeleteRowAt(m, i, CellAbove(k));
    }
    ShiftAboveAt(d, i, k);
  }

  /** After clearing row i (all of whose entries lie on board columns) the
      occupied cells are the untouched ones below row i and the ones from
      above row i, each one row lower. */
  lemma RowClearKeys(m: Locked, i: int)
    requires forall k :: k in m && k.1 == i ==> 0 <= k.0 < Cols
    ensures ShiftAbove(DeleteRow(m, i), i).Keys == KeysBelow(m, i) + Shifted(KeysAbove(m, i))
  {
    var r := ShiftAbove(DeleteRow(m, i), i);
    var target := KeysBelow(m, i) + Shifted(KeysAbove(m, i));
    forall k | k in r
      ensures k in target
    {
      RowClearKeysFrom(m, i, k);
      ShiftedAt(KeysAbove(m, i), k);
    }
    forall k | k in target
      ensures k in r
    {
      ShiftedAt(KeysAbove(m, i), k);
      RowClearKeysTo(m, i, k);
    }
  }

  /** Clearing row i shrinks the map by exactly the entries of row i: no
      entry is lost or duplicated by the shift. */
  lemma RowClearSize(m: Locked, i: int)
    requires forall k :: k in m && k.1 == i ==> 0 <= k.0 < Cols
    ensures |ShiftAbove(DeleteRow(m, i), i)| == |m| - |RowKeys(m, i)|
  {
    var below := KeysBelow(m, i);
    var above := KeysAbove(m, i);
    assert m.Keys == below + RowKeys(m, i) + above;
    assert below !! RowKeys(m, i) && (below + RowKeys(m, i)) !! above;
    RowClearKeys(m, i);
    ShiftedSize(above);
    assert below !! Shifted(above);
  }

  /** Clearing one row i whose entries all lie on board columns: they are
      all gone, every entry above row i is now one row lower with its
      colour, every entry below is untouched, nothing else appears, and the
      map shrinks by exactly the number of entries removed. */
  lemma RowClearEffect(m: Locked, i: int)
    requires forall k :: k in m && k.1 == i ==> 0 <= k.0 < Cols
    ensures var r := ShiftAbove(DeleteRow(m, i), i);
      && (forall k :: k in m && k.1 < i ==> (k.0, k.1 + 1) in r && r[(k.0, k.1 + 1)] == m[k])
      && (forall k :: k in m && k.1 > i ==> k in r && r[k] == m[k])
      && (forall k :: k in r ==>
            (k.1 <= i && CellAbove(k) in m && CellAbove(k).1 < i && r[k] == m[CellAbove(k)]) ||
            (k.1 > i && k in m && r[k] == m[k]))
      && |r| == |m| - |RowKeys(m, i)|
  {
    var d := DeleteRow(m, i);
    var r := ShiftAbove(d, i);
    forall k | k in r
      ensures (k.1 <= i && CellAbove(k) in m && CellAbove(k).1 < i && r[k] == m[CellAbove(k)]) ||
              (k.1 > i && k in m && r[k] == m[k])
    {
      ShiftAboveAt(d, i, k);
      if !(k.1 <= i && CellAbove(k) in d) {
        assert k in d;
      }
    }
    RowClearSize(m, i);
  }

  /** clear_rows with exactly one full snapshot row i performs one
      delete-and-shift, at row i, and reports one cleared row. */
  lemma ClearOneFullRowMap(g: Grid, m: Locked, i: int)
    requires |g| == Rows && 0 <= i < Rows
    requires forall j :: 0 <= j < Rows ==> (RowFull(g[j]) <==> j == i)
    ensures ClearRows(g, m) == Cleared(1, ShiftAbove(DeleteRow(m, i), i))
  {
    assert i in FullRowsUpTo(g, Rows - 1);
    assert FullRowsUpTo(g, Rows - 1) == {i};
    ClearFromSingle(g, m, Rows - 1, i);
  }

  /** clear_rows with exactly one full snapshot row i whose locked entries
      all lie on board columns: it reports one cleared row and leaves the
      map of RowClearEffect. */
  lemma ClearOneFullRow(g: Grid, m: Locked, i: int)
    requires |g| == Rows && 0 <= i < Rows
    requires forall j :: 0 <= j < Rows ==> (RowFull(g[j]) <==> j == i)
    requires forall k :: k in m && k.1 == i ==> 0 <= k.0 < Cols
    ensures var r := ClearRows(g, m);
      && r.count == 1
      && (forall k :: k in m && k.1 < i ==> (k.0, k.1 + 1) in r.locked && r.locked[(k.0, k.1 + 1)] == m[k])
      && (forall k :: k in m && k.1 > i ==> k in r.locked && r.locked[k] == m[k])
      && (forall k :: k in r.locked ==>
            (k.1 <= i && CellAbove(k) in m && CellAbove(k).1 < i && r.locked[k] == m[CellAbove(k)]) ||
            (k.1 > i && k in m && r.locked[k] == m[k]))
      && |r.locked| == |m| - |RowKeys(m, i)|
  {
    ClearOneFullRowMap(g, m, i);
    RowClearEffect(m, i);
  }

  /** The cell at column c of row r (a function, so quantifiers over the
      columns of a row have something to trigger on). */
  function At(c: int, r: int): Cell {
    (c, r)
  }

  /** The bottom row and the row above it. */
  const Bottom: int := Rows - 1
  const AboveBottom: int := Rows - 2

  /** With exactly the two bottom snapshot rows full, clear_rows clears the
      bottom row and then, on the shifted map, row AboveBottom again. */
  lemma ClearBottomPair(g: Grid, m: Locked)
    requires |g| == Rows
    requires forall j :: 0 <= j < Rows ==> (RowFull(g[j]) <==> j >= AboveBottom)
    ensures ClearRows(g, m) ==
      Cleared(2, ShiftAbove(DeleteRow(ShiftAbove(DeleteRow(m, Bottom), Bottom), AboveBottom), AboveBottom))
  {
    var m1 := ShiftAbove(DeleteRow(m, Bottom), Bottom);
    var m2 := ShiftAbove(DeleteRow(m1, AboveBottom), AboveBottom);
    assert FullRowsUpTo(g, Rows - 3) == {};
    ClearFromNoneFull(g, m2, Rows - 3);
    assert RowFull(g[Bottom]) && RowFull(g[AboveBottom]);
    assert ClearFrom(g, m1, AboveBottom) == Cleared(1, m2);
    assert ClearFrom(g, m, Bottom) == Cleared(2, m2);
  }

  /** The program's behaviour with two adjacent full rows at the bottom:
      both are counted, but after the bottom one is cleared the upper full
      row slides into it, and the second pass deletes the row that has slid
      into AboveBottom (the old row Rows - 3) instead. Every entry of the
      upper full row survives, one row lower, so the bottom row is full
      again after the clear (see ClearAdjacentRowsLosesRowAbove for the
      entries that are lost). */
  lemma ClearAdjacentRows(g: Grid, m: Locked)
    requires |g| == Rows
    requires forall j :: 0 <= j < Rows ==> (RowFull(g[j]) <==> j >= AboveBottom)
    requires forall c :: 0 <= c < Cols ==> At(c, AboveBottom) in m
    ensures ClearRows(g, m).count == 2
    ensures forall c :: 0 <= c < Cols ==>
      At(c, Bottom) in ClearRows(g, m).locked && ClearRows(g, m).locked[At(c, Bottom)] == m[At(c, AboveBottom)]
  {
    var m1 := ShiftAbove(DeleteRow(m, Bottom), Bottom);
    var m2 := ShiftAbove(DeleteRow(m1, AboveBottom), AboveBottom);
    ClearBottomPair(g, m);
    forall c | 0 <= c < Cols
      ensures At(c, Bottom) in m2 && m2[At(c, Bottom)] == m[At(c, AboveBottom)]
    {
      assert At(c, AboveBottom) in DeleteRow(m, Bottom);
      assert At(c, Bottom) in m1 && m1[At(c, Bottom)] == m[At(c, AboveBottom)];
      assert At(c, Bottom) in DeleteRow(m1, AboveBottom);
    }
  }

  /** The same clear on an on-board map loses the entries of row Rows - 3,
      which was not full: the map shrinks by the entries of the bottom row
      and of row Rows - 3, not by those of the two full rows. */
  lemma ClearAdjacentRowsLosesRowAbove(g: Grid, m: Locked)
    requires |g| == Rows
    requires forall j :: 0 <= j < Rows ==> (RowFull(g[j]) <==> j >= AboveBottom)
    requires LockedInBounds(m)
    ensures |ClearRows(g, m).locked| == |m| - |RowKeys(m, Bottom)| - |RowKeys(m, Rows - 3)|
  {
    var m1 := ShiftAbove(DeleteRow(m, Bottom), Bottom);
    ClearBottomPair(g, m);
    RowClearSize(m, Bottom);
    RowSlidDown(m);
    RowClearSize(m1, AboveBottom);
  }

  /** After the bottom row of an on-board map is cleared, row AboveBottom
      holds the old row Rows - 3, moved down one row, and nothing else. */
  lemma RowSlidDown(m: Locked)
    requires LockedInBounds(m)
    ensures var m1 := ShiftAbove(DeleteRow(m, Bottom), Bottom);
      && |RowKeys(m1, AboveBottom)| == |RowKeys(m, Rows - 3)|
      && (forall k :: k in m1 && k.1 == AboveBottom ==> 0 <= k.0 < Cols)
  {
    var m1 := ShiftAbove(DeleteRow(m, Bottom), Bottom);
    RowClearEffect(m, Bottom);
    forall k | true
      ensures k in RowKeys(m1, AboveBottom) <==> k in Shifted(RowKeys(m, Rows - 3))
    {
      ShiftedAt(RowKeys(m, Rows - 3), k);
    }
    assert RowKeys(m1, AboveBottom) == Shifted(RowKeys(m, Rows - 3));
    ShiftedSize(RowKeys(m, Rows - 3));
    forall k | k in m1 && k.1 == AboveBottom
      ensures 0 <= k.0 < Cols
    {
      assert CellAbove(k) in m;
    }
  }

  /** Clearing keeps every locked entry on the board. */
  lemma {:induction false} ClearFromInBounds(g: Grid, m: Locked, i: int)
    requires i < |g| && i < Rows && LockedInBounds(m)
    ensures LockedInBounds(ClearFrom(g, m, i).locked)
    decreases i + 1
  {
    if i >= 0 {
      if RowFull(g[i]) {
        var m' := ShiftAbove(DeleteRow(m, i), i);
        assert LockedInBounds(m') by {
          forall k | k in m' ensures InBounds(k) {
            if k.1 <= i && CellAbove(k) in DeleteRow(m, i) {
              assert InBounds(CellAbove(k));
            } else {
              assert k in DeleteRow(m, i);
            }
          }
        }
        ClearFromInBounds(g, m', i - 1);
      } else {
        ClearFromInBounds(g, m, i - 1);
      }
    }
  }

  /** A clear that reports no full row leaves the map as it was. */
  lemma NothingClearedNothingChanged(g: Grid, m: Locked)
    requires |g| == Rows
    ensures ClearRows(g, m).count == 0 ==> ClearRows(g, m).locked == m
  {
    if ClearRows(g, m).count == 0 {
      assert FullRowsUpTo(g, Rows - 1) == {};
      ClearFromNoneFull(g, m, Rows - 1);
    }
  }
}
