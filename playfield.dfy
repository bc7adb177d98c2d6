/** The playfield ("wall") as a value: ROWS rows of COLS cells, row 0 at the
    top. This module states the collision rule, what locking a piece writes,
    and what clearing full rows leaves behind. */
module Playfield {
  import opened Tetromino

  datatype Option<T> = None | Some(value: T)

  /** A wall cell: empty, or holding a block in the colour of a variant. */
  type Cell = Option<Variant>

  type Grid = seq<seq<Cell>>

  const ROWS: nat := 20
  const COLS: nat := 10

  predicate WellFormed(g: Grid)
  {
    |g| == ROWS && forall r :: 0 <= r < |g| ==> |g[r]| == COLS
  }

  function EmptyRow(): (row: seq<Cell>)
    ensures |row| == COLS && forall c :: 0 <= c < |row| ==> row[c] == None
  {
    seq(COLS, _ => None)
  }

  function EmptyRows(n: nat): (g: Grid)
    ensures |g| == n && forall r :: 0 <= r < n ==> g[r] == EmptyRow()
  {
    seq(n, _ => EmptyRow())
  }

  /** The wall of a new game. */
  function EmptyGrid(): (g: Grid)
    ensures WellFormed(g)
  {
    EmptyRows(ROWS)
  }

  // ---------------------------------------------------------------- collision

  /** Whether a block may occupy (rr, cc): inside the columns, above the floor,
      and on an empty cell when the row is on the field. Rows above the field
      (rr < 0) are always allowed. */
  predicate Free(g: Grid, rr: int, cc: int)
    requires WellFormed(g)
  {
    0 <= cc < COLS && rr < ROWS && (rr >= 0 ==> g[rr][cc] == None)
  }

  /** Whether every offset of cells, anchored at (r, c), may take a block
      (checked last cell first; FitsEvery gives the quantified form). */
  predicate Fits(g: Grid, cells: seq<Point>, r: int, c: int)
    requires WellFormed(g)
    decreases |cells|
  {
    cells == [] ||
    (Fits(g, cells[..|cells| - 1], r, c) &&
     Free(g, r + cells[|cells| - 1].y, c + cells[|cells| - 1].x))
  }

  /** Fits holds exactly when every cell is free. */
  lemma {:induction false} FitsEvery(g: Grid, cells: seq<Point>, r: int, c: int)
    requires WellFormed(g)
    decreases |cells|
    ensures Fits(g, cells, r, c) <==>
      forall k :: 0 <= k < |cells| ==> Free(g, r + cells[k].y, c + cells[k].x)
  {
    if cells != [] {
      var front := cells[..|cells| - 1];
      FitsEvery(g, front, r, c);
      assert forall k :: 0 <= k < |front| ==> front[k] == cells[k];
    }
  }

  // ------------------------------------------------------------------ locking

  /** Writes a block of colour v at (rr, cc) when that cell lies on the field;
      any other target is skipped. */
  function Put(g: Grid, rr: int, cc: int, v: Variant): (h: Grid)
    requires WellFormed(g)
    ensures WellFormed(h)
  {
    if 0 <= rr < ROWS && 0 <= cc < COLS then g[rr := g[rr][cc := Some(v)]] else g
  }

  /** Writes the cells, anchored at (r, c), one after the other. */
  function Stamp(g: Grid, cells: seq<Point>, r: int, c: int, v: Variant): (h: Grid)
    requires WellFormed(g)
    decreases |cells|
    ensures WellFormed(h)
  {
    if cells == [] then g
    else
      var last := cells[|cells| - 1];
      Put(Stamp(g, cells[..|cells| - 1], r, c, v), r + last.y, c + last.x, v)
  }

  /** Stamping one more cell puts that cell on the previous stamp. */
  lemma StampSnoc(g: Grid, cells: seq<Point>, i: nat, r: int, c: int, v: Variant)
    requires WellFormed(g) && i < |cells|
    ensures Stamp(g, cells[..i + 1], r, c, v) ==
            Put(Stamp(g, cells[..i], r, c, v), r + cells[i].y, c + cells[i].x, v)
  {
    assert cells[..i + 1][..i] == cells[..i];
  }

  /** Whether some offset of cells, anchored at (r, c), lands on (i, j). */
  predicate Covers(cells: seq<Point>, r: int, c: int, i: int, j: int)
  {
    exists k :: 0 <= k < |cells| && r + cells[k].y == i && c + cells[k].x == j
  }

  /** The index of the first cell that lies above the field (row < 0) when
      anchored at row r, or |cells| when there is none. */
  function FirstAbove(cells: seq<Point>, r: int): (k: nat)
    ensures k <= |cells|
    ensures forall j :: 0 <= j < k ==> r + cells[j].y >= 0
    ensures k < |cells| ==> r + cells[k].y < 0
  {
    if cells == [] then 0
    else if r + cells[0].y < 0 then 0
    else 1 + FirstAbove(cells[1..], r)
  }

  // ------------------------------------------------------------- line clearing

  predicate Full(row: seq<Cell>)
  {
    forall c :: 0 <= c < |row| ==> row[c].Some?
  }

  /** The rows that are not full, top to bottom. */
  function Kept(g: Grid): (k: Grid)
    ensures |k| <= |g|
    ensures forall i :: 0 <= i < |k| ==> !Full(k[i]) && k[i] in g
  {
    if g == [] then []
    else (if Full(g[0]) then [] else [g[0]]) + Kept(g[1..])
  }

  /** The number of full rows. */
  function FullCount(g: Grid): nat
  {
    if g == [] then 0
    else (if Full(g[0]) then 1 else 0) + FullCount(g[1..])
  }

  /** The wall after every full row is removed and the remaining rows have
      fallen below as many new empty rows. */
  function Cleared(g: Grid): Grid
  {
    EmptyRows(|g| - |Kept(g)|) + Kept(g)
  }

  // -------------------------------------------------------------------- lemmas

  /** Put changes the target cell on the field and nothing else. */
  lemma PutCell(g: Grid, rr: int, cc: int, v: Variant, i: nat, j: nat)
    requires WellFormed(g) && i < ROWS && j < COLS
    ensures Put(g, rr, cc, v)[i][j] == if i == rr && j == cc then Some(v) else g[i][j]
  {
  }

  /** Stamping writes colour v on every field cell some offset lands on, and
      leaves every other cell as it was. */
  lemma {:induction false} StampCells(g: Grid, cells: seq<Point>, r: int, c: int, v: Variant, i: nat, j: nat)
    requires WellFormed(g) && i < ROWS && j < COLS
    decreases |cells|
    ensures Stamp(g, cells, r, c, v)[i][j] == if Covers(cells, r, c, i, j) then Some(v) else g[i][j]
  {
    if cells != [] {
      var n := |cells| - 1;
      var front := cells[..n];
      StampCells(g, front, r, c, v, i, j);
      PutCell(Stamp(g, front, r, c, v), r + cells[n].y, c + cells[n].x, v, i, j);
      if Covers(front, r, c, i, j) {
        var k :| 0 <= k < |front| && r + front[k].y == i && c + front[k].x == j;
        assert cells[k] == front[k];
      }
      if Covers(cells, r, c, i, j) && !(r + cells[n].y == i && c + cells[n].x == j) {
        var k :| 0 <= k < |cells| && r + cells[k].y == i && c + cells[k].x == j;
        assert k < n && front[k] == cells[k];
      }
    }
  }

  lemma {:induction false} FullCountAppend(a: Grid, b: Grid)
    ensures FullCount(a + b) == FullCount(a) + FullCount(b)
  {
    if a != [] {
      assert (a + b)[1..] == a[1..] + b;
      FullCountAppend(a[1..], b);
    } else {
      assert a + b == b;
    }
  }

  /** Each row is either kept or counted as full. */
  lemma {:induction false} KeptPlusFull(g: Grid)
    ensures |Kept(g)| + FullCount(g) == |g|
  {
    if g != [] {
      KeptPlusFull(g[1..]);
    }
  }

  /** A row that is not full keeps its place among the kept rows: it is preceded
      there by the rows above it that are not full. */
  lemma {:induction false} KeptIndex(g: Grid, i: nat)
    requires i < |g| && !Full(g[i])
    ensures FullCount(g[..i]) <= i
    ensures i - FullCount(g[..i]) < |Kept(g)|
    ensures Kept(g)[i - FullCount(g[..i])] == g[i]
  {
    if i > 0 {
      KeptIndex(g[1..], i - 1);
      assert g[..i] == [g[0]] + g[1..][..i - 1];
      FullCountAppend([g[0]], g[1..][..i - 1]);
      assert FullCount([g[0]]) == if Full(g[0]) then 1 else 0 by {
        assert [g[0]][1..] == [];
      }
    } else {
      assert g[..0] == [];
    }
  }

  lemma EmptyRowNotFull()
    ensures !Full(EmptyRow())
  {
    assert EmptyRow()[0] == None;
  }

  /** Clearing keeps the wall's shape. */
  lemma ClearedShape(g: Grid)
    requires WellFormed(g)
    ensures WellFormed(Cleared(g))
  {
    var k := Kept(g);
    forall i | 0 <= i < |k| ensures |k[i]| == COLS {
      assert k[i] in g;
    }
  }

  /** After clearing, no row is full, and the top FullCount(g) rows are empty. */
  lemma ClearedNoFullRow(g: Grid)
    requires WellFormed(g)
    ensures |Cleared(g)| == ROWS && FullCount(g) <= ROWS
    ensures forall i :: 0 <= i < ROWS ==> !Full(Cleared(g)[i])
    ensures forall i :: 0 <= i < FullCount(g) ==> Cleared(g)[i] == EmptyRow()
  {
    KeptPlusFull(g);
    var n := |g| - |Kept(g)|;
    forall i | 0 <= i < ROWS ensures !Full(Cleared(g)[i]) {
      if i < n {
        assert Cleared(g)[i] == EmptyRow();
        assert EmptyRow()[0] == None;
      } else {
        assert Cleared(g)[i] == Kept(g)[i - n];
      }
    }
  }

  /** A row that is not full moves down by the number of full rows below it. */
  lemma ClearedMovesRow(g: Grid, i: nat)
    requires i < |g| && !Full(g[i])
    ensures i + FullCount(g[i + 1..]) < |Cleared(g)|
    ensures Cleared(g)[i + FullCount(g[i + 1..])] == g[i]
  {
    KeptIndex(g, i);
    KeptPlusFull(g);
    assert g == g[..i] + ([g[i]] + g[i + 1..]);
    FullCountAppend(g[..i], [g[i]] + g[i + 1..]);
    FullCountAppend([g[i]], g[i + 1..]);
    assert [g[i]][1..] == [];
    var n := |g| - |Kept(g)|;
    assert Cleared(g)[n + (i - FullCount(g[..i]))] == Kept(g)[i - FullCount(g[..i])];
  }
}
