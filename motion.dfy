/** The rules that move the active piece, stated on wall values: the position
    check, the landing row of a drop, the rotation kick search and the spawn
    position. */
module Motion {
  import opened Tetromino
  import opened Playfield

  /** The spawn column: COLS / 2 - 2. */
  const SPAWN_COL: int := COLS / 2 - 2

  /** The horizontal kick offsets, tried in this order. */
  const KICKS: seq<int> := [0, -1, 1, -2, 2]

  /** An anchor row and column and a rotation index of the active piece. */
  datatype Pose = Pose(row: int, col: int, rot: nat)

  /** The decoded cells of some rotation: non-empty and inside the 4x4 box. */
  predicate PieceCells(cells: seq<Point>)
  {
    |cells| > 0 && forall k :: 0 <= k < |cells| ==> InBox(cells[k])
  }

  /** The collision rule for piece v in rotation rot anchored at (r, c). */
  predicate ValidPosition(g: Grid, v: Variant, r: int, c: int, rot: nat)
    requires WellFormed(g)
  {
    Fits(g, Blocks(v, rot), r, c)
  }

  /** A valid anchor row lies above the floor. */
  lemma FitsAboveFloor(g: Grid, cells: seq<Point>, r: int, c: int)
    requires WellFormed(g) && PieceCells(cells) && Fits(g, cells, r, c)
    ensures r < ROWS
  {
    FitsEvery(g, cells, r, c);
    assert Free(g, r + cells[0].y, c + cells[0].x);
  }

  // --------------------------------------------------------------- dropping

  /** The row reached from r by +1 steps while the next row fits. */
  function LandingRow(g: Grid, cells: seq<Point>, r: int, c: int): (land: int)
    requires WellFormed(g) && PieceCells(cells)
    decreases ROWS - r
    ensures r <= land
    ensures forall k :: r < k <= land ==> Fits(g, cells, k, c)
    ensures !Fits(g, cells, land + 1, c)
  {
    if Fits(g, cells, r + 1, c) then
      FitsAboveFloor(g, cells, r + 1, c);
      LandingRow(g, cells, r + 1, c)
    else r
  }

  /** The landing row is the only row that is reachable by fitting +1 steps
      and blocked below. */
  lemma LandingRowUnique(g: Grid, cells: seq<Point>, r: int, c: int, t: int)
    requires WellFormed(g) && PieceCells(cells) && r <= t
    requires forall k :: r < k <= t ==> Fits(g, cells, k, c)
    requires !Fits(g, cells, t + 1, c)
    ensures t == LandingRow(g, cells, r, c)
  {
  }

  // --------------------------------------------------------------- rotating

  /** The index of the first kick, from index i on, at which the cells fit at
      row r and column c plus the kick. */
  function FirstKick(g: Grid, cells: seq<Point>, r: int, c: int, kicks: seq<int>, i: nat): (k: Option<nat>)
    requires WellFormed(g) && i <= |kicks|
    decreases |kicks| - i
    ensures k.Some? ==> i <= k.value < |kicks| && Fits(g, cells, r, c + kicks[k.value])
    ensures k.Some? ==> forall j :: i <= j < k.value ==> !Fits(g, cells, r, c + kicks[j])
    ensures k.None? ==> forall j :: i <= j < |kicks| ==> !Fits(g, cells, r, c + kicks[j])
  {
    if i == |kicks| then None
    else if Fits(g, cells, r, c + kicks[i]) then Some(i)
    else FirstKick(g, cells, r, c, kicks, i + 1)
  }

  /** Where a rotation leaves the piece, given the cells of its next rotation
      newRot: at the first fitting horizontal kick, else one row up at the same
      column, else unchanged. */
  function Rotated(g: Grid, next: seq<Point>, p: Pose, newRot: nat): (q: Pose)
    requires WellFormed(g)
  {
    match FirstKick(g, next, p.row, p.col, KICKS, 0)
    case Some(k) => Pose(p.row, p.col + KICKS[k], newRot)
    case None =>
      if Fits(g, next, p.row - 1, p.col) then Pose(p.row - 1, p.col, newRot)
      else p
  }

  /** A rotation is either rejected, leaving the pose as it was, or lands on a
      position where the next rotation fits. */
  lemma RotatedFitsOrUnchanged(g: Grid, next: seq<Point>, p: Pose, newRot: nat)
    requires WellFormed(g)
    ensures var q := Rotated(g, next, p, newRot);
      q == p || (q.rot == newRot && Fits(g, next, q.row, q.col))
  {
  }

  /** When some horizontal kick fits, the first fitting one in the order 0, -1,
      +1, -2, +2 is taken, at the same row. */
  lemma RotatedTakesFirstKick(g: Grid, next: seq<Point>, p: Pose, newRot: nat, j: nat)
    requires WellFormed(g) && j < |KICKS| && Fits(g, next, p.row, p.col + KICKS[j])
    ensures exists i :: 0 <= i <= j && Rotated(g, next, p, newRot) == Pose(p.row, p.col + KICKS[i], newRot) &&
                        Fits(g, next, p.row, p.col + KICKS[i]) &&
                        forall h :: 0 <= h < i ==> !Fits(g, next, p.row, p.col + KICKS[h])
  {
    var k := FirstKick(g, next, p.row, p.col, KICKS, 0);
    assert k.Some? && k.value <= j;
    var i := k.value;
    assert Rotated(g, next, p, newRot) == Pose(p.row, p.col + KICKS[i], newRot);
  }

  /** Only when no horizontal kick fits is the row above tried; when that does
      not fit either, the rotation is rejected. */
  lemma RotatedTriesRowAbove(g: Grid, next: seq<Point>, p: Pose, newRot: nat)
    requires WellFormed(g)
    requires forall j :: 0 <= j < |KICKS| ==> !Fits(g, next, p.row, p.col + KICKS[j])
    ensures Rotated(g, next, p, newRot) ==
      if Fits(g, next, p.row - 1, p.col) then Pose(p.row - 1, p.col, newRot) else p
  {
  }

  // ---------------------------------------------------------------- spawning

  /** The pose of a newly spawned piece. */
  function SpawnPose(v: Variant): (p: Pose)
  {
    Pose(-(TopEmptyRows(v, 0) as int), SPAWN_COL, 0)
  }

  /** The spawn row is minus the number of leading template rows without a
      '#', as the scan of the first template counts them. */
  lemma SpawnRowScansTemplate(v: Variant)
    ensures SpawnPose(v).row == -(FirstFilledRow(Template(v, 0), 0) as int)
  {
    TopEmptyRowsScansTemplate(v, 0);
  }

  /** At spawn the topmost cells of the piece are on row 0. */
  lemma SpawnTopAtRowZero(v: Variant)
    ensures forall p :: p in Blocks(v, 0) ==> SpawnPose(v).row + p.y >= 0
    ensures exists p :: p in Blocks(v, 0) && SpawnPose(v).row + p.y == 0
  {
    TopEmptyRowsIsTopCell(v, 0);
  }

  /** On an empty wall every piece can spawn. */
  lemma SpawnFitsEmptyGrid(v: Variant)
    ensures ValidPosition(EmptyGrid(), v, SpawnPose(v).row, SpawnPose(v).col, 0)
  {
    var cells := Blocks(v, 0);
    var g := EmptyGrid();
    FitsEvery(g, cells, SpawnPose(v).row, SpawnPose(v).col);
    forall k | 0 <= k < |cells|
      ensures Free(g, SpawnPose(v).row + cells[k].y, SpawnPose(v).col + cells[k].x)
    {
      assert InBox(cells[k]);
      var rr := SpawnPose(v).row + cells[k].y;
      if rr >= 0 {
        assert g[rr] == EmptyRow();
      }
    }
  }
}
