/** The game panel: the wall as a ROWS x COLS array and the fields of the
    running game, with one method per game command. Each command is proved
    to leave exactly the state that the matching function of module Engine
    gives, and so to keep Engine's invariant. */
module Game {
  import opened Tetromino
  import opened Playfield
  import opened Motion
  import opened Scoring
  import opened Engine

  class GamePanel {
    /** The locked blocks; None is an empty cell. */
    var wall: array2<Cell>
    var current: Variant
    var next: Variant
    var curRow: int
    var curCol: int
    var rotation: nat
    var score: nat
    var level: nat
    var totalLines: nat
    var dropDelay: int
    var isPaused: bool
    var isGameOver: bool

    /** The wall's contents as a value, kept equal to the array. */
    ghost var grid: Grid

    /** The array has the wall's shape and grid mirrors it cell by cell. */
    ghost predicate Mirrored()
      reads this`wall, this`grid, wall
    {
      wall.Length0 == ROWS && wall.Length1 == COLS && WellFormed(grid) &&
      forall i, j :: 0 <= i < ROWS && 0 <= j < COLS ==> wall[i, j] == grid[i][j]
    }

    /** The whole game state as a value. */
    ghost function State(): GameState
      reads this
    {
      GameState(grid, current, next, curRow, curCol, rotation,
                score, level, totalLines, dropDelay, isPaused, isGameOver)
    }

    ghost predicate Valid()
      reads this, wall
    {
      Mirrored() && Inv(State())
    }

    /** A panel with its game started, as the frame does right after creating
        it: first is the active piece and second the next one. */
    constructor (first: Variant, second: Variant)
      ensures Valid() && fresh(wall)
      ensures grid == EmptyGrid() && !isPaused && !isGameOver
      ensures score == 0 && level == 1 && totalLines == 0 && dropDelay == START_DELAY
      ensures current == first && next == second
      ensures Pose(curRow, curCol, rotation) == SpawnPose(first)
    {
      wall := new Cell[ROWS, COLS]((i, j) => None);
      grid := EmptyGrid();
      current, next := first, first;
      curRow, curCol, rotation := 0, 0, 0;
      score, level, totalLines, dropDelay := 0, 1, 0, START_DELAY;
      isPaused, isGameOver := false, false;
      new;
      ghost var s := State();
      StartGame(first, second);
      StartedIsNewGame(s, first, second);
    }

    // ------------------------------------------------------------ queries

    /** The collision check of piece `current` in rotation rot at (r, c). */
    method IsValidPosition(r: int, c: int, rot: nat) returns (valid: bool)
      requires Mirrored()
      ensures valid == ValidPosition(grid, current, r, c, rot)
    {
      var cells := Blocks(current, rot);
      ghost var g := grid;
      FitsEvery(g, cells, r, c);
      var i := 0;
      while i < |cells|
        invariant 0 <= i <= |cells|
        invariant forall k :: 0 <= k < i ==> Free(g, r + cells[k].y, c + cells[k].x)
      {
        var rr := r + cells[i].y;
        var cc := c + cells[i].x;
        if cc < 0 || cc >= COLS {
          return false;
        }
        if rr >= ROWS {
          return false;
        }
        if rr >= 0 && wall[rr, cc] != None {
          return false;
        }
        i := i + 1;
      }
      return true;
    }

    /** The row where the ghost of the active piece is drawn: the row a hard
        drop would lock it at. */
    method GhostRow() returns (ghostRow: int)
      requires Mirrored()
      ensures ghostRow == LandingRow(grid, Blocks(current, rotation), curRow, curCol)
    {
      ghost var g := grid;
      ghost var cells := Blocks(current, rotation);
      ghostRow := curRow;
      var valid := IsValidPosition(ghostRow + 1, curCol, rotation);
      while valid
        invariant grid == g
        invariant valid == Fits(g, cells, ghostRow + 1, curCol)
        invariant LandingRow(g, cells, ghostRow, curCol) == LandingRow(g, cells, curRow, curCol)
        decreases ROWS - ghostRow
      {
        FitsAboveFloor(g, cells, ghostRow + 1, curCol);
        ghostRow := ghostRow + 1;
        valid := IsValidPosition(ghostRow + 1, curCol, rotation);
      }
    }

    /** Whether row r of the wall is full (the scan of one row in clearLines). */
    method RowIsFull(r: nat) returns (full: bool)
      requires Mirrored() && r < ROWS
      ensures full == Full(grid[r])
    {
      full := true;
      var c := 0;
      while c < COLS
        invariant 0 <= c <= COLS && full
        invariant forall j :: 0 <= j < c ==> wall[r, j].Some?
      {
        if wall[r, c] == None {
          full := false;
          break;
        }
        c := c + 1;
      }
    }

    // ------------------------------------------------------ wall updates

    /** Writes x into cell (rr, cc). */
    method SetCell(rr: nat, cc: nat, x: Cell)
      requires Mirrored() && rr < ROWS && cc < COLS
      modifies this`grid, wall
      ensures Mirrored()
      ensures grid == old(grid)[rr := old(grid)[rr][cc := x]]
    {
      wall[rr, cc] := x;
      grid := grid[rr := grid[rr][cc := x]];
    }

    /** Copies row src over row dst. */
    method CopyRow(src: nat, dst: nat)
      requires Mirrored() && src < ROWS && dst < ROWS && src != dst
      modifies this`grid, wall
      ensures Mirrored()
      ensures grid == old(grid)[dst := old(grid)[src]]
    {
      ghost var g := grid;
      var c := 0;
      while c < COLS
        invariant 0 <= c <= COLS && grid == g
        invariant forall i, j :: 0 <= i < ROWS && 0 <= j < COLS ==>
          wall[i, j] == if i == dst && j < c then g[src][j] else g[i][j]
      {
        wall[dst, c] := wall[src, c];
        c := c + 1;
      }
      grid := g[dst := g[src]];
    }

    /** Empties row r. */
    method ClearRow(r: nat)
      requires Mirrored() && r < ROWS
      modifies this`grid, wall
      ensures Mirrored()
      ensures grid == old(grid)[r := EmptyRow()]
    {
      ghost var g := grid;
      var c := 0;
      while c < COLS
        invariant 0 <= c <= COLS && grid == g
        invariant forall i, j :: 0 <= i < ROWS && 0 <= j < COLS ==>
          wall[i, j] == if i == r && j < c then None else g[i][j]
      {
        wall[r, c] := None;
        c := c + 1;
      }
      grid := g[r := EmptyRow()];
    }

    /** Removes row r: the rows above it move down one and row 0 is emptied. */
    method ShiftDown(r: nat)
      requires Mirrored() && r < ROWS
      modifies this`grid, wall
      ensures Mirrored()
      ensures grid == [EmptyRow()] + old(grid)[..r] + old(grid)[r + 1..]
    {
      ghost var g := grid;
      var rr := r;
      while rr > 0
        invariant 0 <= rr <= r && Mirrored()
        invariant grid == g[..rr + 1] + g[rr..r] + g[r + 1..]
      {
        ghost var w := grid;
        CopyRow(rr - 1, rr);
        assert w[rr - 1] == g[rr - 1];
        assert grid == g[..rr] + g[rr - 1..r] + g[r + 1..] by {
          assert grid == w[rr := g[rr - 1]];
          assert g[..rr] + g[rr - 1..r] == g[..rr] + [g[rr - 1]] + g[rr..r];
        }
        rr := rr - 1;
      }
      ghost var w := grid;
      ClearRow(0);
      assert grid == [EmptyRow()] + g[..r] + g[r + 1..] by {
        assert w == [g[0]] + g[..r] + g[r + 1..];
      }
    }

    /** Removes every full row, bottom to top, and returns how many there were. */
    method ClearLines() returns (cleared: nat)
      requires Mirrored()
      modifies this`grid, wall
      ensures Mirrored()
      ensures grid == Cleared(old(grid))
      ensures cleared == FullCount(old(grid))
    {
      ghost var g0 := grid;
      // g0[..u] are the rows not yet scanned; the scanned ones have become
      // Kept(g0[u..]) below cleared empty rows.
      ghost var u: nat := ROWS;
      cleared := 0;
      var r: int := ROWS - 1;
      ScanStart(g0);
      while r >= 0
        invariant -1 <= r < ROWS && u <= ROWS && Mirrored()
        invariant u > 0 ==> u == r + 1 - cleared
        invariant u == 0 ==> r + 1 <= cleared
        invariant grid == EmptyRows(cleared) + g0[..u] + Kept(g0[u..])
        invariant cleared == FullCount(g0[u..])
        decreases r + 1 + u
      {
        ScannedRow(g0, u, cleared, grid, r);
        var full := RowIsFull(r);
        if full {
          if u == 0 {
            // the rows above the unscanned ones are all empty
            EmptyRowNotFull();
            assert false;
          }
          RemoveFullRow(r, g0, u, cleared);
          cleared := cleared + 1;
          u := u - 1;
          r := r + 1;
        } else if u > 0 {
          KeptStep(g0, u, cleared, grid);
          u := u - 1;
        }
        r := r - 1;
      }
      ScanDone(g0, cleared, grid);
    }

    /** Removes the full row r == cleared + u - 1, the lowest unscanned one,
        adding it to the cleared rows. */
    method RemoveFullRow(r: nat, ghost g0: Grid, ghost u: nat, ghost cleared: nat)
      requires Mirrored() && r < ROWS && 0 < u <= |g0| && r == cleared + u - 1
      requires grid == EmptyRows(cleared) + g0[..u] + Kept(g0[u..])
      requires Full(g0[u - 1]) && cleared == FullCount(g0[u..])
      modifies this`grid, wall
      ensures Mirrored()
      ensures grid == EmptyRows(cleared + 1) + g0[..u - 1] + Kept(g0[u - 1..])
      ensures cleared + 1 == FullCount(g0[u - 1..])
    {
      ghost var w := grid;
      ShiftDown(r);
      ClearedStep(g0, u, cleared, w, r);
    }

    /** Before the scan every row is unscanned. */
    static lemma ScanStart(g0: Grid)
      ensures g0 == EmptyRows(0) + g0[..|g0|] + Kept(g0[|g0|..])
      ensures 0 == FullCount(g0[|g0|..])
    {
      assert g0[|g0|..] == [];
    }

    /** After the scan the wall is Cleared(g0) and every full row was
        counted. */
    static lemma ScanDone(g0: Grid, cleared: nat, w: Grid)
      requires w == EmptyRows(cleared) + g0[..0] + Kept(g0[0..])
      requires cleared == FullCount(g0[0..])
      ensures w == Cleared(g0) && cleared == FullCount(g0)
    {
      assert g0[..0] == [] && g0[0..] == g0;
      KeptPlusFull(g0);
    }

    /** Row r of the wall during the scan: the lowest unscanned row when some
        are left, one of the empty rows above the kept ones otherwise. */
    static lemma ScannedRow(g0: Grid, u: nat, cleared: nat, w: Grid, r: nat)
      requires u <= |g0| && w == EmptyRows(cleared) + g0[..u] + Kept(g0[u..])
      requires u > 0 ==> r == cleared + u - 1
      requires u == 0 ==> r < cleared
      ensures u > 0 ==> w[r] == g0[u - 1]
      ensures u == 0 ==> w[r] == EmptyRow()
    {
    }

    /** Removing a full row r == cleared + u - 1 extends the cleared rows. */
    static lemma ClearedStep(g0: Grid, u: nat, cleared: nat, w: Grid, r: nat)
      requires 0 < u <= |g0| && r == cleared + u - 1
      requires w == EmptyRows(cleared) + g0[..u] + Kept(g0[u..]) && r < |w|
      requires Full(g0[u - 1])
      requires cleared == FullCount(g0[u..])
      ensures [EmptyRow()] + w[..r] + w[r + 1..] ==
              EmptyRows(cleared + 1) + g0[..u - 1] + Kept(g0[u - 1..])
      ensures cleared + 1 == FullCount(g0[u - 1..])
    {
      DropFullHead(g0, u);
      var a, m, k := EmptyRows(cleared), g0[..u - 1], Kept(g0[u..]);
      Unjoin(a, g0[..u], k, w, r);
      assert g0[..u][..u - 1] == m;
      PrependEmptyRow(a, m);
    }

    /** One more empty row on top of the empty rows. */
    static lemma PrependEmptyRow(a: Grid, m: Grid)
      requires a == EmptyRows(|a|)
      ensures [EmptyRow()] + (a + m) == EmptyRows(|a| + 1) + m
    {
      assert [EmptyRow()] + a == EmptyRows(|a| + 1);
    }

    /** A full row at the head of g0[u - 1..] is neither kept nor missed by
        the count. */
    static lemma DropFullHead(g0: Grid, u: nat)
      requires 0 < u <= |g0| && Full(g0[u - 1])
      ensures Kept(g0[u - 1..]) == Kept(g0[u..])
      ensures FullCount(g0[u - 1..]) == FullCount(g0[u..]) + 1
    {
      assert g0[u - 1..][1..] == g0[u..];
    }

    /** Cutting the last row of the middle part out of a + m + k. */
    static lemma Unjoin(a: Grid, m: Grid, k: Grid, w: Grid, r: nat)
      requires m != [] && w == a + m + k && r == |a| + |m| - 1
      ensures w[..r] == a + m[..|m| - 1] && w[r + 1..] == k
    {
    }

    /** Passing a row that is not full moves it into the kept rows. */
    static lemma KeptStep(g0: Grid, u: nat, cleared: nat, w: Grid)
      requires 0 < u <= |g0|
      requires w == EmptyRows(cleared) + g0[..u] + Kept(g0[u..])
      requires !Full(g0[u - 1])
      requires cleared == FullCount(g0[u..])
      ensures w == EmptyRows(cleared) + g0[..u - 1] + Kept(g0[u - 1..])
      ensures cleared == FullCount(g0[u - 1..])
    {
      assert g0[u - 1..][1..] == g0[u..];
      assert Kept(g0[u - 1..]) == [g0[u - 1]] + Kept(g0[u..]);
      assert g0[..u] == g0[..u - 1] + [g0[u - 1]];
    }

    // ------------------------------------------------------ game commands

    /** Starts a new game: a fresh empty wall, the session reset, first as the
        next piece, then a spawn that makes it active with second next. */
    method StartGame(first: Variant, second: Variant)
      requires Mirrored()
      modifies this
      ensures Mirrored() && fresh(wall)
      ensures State() == Started(old(State()), first, second)
    {
      isPaused := false;
      isGameOver := false;
      score := 0;
      level := 1;
      totalLines := 0;
      dropDelay := START_DELAY;
      wall := new Cell[ROWS, COLS]((i, j) => None);
      grid := EmptyGrid();
      next := first;
      SpawnPiece(second);
    }

    /** The next piece becomes active at its spawn pose and drawn becomes the
        next; the game ends when that pose is not valid. */
    method SpawnPiece(drawn: Variant)
      requires Mirrored()
      modifies this`current, this`next, this`rotation, this`curRow, this`curCol, this`isGameOver
      ensures Mirrored()
      ensures State() == Spawned(old(State()), drawn)
    {
      current := next;
      next := drawn;
      rotation := 0;
      curRow := -(TopEmptyRows(current, rotation) as int);
      curCol := COLS / 2 - 2;
      assert Pose(curRow, curCol, rotation) == SpawnPose(current);
      var valid := IsValidPosition(curRow, curCol, rotation);
      assert valid == Fits(grid, Blocks(current, 0), curRow, curCol);
      if !valid {
        isGameOver := true;
      }
    }

    method TogglePause()
      requires Valid()
      modifies this
      ensures Valid() && wall == old(wall)
      ensures State() == TogglePaused(old(State()))
    {
      if isGameOver {
        return;
      }
      isPaused := !isPaused;
    }

    /** The restart key: a new game once the game is over. */
    method Restart(first: Variant, second: Variant)
      requires Valid()
      modifies this
      ensures Valid()
      ensures State() == Restarted(old(State()), first, second)
    {
      if isGameOver {
        StartGame(first, second);
        StartedIsNewGame(old(State()), first, second);
      }
    }

    method Move(dx: int)
      requires Valid()
      modifies this
      ensures Valid() && wall == old(wall)
      ensures State() == Moved(old(State()), dx)
    {
      if isPaused || isGameOver {
        return;
      }
      var valid := IsValidPosition(curRow, curCol + dx, rotation);
      if valid {
        curCol := curCol + dx;
      }
      MovedKeepsInv(old(State()), dx);
    }

    /** The soft-drop key, and equally a tick of the drop timer. */
    method SoftDrop(drawn: Variant)
      requires Valid()
      modifies this, wall
      ensures Valid() && wall == old(wall)
      ensures State() == SoftDropped(old(State()), drawn)
    {
      if isPaused || isGameOver {
        return;
      }
      DropOneRow(drawn);
    }

    method DropOneRow(drawn: Variant)
      requires Valid()
      modifies this, wall
      ensures Valid() && wall == old(wall)
      ensures State() == DroppedOne(old(State()), drawn)
    {
      var valid := IsValidPosition(curRow + 1, curCol, rotation);
      if valid {
        curRow := curRow + 1;
      } else {
        LockPiece(drawn);
      }
      DroppedOneKeepsInv(old(State()), drawn);
    }

    method HardDrop(drawn: Variant)
      requires Valid()
      modifies this, wall
      ensures Valid() && wall == old(wall)
      ensures State() == HardDropped(old(State()), drawn)
    {
      if isPaused || isGameOver {
        return;
      }
      ghost var s0 := State();
      ghost var cells := Blocks(current, rotation);
      var valid := IsValidPosition(curRow + 1, curCol, rotation);
      while valid
        invariant wall == old(wall) && Mirrored() && State() == s0.(row := curRow)
        invariant valid == Fits(s0.wall, cells, curRow + 1, curCol)
        invariant LandingRow(s0.wall, cells, curRow, curCol) == LandingRow(s0.wall, cells, s0.row, curCol)
        decreases ROWS - curRow
      {
        FitsAboveFloor(s0.wall, cells, curRow + 1, curCol);
        curRow := curRow + 1;
        valid := IsValidPosition(curRow + 1, curCol, rotation);
      }
      LockPiece(drawn);
      HardDroppedKeepsInv(s0, drawn);
    }

    /** The index of the first kick in KICKS at which the active piece fits in
        rotation newRot at its row, or |KICKS| when none does. */
    method FirstFittingKick(newRot: nat) returns (i: nat)
      requires Mirrored()
      ensures i <= |KICKS|
      ensures FirstKick(grid, Blocks(current, newRot), curRow, curCol, KICKS, 0) ==
              if i < |KICKS| then Some(i) else None
    {
      ghost var cells := Blocks(current, newRot);
      i := 0;
      while i < |KICKS|
        invariant 0 <= i <= |KICKS|
        invariant FirstKick(grid, cells, curRow, curCol, KICKS, 0) == FirstKick(grid, cells, curRow, curCol, KICKS, i)
      {
        var valid := IsValidPosition(curRow, curCol + KICKS[i], newRot);
        if valid {
          return;
        }
        i := i + 1;
      }
    }

    /** Where rotating clockwise puts the active piece: at the first kick
        that fits, else one row up when that fits, else where it is. */
    method RotationTarget() returns (p: Pose)
      requires Mirrored()
      ensures p == RotationPose(State())
    {
      var newRot := (rotation + 1) % RotationCount(current);
      var i := FirstFittingKick(newRot);
      if i < |KICKS| {
        p := Pose(curRow, curCol + KICKS[i], newRot);
      } else {
        var valid := IsValidPosition(curRow - 1, curCol, newRot);
        p := if valid then Pose(curRow - 1, curCol, newRot) else Pose(curRow, curCol, rotation);
      }
      assert p == Rotated(grid, Blocks(current, newRot), Pose(curRow, curCol, rotation), newRot);
    }

    method Rotate()
      requires Valid()
      modifies this
      ensures Valid() && wall == old(wall)
      ensures State() == Rotation(old(State()))
    {
      if isPaused || isGameOver {
        return;
      }
      var p := RotationTarget();
      curRow, curCol, rotation := p.row, p.col, p.rot;
      RotationKeepsInv(old(State()));
    }

    /** The scoring step of locking, after cleared rows were removed. */
    method AddScore(cleared: nat)
      modifies this`score, this`totalLines, this`level, this`dropDelay
      ensures State() == Scored(old(State()), cleared)
    {
      if cleared > 0 {
        var points := Points(cleared);
        score := score + points * level;
        totalLines := totalLines + cleared;
        var newLevel := LevelFor(totalLines);
        if newLevel > level {
          level := newLevel;
          dropDelay := DelayFor(level);
        }
      }
    }

    /** Writes colour v at every cell of cells anchored at (r, c) that lies
        on the field, in order, and stops at the first cell above the field:
        returns its index, or |cells| when there is none. */
    method WriteCells(cells: seq<Point>, r: int, c: int, v: Variant) returns (k: nat)
      requires Mirrored()
      modifies this`grid, wall
      ensures Mirrored()
      ensures k == FirstAbove(cells, r)
      ensures grid == Stamp(old(grid), cells[..k], r, c, v)
    {
      ghost var g0 := grid;
      var i := 0;
      while i < |cells|
        invariant 0 <= i <= |cells| && Mirrored()
        invariant forall j :: 0 <= j < i ==> r + cells[j].y >= 0
        invariant grid == Stamp(g0, cells[..i], r, c, v)
      {
        var rr := r + cells[i].y;
        var cc := c + cells[i].x;
        StampSnoc(g0, cells, i, r, c, v);
        if 0 <= rr < ROWS && 0 <= cc < COLS {
          SetCell(rr, cc, Some(v));
        } else if rr < 0 {
          return i;
        }
        i := i + 1;
      }
      assert cells[..i] == cells;
      return i;
    }

    /** Writes the active piece into the wall; a cell above the field ends the
        game at once. Otherwise full rows are cleared and scored, and the next
        piece spawns. */
    method LockPiece(drawn: Variant)
      requires Mirrored() && Sound(State())
      modifies this, wall
      ensures Mirrored() && wall == old(wall)
      ensures State() == Locked(old(State()), drawn)
    {
      var cells := Blocks(current, rotation);
      var k := WriteCells(cells, curRow, curCol, current);
      if k < |cells| {
        isGameOver := true;
        return;
      }
      assert cells[..k] == cells;
      Settle(drawn);
    }

    /** The rest of locking once every cell is written: full rows are cleared,
        the session is scored and the next piece spawns. */
    method Settle(drawn: Variant)
      requires Mirrored() && Sound(State())
      modifies this, wall
      ensures Mirrored() && wall == old(wall)
      ensures State() == Spawned(Scored(old(State()).(wall := Cleared(old(grid))), FullCount(old(grid))), drawn)
    {
      ghost var placed := grid;
      var cleared := ClearLines();
      ClearedShape(placed);
      AddScore(cleared);
      SpawnPiece(drawn);
    }
  }
}
