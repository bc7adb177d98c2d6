/** The game as a state machine on values: one function per command of the
    game panel, each giving the state the command leaves behind. The class in
    module Game is proved to follow these functions step by step. */
module Engine {
  import opened Tetromino
  import opened Playfield
  import opened Motion
  import opened Scoring

  /** Everything the game commands read or write: the wall, the active and the
      next piece, the active piece's anchor and rotation, and the session. */
  datatype GameState = GameState(
    wall: Grid,
    current: Variant,
    next: Variant,
    row: int,
    col: int,
    rot: nat,
    score: nat,
    level: nat,
    lines: nat,
    delay: int,
    paused: bool,
    over: bool)

  /** The session bookkeeping every reachable state keeps: a well-formed wall, a
      rotation index below the rotation count, the level that the cleared lines
      give and that level's drop interval. */
  predicate Sound(s: GameState)
  {
    WellFormed(s.wall) && s.rot < 4 &&
    s.level == LevelFor(s.lines) && s.delay == DelayFor(s.level)
  }

  /** Sound, and while the game is live the active piece is at a valid position
      and no row is full. */
  predicate Inv(s: GameState)
  {
    Sound(s) &&
    (!s.over ==> Fits(s.wall, Blocks(s.current, s.rot), s.row, s.col) && FullCount(s.wall) == 0)
  }

  /** Whether the commands that move the piece are ignored. */
  predicate Frozen(s: GameState)
  {
    s.paused || s.over
  }

  /** The state with the active piece moved to pose p. */
  function WithPose(s: GameState, p: Pose): (t: GameState)
  {
    s.(row := p.row, col := p.col, rot := p.rot)
  }

  // ------------------------------------------------------------ spawn, start

  /** The next piece becomes the active one at its spawn pose and drawn becomes
      the next; the game ends when the spawn pose is not valid. */
  function Spawned(s: GameState, drawn: Variant): (t: GameState)
    requires WellFormed(s.wall)
  {
    var p := SpawnPose(s.next);
    s.(current := s.next, next := drawn, row := p.row, col := p.col, rot := p.rot,
       over := s.over || !Fits(s.wall, Blocks(s.next, 0), p.row, p.col))
  }

  /** A new game: empty wall, score 0, level 1, no lines, initial interval,
      unpaused; first is spawned and second becomes the next piece. */
  function Started(s: GameState, first: Variant, second: Variant): (t: GameState)
  {
    Spawned(s.(wall := EmptyGrid(), next := first, score := 0, level := 1, lines := 0,
               delay := START_DELAY, paused := false, over := false), second)
  }

  // ------------------------------------------------------------ lock, score

  /** The session after a lock that cleared n rows. */
  function Scored(s: GameState, n: nat): (t: GameState)
  {
    if n == 0 then s
    else
      var lines := s.lines + n;
      var newLevel := LevelFor(lines);
      s.(score := s.score + Points(n) * s.level, lines := lines,
         level := if newLevel > s.level then newLevel else s.level,
         delay := if newLevel > s.level then DelayFor(newLevel) else s.delay)
  }

  /** Whether locking the active piece tops out: some cell is above the field. */
  predicate TopsOut(s: GameState)
  {
    FirstAbove(Blocks(s.current, s.rot), s.row) < 4
  }

  /** Locking: the cells are written in order; the first one above the field
      ends the game with the earlier ones written. Otherwise full rows are
      cleared, the session is scored and the next piece spawns. */
  function Locked(s: GameState, drawn: Variant): (t: GameState)
    requires WellFormed(s.wall)
  {
    var cells := Blocks(s.current, s.rot);
    var k := FirstAbove(cells, s.row);
    if k < |cells| then
      s.(wall := Stamp(s.wall, cells[..k], s.row, s.col, s.current), over := true)
    else
      var placed := Stamp(s.wall, cells, s.row, s.col, s.current);
      ClearedShape(placed);
      Spawned(Scored(s.(wall := Cleared(placed)), FullCount(placed)), drawn)
  }

  // ------------------------------------------------------------- commands

  /** Moving by dx columns happens only when the target position is valid. */
  function Moved(s: GameState, dx: int): (t: GameState)
    requires WellFormed(s.wall)
  {
    if Frozen(s) then s
    else if Fits(s.wall, Blocks(s.current, s.rot), s.row, s.col + dx) then
      WithPose(s, Pose(s.row, s.col + dx, s.rot))
    else s
  }

  /** One row down when that is valid, else lock. */
  function DroppedOne(s: GameState, drawn: Variant): (t: GameState)
    requires WellFormed(s.wall)
  {
    if Fits(s.wall, Blocks(s.current, s.rot), s.row + 1, s.col) then
      WithPose(s, Pose(s.row + 1, s.col, s.rot))
    else Locked(s, drawn)
  }

  /** A soft drop, and equally a tick of the drop clock. */
  function SoftDropped(s: GameState, drawn: Variant): (t: GameState)
    requires WellFormed(s.wall)
  {
    if Frozen(s) then s else DroppedOne(s, drawn)
  }

  /** A hard drop: down to the landing row, then lock. */
  function HardDropped(s: GameState, drawn: Variant): (t: GameState)
    requires WellFormed(s.wall)
  {
    if Frozen(s) then s
    else
      var land := LandingRow(s.wall, Blocks(s.current, s.rot), s.row, s.col);
      Locked(WithPose(s, Pose(land, s.col, s.rot)), drawn)
  }

  /** Where a rotation puts the active piece: Rotated with the cells of the
      next rotation index. */
  function RotationPose(s: GameState): (p: Pose)
    requires WellFormed(s.wall)
  {
    var newRot := (s.rot + 1) % RotationCount(s.current);
    Rotated(s.wall, Blocks(s.current, newRot), Pose(s.row, s.col, s.rot), newRot)
  }

  /** Rotation with the kick search, ignored while paused or over. */
  function Rotation(s: GameState): (t: GameState)
    requires WellFormed(s.wall)
  {
    if Frozen(s) then s else WithPose(s, RotationPose(s))
  }

  function TogglePaused(s: GameState): (t: GameState)
  {
    if s.over then s else s.(paused := !s.paused)
  }

  /** The restart command starts a new game only once the game is over. */
  function Restarted(s: GameState, first: Variant, second: Variant): (t: GameState)
  {
    if s.over then Started(s, first, second) else s
  }

  // ---------------------------------------------------------------- lemmas

  /** A new game is live, with an empty wall, a zero score, level 1 and the
      first piece at its spawn pose. */
  lemma StartedIsNewGame(s: GameState, first: Variant, second: Variant)
    ensures var t := Started(s, first, second);
      Inv(t) && !t.over && !t.paused && t.wall == EmptyGrid() &&
      t.score == 0 && t.lines == 0 && t.level == 1 && t.delay == START_DELAY &&
      t.current == first && t.next == second &&
      Pose(t.row, t.col, t.rot) == SpawnPose(first)
  {
    SpawnFitsEmptyGrid(first);
    forall i | 0 <= i < ROWS ensures !Full(EmptyGrid()[i]) {
      assert EmptyGrid()[i][0] == None;
    }
    NoFullRowCount(EmptyGrid());
  }

  /** Starting a game does not depend on anything left over from the last one. */
  lemma StartedForgetsHistory(s: GameState, u: GameState, first: Variant, second: Variant)
    ensures Started(s, first, second) == Started(u, first, second)
  {
  }

  /** Scoring keeps the level and the interval matched to the lines, and never
      lowers the score or the level or raises the interval. */
  lemma ScoredKeepsSound(s: GameState, n: nat)
    requires Sound(s)
    ensures var t := Scored(s, n);
      Sound(t) && t.wall == s.wall && t.lines == s.lines + n &&
      s.score <= t.score && s.level <= t.level && t.delay <= s.delay
  {
    if n > 0 {
      LevelMonotone(s.lines, s.lines + n);
      DelayMonotone(s.level, LevelFor(s.lines + n));
    }
  }

  /** One write raises the number of full rows by at most one. */
  lemma {:induction false} FullCountUpdate(g: Grid, i: nat, row: seq<Cell>)
    requires i < |g|
    ensures FullCount(g[i := row]) <= FullCount(g) + 1
  {
    if i > 0 {
      assert g[i := row][1..] == g[1..][i - 1 := row];
      FullCountUpdate(g[1..], i - 1, row);
    } else {
      assert g[i := row][1..] == g[1..];
    }
  }

  /** Stamping k cells on a wall without full rows makes at most k rows full. */
  lemma {:induction false} StampFullCount(g: Grid, cells: seq<Point>, r: int, c: int, v: Variant)
    requires WellFormed(g) && FullCount(g) == 0
    decreases |cells|
    ensures FullCount(Stamp(g, cells, r, c, v)) <= |cells|
  {
    if cells != [] {
      var n := |cells| - 1;
      var h := Stamp(g, cells[..n], r, c, v);
      StampFullCount(g, cells[..n], r, c, v);
      var rr := r + cells[n].y;
      var cc := c + cells[n].x;
      if 0 <= rr < ROWS && 0 <= cc < COLS {
        FullCountUpdate(h, rr, h[rr][cc := Some(v)]);
      }
    }
  }

  /** A wall in which no row is full has a zero full-row count. */
  lemma {:induction false} NoFullRowCount(g: Grid)
    requires forall i :: 0 <= i < |g| ==> !Full(g[i])
    ensures FullCount(g) == 0
  {
    if g != [] {
      NoFullRowCount(g[1..]);
    }
  }

  /** A lock during live play clears at most four rows, so only the four table
      entries of the points rule are ever used. */
  lemma LockClearsAtMostFour(s: GameState)
    requires Inv(s) && !s.over
    ensures FullCount(Stamp(s.wall, Blocks(s.current, s.rot), s.row, s.col, s.current)) <= 4
  {
    StampFullCount(s.wall, Blocks(s.current, s.rot), s.row, s.col, s.current);
  }

  /** Locking leaves a sound state: live with a fitting piece and no full row,
      or over. It never lowers the score or the level, nor raises the interval;
      a top-out ends the game with the session as it was. */
  lemma LockedKeepsInv(s: GameState, drawn: Variant)
    requires Sound(s)
    ensures var t := Locked(s, drawn);
      Inv(t) && s.score <= t.score && s.lines <= t.lines &&
      s.level <= t.level && t.delay <= s.delay &&
      (TopsOut(s) ==> t.over && t.score == s.score && t.lines == s.lines &&
                      t.level == s.level && t.delay == s.delay)
  {
    var cells := Blocks(s.current, s.rot);
    if FirstAbove(cells, s.row) == |cells| {
      var placed := Stamp(s.wall, cells, s.row, s.col, s.current);
      ClearedShape(placed);
      ClearedNoFullRow(placed);
      NoFullRowCount(Cleared(placed));
      var u := s.(wall := Cleared(placed));
      ScoredKeepsSound(u, FullCount(placed));
    }
  }

  /** A top-out writes the cells that come before the first one above the
      field, and no others; nothing is cleared, scored or spawned. For the
      piece shapes of the catalogue there are no such earlier cells
      (TopOutWritesNothing), so the wall is left as it was. */
  lemma TopOutWritesEarlierCells(s: GameState, drawn: Variant, i: nat, j: nat)
    requires WellFormed(s.wall) && TopsOut(s) && i < ROWS && j < COLS
    ensures var cells := Blocks(s.current, s.rot);
      var k := FirstAbove(cells, s.row);
      var t := Locked(s, drawn);
      t.over && t.current == s.current && t.next == s.next &&
      Pose(t.row, t.col, t.rot) == Pose(s.row, s.col, s.rot) &&
      t.score == s.score && t.lines == s.lines && t.level == s.level &&
      t.wall[i][j] == if Covers(cells[..k], s.row, s.col, i, j) then Some(s.current) else s.wall[i][j]
  {
    var cells := Blocks(s.current, s.rot);
    StampCells(s.wall, cells[..FirstAbove(cells, s.row)], s.row, s.col, s.current, i, j);
  }

  /** The cells of a rotation come row by row, so the first cell above the
      field, if any, is the first cell: either every cell is on or below row 0
      or the first one is above it. */
  lemma TopOutWritesNothing(v: Variant, rot: nat, r: int)
    ensures FirstAbove(Blocks(v, rot), r) == 0 || FirstAbove(Blocks(v, rot), r) == |Blocks(v, rot)|
  {
    var cells := Blocks(v, rot);
    TopEmptyRowsIsTopCell(v, rot);
    if r + cells[0].y >= 0 {
      forall k | 0 <= k < |cells| ensures r + cells[k].y >= 0 {
        assert cells[k] in cells;
      }
    }
  }

  /** Hence a top-out leaves the wall exactly as it was. */
  lemma TopOutKeepsWall(s: GameState, drawn: Variant)
    requires WellFormed(s.wall) && TopsOut(s)
    ensures Locked(s, drawn).wall == s.wall && Locked(s, drawn).over
  {
    TopOutWritesNothing(s.current, s.rot, s.row);
    assert Blocks(s.current, s.rot)[..0] == [];
  }

  /** Moving the piece to a pose where it fits keeps the invariant. */
  lemma InvWithPose(s: GameState, p: Pose)
    requires Sound(s) && p.rot < 4
    requires !s.over ==> Fits(s.wall, Blocks(s.current, p.rot), p.row, p.col) && FullCount(s.wall) == 0
    ensures Inv(WithPose(s, p))
  {
    var t := WithPose(s, p);
    assert t.wall == s.wall && t.current == s.current && t.rot == p.rot && t.row == p.row && t.col == p.col;
    assert t.over == s.over && t.level == s.level && t.lines == s.lines && t.delay == s.delay;
  }

  /** A move keeps the invariant and the session. */
  lemma MovedKeepsInv(s: GameState, dx: int)
    requires Inv(s)
    ensures var t := Moved(s, dx);
      Inv(t) && t.wall == s.wall && t.score == s.score && t.row == s.row && t.rot == s.rot
  {
    if !Frozen(s) && Fits(s.wall, Blocks(s.current, s.rot), s.row, s.col + dx) {
      var p := Pose(s.row, s.col + dx, s.rot);
      assert p.row == s.row && p.col == s.col + dx && p.rot == s.rot;
      InvWithPose(s, p);
    }
  }

  /** A rotation keeps the invariant and the session. */
  lemma RotationKeepsInv(s: GameState)
    requires Inv(s)
    ensures var t := Rotation(s); Inv(t) && t.wall == s.wall && t.score == s.score
  {
    if !Frozen(s) {
      var newRot := (s.rot + 1) % RotationCount(s.current);
      var p := Pose(s.row, s.col, s.rot);
      RotatedFitsOrUnchanged(s.wall, Blocks(s.current, newRot), p, newRot);
      var q := Rotated(s.wall, Blocks(s.current, newRot), p, newRot);
      if q == p {
        InvWithPose(s, p);
      } else {
        InvWithPose(s, q);
      }
    }
  }

  /** A one-row drop, and so a soft drop, keeps the invariant and never lowers
      the score. */
  lemma DroppedOneKeepsInv(s: GameState, drawn: Variant)
    requires Inv(s)
    ensures Inv(DroppedOne(s, drawn)) && s.score <= DroppedOne(s, drawn).score
    ensures Inv(SoftDropped(s, drawn)) && s.score <= SoftDropped(s, drawn).score
  {
    if Fits(s.wall, Blocks(s.current, s.rot), s.row + 1, s.col) {
      var p := Pose(s.row + 1, s.col, s.rot);
      assert p.row == s.row + 1 && p.col == s.col && p.rot == s.rot;
      InvWithPose(s, p);
    } else {
      LockedKeepsInv(s, drawn);
    }
  }

  /** A hard drop keeps the invariant and never lowers the score. */
  lemma HardDroppedKeepsInv(s: GameState, drawn: Variant)
    requires Inv(s)
    ensures Inv(HardDropped(s, drawn)) && s.score <= HardDropped(s, drawn).score
  {
    if !Frozen(s) {
      var land := LandingRow(s.wall, Blocks(s.current, s.rot), s.row, s.col);
      LockedKeepsInv(WithPose(s, Pose(land, s.col, s.rot)), drawn);
    }
  }

  /** Pausing and restarting keep the invariant. */
  lemma PauseRestartKeepInv(s: GameState, first: Variant, second: Variant)
    requires Inv(s)
    ensures Inv(TogglePaused(s)) && Inv(Restarted(s, first, second))
  {
    StartedIsNewGame(s, first, second);
  }

  /** While paused or over the piece commands change nothing; once over, pause
      changes nothing either, and before it restart changes nothing. */
  lemma FrozenIgnoresCommands(s: GameState, dx: int, drawn: Variant, first: Variant, second: Variant)
    requires WellFormed(s.wall)
    ensures Frozen(s) ==>
      Moved(s, dx) == s && Rotation(s) == s && SoftDropped(s, drawn) == s && HardDropped(s, drawn) == s
    ensures s.over ==> TogglePaused(s) == s
    ensures !s.over ==> Restarted(s, first, second) == s && TogglePaused(TogglePaused(s)) == s
  {
  }
}
