/** One frame of the game loop (main/main.py, main): the gravity tick, the
    four key intents with their optimistic move and revert, locking and the
    hand-over to the next piece, the line clear, score / level / speed, and
    the loss check. Elapsed time, the keys pressed during the frame and the
    random shape and colour of a newly spawned piece are inputs. */
module Game {
  import opened Geometry
  import opened Pieces
  import opened Board
  import opened LineClear

  /** Fall speed in whole milliseconds per row: 0.5 s at the start, 0.05 s
      faster per level, never faster than 0.1 s. */
  const InitialSpeed: int := 500
  const SpeedStep: int := 50
  const MinSpeed: int := 100

  /** Points per cleared row and points per level. */
  const RowPoints: int := 100
  const LevelPoints: int := 500

  function Max(a: int, b: int): int {
    if a >= b then a else b
  }

  // ---------------------------------------------------------------------
  // The falling piece

  /** What every reachable falling piece satisfies: an in-range rotation
      index, an origin on or below the top row, and every cell on the board. */
  predicate PieceInv(p: Piece) {
    && 0 <= p.rotation < |p.shape|
    && p.y >= 0
    && forall c :: c in Cells(p) ==> InBounds(c)
  }

  /** A piece accepted by the oracle at a non-negative origin row is on the board. */
  lemma AcceptedPieceInv(p: Piece, g: Grid)
    requires WellShaped(g) && Valid(p, g)
    requires 0 <= p.rotation < |p.shape| && p.y >= 0
    ensures PieceInv(p)
  {
    ValidInBounds(p, g);
    CellsBelowOrigin(p);
  }

  /** The outcome of the gravity part of a frame. */
  datatype Fall = Fall(piece: Piece, lock: bool, fallTime: int)

  /** The gravity tick: once the accumulated time reaches the fall speed,
      reset it and move the piece one row down; if that position is
      rejected and the new origin row is positive, put the piece back and
      ask for a lock. A rejected position at origin row 0 or above is kept,
      without a lock. (`fall_time / 1000 >= speed` in seconds is
      `fallTime >= speed` in milliseconds.) */
  function Gravity(p: Piece, g: Grid, fallTime: int, speed: int): (r: Fall)
    requires WellShaped(g)
    ensures fallTime < speed ==> r == Fall(p, false, fallTime)
    ensures fallTime >= speed ==> r.fallTime == 0
    ensures r.lock <==> fallTime >= speed && !Valid(p.(y := p.y + 1), g) && p.y + 1 > 0
    ensures r.lock ==> r.piece == p
    ensures fallTime >= speed && !r.lock ==> r.piece == p.(y := p.y + 1)
  {
    if fallTime >= speed then
      var q := p.(y := p.y + 1);
      if !Valid(q, g) && q.y > 0 then Fall(q.(y := q.y - 1), true, 0)
      else Fall(q, false, 0)
    else Fall(p, false, fallTime)
  }

  /** From a reachable piece, a tick either leaves the piece where it was,
      or moves it one row down to a place the oracle accepts; the piece
      stays reachable. */
  lemma GravityKeepsPieceInv(p: Piece, g: Grid, fallTime: int, speed: int)
    requires WellShaped(g) && PieceInv(p)
    ensures var r := Gravity(p, g, fallTime, speed);
      && PieceInv(r.piece)
      && (r.piece == p || (r.piece == p.(y := p.y + 1) && Valid(r.piece, g)))
  {
    var r := Gravity(p, g, fallTime, speed);
    if r.piece != p {
      AcceptedPieceInv(r.piece, g);
    }
  }

  /** The four key intents. */
  datatype Key = Left | Right | Down | Up

  /** The column and row offsets of the arrow keys (Up moves nothing). */
  function Dx(k: Key): int {
    match k
    case Left => -1
    case Right => 1
    case _ => 0
  }

  function Dy(k: Key): int {
    if k == Down then 1 else 0
  }

  /** The optimistic move a key makes before the oracle is asked: an arrow
      moves the origin by its offset, Up rotates. */
  function Attempt(p: Piece, k: Key): Piece {
    if k == Up then Rotate(p) else Shift(p, Dx(k), Dy(k))
  }

  /** What each key's move does to the covered cells: an arrow moves every
      one of them by its offset; Up keeps the origin and lays the next
      rotation state there (the first one after the last). */
  lemma AttemptMoves(p: Piece, k: Key)
    ensures k != Up ==> Translated(p, Attempt(p, k), Dx(k), Dy(k))
    ensures k == Up && 0 <= p.rotation < |p.shape| ==>
      forall c :: c in Cells(Attempt(p, k)) <==>
        Covers(p.shape[if p.rotation + 1 < |p.shape| then p.rotation + 1 else 0], p.x, p.y, c)
  {
    if k == Up {
      if 0 <= p.rotation < |p.shape| {
        RotateStep(p);
        ImageIsActiveState(Rotate(p));
      }
    } else {
      TranslateCells(p, Dx(k), Dy(k));
    }
  }

  /** The undo the key handler applies to a rejected move. */
  function Revert(q: Piece, k: Key): Piece {
    if k == Up then Unrotate(q) else Shift(q, -Dx(k), -Dy(k))
  }

  /** Undoing a move puts the piece back at its position, and for an
      in-range rotation index restores the piece exactly. */
  lemma RevertUndoesAttempt(p: Piece, k: Key)
    ensures Revert(Attempt(p, k), k).x == p.x && Revert(Attempt(p, k), k).y == p.y
    ensures Revert(Attempt(p, k), k).shape == p.shape && Revert(Attempt(p, k), k).color == p.color
    ensures 0 <= p.rotation < |p.shape| ==> Revert(Attempt(p, k), k) == p
  {
    if k == Up && 0 <= p.rotation < |p.shape| {
      UnrotateUndoesRotate(p);
    }
  }

  /** One key: make the move, and undo it if the oracle rejects the result.
      The move is kept exactly when it is accepted; otherwise the piece is
      back at its position and (for an in-range index) its rotation. */
  function ApplyKey(p: Piece, g: Grid, k: Key): (r: Piece)
    requires WellShaped(g)
    ensures Valid(Attempt(p, k), g) ==> r == Attempt(p, k)
    ensures !Valid(Attempt(p, k), g) ==> r.x == p.x && r.y == p.y && r.shape == p.shape && r.color == p.color
    ensures !Valid(Attempt(p, k), g) && 0 <= p.rotation < |p.shape| ==> r == p
  {
    var q := Attempt(p, k);
    RevertUndoesAttempt(p, k);
    if Valid(q, g) then q else Revert(q, k)
  }

  /** After any key a reachable piece is either where the key moved it and
      accepted there, or exactly where it was. */
  lemma KeyKeepsPieceInv(p: Piece, g: Grid, k: Key)
    requires WellShaped(g)
    ensures PieceInv(p) ==>
      var r := ApplyKey(p, g, k);
      && PieceInv(r)
      && ((r == Attempt(p, k) && Valid(r, g)) || r == p)
  {
    var q := Attempt(p, k);
    if PieceInv(p) && Valid(q, g) {
      AcceptedPieceInv(q, g);
    }
  }

  /** The keys of one frame, in order. A reachable piece stays reachable. */
  function ApplyKeys(p: Piece, g: Grid, keys: seq<Key>): (r: Piece)
    requires WellShaped(g)
    ensures r.shape == p.shape && r.color == p.color
    ensures PieceInv(p) ==> PieceInv(r)
    decreases |keys|
  {
    if |keys| == 0 then p
    else
      var q := ApplyKey(p, g, keys[0]);
      KeyKeepsPieceInv(p, g, keys[0]);
      ApplyKeys(q, g, keys[1..])
  }

  // ---------------------------------------------------------------------
  // Score, level and speed

  datatype Progress = Progress(score: int, level: int, speed: int)

  /** The speed the program reaches at a given level. */
  function SpeedAt(level: int): int {
    Max(MinSpeed, InitialSpeed - SpeedStep * (level - 1))
  }

  /** Score never negative, level at least 1 and at most one per 500 points
      beyond the first, speed the one reached at that level. */
  predicate ProgressInv(pr: Progress) {
    && pr.score >= 0
    && 1 <= pr.level <= 1 + pr.score / LevelPoints
    && pr.speed == SpeedAt(pr.level)
  }

  /** The update after a lock that cleared `cleared` rows: 100 points per
      row; then, if the score has reached 500 points per current level, one
      level up and 50 ms faster, floored at 100 ms. */
  function Advance(pr: Progress, cleared: nat): (r: Progress)
    ensures r.score == pr.score + RowPoints * cleared
    ensures r.level == pr.level + 1 <==> cleared > 0 && r.score / LevelPoints >= pr.level
    ensures r.level == pr.level || r.level == pr.level + 1
    ensures pr.speed >= MinSpeed ==> MinSpeed <= r.speed <= pr.speed
  {
    if cleared > 0 then
      var score := pr.score + cleared * RowPoints;
      if score / LevelPoints >= pr.level then
        Progress(score, pr.level + 1, Max(MinSpeed, pr.speed - SpeedStep))
      else
        Progress(score, pr.level, pr.speed)
    else pr
  }

  lemma AdvanceKeepsProgressInv(pr: Progress, cleared: nat)
    requires ProgressInv(pr)
    ensures ProgressInv(Advance(pr, cleared))
  {
    var r := Advance(pr, cleared);
    assert pr.score / LevelPoints <= r.score / LevelPoints;
  }

  // ---------------------------------------------------------------------
  // The session

  datatype Session = Session(
    locked: Locked,
    current: Piece,
    next: Piece,
    fallTime: int,
    progress: Progress,
    running: bool)

  /** Inputs of one frame: milliseconds since the previous frame, the keys
      pressed, and the shape and colour drawn for a piece spawned this frame. */
  datatype Frame = Frame(elapsed: nat, keys: seq<Key>, shape: Shape, color: PieceColor)

  /** What every reachable session satisfies. */
  predicate Inv(s: Session) {
    && LockedInBounds(s.locked)
    && PieceInv(s.current)
    && s.next == Spawn(s.next.shape, s.next.color)
    && FitsAtSpawn(s.next.shape)
    && s.fallTime >= 0
    && ProgressInv(s.progress)
    && (s.running <==> !Lost(s.locked))
  }

  /** A fresh session: no locked cells, two spawned pieces, score 0,
      level 1, speed 0.5 s. */
  function Start(first: Shape, firstColor: PieceColor, second: Shape, secondColor: PieceColor): (r: Session)
    requires FitsAtSpawn(first) && FitsAtSpawn(second)
    ensures Inv(r) && r.running
  {
    SpawnInBounds(first, firstColor);
    Session(map[], Spawn(first, firstColor), Spawn(second, secondColor), 0, Progress(0, 1, InitialSpeed), true)
  }

  /** Lock the piece's cells into the map and clear rows on the frame's
      snapshot (the frame's grid with the piece painted over). The snapshot
      is the grid of the locked cells after the lock, so the count is the
      number of full rows of that grid; with none, the map is the lock alone. */
  function LockAndClear(m: Locked, p: Piece): (r: Cleared)
    requires GridSafe(m)
    requires forall c :: c in Cells(p) && c.1 >= 0 ==> InBounds(c)
    ensures GridSafe(Lock(m, p))
    ensures r.count == FullRowCount(CreateGrid(Lock(m, p)))
    ensures r.count == 0 ==> r.locked == Lock(m, p)
  {
    var snapshot := PaintCells(CreateGrid(m), Cells(p), p.color);
    var locked := LockCells(m, Cells(p), p.color);
    SnapshotAfterLock(m, Cells(p), p.color);
    NothingClearedNothingChanged(snapshot, locked);
    ClearRows(snapshot, locked)
  }

  /** Locking and clearing an on-board piece keeps every locked cell on the board. */
  lemma LockAndClearInBounds(m: Locked, p: Piece)
    requires LockedInBounds(m) && PieceInv(p)
    ensures LockedInBounds(LockAndClear(m, p).locked)
  {
    var locked := LockCells(m, Cells(p), p.color);
    assert LockedInBounds(locked) by {
      forall k | k in locked
        ensures InBounds(k)
      {
        if k !in Cells(p) {
          assert k in m;
        }
      }
    }
    var snapshot := PaintCells(CreateGrid(m), Cells(p), p.color);
    ClearFromInBounds(snapshot, locked, Rows - 1);
  }

  /** The lock at the end of a frame: the piece is locked and rows cleared,
      the next piece becomes the falling one, a new next piece is spawned,
      score / level / speed advance by the number of cleared rows, and the
      loss check reads the cleared map. A piece with a cell on row 0 or
      above that clears nothing ends the game. */
  function Land(s: Session, p: Piece, fallTime: int, shape: Shape, color: PieceColor): (r: Session)
    requires GridSafe(s.locked)
    requires forall c :: c in Cells(p) && c.1 >= 0 ==> InBounds(c)
    ensures r.locked == LockAndClear(s.locked, p).locked
    ensures r.current == s.next && r.next == Spawn(shape, color)
    ensures r.fallTime == fallTime
    ensures r.progress == Advance(s.progress, LockAndClear(s.locked, p).count)
    ensures r.progress.score == s.progress.score + RowPoints * FullRowCount(CreateGrid(Lock(s.locked, p)))
    ensures r.running <==> !Lost(r.locked)
    ensures (exists c :: c in Cells(p) && c.1 < 1) && LockAndClear(s.locked, p).count == 0 ==> !r.running
  {
    var c := LockAndClear(s.locked, p);
    Session(c.locked, s.next, Spawn(shape, color), fallTime, Advance(s.progress, c.count), !Lost(c.locked))
  }

  /** One frame of the main loop. A session that has ended stays as it is. */
  function Step(s: Session, f: Frame): (r: Session)
    requires Inv(s) && FitsAtSpawn(f.shape)
    ensures Inv(r)
    ensures !s.running ==> r == s
    ensures r.progress.score >= s.progress.score
    ensures r.progress.level == s.progress.level || r.progress.level == s.progress.level + 1
    ensures MinSpeed <= r.progress.speed <= s.progress.speed
  {
    if !s.running then s
    else
      var grid := CreateGrid(s.locked);
      var t := Gravity(s.current, grid, s.fallTime + f.elapsed, s.progress.speed);
      GravityKeepsPieceInv(s.current, grid, s.fallTime + f.elapsed, s.progress.speed);
      var p := ApplyKeys(t.piece, grid, f.keys);
      if t.lock then
        var r := Land(s, p, t.fallTime, f.shape, f.color);
        LandKeepsInv(s, p, t.fallTime, f.shape, f.color);
        r
      else
        s.(current := p, fallTime := t.fallTime, running := !Lost(s.locked))
  }

  /** Landing a reachable piece from a reachable session gives a reachable session. */
  lemma LandKeepsInv(s: Session, p: Piece, fallTime: int, shape: Shape, color: PieceColor)
    requires Inv(s) && PieceInv(p) && fallTime >= 0 && FitsAtSpawn(shape)
    ensures Inv(Land(s, p, fallTime, shape, color))
  {
    LandLockedInBounds(s, p, fallTime, shape, color);
    LandProgressInv(s, p, fallTime, shape, color);
    SpawnInBounds(s.next.shape, s.next.color);
  }

  lemma LandLockedInBounds(s: Session, p: Piece, fallTime: int, shape: Shape, color: PieceColor)
    requires LockedInBounds(s.locked) && PieceInv(p)
    ensures LockedInBounds(Land(s, p, fallTime, shape, color).locked)
  {
    LockAndClearInBounds(s.locked, p);
  }

  lemma LandProgressInv(s: Session, p: Piece, fallTime: int, shape: Shape, color: PieceColor)
    requires GridSafe(s.locked) && PieceInv(p) && ProgressInv(s.progress)
    ensures ProgressInv(Land(s, p, fallTime, shape, color).progress)
  {
    AdvanceKeepsProgressInv(s.progress, LockAndClear(s.locked, p).count);
  }

  /** Any number of frames. */
  function Run(s: Session, frames: seq<Frame>): (r: Session)
    requires Inv(s)
    requires forall i :: 0 <= i < |frames| ==> FitsAtSpawn(frames[i].shape)
    ensures Inv(r)
    ensures r.progress.score >= s.progress.score
    ensures r.progress.level >= s.progress.level
    ensures r.progress.speed <= s.progress.speed
    ensures !s.running ==> r == s
    decreases |frames|
  {
    if |frames| == 0 then s
    else Run(Step(s, frames[0]), frames[1..])
  }
}
