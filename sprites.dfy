/**
 * Position, facing direction and one-step movement shared by Pac-Man and the ghosts
 * (Sprite.java), and the tick counter behind their timed states.
 */
module Sprites {
  import opened Wrappers
  import opened Directions
  import opened Cells
  import opened Levels

  /** There are 5 game updates per second. */
  const MillisecondsPerGameUpdate := 200

  function RowDelta(d: Direction): int {
    match d
    case Up => -1
    case Down => 1
    case _ => 0
  }

  function ColDelta(d: Direction): int {
    match d
    case Left => -1
    case Right => 1
    case _ => 0
  }

  /**
   * The cell one step away in direction `d`: stepping past an edge reappears on the
   * opposite edge of the same axis, so the step is addition modulo the level's size.
   */
  function Wrapped(L: Layout, row: int, col: int, d: Direction): (r: (int, int))
    requires L.Valid() && L.InBounds(row, col)
    ensures L.InBounds(r.0, r.1)
    ensures r == ((row + RowDelta(d)) % L.height, (col + ColDelta(d)) % L.width)
  {
    WrapIsModular(row, L.height);
    WrapIsModular(col, L.width);
    match d
    case Up => (if row - 1 < 0 then L.height - 1 else row - 1, col)
    case Down => (if row + 1 >= L.height then 0 else row + 1, col)
    case Left => (row, if col - 1 < 0 then L.width - 1 else col - 1)
    case Right => (row, if col + 1 >= L.width then 0 else col + 1)
    case NoDirection => (row, col)
  }

  /** One step either way inside [0, n) with wraparound is the step taken modulo n. */
  lemma WrapIsModular(x: int, n: int)
    requires 0 <= x < n
    ensures (x - 1) % n == (if x - 1 < 0 then n - 1 else x - 1)
    ensures (x + 1) % n == (if x + 1 >= n then 0 else x + 1)
    ensures x % n == x
  {
    ModOfRange(x, n);
    if x - 1 < 0 {
      ModOfMinusOne(n);
    } else {
      ModOfRange(x - 1, n);
    }
    if x + 1 >= n {
      ModOfSelf(n);
    } else {
      ModOfRange(x + 1, n);
    }
  }

  lemma ModOfRange(x: int, n: int)
    requires 0 <= x < n
    ensures x % n == x
  {
  }

  lemma ModOfMinusOne(n: int)
    requires 0 < n
    ensures (-1) % n == n - 1
  {
    assert -1 == -1 * n + (n - 1);
  }

  lemma ModOfSelf(n: int)
    requires 0 < n
    ensures n % n == 0
  {
    assert n == 1 * n + 0;
  }

  /** The wraparound at each edge, one axis at a time. */
  lemma WrapAtEdges(L: Layout, row: int, col: int)
    requires L.Valid() && L.InBounds(row, col)
    ensures row == 0 ==> Wrapped(L, row, col, Up) == (L.height - 1, col)
    ensures row == L.height - 1 ==> Wrapped(L, row, col, Down) == (0, col)
    ensures col == 0 ==> Wrapped(L, row, col, Left) == (row, L.width - 1)
    ensures col == L.width - 1 ==> Wrapped(L, row, col, Right) == (row, 0)
    ensures Wrapped(L, row, col, NoDirection) == (row, col)
  {
  }

  /** Where a sprite at (row, col) ends after move(d): the wrapped cell unless that is a wall. */
  function Step(L: Layout, row: int, col: int, d: Direction): (r: (int, int))
    requires L.Valid() && L.InBounds(row, col)
    ensures L.InBounds(r.0, r.1)
    ensures L.CellAt(row, col) != Wall ==> L.CellAt(r.0, r.1) != Wall
    ensures r != (row, col) ==> r == Wrapped(L, row, col, d)
  {
    var (wrappedRow, wrappedCol) := Wrapped(L, row, col, d);
    if L.CellAt(wrappedRow, wrappedCol) != Wall then (wrappedRow, wrappedCol) else (row, col)
  }

  /** A sprite moves exactly when the wrapped cell is not a wall; NONE never moves it. */
  lemma StepMovesUnlessWall(L: Layout, row: int, col: int, d: Direction)
    requires L.Valid() && L.InBounds(row, col)
    ensures var (wr, wc) := Wrapped(L, row, col, d);
      Step(L, row, col, d) == if L.CellAt(wr, wc) == Wall then (row, col) else (wr, wc)
    ensures Step(L, row, col, NoDirection) == (row, col)
  {
  }

  /** The observable state of a sprite; the direction is unset until the first move. */
  datatype SpriteView = SpriteView(row: int, col: int, direction: Option<Direction>)

  /** The state after move(d): facing `d` whether or not the move was blocked. */
  function Moved(L: Layout, s: SpriteView, d: Direction): (r: SpriteView)
    requires L.Valid() && L.InBounds(s.row, s.col)
    ensures L.InBounds(r.row, r.col)
  {
    var (row, col) := Step(L, s.row, s.col, d);
    SpriteView(row, col, Some(d))
  }

  /** A move always faces the requested direction and never ends on a wall from a free cell. */
  lemma MovedFacesAndAvoidsWalls(L: Layout, s: SpriteView, d: Direction)
    requires L.Valid() && L.InBounds(s.row, s.col)
    ensures Moved(L, s, d).direction == Some(d)
    ensures L.CellAt(s.row, s.col) != Wall ==> L.CellAt(Moved(L, s, d).row, Moved(L, s, d).col) != Wall
  {
  }

  datatype SpriteError = PositionOutOfBounds | NullSprite | SameSprite | DirectionNotSet

  class Sprite {
    const name: string
    const layout: Layout
    var row: int
    var col: int
    var direction: Option<Direction>

    /** The sprite is inside the level it moves in. */
    ghost predicate Valid()
      reads this
    {
      layout.Valid() && layout.InBounds(row, col)
    }

    function View(): SpriteView
      reads this
    {
      SpriteView(row, col, direction)
    }

    /** The constructor for a start position its caller has checked. */
    constructor (name: string, startRow: int, startCol: int, layout: Layout)
      requires layout.Valid() && layout.InBounds(startRow, startCol)
      ensures Valid() && this.name == name && this.layout == layout
      ensures View() == SpriteView(startRow, startCol, None)
    {
      this.name := name;
      this.layout := layout;
      row, col := startRow, startCol;
      direction := None;
    }

    /** The Sprite constructor with its bounds check: a start outside the level is refused. */
    static method Create(name: string, startRow: int, startCol: int, layout: Layout) returns (r: Result<Sprite, SpriteError>)
      requires layout.Valid()
      ensures r.Ok? <==> layout.InBounds(startRow, startCol)
      ensures r.Err? ==> r.error == PositionOutOfBounds
      ensures r.Ok? ==> fresh(r.value) && r.value.Valid() && r.value.layout == layout
      ensures r.Ok? ==> r.value.View() == SpriteView(startRow, startCol, None)
    {
      if startRow < 0 || startRow >= layout.height || startCol < 0 || startCol >= layout.width {
        return Err(PositionOutOfBounds);
      }
      var s := new Sprite(name, startRow, startCol, layout);
      return Ok(s);
    }

    /** hasSameCoordinates: refuses null and the sprite itself, otherwise compares both coordinates. */
    function HasSameCoordinates(other: Sprite?): (r: Result<bool, SpriteError>)
      reads this, other
      ensures other == null ==> r == Err(NullSprite)
      ensures other != null && other == this ==> r == Err(SameSprite)
      ensures other != null && other != this ==> (r.Ok? && (r.value <==> other.row == row && other.col == col))
    {
      if other == null then Err(NullSprite)
      else if other == this then Err(SameSprite)
      else Ok(other.row == row && other.col == col)
    }

    /** move(d): face `d`, then step to the wrapped cell unless it is a wall. */
    method Move(d: Direction)
      requires Valid()
      modifies this
      ensures Valid()
      ensures View() == Moved(layout, old(View()), d)
    {
      direction := Some(d);
      var (wrappedRow, wrappedCol) := Wrapped(layout, row, col, d);
      if layout.CellAt(wrappedRow, wrappedCol) != Wall {
        row, col := wrappedRow, wrappedCol;
      }
    }

    /** move(): repeat the current direction; with no direction yet the call fails and nothing moves. */
    method MoveOn() returns (r: Result<(), SpriteError>)
      requires Valid()
      modifies this
      ensures Valid()
      ensures old(direction).None? ==> r == Err(DirectionNotSet) && View() == old(View())
      ensures old(direction).Some? ==> r.Ok? && View() == Moved(layout, old(View()), old(direction).value)
    {
      if direction.None? {
        return Err(DirectionNotSet);
      }
      Move(direction.value);
      return Ok(());
    }

    /** setPosition: out-of-bounds coordinates are refused, otherwise both are set. */
    method SetPosition(newRow: int, newCol: int) returns (r: Result<(), SpriteError>)
      requires Valid()
      modifies this
      ensures Valid() && direction == old(direction)
      ensures r.Ok? <==> layout.InBounds(newRow, newCol)
      ensures r.Ok? ==> row == newRow && col == newCol
      ensures r.Err? ==> r.error == PositionOutOfBounds && row == old(row) && col == old(col)
    {
      if newRow < 0 || newRow >= layout.height || newCol < 0 || newCol >= layout.width {
        return Err(PositionOutOfBounds);
      }
      row, col := newRow, newCol;
      return Ok(());
    }
  }

  // ---------------------------------------------------------------------------
  // Timed states counted in game updates
  // ---------------------------------------------------------------------------

  /** A timed state: whether it is active and how many game updates it has lasted. */
  datatype Timer = Timer(on: bool, ticks: int)

  const Inactive := Timer(false, 0)

  /** The counter is 0 while the state is off, and while on it is 0 or short of the duration. */
  predicate TimerOk(t: Timer, durationMs: int) {
    && (!t.on ==> t.ticks == 0)
    && (t.on ==> t.ticks >= 0 && (t.ticks == 0 || durationMs - t.ticks * MillisecondsPerGameUpdate > 0))
  }

  /**
   * One preMovementUpdate of a timed state: while active, count the update and switch
   * off, resetting the counter, once no time remains.
   */
  function TimerTick(t: Timer, durationMs: int): (r: Timer)
    ensures !t.on ==> r == t
    ensures TimerOk(t, durationMs) ==> TimerOk(r, durationMs)
  {
    if !t.on then t
    else
      var ticks := t.ticks + 1;
      if durationMs - ticks * MillisecondsPerGameUpdate <= 0 then Inactive else Timer(true, ticks)
  }

  datatype TimerError = NotActive

  /** The remaining time in milliseconds, refused while the state is off. */
  function RemainingTime(t: Timer, durationMs: int): (r: Result<int, TimerError>)
    ensures r.Err? <==> !t.on
    ensures r.Err? ==> r.error == NotActive
    ensures t.on && TimerOk(t, durationMs) && durationMs > 0 ==> r.Ok? && r.value > 0
  {
    if !t.on then Err(NotActive) else Ok(durationMs - t.ticks * MillisecondsPerGameUpdate)
  }

  /** The counter of updates, refused while the state is off. */
  function UpdateCounter(t: Timer): (r: Result<int, TimerError>)
    ensures r.Err? <==> !t.on
    ensures forall d :: TimerOk(t, d) && r.Ok? ==> r.value >= 0
    ensures forall d :: TimerOk(t, d) && r.Ok? && r.value > 0 ==> r.value * MillisecondsPerGameUpdate < d
  {
    if !t.on then Err(NotActive) else Ok(t.ticks)
  }

  /** The state after `n` updates. */
  function TimerAfter(t: Timer, durationMs: int, n: nat): Timer {
    if n == 0 then t else TimerTick(TimerAfter(t, durationMs, n - 1), durationMs)
  }

  /** The number of updates an activation lasts: the duration over 200 ms, rounded up, and at least one. */
  function TicksToExpire(durationMs: int): (k: nat)
    ensures k >= 1
    ensures durationMs - k * MillisecondsPerGameUpdate <= 0
    ensures forall n :: 1 <= n < k ==> durationMs - n * MillisecondsPerGameUpdate > 0
  {
    if durationMs <= MillisecondsPerGameUpdate then 1 else (durationMs + MillisecondsPerGameUpdate - 1) / MillisecondsPerGameUpdate
  }

  /** Started from zero, the state stays on with the counter equal to the updates seen until it expires. */
  lemma {:induction false} TimerRunsThenExpires(durationMs: int, n: nat)
    requires n <= TicksToExpire(durationMs)
    ensures n < TicksToExpire(durationMs) ==> TimerAfter(Timer(true, 0), durationMs, n) == Timer(true, n)
    ensures n == TicksToExpire(durationMs) ==> TimerAfter(Timer(true, 0), durationMs, n) == Inactive
  {
    if n > 0 {
      TimerRunsThenExpires(durationMs, n - 1);
    }
  }

  /** With the game's durations, power mode lasts 40 updates and a ghost stays dead for 60. */
  lemma DefaultDurations()
    ensures TicksToExpire(8000) == 40 && TicksToExpire(12000) == 60
  {
  }
}
