/**
 * One game update of PacManModel as a function on values. The class in module Engine
 * is proved to perform exactly these steps on its objects and map.
 */
module Rules {
  import opened Wrappers
  import opened Directions
  import opened Cells
  import opened Levels
  import opened Counting
  import opened Sprites
  import opened PacMen
  import opened Ghosts

  const SmallDotPoints := 10
  const BigDotPoints := 50
  const EatGhostPoints := 100
  const PacManPowerTimeMs := 8000
  const GhostDeadTimeMs := 12000

  /** The state of a game: the map as it is now, the sprites, dots left, score and outcome. */
  datatype Game = Game(cells: seq<seq<Cell>>, pac: PacView, ghosts: seq<GhostView>,
                       bigDots: int, smallDots: int, score: int, over: bool, victorious: bool)

  /** Why an operation of the model is refused. */
  datatype ModelError = NoLayoutDefined | NoPacManDefined | NoGhostsDefined | OutOfBounds(bounds: BoundsError) | GhostCannotMove

  /** The state a game update leaves, and the failure that cut it short, if any. */
  datatype Outcome = Outcome(game: Game, error: Option<ModelError>)

  // ---------------------------------------------------------------------------
  // What a sprite sees
  // ---------------------------------------------------------------------------

  /** The directions whose wrapped neighbour is not a wall. */
  function ValidDirections(L: Layout, row: int, col: int): (r: set<Direction>)
    requires L.Valid() && L.InBounds(row, col)
    ensures NoDirection !in r
  {
    set d | d in [Up, Down, Left, Right] && L.CellAt(Wrapped(L, row, col, d).0, Wrapped(L, row, col, d).1) != Wall
  }

  /** The valid directions are exactly those a move would actually follow. */
  lemma ValidDirectionsAreMoves(L: Layout, row: int, col: int, d: Direction)
    requires L.Valid() && L.InBounds(row, col)
    ensures d in ValidDirections(L, row, col) <==> IsMoving(d) && Step(L, row, col, d) != (row, col)
  {
    assert [Up, Down, Left, Right][0] == Up && [Up, Down, Left, Right][1] == Down;
    assert [Up, Down, Left, Right][2] == Left && [Up, Down, Left, Right][3] == Right;
  }

  /** The valid directions, one test per direction. */
  function OpenTowards(L: Layout, row: int, col: int, d: Direction): (r: set<Direction>)
    requires L.Valid() && L.InBounds(row, col)
  {
    if L.CellAt(Wrapped(L, row, col, d).0, Wrapped(L, row, col, d).1) != Wall then {d} else {}
  }

  lemma ValidDirectionsByCases(L: Layout, row: int, col: int)
    requires L.Valid() && L.InBounds(row, col)
    ensures ValidDirections(L, row, col)
         == OpenTowards(L, row, col, Up) + OpenTowards(L, row, col, Down)
          + OpenTowards(L, row, col, Left) + OpenTowards(L, row, col, Right)
  {
    assert [Up, Down, Left, Right][0] == Up && [Up, Down, Left, Right][1] == Down;
    assert [Up, Down, Left, Right][2] == Left && [Up, Down, Left, Right][3] == Right;
  }

  predicate ClearInRow(L: Layout, row: int, lo: int, hi: int)
    requires L.Valid() && 0 <= row < L.height && 0 <= lo <= hi <= L.width
  {
    forall c :: lo <= c < hi ==> L.CellAt(row, c) != Wall
  }

  predicate ClearInColumn(L: Layout, col: int, lo: int, hi: int)
    requires L.Valid() && 0 <= col < L.width && 0 <= lo <= hi <= L.height
  {
    forall r :: lo <= r < hi ==> L.CellAt(r, col) != Wall
  }

  function Min(a: int, b: int): int { if a <= b then a else b }
  function Max(a: int, b: int): int { if a <= b then b else a }

  /**
   * getDirectionTowardsPacMan: the direction from a ghost to Pac-Man when both are in
   * the same row or column with no wall in the scanned cells, and NONE otherwise. The
   * scan covers the cells from the lower index up to, not including, the higher one,
   * and does not wrap around the edges.
   */
  function DirectionTowardsPacMan(L: Layout, gr: int, gc: int, pr: int, pc: int): (r: Direction)
    requires L.Valid() && L.InBounds(gr, gc) && L.InBounds(pr, pc)
    ensures r == Right ==> gr == pr && gc < pc
    ensures r == Left ==> gr == pr && gc > pc
    ensures r == Down ==> gc == pc && gr < pr
    ensures r == Up ==> gc == pc && gr > pr
  {
    if gr == pr && gc == pc then NoDirection
    else if gr == pr then
      if ClearInRow(L, gr, Min(gc, pc), Max(gc, pc)) then (if Min(gc, pc) == gc then Right else Left)
      else NoDirection
    else if gc == pc then
      if ClearInColumn(L, gc, Min(gr, pr), Max(gr, pr)) then (if Min(gr, pr) == gr then Down else Up)
      else NoDirection
    else NoDirection
  }

  /**
   * When neither sprite stands on a wall, Pac-Man is seen exactly when it is in the
   * ghost's row or column with no wall strictly between them: scanning from the lower
   * index inclusive changes nothing.
   */
  lemma LineOfSight(L: Layout, gr: int, gc: int, pr: int, pc: int)
    requires L.Valid() && L.InBounds(gr, gc) && L.InBounds(pr, pc)
    requires L.CellAt(gr, gc) != Wall && L.CellAt(pr, pc) != Wall
    ensures DirectionTowardsPacMan(L, gr, gc, pr, pc) != NoDirection <==>
      || (gr == pr && gc != pc && forall c :: Min(gc, pc) < c < Max(gc, pc) ==> L.CellAt(gr, c) != Wall)
      || (gc == pc && gr != pr && forall r :: Min(gr, pr) < r < Max(gr, pr) ==> L.CellAt(r, gc) != Wall)
  {
  }

  // ---------------------------------------------------------------------------
  // A new game
  // ---------------------------------------------------------------------------

  /** A ghost created on its spawn cell: alive, with no direction yet. */
  function Spawned(pos: (int, int)): GhostView {
    GhostView(SpriteView(pos.0, pos.1, None), Inactive, pos.0, pos.1)
  }

  function Spawns(ps: seq<(int, int)>): (r: seq<GhostView>)
    ensures |r| == |ps| && forall k :: 0 <= k < |ps| ==> r[k] == Spawned(ps[k])
  {
    seq(|ps|, k requires 0 <= k < |ps| => Spawned(ps[k]))
  }

  /** Where Pac-Man starts: the last PACMAN_START cell in row-major order, the only one there is. */
  function PacStart(L: Layout): (p: (int, int))
    requires L.Valid() && L.WellCounted()
    ensures L.InBounds(p.0, p.1) && L.CellAt(p.0, p.1) == PacManStart
  {
    var ps := GridPositions(L.Grid(), PacManStart);
    GridCountsSymbols(L, PacManStart);
    ps[|ps| - 1]
  }

  /**
   * restartGame: the map is a copy of the level, Pac-Man and one ghost per GHOST_START
   * cell (in row-major order) stand on their start cells, and the dots are counted.
   */
  function InitialGame(L: Layout): (g: Game)
    requires L.Valid() && L.WellCounted()
    ensures Shaped(L, g)
  {
    var grid := L.Grid();
    var p := PacStart(L);
    Game(grid, PacView(SpriteView(p.0, p.1, None), Inactive), Spawns(GridPositions(grid, GhostStart)),
         CountGrid(grid, BigDot), CountGrid(grid, SmallDot), 0, false, false)
  }

  /** On a well-counted level, the last Pac-Man start a scan finds is where Pac-Man starts. */
  lemma StartFound(L: Layout)
    requires L.Valid() && L.WellCounted()
    ensures LastOf(GridPositions(L.Grid(), PacManStart)) == Some(PacStart(L))
  {
    GridCountsSymbols(L, PacManStart);
  }

  // ---------------------------------------------------------------------------
  // The phases of updateGameStatus
  // ---------------------------------------------------------------------------

  /** Every sprite is inside the level and the map has the level's shape. */
  predicate Shaped(L: Layout, g: Game) {
    && L.Valid()
    && |g.cells| == L.height
    && (forall i :: 0 <= i < |g.cells| ==> |g.cells[i]| == L.width)
    && L.InBounds(g.pac.at.row, g.pac.at.col)
    && (forall k :: 0 <= k < |g.ghosts| ==> GhostPlaced(L, g.ghosts[k]))
  }

  predicate GhostPlaced(L: Layout, v: GhostView) {
    L.InBounds(v.at.row, v.at.col) && L.InBounds(v.startRow, v.startCol)
  }

  function TickGhost(v: GhostView): GhostView {
    v.(death := TimerTick(v.death, GhostDeadTimeMs))
  }

  /** The preMovementUpdate of Pac-Man and then of every ghost: each timer advances once. */
  function PreTicks(g: Game): (r: Game)
    ensures |r.ghosts| == |g.ghosts|
    ensures r.pac.at == g.pac.at && r.pac.power == TimerTick(g.pac.power, PacManPowerTimeMs)
    ensures forall k :: 0 <= k < |g.ghosts| ==>
      r.ghosts[k].at == g.ghosts[k].at && r.ghosts[k].death == TimerTick(g.ghosts[k].death, GhostDeadTimeMs)
    ensures r == g.(pac := r.pac, ghosts := r.ghosts)
  {
    g.(pac := g.pac.(power := TimerTick(g.pac.power, PacManPowerTimeMs)),
       ghosts := seq(|g.ghosts|, k requires 0 <= k < |g.ghosts| => TickGhost(g.ghosts[k])))
  }

  /** The preMovementUpdate of ghosts k, k+1, ..., one after the other. */
  function TickGhostsFrom(g: Game, k: nat): (r: Game)
    requires k <= |g.ghosts|
    decreases |g.ghosts| - k
  {
    if k == |g.ghosts| then g else TickGhostsFrom(g.(ghosts := g.ghosts[k := TickGhost(g.ghosts[k])]), k + 1)
  }

  /** Ticking ghosts k, k+1, ... one at a time ticks exactly those ghosts. */
  lemma {:induction false} TickGhostsFromTicksTheRest(g: Game, k: nat)
    requires k <= |g.ghosts|
    decreases |g.ghosts| - k
    ensures TickGhostsFrom(g, k) == g.(ghosts := g.ghosts[..k] + seq(|g.ghosts| - k, j requires 0 <= j < |g.ghosts| - k => TickGhost(g.ghosts[k + j])))
  {
    if k < |g.ghosts| {
      var g' := g.(ghosts := g.ghosts[k := TickGhost(g.ghosts[k])]);
      TickGhostsFromTicksTheRest(g', k + 1);
      var rest' := seq(|g.ghosts| - (k + 1), j requires 0 <= j < |g.ghosts| - (k + 1) => TickGhost(g'.ghosts[k + 1 + j]));
      var rest := seq(|g.ghosts| - k, j requires 0 <= j < |g.ghosts| - k => TickGhost(g.ghosts[k + j]));
      assert g'.ghosts[..k + 1] + rest' == g.ghosts[..k] + rest;
    }
  }

  /** Pac-Man's preMovementUpdate followed by each ghost's, one at a time, is PreTicks. */
  lemma PreTicksGhostByGhost(g: Game)
    ensures TickGhostsFrom(g.(pac := g.pac.(power := TimerTick(g.pac.power, PacManPowerTimeMs))), 0) == PreTicks(g)
  {
    var g1 := g.(pac := g.pac.(power := TimerTick(g.pac.power, PacManPowerTimeMs)));
    TickGhostsFromTicksTheRest(g1, 0);
    assert g1.ghosts[..0] + seq(|g1.ghosts|, j requires 0 <= j < |g1.ghosts| => TickGhost(g1.ghosts[j])) == PreTicks(g).ghosts;
  }

  /** The cell Pac-Man stands on is emptied before it moves. */
  function ClearPacCell(g: Game): (r: Game)
    requires 0 <= g.pac.at.row < |g.cells| && 0 <= g.pac.at.col < |g.cells[g.pac.at.row]|
    ensures |r.cells| == |g.cells| && forall i :: 0 <= i < |g.cells| ==> |r.cells[i]| == |g.cells[i]|
    ensures r.cells[g.pac.at.row][g.pac.at.col] == Empty
    ensures forall i, j :: 0 <= i < |g.cells| && 0 <= j < |g.cells[i]| && (i, j) != (g.pac.at.row, g.pac.at.col) ==>
      r.cells[i][j] == g.cells[i][j]
    ensures r == g.(cells := r.cells)
  {
    g.(cells := g.cells[g.pac.at.row := g.cells[g.pac.at.row][g.pac.at.col := Empty]])
  }

  /** pacmanMove with the directions valid where Pac-Man stands. */
  function MovePac(L: Layout, g: Game, desired: Direction): (r: Game)
    requires L.Valid() && L.InBounds(g.pac.at.row, g.pac.at.col)
    ensures L.InBounds(r.pac.at.row, r.pac.at.col) && r.pac.power == g.pac.power
    ensures r == g.(pac := r.pac)
    ensures r.pac.at == if desired in ValidDirections(L, g.pac.at.row, g.pac.at.col) then Moved(L, g.pac.at, desired) else g.pac.at
    ensures desired in ValidDirections(L, g.pac.at.row, g.pac.at.col) ==>
      L.CellAt(r.pac.at.row, r.pac.at.col) != Wall && r.pac.at.direction == Some(desired)
    ensures desired == NoDirection ==> r == g
  {
    var at := g.pac.at;
    if desired in ValidDirections(L, at.row, at.col) then g.(pac := g.pac.(at := Moved(L, at, desired))) else g
  }

  /** A live ghost on Pac-Man's cell. */
  predicate Touching(g: Game, k: int)
    requires 0 <= k < |g.ghosts|
  {
    !g.ghosts[k].death.on && g.ghosts[k].at.row == g.pac.at.row && g.ghosts[k].at.col == g.pac.at.col
  }

  /**
   * checkGhostCollisions for ghost k: a live ghost on Pac-Man's cell is eaten for 100
   * points while Pac-Man is powered up, and ends the game otherwise.
   */
  function Collide(g: Game, k: int): (r: Game)
    requires 0 <= k < |g.ghosts|
    ensures |r.ghosts| == |g.ghosts| && r.cells == g.cells && r.pac == g.pac
    ensures r.bigDots == g.bigDots && r.smallDots == g.smallDots && r.victorious == g.victorious
    ensures r.over <==> g.over || (Touching(g, k) && !g.pac.power.on)
    ensures r.score == g.score + (if Touching(g, k) && g.pac.power.on then EatGhostPoints else 0)
    ensures r.ghosts == g.ghosts[k := if Touching(g, k) && g.pac.power.on then Killed(g.ghosts[k]) else g.ghosts[k]]
    ensures !r.over ==> !Touching(r, k)
  {
    var v := g.ghosts[k];
    if v.at.row == g.pac.at.row && v.at.col == g.pac.at.col && !v.death.on then
      if g.pac.power.on then g.(ghosts := g.ghosts[k := Killed(v)], score := g.score + EatGhostPoints)
      else g.(over := true)
    else g
  }

  /** The collision checks for ghosts k, k+1, ..., stopping once the game is over. */
  function CollideFrom(g: Game, k: nat): (r: Game)
    requires k <= |g.ghosts|
    decreases |g.ghosts| - k
    ensures |r.ghosts| == |g.ghosts| && r.cells == g.cells && r.pac == g.pac
    ensures r.bigDots == g.bigDots && r.smallDots == g.smallDots && r.victorious == g.victorious
    ensures r.score >= g.score && (g.over ==> r.over)
  {
    if k == |g.ghosts| then g
    else
      var g1 := Collide(g, k);
      if g1.over then g1 else CollideFrom(g1, k + 1)
  }

  /**
   * The collision checks from ghost k on leave the earlier ghosts alone, only ever kill a
   * ghost, and, unless the game ends, leave no live ghost from k on on Pac-Man's cell.
   */
  lemma {:induction false} CollideFromGhosts(g: Game, k: nat)
    requires k <= |g.ghosts|
    decreases |g.ghosts| - k
    ensures var r := CollideFrom(g, k);
      && (forall j :: 0 <= j < k ==> r.ghosts[j] == g.ghosts[j])
      && (forall j :: 0 <= j < |g.ghosts| ==> r.ghosts[j] == g.ghosts[j] || r.ghosts[j] == Killed(g.ghosts[j]))
      && (!r.over ==> forall j :: k <= j < |r.ghosts| ==> !Touching(r, j))
  {
    if k < |g.ghosts| {
      var g1 := Collide(g, k);
      if !g1.over {
        CollideFromGhosts(g1, k + 1);
        var r := CollideFrom(g1, k + 1);
        assert r.ghosts[k] == g1.ghosts[k];
        assert forall j :: 0 <= j < |g.ghosts| ==> r.ghosts[j] == g.ghosts[j] || r.ghosts[j] == Killed(g.ghosts[j]) by {
          forall j | 0 <= j < |g.ghosts|
            ensures r.ghosts[j] == g.ghosts[j] || r.ghosts[j] == Killed(g.ghosts[j])
          {
            if j == k {
            } else {
              assert g1.ghosts[j] == g.ghosts[j];
            }
          }
        }
      }
    }
  }

  /** Past the last ghost, the collision checks change nothing. */
  lemma NoCollisionsLeft(g: Game)
    ensures CollideFrom(g, |g.ghosts|) == g
  {
  }

  /** Collision checks only send ghosts back to their spawn, inside the level. */
  lemma CollisionsKeepShape(L: Layout, g: Game, k: nat)
    requires Shaped(L, g) && k <= |g.ghosts|
    ensures k < |g.ghosts| ==> Shaped(L, Collide(g, k))
    ensures Shaped(L, CollideFrom(g, k))
  {
    var r := CollideFrom(g, k);
    CollideFromGhosts(g, k);
    forall j | 0 <= j < |r.ghosts|
      ensures GhostPlaced(L, r.ghosts[j])
    {
      assert GhostPlaced(L, g.ghosts[j]);
    }
    if k < |g.ghosts| {
      var c := Collide(g, k);
      assert GhostPlaced(L, c.ghosts[k]);
      assert forall j :: 0 <= j < |c.ghosts| && j != k ==> c.ghosts[j] == g.ghosts[j];
    }
  }

  /** The dot under Pac-Man is eaten: a big dot scores 50 and powers Pac-Man up, a small one scores 10. */
  function EatDot(g: Game): (r: Game)
    requires 0 <= g.pac.at.row < |g.cells| && 0 <= g.pac.at.col < |g.cells[g.pac.at.row]|
    ensures r.cells == g.cells && r.ghosts == g.ghosts && r.pac.at == g.pac.at && r.over == g.over
    ensures var here := g.cells[g.pac.at.row][g.pac.at.col];
      && r.bigDots == g.bigDots - (if here == BigDot then 1 else 0)
      && r.smallDots == g.smallDots - (if here == SmallDot then 1 else 0)
      && r.score == g.score + (if here == BigDot then BigDotPoints else if here == SmallDot then SmallDotPoints else 0)
      && r.pac.power == (if here == BigDot then g.pac.power.(on := true) else g.pac.power)
  {
    var here := g.cells[g.pac.at.row][g.pac.at.col];
    var g1 := if here == BigDot then
      g.(bigDots := g.bigDots - 1, score := g.score + BigDotPoints, pac := g.pac.(power := g.pac.power.(on := true)))
    else g;
    if here == SmallDot then g1.(smallDots := g1.smallDots - 1, score := g1.score + SmallDotPoints) else g1
  }

  /** Ghost k makes a move in direction d. */
  function MoveGhost(L: Layout, g: Game, k: int, d: Direction): (r: Game)
    requires Shaped(L, g) && 0 <= k < |g.ghosts|
    ensures Shaped(L, r) && |r.ghosts| == |g.ghosts| && r == g.(ghosts := r.ghosts)
    ensures forall j :: 0 <= j < |g.ghosts| && j != k ==> r.ghosts[j] == g.ghosts[j]
    ensures r.ghosts[k] == g.ghosts[k].(at := Moved(L, g.ghosts[k].at, d))
  {
    g.(ghosts := g.ghosts[k := g.ghosts[k].(at := Moved(L, g.ghosts[k].at, d))])
  }

  /** The injected random draw for ghost k; missing draws count as 0. */
  function RollFor(rolls: seq<nat>, k: int): nat {
    if 0 <= k < |rolls| then rolls[k] else 0
  }

  /**
   * Ghost k's move as ghostMove decides, from the directions valid where it stands and
   * the direction towards Pac-Man; there is none when it has no direction to pick from.
   */
  function GhostStep(L: Layout, g: Game, k: int, roll: nat): (r: Option<Game>)
    requires Shaped(L, g) && 0 <= k < |g.ghosts|
    ensures r.Some? ==> Shaped(L, r.value) && |r.value.ghosts| == |g.ghosts| && r.value == g.(ghosts := r.value.ghosts)
    ensures r.Some? ==> forall j :: 0 <= j < |g.ghosts| && j != k ==> r.value.ghosts[j] == g.ghosts[j]
    ensures r.Some? ==> r.value.ghosts[k] == g.ghosts[k].(at := r.value.ghosts[k].at) && r.value.ghosts[k].at.direction.Some?
  {
    var v := g.ghosts[k];
    var valid := ValidDirections(L, v.at.row, v.at.col);
    var toward := DirectionTowardsPacMan(L, v.at.row, v.at.col, g.pac.at.row, g.pac.at.col);
    match GhostChoice(valid, toward, g.pac.power.on, v.at.direction, roll)
    case None => None
    case Some(d) => Some(MoveGhost(L, g, k, d))
  }

  /**
   * Ghost k's turn: it moves as ghostMove decides and is checked for a collision;
   * there is no turn when it has no direction to pick from.
   */
  function GhostTurn(L: Layout, g: Game, k: int, roll: nat): (r: Option<Game>)
    requires Shaped(L, g) && 0 <= k < |g.ghosts|
    ensures r.Some? ==> Shaped(L, r.value) && |r.value.ghosts| == |g.ghosts|
    ensures r.Some? ==> r.value.cells == g.cells && r.value.pac == g.pac && r.value.victorious == g.victorious
    ensures r.Some? ==> r.value.bigDots == g.bigDots && r.value.smallDots == g.smallDots
    ensures r.Some? ==> r.value.score >= g.score && (g.over ==> r.value.over)
  {
    match GhostStep(L, g, k, roll)
    case None => None
    case Some(moved) =>
      CollisionsKeepShape(L, moved, k);
      Some(Collide(moved, k))
  }

  /**
   * The movement of ghosts k, k+1, ...: each live ghost takes its turn; the update
   * stops once the game is over, and fails when a ghost has no direction to pick from.
   */
  function MoveGhostsFrom(L: Layout, g: Game, k: nat, rolls: seq<nat>): (r: Outcome)
    requires Shaped(L, g) && k <= |g.ghosts|
    decreases |g.ghosts| - k
    ensures Shaped(L, r.game) && |r.game.ghosts| == |g.ghosts|
    ensures r.game.cells == g.cells && r.game.pac == g.pac && r.game.victorious == g.victorious
    ensures r.game.bigDots == g.bigDots && r.game.smallDots == g.smallDots
    ensures r.game.score >= g.score && (g.over ==> r.game.over)
    ensures r.error.Some? ==> r.error == Some(GhostCannotMove) && r.game.over == g.over
  {
    if k == |g.ghosts| then Outcome(g, None)
    else if g.ghosts[k].death.on then MoveGhostsFrom(L, g, k + 1, rolls)
    else
      match GhostTurn(L, g, k, RollFor(rolls, k))
      case None => Outcome(g, Some(GhostCannotMove))
      case Some(g1) => if g1.over then Outcome(g1, None) else MoveGhostsFrom(L, g1, k + 1, rolls)
  }

  /** Past the last ghost, the movement changes nothing. */
  lemma NoGhostsLeft(L: Layout, g: Game, rolls: seq<nat>)
    requires Shaped(L, g)
    ensures MoveGhostsFrom(L, g, |g.ghosts|, rolls) == Outcome(g, None)
  {
  }

  /** The phases of Tick one by one, for a game that is not over. */
  lemma TickSteps(L: Layout, g: Game, desired: Direction, rolls: seq<nat>)
    requires Shaped(L, g)
    ensures !g.over ==>
      var g1 := MovePac(L, ClearPacCell(PreTicks(g)), desired);
      var g2 := CollideFrom(g1, 0);
      && Shaped(L, g1) && Shaped(L, g2)
      && (g2.over ==> Tick(L, g, desired, rolls) == Outcome(g2, None))
      && (!g2.over ==>
            var g3 := EatDot(g2);
            && Shaped(L, g3)
            && (g3.bigDots == 0 && g3.smallDots == 0 ==>
                  Tick(L, g, desired, rolls) == Outcome(g3.(over := true, victorious := true), None))
            && (!(g3.bigDots == 0 && g3.smallDots == 0) ==> Tick(L, g, desired, rolls) == MoveGhostsFrom(L, g3, 0, rolls)))
  {
    if !g.over {
      CollisionsKeepShape(L, MovePac(L, ClearPacCell(PreTicks(g)), desired), 0);
    }
  }

  /**
   * updateGameStatus: nothing happens once the game is over; otherwise the timers
   * advance, Pac-Man leaves an empty cell behind and moves, collisions are checked,
   * the dot under Pac-Man is eaten, the player wins when no dot is left, and the live
   * ghosts move.
   */
  function Tick(L: Layout, g: Game, desired: Direction, rolls: seq<nat>): (r: Outcome)
    requires Shaped(L, g)
    ensures Shaped(L, r.game) && |r.game.ghosts| == |g.ghosts|
    ensures g.over ==> r == Outcome(g, None)
    ensures r.game.score >= g.score
    ensures g.victorious ==> r.game.victorious
  {
    if g.over then Outcome(g, None)
    else
      var g1 := MovePac(L, ClearPacCell(PreTicks(g)), desired);
      var g2 := CollideFrom(g1, 0);
      CollisionsKeepShape(L, g1, 0);
      if g2.over then Outcome(g2, None)
      else
        var g3 := EatDot(g2);
        if g3.bigDots == 0 && g3.smallDots == 0 then Outcome(g3.(over := true, victorious := true), None)
        else MoveGhostsFrom(L, g3, 0, rolls)
  }
}
