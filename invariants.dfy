/**
 * What every game state reached from restartGame satisfies, and what one update
 * guarantees: walls stay, only Pac-Man empties cells, the dot counters agree with the
 * map, dead ghosts wait on their spawn, the score never decreases.
 */
module Invariants {
  import opened Wrappers
  import opened Directions
  import opened Cells
  import opened Levels
  import opened Counting
  import opened Sprites
  import opened PacMen
  import opened Ghosts
  import opened Rules

  /** A cell of the map is the level's cell, or a non-wall cell that has been emptied. */
  predicate CellKept(L: Layout, cells: seq<seq<Cell>>, i: int, j: int)
    requires L.Valid() && L.InBounds(i, j) && i < |cells| && j < |cells[i]|
  {
    cells[i][j] == L.CellAt(i, j) || (cells[i][j] == Empty && L.CellAt(i, j) != Wall)
  }

  /** A ghost is off the walls, spawns on a GHOST_START cell, and waits there while dead. */
  predicate GhostOk(L: Layout, v: GhostView)
    requires L.Valid() && GhostPlaced(L, v)
  {
    && L.CellAt(v.at.row, v.at.col) != Wall
    && L.CellAt(v.startRow, v.startCol) == GhostStart
    && TimerOk(v.death, GhostDeadTimeMs)
    && (v.death.on ==> v.at.row == v.startRow && v.at.col == v.startCol)
  }

  /** Everything but the dot counters. */
  predicate Basic(L: Layout, g: Game) {
    && Shaped(L, g)
    && (forall i, j :: 0 <= i < L.height && 0 <= j < L.width ==> CellKept(L, g.cells, i, j))
    && L.CellAt(g.pac.at.row, g.pac.at.col) != Wall
    && TimerOk(g.pac.power, PacManPowerTimeMs)
    && (forall k :: 0 <= k < |g.ghosts| ==> GhostOk(L, g.ghosts[k]))
    && g.score >= 0
    && (g.victorious ==> g.over && g.bigDots == 0 && g.smallDots == 0)
  }

  function Here(L: Layout, g: Game): Cell
    requires Shaped(L, g)
  {
    g.cells[g.pac.at.row][g.pac.at.col]
  }

  /** The counters equal the dots on the map. */
  predicate Uneaten(g: Game) {
    g.smallDots == CountGrid(g.cells, SmallDot) && g.bigDots == CountGrid(g.cells, BigDot)
  }

  /** The counters equal the dots on the map, less the one Pac-Man has just eaten and not yet cleared. */
  predicate Accounted(L: Layout, g: Game)
    requires Shaped(L, g)
  {
    && g.smallDots == CountGrid(g.cells, SmallDot) - (if Here(L, g) == SmallDot then 1 else 0)
    && g.bigDots == CountGrid(g.cells, BigDot) - (if Here(L, g) == BigDot then 1 else 0)
  }

  /** The invariant of a game: while it goes on, the counters are right and some dot is left. */
  predicate Inv(L: Layout, g: Game) {
    && Basic(L, g)
    && (!g.over ==> Accounted(L, g) && (g.bigDots > 0 || g.smallDots > 0))
  }

  // ---------------------------------------------------------------------------
  // Phase by phase
  // ---------------------------------------------------------------------------

  lemma PreTicksKeep(L: Layout, g: Game)
    requires Basic(L, g)
    ensures Basic(L, PreTicks(g))
    ensures Accounted(L, g) ==> Accounted(L, PreTicks(g))
  {
    var r := PreTicks(g);
    forall k | 0 <= k < |r.ghosts|
      ensures GhostPlaced(L, r.ghosts[k]) && GhostOk(L, r.ghosts[k])
    {
      assert GhostPlaced(L, g.ghosts[k]) && GhostOk(L, g.ghosts[k]);
    }
  }

  lemma ClearKeeps(L: Layout, g: Game)
    requires Basic(L, g)
    ensures Basic(L, ClearPacCell(g))
    ensures Accounted(L, g) ==> Uneaten(ClearPacCell(g))
  {
    var r := ClearPacCell(g);
    var (pr, pc) := (g.pac.at.row, g.pac.at.col);
    forall i, j | 0 <= i < L.height && 0 <= j < L.width
      ensures CellKept(L, r.cells, i, j)
    {
      if (i, j) != (pr, pc) {
        assert CellKept(L, g.cells, i, j);
      }
    }
    assert r.cells == g.cells[pr := g.cells[pr][pc := Empty]];
    CountGridUpdate(g.cells, pr, pc, Empty, SmallDot);
    CountGridUpdate(g.cells, pr, pc, Empty, BigDot);
  }

  lemma MovePacKeeps(L: Layout, g: Game, desired: Direction)
    requires Basic(L, g)
    ensures Basic(L, MovePac(L, g, desired))
    ensures Uneaten(g) ==> Uneaten(MovePac(L, g, desired))
  {
    var at := g.pac.at;
    MovedFacesAndAvoidsWalls(L, at, desired);
  }

  lemma CollideKeeps(L: Layout, g: Game, k: nat)
    requires Basic(L, g) && k < |g.ghosts|
    ensures Basic(L, Collide(g, k))
  {
    var r := Collide(g, k);
    CollisionsKeepShape(L, g, k);
    forall j | 0 <= j < |r.ghosts|
      ensures GhostOk(L, r.ghosts[j])
    {
      assert GhostOk(L, g.ghosts[j]);
    }
  }

  lemma {:induction false} CollideFromKeeps(L: Layout, g: Game, k: nat)
    requires Basic(L, g) && k <= |g.ghosts|
    decreases |g.ghosts| - k
    ensures Basic(L, CollideFrom(g, k))
  {
    if k < |g.ghosts| {
      CollideKeeps(L, g, k);
      var g1 := Collide(g, k);
      if !g1.over {
        CollideFromKeeps(L, g1, k + 1);
      }
    }
  }

  lemma EatKeeps(L: Layout, g: Game)
    requires Basic(L, g) && Uneaten(g) && !g.over
    ensures Basic(L, EatDot(g)) && Accounted(L, EatDot(g))
  {
  }

  lemma GhostTurnKeeps(L: Layout, g: Game, k: nat, roll: nat)
    requires Basic(L, g) && k < |g.ghosts| && !g.ghosts[k].death.on
    ensures GhostTurn(L, g, k, roll).Some? ==> Basic(L, GhostTurn(L, g, k, roll).value)
  {
    var v := g.ghosts[k];
    var valid := ValidDirections(L, v.at.row, v.at.col);
    var toward := DirectionTowardsPacMan(L, v.at.row, v.at.col, g.pac.at.row, g.pac.at.col);
    var choice := GhostChoice(valid, toward, g.pac.power.on, v.at.direction, roll);
    if choice.Some? {
      var moved := MoveGhost(L, g, k, choice.value);
      assert GhostOk(L, v);
      MovedFacesAndAvoidsWalls(L, v.at, choice.value);
      forall j | 0 <= j < |moved.ghosts|
        ensures GhostOk(L, moved.ghosts[j])
      {
        assert GhostOk(L, g.ghosts[j]);
      }
      CollideKeeps(L, moved, k);
    }
  }

  lemma {:induction false} MoveGhostsKeep(L: Layout, g: Game, k: nat, rolls: seq<nat>)
    requires Basic(L, g) && k <= |g.ghosts|
    decreases |g.ghosts| - k
    ensures Basic(L, MoveGhostsFrom(L, g, k, rolls).game)
  {
    if k < |g.ghosts| {
      if g.ghosts[k].death.on {
        MoveGhostsKeep(L, g, k + 1, rolls);
      } else {
        GhostTurnKeeps(L, g, k, RollFor(rolls, k));
        var t := GhostTurn(L, g, k, RollFor(rolls, k));
        if t.Some? && !t.value.over {
          MoveGhostsKeep(L, t.value, k + 1, rolls);
        }
      }
    }
  }

  /** One update keeps the invariant. */
  lemma TickKeepsInv(L: Layout, g: Game, desired: Direction, rolls: seq<nat>)
    requires Inv(L, g)
    ensures Inv(L, Tick(L, g, desired, rolls).game)
  {
    if !g.over {
      var g0 := PreTicks(g);
      PreTicksKeep(L, g);
      var c := ClearPacCell(g0);
      ClearKeeps(L, g0);
      var g1 := MovePac(L, c, desired);
      MovePacKeeps(L, c, desired);
      var g2 := CollideFrom(g1, 0);
      CollideFromKeeps(L, g1, 0);
      if !g2.over {
        var g3 := EatDot(g2);
        EatKeeps(L, g2);
        if !(g3.bigDots == 0 && g3.smallDots == 0) {
          MoveGhostsKeep(L, g3, 0, rolls);
          var r := MoveGhostsFrom(L, g3, 0, rolls).game;
          assert Here(L, r) == Here(L, g3);
        }
      }
    }
  }

  // ---------------------------------------------------------------------------
  // A new game
  // ---------------------------------------------------------------------------

  /** Helper: the restarted ghosts spawn at every GHOST_START cell, in row-major order. */
  lemma InitialSpawns(L: Layout)
    requires L.Valid() && L.WellCounted()
    ensures forall i, j :: 0 <= i < L.height && 0 <= j < L.width && L.CellAt(i, j) == GhostStart ==>
      SpawnsAt(InitialGame(L).ghosts, i, j)
    ensures SpawnsInRowMajorOrder(InitialGame(L).ghosts)
  {
    var g := InitialGame(L);
    var grid := L.Grid();
    var spawns := GridPositions(grid, GhostStart);
    assert g.ghosts == Spawns(spawns);
    GridPositionsComplete(grid, GhostStart);
    GridPositionsOrdered(grid, GhostStart);
    forall i, j | 0 <= i < L.height && 0 <= j < L.width && L.CellAt(i, j) == GhostStart
      ensures SpawnsAt(g.ghosts, i, j)
    {
      assert grid[i][j] == GhostStart;
      var k :| 0 <= k < |spawns| && spawns[k] == (i, j);
      assert g.ghosts[k] == Spawned(spawns[k]);
    }
    forall a, b | 0 <= a < b < |g.ghosts|
      ensures g.ghosts[a].startRow < g.ghosts[b].startRow
        || (g.ghosts[a].startRow == g.ghosts[b].startRow && g.ghosts[a].startCol < g.ghosts[b].startCol)
    {
      assert g.ghosts[a] == Spawned(spawns[a]) && g.ghosts[b] == Spawned(spawns[b]);
    }
  }

  /** Some ghost has its spawn cell at (i, j). */
  predicate SpawnsAt(gs: seq<GhostView>, i: int, j: int) {
    exists k :: 0 <= k < |gs| && gs[k].startRow == i && gs[k].startCol == j
  }

  /** The ghosts' spawn cells are listed row by row, left to right, none twice. */
  predicate SpawnsInRowMajorOrder(gs: seq<GhostView>) {
    forall a, b :: 0 <= a < b < |gs| ==>
      gs[a].startRow < gs[b].startRow || (gs[a].startRow == gs[b].startRow && gs[a].startCol < gs[b].startCol)
  }

  /**
   * A restarted game satisfies the invariant, has the level's dot counts, one ghost per
   * GHOST_START cell, no score, and is under way.
   */
  lemma InitialGameInv(L: Layout)
    requires L.Valid() && L.WellCounted()
    ensures Inv(L, InitialGame(L))
    ensures InitialGame(L).smallDots == L.numOfSmallDots && InitialGame(L).bigDots == L.numOfBigDots
    ensures |InitialGame(L).ghosts| == L.numOfGhosts
    ensures InitialGame(L).score == 0 && !InitialGame(L).over && !InitialGame(L).victorious
    ensures forall i, j :: 0 <= i < L.height && 0 <= j < L.width && L.CellAt(i, j) == GhostStart ==>
      SpawnsAt(InitialGame(L).ghosts, i, j)
    ensures SpawnsInRowMajorOrder(InitialGame(L).ghosts)
  {
    var g := InitialGame(L);
    var grid := L.Grid();
    var spawns := GridPositions(grid, GhostStart);
    InitialSpawns(L);
    forall k | 0 <= k < |g.ghosts|
      ensures GhostOk(L, g.ghosts[k])
    {
      assert g.ghosts[k] == Spawned(spawns[k]);
      assert grid[spawns[k].0][spawns[k].1] == GhostStart;
    }
    assert CellValue(SmallDot)[0] == 'S' && CellValue(BigDot)[0] == 'B' && CellValue(GhostStart)[0] == 'G';
    GridCountsSymbols(L, SmallDot);
    GridCountsSymbols(L, BigDot);
    GridCountsSymbols(L, GhostStart);
  }

  // ---------------------------------------------------------------------------
  // What one update guarantees
  // ---------------------------------------------------------------------------

  /** An update changes one cell of the map at most: the one Pac-Man stood on, which is emptied. */
  lemma TickEmptiesOnlyPacCell(L: Layout, g: Game, desired: Direction, rolls: seq<nat>)
    requires Shaped(L, g) && !g.over
    ensures var r := Tick(L, g, desired, rolls).game;
      forall i, j :: 0 <= i < L.height && 0 <= j < L.width ==>
        r.cells[i][j] == if (i, j) == (g.pac.at.row, g.pac.at.col) then Empty else g.cells[i][j]
  {
    var c := ClearPacCell(PreTicks(g));
    var r := Tick(L, g, desired, rolls).game;
    assert r.cells == c.cells;
  }

  /** No live ghost stands on Pac-Man's cell. */
  predicate Separated(g: Game) {
    forall j :: 0 <= j < |g.ghosts| ==> !Touching(g, j)
  }

  /** A ghost's turn that does not end the game leaves no live ghost on Pac-Man's cell. */
  lemma GhostTurnSeparates(L: Layout, g: Game, k: nat, roll: nat)
    requires Shaped(L, g) && k < |g.ghosts| && Separated(g)
    ensures var t := GhostTurn(L, g, k, roll);
      t.Some? && !t.value.over ==> Separated(t.value)
  {
    var m := GhostStep(L, g, k, roll);
    if m.Some? {
      var t := Collide(m.value, k);
      if !t.over {
        forall j | 0 <= j < |t.ghosts|
          ensures !Touching(t, j)
        {
          if j != k {
            assert t.ghosts[j] == g.ghosts[j];
            assert !Touching(g, j);
          }
        }
      }
    }
  }

  lemma {:induction false} MoveGhostsSeparate(L: Layout, g: Game, k: nat, rolls: seq<nat>)
    requires Shaped(L, g) && k <= |g.ghosts| && Separated(g)
    decreases |g.ghosts| - k
    ensures !MoveGhostsFrom(L, g, k, rolls).game.over ==> Separated(MoveGhostsFrom(L, g, k, rolls).game)
  {
    if k < |g.ghosts| && !g.ghosts[k].death.on {
      var t := GhostTurn(L, g, k, RollFor(rolls, k));
      GhostTurnSeparates(L, g, k, RollFor(rolls, k));
      if t.Some? && !t.value.over {
        MoveGhostsSeparate(L, t.value, k + 1, rolls);
      }
    } else if k < |g.ghosts| {
      MoveGhostsSeparate(L, g, k + 1, rolls);
    }
  }

  /** After an update that does not end the game, no live ghost shares Pac-Man's cell. */
  lemma TickSeparates(L: Layout, g: Game, desired: Direction, rolls: seq<nat>)
    requires Shaped(L, g)
    requires !g.over
    ensures !Tick(L, g, desired, rolls).game.over ==> Separated(Tick(L, g, desired, rolls).game)
  {
    var g1 := MovePac(L, ClearPacCell(PreTicks(g)), desired);
    var g2 := CollideFrom(g1, 0);
    CollisionsKeepShape(L, g1, 0);
    CollideFromGhosts(g1, 0);
    if !g2.over {
      var g3 := EatDot(g2);
      assert forall j :: 0 <= j < |g3.ghosts| ==> (Touching(g3, j) <==> Touching(g2, j));
      if !(g3.bigDots == 0 && g3.smallDots == 0) {
        MoveGhostsSeparate(L, g3, 0, rolls);
      }
    }
  }

  /** On the update that wins the game no ghost makes a move: every ghost keeps its direction. */
  lemma WinningUpdateStopsGhosts(L: Layout, g: Game, desired: Direction, rolls: seq<nat>)
    requires Shaped(L, g) && !g.over && !g.victorious
    ensures var r := Tick(L, g, desired, rolls).game;
      r.victorious ==> r.ghosts == CollideFrom(MovePac(L, ClearPacCell(PreTicks(g)), desired), 0).ghosts
    ensures var r := Tick(L, g, desired, rolls).game;
      r.victorious ==> forall j :: 0 <= j < |g.ghosts| ==> r.ghosts[j].at.direction == g.ghosts[j].at.direction
  {
    var g1 := MovePac(L, ClearPacCell(PreTicks(g)), desired);
    var g2 := CollideFrom(g1, 0);
    TickSteps(L, g, desired, rolls);
    CollisionsKeepShape(L, g1, 0);
    CollideFromGhosts(g1, 0);
    if !g2.over {
      var g3 := EatDot(g2);
      forall j | 0 <= j < |g.ghosts|
        ensures g2.ghosts[j].at.direction == g.ghosts[j].at.direction
      {
        assert g1.ghosts[j].at == g.ghosts[j].at;
      }
    }
  }

  /** Landing on a big dot powers Pac-Man up, and the game goes on with the mode active. */
  lemma BigDotPowersUp(L: Layout, g: Game, desired: Direction, rolls: seq<nat>)
    requires Shaped(L, g) && !g.over
    ensures var r := Tick(L, g, desired, rolls).game;
      (!r.over && (r.pac.at.row, r.pac.at.col) != (g.pac.at.row, g.pac.at.col)
       && g.cells[r.pac.at.row][r.pac.at.col] == BigDot) ==> r.pac.power.on
  {
    var c := ClearPacCell(PreTicks(g));
    var g1 := MovePac(L, c, desired);
    var g2 := CollideFrom(g1, 0);
    CollisionsKeepShape(L, g1, 0);
    if !g2.over {
      var g3 := EatDot(g2);
      if !(g3.bigDots == 0 && g3.smallDots == 0) {
        var r := MoveGhostsFrom(L, g3, 0, rolls).game;
        assert r.pac == g3.pac && g2.pac == g1.pac && g2.cells == c.cells;
      }
    }
  }
}
