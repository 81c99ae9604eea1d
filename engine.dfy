/**
 * PacManModel: the game engine. It copies a level into a mutable map, creates Pac-Man
 * and the ghosts, and advances the game one update at a time. Every method is proved
 * to do to its objects what the functions of module Rules do to a game value.
 */
module Engine {
  import opened Wrappers
  import opened Directions
  import opened Cells
  import opened Levels
  import opened Counting
  import opened Sprites
  import opened PacMen
  import opened Ghosts
  import opened Rules

  /** The failure an update reports, if any. */
  function ErrorOf(r: Result<(), ModelError>): (e: Option<ModelError>)
    ensures e.None? <==> r.Ok?
    ensures e.Some? ==> r == Err(e.value)
  {
    if r.Ok? then None else Some(r.error)
  }

  class PacManModel {
    var levelLayout: Option<Layout>
    var levelMap: array2<Cell>
    var isGameOver: bool
    var isPlayerVictorious: bool
    var pacMan: PacManSprite?
    var ghosts: seq<GhostSprite>
    var numOfBigDots: int
    var numOfSmallDots: int
    var score: int

    /** The sprites of the model: Pac-Man, the ghosts, and the sprite state each of them holds. */
    ghost function SpriteObjects(): set<object>
      reads this`pacMan, this`ghosts
    {
      var pacObjects: set<object> := if pacMan == null then {} else {pacMan, pacMan.body};
      var ghostObjects: set<object> := set g: GhostSprite | g in ghosts;
      var ghostBodies: set<object> := set g: GhostSprite | g in ghosts :: g.body;
      pacObjects + ghostObjects + ghostBodies
    }

    /** The objects the state of the model lives in. */
    ghost function Objects(): set<object>
      reads this
    {
      {this, levelMap} + SpriteObjects()
    }

    /**
     * The shape of the model, which no sprite update changes: before a level is given
     * there is no Pac-Man and no ghost; afterwards the map has the level's shape, and
     * Pac-Man and the ghosts are distinct sprites of that level.
     */
    ghost predicate Structured()
      reads this`levelLayout, this`levelMap, this`pacMan, this`ghosts
    {
      && (levelLayout.None? ==> pacMan == null && ghosts == [])
      && (levelLayout.Some? ==>
            var L := levelLayout.value;
            && L.Valid() && L.WellCounted()
            && levelMap.Length0 == L.height && levelMap.Length1 == L.width
            && pacMan != null && pacMan.body.layout == L && pacMan.powerUpTimeMs == PacManPowerTimeMs
            && (forall k :: 0 <= k < |ghosts| ==> ghosts[k].body.layout == L && ghosts[k].deathTimeMs == GhostDeadTimeMs)
            && (forall a, b :: 0 <= a < b < |ghosts| ==> ghosts[a] != ghosts[b] && ghosts[a].body != ghosts[b].body)
            && (forall k :: 0 <= k < |ghosts| ==> ghosts[k].body != pacMan.body))
    }

    /** Every sprite keeps its own invariant. */
    ghost predicate SpritesValid()
      reads this`pacMan, this`ghosts, SpriteObjects()
    {
      && (pacMan != null ==> pacMan.Valid())
      && (forall k :: 0 <= k < |ghosts| ==> ghosts[k].Valid())
    }

    ghost predicate Valid()
      reads this`levelLayout, this`levelMap, this`pacMan, this`ghosts, SpriteObjects()
    {
      Structured() && SpritesValid()
    }

    /** The map, row by row. */
    function Cells(): (c: seq<seq<Cell>>)
      reads this`levelMap, levelMap
      ensures |c| == levelMap.Length0 && forall i :: 0 <= i < |c| ==> |c[i]| == levelMap.Length1
      ensures forall i, j :: 0 <= i < levelMap.Length0 && 0 <= j < levelMap.Length1 ==> c[i][j] == levelMap[i, j]
    {
      var m := levelMap;
      seq(m.Length0, i requires 0 <= i < m.Length0 reads m =>
        seq(m.Length1, j requires 0 <= j < m.Length1 reads m => m[i, j]))
    }

    /** The ghosts' states, in list order. */
    function GhostViews(): (vs: seq<GhostView>)
      reads this`ghosts, set g | g in ghosts, set g | g in ghosts :: g.body
      ensures |vs| == |ghosts| && forall k :: 0 <= k < |ghosts| ==> vs[k] == ghosts[k].View()
    {
      var gs := ghosts;
      seq(|gs|, k requires 0 <= k < |gs| reads set g | g in gs, set g | g in gs :: g.body => gs[k].View())
    }

    /** The game the model holds. */
    function Abstract(): (g: Game)
      requires Valid() && levelLayout.Some?
      reads this, levelMap, SpriteObjects()
      ensures Shaped(levelLayout.value, g)
    {
      var g := Game(Cells(), pacMan.View(), GhostViews(), numOfBigDots, numOfSmallDots, score,
                    isGameOver, isPlayerVictorious);
      assert forall k :: 0 <= k < |ghosts| ==> ghosts[k].Valid();
      g
    }

    /** A model with no level yet. */
    constructor ()
      ensures Valid() && levelLayout.None?
    {
      levelLayout := None;
      levelMap := new Cell[0, 0];
      isGameOver := false;
      isPlayerVictorious := false;
      pacMan := null;
      ghosts := [];
      numOfBigDots := 0;
      numOfSmallDots := 0;
      score := 0;
    }

    // -------------------------------------------------------------------------
    // restartGame: the scan of the level, cell by cell in row-major order
    // -------------------------------------------------------------------------

    /** The map has the level's shape and holds the level's cells before (i, j). */
    ghost predicate CopiedUpTo(L: Layout, i: int, j: int)
      requires L.Valid()
      reads this`levelMap, levelMap
    {
      && levelMap.Length0 == L.height && levelMap.Length1 == L.width
      && forall r, c :: 0 <= r < L.height && 0 <= c < L.width && (r < i || (r == i && c < j)) ==> levelMap[r, c] == L.CellAt(r, c)
    }

    /**
     * The sprites of level L stand fresh on their start cells: the ghosts, distinct and in
     * order, on gs, and Pac-Man, a sprite apart from them, on pac once there is a pac.
     */
    ghost predicate PlacedOn(L: Layout, gs: seq<(int, int)>, pac: Option<(int, int)>)
      reads this`pacMan, this`ghosts, SpriteObjects()
    {
      && (forall k :: 0 <= k < |ghosts| ==>
            ghosts[k].Valid() && ghosts[k].body.layout == L && ghosts[k].deathTimeMs == GhostDeadTimeMs)
      && (forall a, b :: 0 <= a < b < |ghosts| ==> ghosts[a] != ghosts[b] && ghosts[a].body != ghosts[b].body)
      && GhostViews() == Spawns(gs)
      && (pac.Some? ==>
            && pacMan != null && pacMan.Valid() && pacMan.body.layout == L && pacMan.powerUpTimeMs == PacManPowerTimeMs
            && pacMan.View() == PacView(SpriteView(pac.value.0, pac.value.1, None), Inactive)
            && (forall k :: 0 <= k < |ghosts| ==> ghosts[k].body != pacMan.body))
    }

    /** The counters and the sprites are what a scan that gathered p has built. */
    ghost predicate Gathered(L: Layout, p: ScanProgress)
      reads this, SpriteObjects()
    {
      && numOfBigDots == p.bigDots && numOfSmallDots == p.smallDots
      && PlacedOn(L, p.ghostStarts, p.pacStart)
    }

    /** Copies cell (i, j) of the level into the map. */
    method CopyCell(L: Layout, i: int, j: int, ghost gs: seq<(int, int)>, ghost pac: Option<(int, int)>) returns (cell: Cell)
      requires L.Valid() && L.InBounds(i, j) && CopiedUpTo(L, i, j) && PlacedOn(L, gs, pac)
      modifies levelMap
      ensures cell == L.CellAt(i, j) && CopiedUpTo(L, i, j + 1) && PlacedOn(L, gs, pac)
    {
      cell := L.CellAt(i, j);
      levelMap[i, j] := cell;
    }

    /** A new ghost on its start cell (i, j), appended to the ghosts. */
    method SpawnGhost(L: Layout, i: int, j: int, ghost gs: seq<(int, int)>, ghost pac: Option<(int, int)>)
      requires L.Valid() && L.InBounds(i, j) && PlacedOn(L, gs, pac)
      modifies this`ghosts
      ensures PlacedOn(L, gs + [(i, j)], pac)
    {
      var ghost' := new GhostSprite("Ghost", GhostDeadTimeMs, i, j, L);
      ghosts := ghosts + [ghost'];
    }

    /** A new Pac-Man on its start cell (i, j), replacing any earlier one. */
    method PlacePacMan(L: Layout, i: int, j: int, ghost gs: seq<(int, int)>, ghost pac: Option<(int, int)>)
      requires L.Valid() && L.InBounds(i, j) && PlacedOn(L, gs, pac)
      modifies this`pacMan
      ensures PlacedOn(L, gs, Some((i, j)))
    {
      pacMan := new PacManSprite("Pac-Man", PacManPowerTimeMs, i, j, L);
    }

    /** The dot a cell of the scan counts. */
    method CountDot(cell: Cell, ghost L: Layout, ghost gs: seq<(int, int)>, ghost pac: Option<(int, int)>)
      requires PlacedOn(L, gs, pac)
      modifies this`numOfBigDots, this`numOfSmallDots
      ensures numOfBigDots == old(numOfBigDots) + (if cell == BigDot then 1 else 0)
      ensures numOfSmallDots == old(numOfSmallDots) + (if cell == SmallDot then 1 else 0)
      ensures PlacedOn(L, gs, pac)
    {
      if cell == BigDot {
        numOfBigDots := numOfBigDots + 1;
      } else if cell == SmallDot {
        numOfSmallDots := numOfSmallDots + 1;
      }
    }

    /** One cell of the scan: it is copied into the map, a dot is counted, and a start cell gets its sprite. */
    method ScanCell(L: Layout, i: int, j: int, ghost p: ScanProgress)
      requires L.Valid() && L.InBounds(i, j) && CopiedUpTo(L, i, j) && Gathered(L, p)
      modifies this, levelMap
      ensures levelLayout == old(levelLayout) && levelMap == old(levelMap)
      ensures isGameOver == old(isGameOver) && isPlayerVictorious == old(isPlayerVictorious) && score == old(score)
      ensures CopiedUpTo(L, i, j + 1) && Gathered(L, AfterCell(p, L.CellAt(i, j), i, j))
    {
      var cell := CopyCell(L, i, j, p.ghostStarts, p.pacStart);
      CountDot(cell, L, p.ghostStarts, p.pacStart);
      if cell == PacManStart {
        PlacePacMan(L, i, j, p.ghostStarts, p.pacStart);
      } else if cell == GhostStart {
        SpawnGhost(L, i, j, p.ghostStarts, p.pacStart);
      }
    }

    /** One row of the scan. */
    method ScanRow(L: Layout, i: int)
      requires L.Valid() && 0 <= i < L.height && CopiedUpTo(L, i, 0) && Gathered(L, ScanOf(L, i, 0))
      modifies this, levelMap
      ensures levelLayout == old(levelLayout) && levelMap == old(levelMap)
      ensures isGameOver == old(isGameOver) && isPlayerVictorious == old(isPlayerVictorious) && score == old(score)
      ensures CopiedUpTo(L, i + 1, 0) && Gathered(L, ScanOf(L, i + 1, 0))
    {
      ghost var p := ScanOf(L, i, 0);
      for j := 0 to L.width
        invariant levelLayout == old(levelLayout) && levelMap == old(levelMap)
        invariant isGameOver == old(isGameOver) && isPlayerVictorious == old(isPlayerVictorious) && score == old(score)
        invariant CopiedUpTo(L, i, j) && p == ScanOf(L, i, j) && Gathered(L, p)
      {
        ScanOfStep(L, i, j);
        ScanCell(L, i, j, p);
        p := AfterCell(p, L.CellAt(i, j), i, j);
      }
      ScanOfNextRow(L, i);
    }

    /** Every row of the scan, after which the model holds the level's starting game. */
    method ScanLevel(L: Layout)
      requires levelLayout == Some(L) && L.Valid() && L.WellCounted()
      requires !isGameOver && !isPlayerVictorious && score == 0
      requires CopiedUpTo(L, 0, 0) && Gathered(L, ScanOf(L, 0, 0))
      modifies this, levelMap
      ensures levelLayout == Some(L) && Valid() && Abstract() == InitialGame(L)
    {
      ghost var p := ScanOf(L, 0, 0);
      for i := 0 to L.height
        invariant levelLayout == old(levelLayout) && levelMap == old(levelMap)
        invariant isGameOver == old(isGameOver) && isPlayerVictorious == old(isPlayerVictorious) && score == old(score)
        invariant CopiedUpTo(L, i, 0) && p == ScanOf(L, i, 0) && Gathered(L, p)
      {
        ScanRow(L, i);
        p := ScanOf(L, i + 1, 0);
      }
      ScanComplete(L);
    }

    /** Before the scan: an empty map of the level's shape, no ghosts and no dots. */
    lemma ScanStarts(L: Layout)
      requires L.Valid() && levelMap.Length0 == L.height && levelMap.Length1 == L.width
      requires ghosts == [] && numOfBigDots == 0 && numOfSmallDots == 0
      ensures CopiedUpTo(L, 0, 0) && Gathered(L, ScanOf(L, 0, 0))
    {
      ScanOfNothing(L);
      assert GhostViews() == Spawns([]);
    }

    /** Once the whole level is scanned, the model holds the level's starting game. */
    lemma ScanComplete(L: Layout)
      requires levelLayout == Some(L) && L.Valid() && L.WellCounted()
      requires CopiedUpTo(L, L.height, 0) && Gathered(L, ScanOf(L, L.height, 0))
      requires !isGameOver && !isPlayerVictorious && score == 0
      ensures Valid() && Abstract() == InitialGame(L)
    {
      ScanOfAll(L);
      StartFound(L);
      CopiedAll(L);
    }

    /** A map holding every cell of the level is the level's grid. */
    lemma CopiedAll(L: Layout)
      requires L.Valid() && CopiedUpTo(L, L.height, 0)
      ensures Cells() == L.Grid()
    {
      forall r | 0 <= r < L.height
        ensures Cells()[r] == L.Grid()[r]
      {
      }
    }

    /**
     * restartGame: refused without a level; otherwise the game starts over on the level,
     * with a fresh map, fresh sprites on their start cells and the dots counted.
     */
    method RestartGame() returns (r: Result<Layout, ModelError>)
      requires levelLayout.Some? ==> levelLayout.value.Valid() && levelLayout.value.WellCounted()
      modifies this
      ensures levelLayout == old(levelLayout)
      ensures r.Err? <==> old(levelLayout).None?
      ensures r.Err? ==> r.error == NoLayoutDefined && unchanged(this)
      ensures r.Ok? ==> r.value == levelLayout.value && Valid() && Abstract() == InitialGame(r.value)
    {
      if levelLayout.None? {
        return Err(NoLayoutDefined);
      }
      var L := levelLayout.value;
      StartOver(L);
      r := Ok(L);
    }

    /** The body of restartGame once a level is known: everything is reset, then the level is scanned. */
    method StartOver(L: Layout)
      requires levelLayout == Some(L) && L.Valid() && L.WellCounted()
      modifies this
      ensures levelLayout == Some(L) && Valid() && Abstract() == InitialGame(L)
    {
      isGameOver := false;
      isPlayerVictorious := false;
      score := 0;
      numOfBigDots := 0;
      numOfSmallDots := 0;
      ghosts := [];
      levelMap := new Cell[L.height, L.width];
      ScanStarts(L);
      ScanLevel(L);
    }

    /** componentAt: the current map cell; refused without a level, then for the row, then for the column. */
    function ComponentAt(row: int, col: int): (r: Result<Cell, ModelError>)
      requires Valid()
      reads this, levelMap, SpriteObjects()
      ensures levelLayout.None? ==> r == Err(NoLayoutDefined)
      ensures levelLayout.Some? && !(0 <= row < levelLayout.value.height) ==> r == Err(OutOfBounds(RowOutOfBounds))
      ensures levelLayout.Some? && 0 <= row < levelLayout.value.height && !(0 <= col < levelLayout.value.width) ==>
        r == Err(OutOfBounds(ColumnOutOfBounds))
      ensures levelLayout.Some? && levelLayout.value.InBounds(row, col) ==> r == Ok(Abstract().cells[row][col])
    {
      if levelLayout.None? then Err(NoLayoutDefined)
      else if row < 0 || row >= levelLayout.value.height then Err(OutOfBounds(RowOutOfBounds))
      else if col < 0 || col >= levelLayout.value.width then Err(OutOfBounds(ColumnOutOfBounds))
      else Ok(levelMap[row, col])
    }

    /** getGameScore, refused without a level. */
    function GetGameScore(): (r: Result<int, ModelError>)
      requires Valid()
      reads this, levelMap, SpriteObjects()
      ensures r.Err? <==> levelLayout.None?
      ensures r.Ok? ==> r.value == Abstract().score
    {
      if levelLayout.None? then Err(NoLayoutDefined) else Ok(score)
    }

    /** initializeNewGame: the model takes the level and starts a game on it. */
    method InitializeNewGame(L: Layout)
      requires L.Valid() && L.WellCounted()
      modifies this
      ensures levelLayout == Some(L) && Valid() && Abstract() == InitialGame(L)
    {
      levelLayout := Some(L);
      var _ := RestartGame();
    }

    /** getPacMan, refused while there is no Pac-Man, that is, until a level is given. */
    function GetPacMan(): (r: Result<PacManSprite, ModelError>)
      requires Valid()
      reads this, levelMap, SpriteObjects()
      ensures r.Ok? <==> levelLayout.Some?
      ensures r.Err? ==> r.error == NoPacManDefined
      ensures r.Ok? ==> r.value == pacMan && r.value.View() == Abstract().pac
    {
      if pacMan == null then Err(NoPacManDefined) else Ok(pacMan)
    }

    /**
     * getGhosts: a copy of the list of ghosts, refused until a level is given (the list
     * only exists once restartGame has run).
     */
    function GetGhosts(): (r: Result<seq<GhostSprite>, ModelError>)
      requires Valid()
      reads this, levelMap, SpriteObjects()
      ensures r.Ok? <==> levelLayout.Some?
      ensures r.Err? ==> r.error == NoGhostsDefined
      ensures r.Ok? ==> |r.value| == |Abstract().ghosts| && forall k :: 0 <= k < |r.value| ==> r.value[k].View() == Abstract().ghosts[k]
    {
      if levelLayout.None? then Err(NoGhostsDefined) else Ok(ghosts)
    }

    /** isGameOver. */
    function IsGameOver(): (r: bool)
      requires Valid()
      reads this, levelMap, SpriteObjects()
      ensures levelLayout.Some? ==> r == Abstract().over
    {
      isGameOver
    }

    /** isPlayerVictorious. */
    function IsPlayerVictorious(): (r: bool)
      requires Valid()
      reads this, levelMap, SpriteObjects()
      ensures levelLayout.Some? ==> r == Abstract().victorious
    {
      isPlayerVictorious
    }

    /** getLevelLayout, refused without a level. */
    function GetLevelLayout(): (r: Result<Layout, ModelError>)
      reads this
      ensures r.Err? <==> levelLayout.None?
      ensures r.Ok? ==> Some(r.value) == levelLayout
    {
      if levelLayout.None? then Err(NoLayoutDefined) else Ok(levelLayout.value)
    }
 
    /** getValidMovementDirections: the directions whose wrapped neighbour is not a wall. */
    method GetValidMovementDirections(sprite: Sprite) returns (r: set<Direction>)
      requires levelLayout.Some? && levelLayout.value.Valid()
      requires sprite.Valid() && sprite.layout == levelLayout.value
      ensures r == ValidDirections(levelLayout.value, sprite.row, sprite.col)
    {
      var L := levelLayout.value;
      var row, col := sprite.row, sprite.col;
      ValidDirectionsByCases(L, row, col);
      r := {};
      var wrappedRow := if row - 1 < 0 then L.height - 1 else row - 1;
      assert (wrappedRow, col) == Wrapped(L, row, col, Up);
      if L.CellAt(wrappedRow, col) != Wall {
        r := r + {Up};
      }
      assert r == OpenTowards(L, row, col, Up);
      ghost var seen := r;
      wrappedRow := if row + 1 >= L.height then 0 else row + 1;
      assert (wrappedRow, col) == Wrapped(L, row, col, Down);
      if L.CellAt(wrappedRow, col) != Wall {
        r := r + {Down};
      }
      assert r == seen + OpenTowards(L, row, col, Down);
      seen := r;
      var wrappedCol := if col - 1 < 0 then L.width - 1 else col - 1;
      assert (row, wrappedCol) == Wrapped(L, row, col, Left);
      if L.CellAt(row, wrappedCol) != Wall {
        r := r + {Left};
      }
      assert r == seen + OpenTowards(L, row, col, Left);
      seen := r;
      wrappedCol := if col + 1 >= L.width then 0 else col + 1;
      assert (row, wrappedCol) == Wrapped(L, row, col, Right);
      if L.CellAt(row, wrappedCol) != Wall {
        r := r + {Right};
      }
      assert r == seen + OpenTowards(L, row, col, Right);
    }

    /**
     * getDirectionTowardsPacMan: scan the cells between the ghost and Pac-Man in a shared
     * row or column for a wall, from the lower index up to the higher one.
     */
    method GetDirectionTowardsPacMan(g: GhostSprite) returns (r: Direction)
      requires Valid() && levelLayout.Some? && g.Valid() && g.body.layout == levelLayout.value
      requires g.body != pacMan.body
      ensures r == DirectionTowardsPacMan(levelLayout.value, g.body.row, g.body.col, pacMan.body.row, pacMan.body.col)
    {
      var L := levelLayout.value;
      var same := g.body.HasSameCoordinates(pacMan.body);
      if same.value {
        return NoDirection;
      }
      var gr, gc, pr, pc := g.body.row, g.body.col, pacMan.body.row, pacMan.body.col;
      var isWallBetween := false;
      if gr == pr {
        var lesserIndex := Min(gc, pc);
        var greaterIndex := Max(gc, pc);
        var i := lesserIndex;
        while i < greaterIndex
          invariant lesserIndex <= i <= greaterIndex
          invariant !isWallBetween
          invariant forall c :: lesserIndex <= c < i ==> L.CellAt(gr, c) != Wall
        {
          if L.CellAt(gr, i) == Wall {
            isWallBetween := true;
            break;
          }
          i := i + 1;
        }
        if !isWallBetween {
          if lesserIndex == gc {
            return Right;
          } else {
            return Left;
          }
        }
      } else if gc == pc {
        var lesserIndex := Min(gr, pr);
        var greaterIndex := Max(gr, pr);
        var i := lesserIndex;
        while i < greaterIndex
          invariant lesserIndex <= i <= greaterIndex
          invariant !isWallBetween
          invariant forall c :: lesserIndex <= c < i ==> L.CellAt(c, gc) != Wall
        {
          if L.CellAt(i, gc) == Wall {
            isWallBetween := true;
            break;
          }
          i := i + 1;
        }
        if !isWallBetween {
          if lesserIndex == gr {
            return Down;
          } else {
            return Up;
          }
        }
      }
      return NoDirection;
    }
 
    /** checkGhostCollisions for the ghost at index k of the list. */
    method CheckGhostCollisions(g: GhostSprite, ghost k: int)
      requires Valid() && levelLayout.Some? && 0 <= k < |ghosts| && ghosts[k] == g
      modifies this, g, g.body
      ensures Valid()
      ensures levelLayout == old(levelLayout) && levelMap == old(levelMap) && pacMan == old(pacMan) && ghosts == old(ghosts)
      ensures Abstract() == Collide(old(Abstract()), k)
    {
      var same := pacMan.body.HasSameCoordinates(g.body);
      if same.value && !g.isDead {
        if pacMan.powerMode {
          g.KillGhost();
          score := score + EatGhostPoints;
        } else {
          isGameOver := true;
        }
      }
      AbstractAfter(k);
    }
 
    /** When no ghost's state changes, neither do the ghosts' states in the game. */
    twostate lemma GhostViewsKept()
      requires Structured() && ghosts == old(ghosts)
      requires forall j :: 0 <= j < |ghosts| ==> unchanged(ghosts[j], ghosts[j].body)
      ensures GhostViews() == old(GhostViews())
    {
    }

    /** When only the state of ghost k changes, the ghosts' states in the game differ only there. */
    twostate lemma GhostViewsAfter(k: int)
      requires Structured() && ghosts == old(ghosts) && 0 <= k < |ghosts|
      requires forall j :: 0 <= j < |ghosts| && j != k ==> unchanged(ghosts[j], ghosts[j].body)
      ensures GhostViews() == old(GhostViews())[k := ghosts[k].View()]
    {
    }

    /**
     * When the map and every ghost but the one at index k keep their state, the game
     * differs from the old one only in Pac-Man, that ghost and the counters.
     */
    twostate lemma AbstractAfter(k: int)
      requires old(Valid()) && old(levelLayout).Some? && Valid()
      requires levelLayout == old(levelLayout) && levelMap == old(levelMap) && unchanged(levelMap)
      requires pacMan == old(pacMan) && ghosts == old(ghosts) && 0 <= k < |ghosts|
      requires forall j :: 0 <= j < |ghosts| && j != k ==> unchanged(ghosts[j], ghosts[j].body)
      ensures Abstract() == old(Abstract()).(pac := pacMan.View(), ghosts := old(Abstract()).ghosts[k := ghosts[k].View()],
                                              bigDots := numOfBigDots, smallDots := numOfSmallDots, score := score,
                                              over := isGameOver, victorious := isPlayerVictorious)
    {
      GhostViewsAfter(k);
    }

    /** When the map and every ghost keep their state, the game differs only in Pac-Man and the counters. */
    twostate lemma AbstractKeptGhosts()
      requires old(Valid()) && old(levelLayout).Some? && Valid()
      requires levelLayout == old(levelLayout) && levelMap == old(levelMap) && unchanged(levelMap)
      requires pacMan == old(pacMan) && ghosts == old(ghosts)
      requires forall j :: 0 <= j < |ghosts| ==> unchanged(ghosts[j], ghosts[j].body)
      ensures Abstract() == old(Abstract()).(pac := pacMan.View(),
                                              bigDots := numOfBigDots, smallDots := numOfSmallDots, score := score,
                                              over := isGameOver, victorious := isPlayerVictorious)
    {
      GhostViewsKept();
    }

    /** The preMovementUpdate of the ghost at index k. */
    method TickGhostAt(k: int, ghost cur: Game) returns (ghost next: Game)
      requires Valid() && levelLayout.Some? && 0 <= k < |ghosts|
      requires cur == Abstract()
      modifies ghosts[k]
      ensures Valid()
      ensures next == Abstract() && |next.ghosts| == |cur.ghosts|
      ensures next == cur.(ghosts := cur.ghosts[k := TickGhost(cur.ghosts[k])])
    {
      ghosts[k].PreMovementUpdate();
      AbstractAfter(k);
      next := Abstract();
    }

    /** The preMovementUpdate of Pac-Man. */
    method TickPacMan()
      requires Valid() && levelLayout.Some?
      modifies pacMan
      ensures Valid()
      ensures Abstract() == old(Abstract()).(pac := old(Abstract()).pac.(power := TimerTick(old(Abstract()).pac.power, PacManPowerTimeMs)))
    {
      pacMan.PreMovementUpdate();
      AbstractKeptGhosts();
    }

    /** The preMovementUpdate of Pac-Man and then of each ghost in list order. */
    method PreMovementUpdates()
      requires Valid() && levelLayout.Some?
      modifies pacMan, set g | g in ghosts
      ensures Valid() && unchanged(this)
      ensures Abstract() == PreTicks(old(Abstract()))
    {
      ghost var g0 := Abstract();
      PreTicksGhostByGhost(g0);
      TickPacMan();
      ghost var cur := Abstract();
      for k := 0 to |ghosts|
        invariant Valid() && pacMan == old(pacMan) && ghosts == old(ghosts) && levelLayout == old(levelLayout)
        invariant cur == Abstract() && |cur.ghosts| == |ghosts| && TickGhostsFrom(cur, k) == PreTicks(g0)
      {
        cur := TickGhostAt(k, cur);
      }
    }

    /** Pac-Man's cell is emptied before it moves. */
    method ClearPacManCell()
      requires Valid() && levelLayout.Some?
      modifies levelMap
      ensures Valid() && unchanged(this)
      ensures Abstract() == ClearPacCell(old(Abstract()))
    {
      ghost var before := Cells();
      var pr, pc := pacMan.body.row, pacMan.body.col;
      levelMap[pr, pc] := Empty;
      ghost var want := before[pr := before[pr][pc := Empty]];
      forall i | 0 <= i < levelMap.Length0
        ensures Cells()[i] == want[i]
      {
        assert forall j :: 0 <= j < levelMap.Length1 ==> Cells()[i][j] == want[i][j];
      }
      assert Cells() == want;
    }

    /** Pac-Man moves if the desired direction is valid where it stands. */
    method MovePacMan(desired: Direction)
      requires Valid() && levelLayout.Some?
      modifies pacMan.body
      ensures Valid() && unchanged(this)
      ensures Abstract() == MovePac(levelLayout.value, old(Abstract()), desired)
    {
      var valid := GetValidMovementDirections(pacMan.body);
      pacMan.PacmanMove(desired, valid);
      AbstractKeptGhosts();
    }

    /** checkGhostCollisions for the ghost at index k, as one step of the checks from index k on. */
    method CollisionStep(k: int, ghost cur: Game) returns (ghost next: Game)
      requires Valid() && levelLayout.Some? && 0 <= k < |ghosts| && !isGameOver
      requires cur == Abstract()
      modifies this, ghosts[k], ghosts[k].body
      ensures Valid()
      ensures levelLayout == old(levelLayout) && levelMap == old(levelMap) && pacMan == old(pacMan) && ghosts == old(ghosts)
      ensures next == Abstract() && next.over == isGameOver && |next.ghosts| == |cur.ghosts|
      ensures isGameOver ==> CollideFrom(cur, k) == next
      ensures !isGameOver ==> CollideFrom(cur, k) == CollideFrom(next, k + 1)
    {
      CheckGhostCollisions(ghosts[k], k);
      next := Abstract();
    }

    /** checkGhostCollisions for every ghost in list order, stopping once the game is over. */
    method CheckAllCollisions()
      requires Valid() && levelLayout.Some? && !isGameOver
      modifies this, set g | g in ghosts, set g | g in ghosts :: g.body
      ensures Valid()
      ensures levelLayout == old(levelLayout) && levelMap == old(levelMap) && pacMan == old(pacMan) && ghosts == old(ghosts)
      ensures Abstract() == CollideFrom(old(Abstract()), 0)
    {
      ghost var cur := Abstract();
      ghost var goal := CollideFrom(cur, 0);
      var k := 0;
      while k < |ghosts|
        invariant 0 <= k <= |ghosts| && Valid() && levelLayout == old(levelLayout) && !isGameOver
        invariant levelMap == old(levelMap) && pacMan == old(pacMan) && ghosts == old(ghosts)
        invariant cur == Abstract() && goal == CollideFrom(cur, k)
      {
        cur := CollisionStep(k, cur);
        if isGameOver {
          return;
        }
        k := k + 1;
      }
      NoCollisionsLeft(cur);
    }

    /** A big dot is eaten: it scores and powers Pac-Man up. */
    method EatBigDot()
      requires Valid() && levelLayout.Some?
      modifies this`numOfBigDots, this`score, pacMan
      ensures Valid()
      ensures var g := old(Abstract());
        Abstract() == g.(bigDots := g.bigDots - 1, score := g.score + BigDotPoints, pac := g.pac.(power := g.pac.power.(on := true)))
    {
      numOfBigDots := numOfBigDots - 1;
      score := score + BigDotPoints;
      pacMan.ToggleGhostEatingMode();
      AbstractKeptGhosts();
    }

    /** A small dot is eaten: it scores. */
    method EatSmallDot()
      requires Valid() && levelLayout.Some?
      modifies this`numOfSmallDots, this`score
      ensures Valid()
      ensures var g := old(Abstract());
        Abstract() == g.(smallDots := g.smallDots - 1, score := g.score + SmallDotPoints)
    {
      numOfSmallDots := numOfSmallDots - 1;
      score := score + SmallDotPoints;
    }

    /** The dot under Pac-Man is eaten: a big one scores and powers Pac-Man up, a small one scores. */
    method EatDots()
      requires Valid() && levelLayout.Some?
      modifies this`numOfBigDots, this`numOfSmallDots, this`score, pacMan
      ensures Valid()
      ensures Abstract() == EatDot(old(Abstract()))
    {
      var pr, pc := pacMan.body.row, pacMan.body.col;
      if levelMap[pr, pc] == BigDot {
        EatBigDot();
      }
      if levelMap[pr, pc] == SmallDot {
        EatSmallDot();
      }
    }

    /**
     * The move of the ghost at index k: ghostMove with the directions valid where it stands
     * and the direction towards Pac-Man; it fails when there is no direction to pick from.
     */
    method MoveGhostAt(k: int, roll: nat) returns (failed: bool)
      requires Valid() && levelLayout.Some? && 0 <= k < |ghosts|
      modifies ghosts[k].body
      ensures Valid()
      ensures var m := GhostStep(levelLayout.value, old(Abstract()), k, roll);
        && (failed <==> m.None?)
        && (failed ==> Abstract() == old(Abstract()))
        && (!failed ==> Abstract() == m.value)
    {
      ghost var g := Abstract();
      ghost var v := g.ghosts[k];
      assert v.at == ghosts[k].body.View() && g.pac.at == pacMan.body.View();
      var validForGhost := GetValidMovementDirections(ghosts[k].body);
      var toward := GetDirectionTowardsPacMan(ghosts[k]);
      assert Valid() && Abstract() == g;
      failed := GhostPickAt(k, validForGhost, toward, roll);
    }

    /** ghostMove of the ghost at index k, given its valid directions and the direction towards Pac-Man. */
    method GhostPickAt(k: int, valid: set<Direction>, toward: Direction, roll: nat) returns (failed: bool)
      requires Valid() && levelLayout.Some? && 0 <= k < |ghosts|
      modifies ghosts[k].body
      ensures Valid()
      ensures var L, g := levelLayout.value, old(Abstract());
        var c := GhostChoice(valid, toward, g.pac.power.on, g.ghosts[k].at.direction, roll);
        && (failed <==> c.None?)
        && (failed ==> Abstract() == g)
        && (!failed ==> Abstract() == MoveGhost(L, g, k, c.value))
    {
      var moved := ghosts[k].GhostMove(valid, toward, pacMan.powerMode, roll);
      AbstractAfter(k);
      return moved.Err?;
    }

    /** The turn of the live ghost at index k: it moves as ghostMove decides, then collisions are checked. */
    method GhostTurnAt(k: int, roll: nat) returns (failed: bool)
      requires Valid() && levelLayout.Some? && 0 <= k < |ghosts|
      modifies this, ghosts[k], ghosts[k].body
      ensures Valid()
      ensures levelLayout == old(levelLayout) && levelMap == old(levelMap) && pacMan == old(pacMan) && ghosts == old(ghosts)
      ensures var t := GhostTurn(levelLayout.value, old(Abstract()), k, roll);
        && (failed <==> t.None?)
        && (failed ==> Abstract() == old(Abstract()))
        && (!failed ==> Abstract() == t.value)
    {
      failed := MoveGhostAt(k, roll);
      if !failed {
        CheckGhostCollisions(ghosts[k], k);
      }
    }

    /** The ghost at index k takes its turn if it is alive: one step of the ghosts' movement from index k on. */
    method GhostTurnFrom(k: int, rolls: seq<nat>, ghost cur: Game) returns (failed: bool, ghost next: Game)
      requires Valid() && levelLayout.Some? && 0 <= k < |ghosts| && !isGameOver
      requires cur == Abstract()
      modifies this, ghosts[k], ghosts[k].body
      ensures Valid()
      ensures levelLayout == old(levelLayout) && levelMap == old(levelMap) && pacMan == old(pacMan) && ghosts == old(ghosts)
      ensures next == Abstract() && next.over == isGameOver && Shaped(levelLayout.value, cur) && Shaped(levelLayout.value, next)
      ensures failed ==> MoveGhostsFrom(levelLayout.value, cur, k, rolls) == Outcome(next, Some(GhostCannotMove))
      ensures !failed && isGameOver ==> MoveGhostsFrom(levelLayout.value, cur, k, rolls) == Outcome(next, None)
      ensures !failed && !isGameOver ==> MoveGhostsFrom(levelLayout.value, cur, k, rolls) == MoveGhostsFrom(levelLayout.value, next, k + 1, rolls)
    {
      if !ghosts[k].isDead {
        failed := GhostTurnAt(k, RollFor(rolls, k));
      } else {
        failed := false;
      }
      next := Abstract();
    }

    /** Every live ghost takes its turn in list order, stopping once the game is over. */
    method MoveGhosts(rolls: seq<nat>) returns (r: Result<(), ModelError>)
      requires Valid() && levelLayout.Some? && !isGameOver
      modifies this, set g | g in ghosts, set g | g in ghosts :: g.body
      ensures Valid()
      ensures levelLayout == old(levelLayout) && levelMap == old(levelMap) && pacMan == old(pacMan) && ghosts == old(ghosts)
      ensures MoveGhostsFrom(levelLayout.value, old(Abstract()), 0, rolls) == Outcome(Abstract(), ErrorOf(r))
    {
      var L := levelLayout.value;
      ghost var cur := Abstract();
      ghost var goal := MoveGhostsFrom(L, cur, 0, rolls);
      var k := 0;
      while k < |ghosts|
        invariant 0 <= k <= |ghosts| && Valid() && levelLayout == Some(L) && !isGameOver
        invariant levelMap == old(levelMap) && pacMan == old(pacMan) && ghosts == old(ghosts)
        invariant cur == Abstract() && Shaped(L, cur) && goal == MoveGhostsFrom(L, cur, k, rolls)
      {
        var failed;
        failed, cur := GhostTurnFrom(k, rolls, cur);
        if failed {
          return Err(GhostCannotMove);
        }
        if isGameOver {
          return Ok(());
        }
        k := k + 1;
      }
      NoGhostsLeft(L, cur, rolls);
      return Ok(());
    }

    /**
     * updateGameStatus with the player's desired direction; `rolls` holds the random draw
     * each ghost would make, in list order. Refused without a level; a ghost with no
     * direction to pick from cuts the update short.
     */
    method UpdateGameStatus(desired: Direction, rolls: seq<nat>) returns (r: Result<(), ModelError>)
      requires Valid()
      modifies Objects()
      ensures Valid()
      ensures levelLayout == old(levelLayout) && levelMap == old(levelMap) && pacMan == old(pacMan) && ghosts == old(ghosts)
      ensures old(levelLayout).None? ==> r == Err(NoLayoutDefined) && unchanged(old(Objects()))
      ensures old(levelLayout).Some? ==>
        Tick(old(levelLayout).value, old(Abstract()), desired, rolls) == Outcome(Abstract(), ErrorOf(r))
    {
      if levelLayout.None? {
        return Err(NoLayoutDefined);
      }
      if isGameOver {
        return Ok(());
      }
      ghost var L, g0 := levelLayout.value, Abstract();
      TickSteps(L, g0, desired, rolls);
      PreMovementUpdates();
      ClearPacManCell();
      MovePacMan(desired);
      CheckAllCollisions();
      if isGameOver {
        return Ok(());
      }
      r := EatAndMoveGhosts(rolls);
    }

    /** The player wins: the game is over and victorious. */
    method DeclareVictory()
      requires Valid() && levelLayout.Some?
      modifies this`isGameOver, this`isPlayerVictorious
      ensures Valid()
      ensures Abstract() == old(Abstract()).(over := true, victorious := true)
    {
      isGameOver := true;
      isPlayerVictorious := true;
    }

    /**
     * The rest of an update once the collision checks leave the game running: the dot
     * under Pac-Man is eaten, the player wins when no dot is left, and otherwise the
     * live ghosts move.
     */
    method EatAndMoveGhosts(rolls: seq<nat>) returns (r: Result<(), ModelError>)
      requires Valid() && levelLayout.Some? && !isGameOver
      modifies this, SpriteObjects()
      ensures Valid()
      ensures levelLayout == old(levelLayout) && levelMap == old(levelMap) && pacMan == old(pacMan) && ghosts == old(ghosts)
      ensures var g3 := EatDot(old(Abstract()));
        if g3.bigDots == 0 && g3.smallDots == 0 then
          Abstract() == g3.(over := true, victorious := true) && r == Ok(())
        else
          MoveGhostsFrom(levelLayout.value, g3, 0, rolls) == Outcome(Abstract(), ErrorOf(r))
    {
      EatDots();
      if numOfBigDots == 0 && numOfSmallDots == 0 {
        DeclareVictory();
        return Ok(());
      }
      r := MoveGhosts(rolls);
    }
  }
}
