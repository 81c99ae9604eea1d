/**
 * Ghosts: sprites that chase a visible Pac-Man, flee it while it is powered up, keep
 * their direction otherwise, and wait at their spawn for a while after being eaten
 * (GhostSprite.java).
 */
module Ghosts {
  import opened Wrappers
  import opened Directions
  import opened Levels
  import opened Sprites

  /** The observable state of a ghost: where it is, its death timer and its spawn cell. */
  datatype GhostView = GhostView(at: SpriteView, death: Timer, startRow: int, startCol: int)

  /** killGhost on a ghost's state: dead, back at its spawn, the death counter untouched. */
  function Killed(g: GhostView): (r: GhostView)
    ensures r.death.on && r.death.ticks == g.death.ticks
    ensures r.at.row == g.startRow && r.at.col == g.startCol && r.at.direction == g.at.direction
    ensures r.startRow == g.startRow && r.startCol == g.startCol
  {
    g.(at := g.at.(row := g.startRow, col := g.startCol), death := g.death.(on := true))
  }

  // ---------------------------------------------------------------------------
  // Choosing a direction
  // ---------------------------------------------------------------------------

  /** The order in which a direction set is enumerated: the declaration order of the enum. */
  const EnumOrder: seq<Direction> := [Up, Down, Left, Right, NoDirection]

  lemma EnumOrderComplete()
    ensures forall d: Direction :: d in EnumOrder
    ensures Distinct(EnumOrder)
  {
    forall d: Direction
      ensures d in EnumOrder
    {
      match d
      case Up => assert EnumOrder[0] == d;
      case Down => assert EnumOrder[1] == d;
      case Left => assert EnumOrder[2] == d;
      case Right => assert EnumOrder[3] == d;
      case NoDirection => assert EnumOrder[4] == d;
    }
  }

  predicate Distinct(xs: seq<Direction>) {
    forall i, j :: 0 <= i < j < |xs| ==> xs[i] != xs[j]
  }

  /** The elements of `xs` that are in `s`, in the order of `xs`. */
  function Filter(xs: seq<Direction>, s: set<Direction>): (r: seq<Direction>)
    ensures forall d :: d in r <==> d in xs && d in s
    ensures Distinct(xs) ==> Distinct(r)
  {
    if xs == [] then []
    else
      var rest := Filter(xs[1..], s);
      assert forall d :: d in xs <==> d == xs[0] || d in xs[1..];
      if xs[0] in s then [xs[0]] + rest else rest
  }

  /** A sequence without repetitions has as many elements as the set of its elements. */
  lemma {:induction false} DistinctCardinality(xs: seq<Direction>)
    requires Distinct(xs)
    ensures |set d | d in xs| == |xs|
  {
    if xs != [] {
      DistinctCardinality(xs[1..]);
      assert (set d | d in xs) == {xs[0]} + (set d | d in xs[1..]);
      assert xs[0] !in (set d | d in xs[1..]);
    }
  }

  /** A direction set enumerated once each, in enum order. */
  function Ordered(s: set<Direction>): (r: seq<Direction>)
    ensures forall d :: d in r <==> d in s
    ensures Distinct(r) && |r| == |s|
  {
    EnumOrderComplete();
    var r := Filter(EnumOrder, s);
    assert (set d | d in r) == s;
    DistinctCardinality(r);
    r
  }

  /** random.nextInt(|s|) picking an element of `s`; an empty set has nothing to pick. */
  function Pick(s: set<Direction>, roll: nat): (r: Option<Direction>)
    ensures r.None? <==> s == {}
    ensures r.Some? ==> r.value in s
  {
    if |s| == 0 then None else Some(Ordered(s)[roll % |s|])
  }

  /** Every element of the set is the pick for some roll: the rolls cover all random choices. */
  lemma PickCovers(s: set<Direction>, d: Direction)
    requires d in s
    ensures exists roll: nat :: Pick(s, roll) == Some(d)
  {
    var r := Ordered(s);
    var i :| 0 <= i < |r| && r[i] == d;
    assert i % |s| == i;
    assert Pick(s, i) == Some(r[i]);
  }

  /**
   * ghostMove's choice. A visible Pac-Man is chased, or, while it is powered up, fled
   * from by dropping its direction when there is another option; with Pac-Man out of
   * sight the ghost keeps a still-valid direction; otherwise it picks at random.
   */
  function GhostChoice(valid: set<Direction>, pacDir: Direction, powered: bool,
                       current: Option<Direction>, roll: nat): (r: Option<Direction>)
    ensures pacDir != NoDirection && !powered ==> r == Some(pacDir)
    ensures pacDir != NoDirection && powered && |valid| > 1 ==> r.Some? && r.value in valid && r.value != pacDir
    ensures pacDir == NoDirection && current.Some? && current.value in valid ==> r == current
    ensures r.None? <==> valid == {} && !(pacDir != NoDirection && !powered)
    ensures r.Some? && !(pacDir != NoDirection && !powered) ==> r.value in valid
  {
    if pacDir != NoDirection then
      if !powered then Some(pacDir)
      else if |valid| > 1 then Pick(valid - {pacDir}, roll)
      else Pick(valid, roll)
    else if current.Some? && current.value in valid then current
    else Pick(valid, roll)
  }

  /** Fleeing with a single way out takes it, even towards Pac-Man. */
  lemma FleeWithOneWayOut(d: Direction, pacDir: Direction, current: Option<Direction>, roll: nat)
    requires pacDir != NoDirection
    ensures GhostChoice({d}, pacDir, true, current, roll) == Some(d)
  {
    assert |{d}| == 1;
  }

  datatype GhostError = NoDirectionToPick

  class GhostSprite {
    /** The Sprite part of the ghost: position, direction and level. */
    const body: Sprite
    const deathTimeMs: int
    const startRow: int
    const startCol: int
    var isDead: bool
    var numOfGameUpdatesWhileDead: int

    ghost predicate Valid()
      reads this, body
    {
      body.Valid() && body.layout.InBounds(startRow, startCol) && TimerOk(Death(), deathTimeMs)
    }

    function Death(): Timer
      reads this
    {
      Timer(isDead, numOfGameUpdatesWhileDead)
    }

    function View(): GhostView
      reads this, body
    {
      GhostView(body.View(), Death(), startRow, startCol)
    }

    constructor (name: string, deathTimeMs: int, startRow: int, startCol: int, layout: Layout)
      requires layout.Valid() && layout.InBounds(startRow, startCol)
      ensures Valid() && fresh(body) && body.layout == layout && this.deathTimeMs == deathTimeMs
      ensures View() == GhostView(SpriteView(startRow, startCol, None), Inactive, startRow, startCol)
    {
      body := new Sprite(name, startRow, startCol, layout);
      this.deathTimeMs := deathTimeMs;
      this.startRow := startRow;
      this.startCol := startCol;
      isDead := false;
      numOfGameUpdatesWhileDead := 0;
    }

    /** One game update of the death timer: count it, and revive the ghost once its time is spent. */
    method PreMovementUpdate()
      requires Valid()
      modifies this
      ensures Valid()
      ensures Death() == TimerTick(old(Death()), deathTimeMs)
    {
      if isDead {
        numOfGameUpdatesWhileDead := numOfGameUpdatesWhileDead + 1;
        var remaining := RemainingDeathTime();
        if remaining.value <= 0 {
          isDead := false;
          numOfGameUpdatesWhileDead := 0;
        }
      }
    }

    /** killGhost: the ghost dies and is put back on its spawn cell. */
    method KillGhost()
      requires Valid()
      modifies this, body
      ensures Valid()
      ensures View() == Killed(old(View()))
    {
      isDead := true;
      var placed := body.SetPosition(startRow, startCol);
    }

    /** The time left before respawning, refused while the ghost is alive. */
    function RemainingDeathTime(): (r: Result<int, TimerError>)
      reads this
      ensures r == RemainingTime(Death(), deathTimeMs)
      ensures r.Err? <==> !isDead
    {
      if !isDead then Err(NotActive)
      else Ok(deathTimeMs - numOfGameUpdatesWhileDead * MillisecondsPerGameUpdate)
    }

    /** The game updates spent dead, refused while the ghost is alive. */
    function GhostDeathUpdateCounter(): (r: Result<int, TimerError>)
      reads this
      ensures r == UpdateCounter(Death())
      ensures r.Err? <==> !isDead
    {
      if !isDead then Err(NotActive) else Ok(numOfGameUpdatesWhileDead)
    }

    /**
     * ghostMove: move in the direction GhostChoice gives, the random index being
     * `roll` modulo the candidates' number; with no candidate the pick fails.
     */
    method GhostMove(valid: set<Direction>, pacDir: Direction, powered: bool, roll: nat)
      returns (r: Result<(), GhostError>)
      requires Valid()
      modifies body
      ensures Valid()
      ensures var c := GhostChoice(valid, pacDir, powered, old(body.direction), roll);
        && (c.None? ==> r == Err(NoDirectionToPick) && body.View() == old(body.View()))
        && (c.Some? ==> r.Ok? && body.View() == Moved(body.layout, old(body.View()), c.value))
    {
      var candidates := valid;
      if pacDir != NoDirection {
        if !powered {
          body.Move(pacDir);
          return Ok(());
        } else if |candidates| > 1 {
          candidates := candidates - {pacDir};
        }
      } else if body.direction.Some? && body.direction.value in candidates {
        body.Move(body.direction.value);
        return Ok(());
      }
      var setSize := |candidates|;
      if setSize == 0 {
        return Err(NoDirectionToPick);
      }
      var enumIndex := roll % setSize;
      var order := Ordered(candidates);
      var i := 0;
      while i < |order|
        invariant 0 <= i <= enumIndex
        invariant body.View() == old(body.View())
      {
        if i == enumIndex {
          body.Move(order[i]);
          return Ok(());
        }
        i := i + 1;
      }
      assert false;
    }
  }
}
