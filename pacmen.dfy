/** Pac-Man: a sprite with a timed power-up mode in which it can eat ghosts (PacManSprite.java). */
module PacMen {
  import opened Wrappers
  import opened Directions
  import opened Levels
  import opened Sprites

  /** The observable state of Pac-Man: where it is and its power-up mode. */
  datatype PacView = PacView(at: SpriteView, power: Timer)

  class PacManSprite {
    /** The Sprite part of Pac-Man: position, direction and level. */
    const body: Sprite
    const powerUpTimeMs: int
    var powerMode: bool
    var numOfGameUpdatesInPowerUpMode: int

    ghost predicate Valid()
      reads this, body
    {
      body.Valid() && TimerOk(Power(), powerUpTimeMs)
    }

    function Power(): Timer
      reads this
    {
      Timer(powerMode, numOfGameUpdatesInPowerUpMode)
    }

    function View(): PacView
      reads this, body
    {
      PacView(body.View(), Power())
    }

    constructor (name: string, powerUpTimeMs: int, startRow: int, startCol: int, layout: Layout)
      requires layout.Valid() && layout.InBounds(startRow, startCol)
      ensures Valid() && fresh(body) && body.layout == layout && this.powerUpTimeMs == powerUpTimeMs
      ensures View() == PacView(SpriteView(startRow, startCol, None), Inactive)
    {
      body := new Sprite(name, startRow, startCol, layout);
      this.powerUpTimeMs := powerUpTimeMs;
      powerMode := false;
      numOfGameUpdatesInPowerUpMode := 0;
    }

    /** One game update of the power-up mode: count it, and end the mode once its time is spent. */
    method PreMovementUpdate()
      requires Valid()
      modifies this
      ensures Valid()
      ensures Power() == TimerTick(old(Power()), powerUpTimeMs)
    {
      if powerMode {
        numOfGameUpdatesInPowerUpMode := numOfGameUpdatesInPowerUpMode + 1;
        var remaining := RemainingGhostEatingTime();
        if remaining.value <= 0 {
          powerMode := false;
          numOfGameUpdatesInPowerUpMode := 0;
        }
      }
    }

    /** Enter power-up mode; an ongoing mode keeps its counter, so it is not extended. */
    method ToggleGhostEatingMode()
      requires Valid()
      modifies this
      ensures Valid()
      ensures powerMode && numOfGameUpdatesInPowerUpMode == old(numOfGameUpdatesInPowerUpMode)
    {
      powerMode := true;
    }

    /** The time left in power-up mode, refused while the mode is off. */
    function RemainingGhostEatingTime(): (r: Result<int, TimerError>)
      reads this
      ensures r == RemainingTime(Power(), powerUpTimeMs)
      ensures r.Err? <==> !powerMode
    {
      if !powerMode then Err(NotActive)
      else Ok(powerUpTimeMs - numOfGameUpdatesInPowerUpMode * MillisecondsPerGameUpdate)
    }

    /** The game updates spent in the current power-up mode, refused while the mode is off. */
    function GhostEatingUpdatesCounter(): (r: Result<int, TimerError>)
      reads this
      ensures r == UpdateCounter(Power())
      ensures r.Err? <==> !powerMode
    {
      if !powerMode then Err(NotActive) else Ok(numOfGameUpdatesInPowerUpMode)
    }

    /** pacmanMove: move in the desired direction only when it is one of the valid ones. */
    method PacmanMove(desired: Direction, valid: set<Direction>)
      requires Valid()
      modifies body
      ensures Valid()
      ensures desired in valid ==> body.View() == Moved(body.layout, old(body.View()), desired)
      ensures desired !in valid ==> body.View() == old(body.View())
    {
      if desired in valid {
        body.Move(desired);
      }
    }
  }
}
