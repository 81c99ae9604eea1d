# Pac-Man game model

A model of the engine of a Pac-Man game: the level layout, the sprites and the game
model that advances the game one update at a time (the `javacourse.pacman.model`
packages). Everything is deterministic except the ghosts' random choice, which the
model receives as input.

- `Directions`: the five movement directions and their opposites (`MovementDirection`).
- `Cells`: the six kinds of level cell and their one-letter symbols
  (`LevelCellComponent`), with decoding and the set of valid symbols.
- `Levels`: the level layout (`LevelLayout`). The file's lines are cleaned (spaces and
  `#` comments removed, trimmed, empty lines dropped). The result is checked to be at
  least 10 by 10, rectangular, with valid symbols, exactly one Pac-Man, at least one
  small dot and at least one ghost. The check reports the first failure in the order
  the code finds it. A layout never changes once built, so it is a value; the check
  keeps its nested loops as a method proved equal to a recursive definition.
- `Counting`: counting and locating kinds of cell in a grid, and the row-major scan
  that restarting a game performs.
- `Sprites`: a sprite's position, direction and wrap-around move that stops at walls
  (`Sprite`). Also the timed modes counted in 200 ms updates that Pac-Man's power-up
  and a ghost's death share.
- `PacMen`, `Ghosts`: Pac-Man with its power-up mode (`PacManSprite`). Ghosts with
  their death timer, spawn cell and choice of direction (`GhostSprite`): chase, flee,
  keep going, or draw at random.
- `Rules`: one game update as a function on a game value. It covers the timers,
  clearing Pac-Man's cell, Pac-Man's move, collisions, eating, victory and the ghosts'
  turns. It also defines the game a restart produces.
- `Invariants`: what every reachable game satisfies and what one update guarantees.
  Walls stay. Only the cell Pac-Man stood on is emptied. The dot counters match the
  map. Dead ghosts wait at their spawn. The score never decreases. No live ghost shares
  Pac-Man's cell while the game goes on.
- `Engine`: the game model (`PacManModel`) as a class with a two-dimensional array for
  the map and objects for the sprites. Each method is proved to change the objects as
  the corresponding function of `Rules` changes the abstract game.

Exceptions become `Result` values with an error naming the failure. The null
references the code checks become `Option`s or nullable references.

Where the code and its documentation differ, the model follows the code:
- Restarting copies the level as it is, so the PACMAN_START and GHOST_START cells stay
  in the map as they are. Both are walkable floor.
- Eating a big dot while already powered up turns the mode on again but does not
  reset its counter. The power-up therefore ends when the first one would have.
- Killing a ghost does not reset its death counter. A live ghost's counter is always 0,
  so this makes no difference.
- The line-of-sight scan covers the cells from the lower index up to, not including,
  the higher one. The first of them is a sprite's own cell. The scan does not wrap
  around the edges.
- `move()` without a direction set fails in the code. It is an error outcome here
  (`Sprites.Sprite.MoveOn`).

## Model

| member | source | states |
|---|---|---|
| Directions.Opposite | NatanSujansky_JavaCourse_PacMan/src/main/java/javacourse/pacman/model/model/MovementDirection.java:9-22 | the opposite of a moving direction is a moving direction, and NONE's is NONE |
| Directions.OppositePairs | NatanSujansky_JavaCourse_PacMan/src/main/java/javacourse/pacman/model/model/MovementDirection.java:9-22 | UP and DOWN are each other's opposite, so are LEFT and RIGHT; NONE is its own |
| Directions.OppositeInvolution | NatanSujansky_JavaCourse_PacMan/src/main/java/javacourse/pacman/model/model/MovementDirection.java:9-22 | taking the opposite twice gives back the direction |
| Directions.OppositeDiffers | NatanSujansky_JavaCourse_PacMan/src/main/java/javacourse/pacman/model/model/MovementDirection.java:9-22 | a moving direction differs from its opposite |
| Cells.CellValue | NatanSujansky_JavaCourse_PacMan/src/main/java/javacourse/pacman/model/level/LevelCellComponent.java:17-37 | every kind's cellValue is a single character |
| Cells.AllCellsComplete | NatanSujansky_JavaCourse_PacMan/src/main/java/javacourse/pacman/model/level/LevelCellComponent.java:17-37 | values() lists every kind of cell |
| Cells.CellValueInjective | NatanSujansky_JavaCourse_PacMan/src/main/java/javacourse/pacman/model/level/LevelCellComponent.java:17-37 | two kinds with the same cellValue are the same kind |
| Cells.FromCellValue | NatanSujansky_JavaCourse_PacMan/src/main/java/javacourse/pacman/model/level/LevelCellComponent.java:63-66 | a decoded kind has the given cellValue; the string is refused, with an error naming it, exactly when no kind has that cellValue |
| Cells.FromCellValueIsFirstMatch | NatanSujansky_JavaCourse_PacMan/src/main/java/javacourse/pacman/model/level/LevelCellComponent.java:63-66 | fromCellValue returns the first kind in declaration order whose cellValue matches, and the error when none does |
| Cells.CellValueRoundTrip | NatanSujansky_JavaCourse_PacMan/src/main/java/javacourse/pacman/model/level/LevelCellComponent.java:63-66 | decoding a kind's cellValue gives back the kind |
| Cells.FromCellValueRejectsLength | NatanSujansky_JavaCourse_PacMan/src/main/java/javacourse/pacman/model/level/LevelCellComponent.java:63-66 | a string that is not one character long is refused |
| Cells.ValidStringComponents | NatanSujansky_JavaCourse_PacMan/src/main/java/javacourse/pacman/model/level/LevelCellComponent.java:71-73 | the set of valid symbols is exactly E, S, B, W, G and P |
| Cells.ValidComponentDecodes | NatanSujansky_JavaCourse_PacMan/src/main/java/javacourse/pacman/model/level/LevelCellComponent.java:71-73 | a character is a valid symbol exactly when its one-character string decodes |
| Levels.RemoveSpaces | NatanSujansky_JavaCourse_PacMan/src/main/java/javacourse/pacman/model/level/LevelLayout.java:176 | no space is left, every other character of the line occurs in the result, and a line without spaces is kept as it is |
| Levels.RemoveSpacesAppend | NatanSujansky_JavaCourse_PacMan/src/main/java/javacourse/pacman/model/level/LevelLayout.java:176 | spaces are removed character by character: the result for a concatenation is the concatenation of the results, a single space becomes empty and any other single character stays |
| Levels.StripComments | NatanSujansky_JavaCourse_PacMan/src/main/java/javacourse/pacman/model/level/LevelLayout.java:176 | no '#' is left, no character is added, and a line without '#' is kept as it is |
| Levels.StripCommentsKeepsPrefix | NatanSujansky_JavaCourse_PacMan/src/main/java/javacourse/pacman/model/level/LevelLayout.java:176 | the text before the first '#' is kept exactly |
| Levels.StripCommentsDropsComment | NatanSujansky_JavaCourse_PacMan/src/main/java/javacourse/pacman/model/level/LevelLayout.java:176 | a '#' removes itself and the rest of its line, the text after the next line terminator is kept, and with no terminator the line ends at the '#' |
| Levels.Trim | NatanSujansky_JavaCourse_PacMan/src/main/java/javacourse/pacman/model/level/LevelLayout.java:176 | the result neither starts nor ends with a character String.trim removes, and holds only characters of the line |
| Levels.TrimMeaning | NatanSujansky_JavaCourse_PacMan/src/main/java/javacourse/pacman/model/level/LevelLayout.java:176 | trim keeps one slice of the line, every character cut off before or after it is at most U+0020, and a line whose ends are above U+0020 is kept as it is |
| Levels.CleanLine | NatanSujansky_JavaCourse_PacMan/src/main/java/javacourse/pacman/model/level/LevelLayout.java:176 | a cleaned line has no space, no '#' and nothing String.trim would remove at either end |
| Levels.CleanLineKeepsCleanLine | NatanSujansky_JavaCourse_PacMan/src/main/java/javacourse/pacman/model/level/LevelLayout.java:176 | a line already without spaces and '#' and with printable ends is kept as it is |
| Levels.CleanLineDropsComment | NatanSujansky_JavaCourse_PacMan/src/main/java/javacourse/pacman/model/level/LevelLayout.java:176 | a comment to the end of the line does not change the cleaned line |
| Levels.CleanNonEmpty | NatanSujansky_JavaCourse_PacMan/src/main/java/javacourse/pacman/model/level/LevelLayout.java:176-177 | the kept lines are non-empty clean lines, no more of them than the file had, and none is kept exactly when every line cleans to nothing |
| Levels.CleanNonEmptyAppend | NatanSujansky_JavaCourse_PacMan/src/main/java/javacourse/pacman/model/level/LevelLayout.java:176-177 | the lines of two parts of a file are cleaned and filtered independently and keep their order |
| Levels.CleanNonEmptyOne | NatanSujansky_JavaCourse_PacMan/src/main/java/javacourse/pacman/model/level/LevelLayout.java:176-177 | a single line is kept, cleaned, exactly when something is left of it once cleaned |
| Levels.CleanNonEmptyKeepsClean | NatanSujansky_JavaCourse_PacMan/src/main/java/javacourse/pacman/model/level/LevelLayout.java:176-177 | lines that are already clean are all kept unchanged |
| Levels.CleanLines | NatanSujansky_JavaCourse_PacMan/src/main/java/javacourse/pacman/model/level/LevelLayout.java:175-179 | there is always at least one level line: the single empty line exactly when every line cleans to nothing, and otherwise the kept clean lines in file order |
| Levels.CleanLinesKeepsCleanFile | NatanSujansky_JavaCourse_PacMan/src/main/java/javacourse/pacman/model/level/LevelLayout.java:175-179 | a file of already clean lines yields exactly its lines |
| Levels.MessageIdentifiesError | NatanSujansky_JavaCourse_PacMan/src/main/java/javacourse/pacman/model/level/LevelLayout.java:190-237 | two failures have the same message exactly when they are the same failure, and an invalid symbol's message starts with the symbol |
| Levels.VerifyLevelFormat | NatanSujansky_JavaCourse_PacMan/src/main/java/javacourse/pacman/model/level/LevelLayout.java:190-237 | the nested scan returns exactly the outcome CheckLevel defines: the first failure found, or the counts |
| Levels.CheckRowSymbols | NatanSujansky_JavaCourse_PacMan/src/main/java/javacourse/pacman/model/level/LevelLayout.java:206-226 | the scan of one row's symbols returns exactly ScanRow's outcome |
| Levels.ScanRowAt | NatanSujansky_JavaCourse_PacMan/src/main/java/javacourse/pacman/model/level/LevelLayout.java:206-213 | one symbol of the scan: an undecodable symbol is reported, a second Pac-Man is reported, any other symbol is counted and the scan goes on |
| Levels.ValidSymbolDecodes | NatanSujansky_JavaCourse_PacMan/src/main/java/javacourse/pacman/model/level/LevelLayout.java:207 | a symbol passes the level's symbol check exactly when fromCellValue decodes it |
| Levels.DecodedSymbol | NatanSujansky_JavaCourse_PacMan/src/main/java/javacourse/pacman/model/level/LevelLayout.java:207-225 | a decoded symbol is its kind's letter, and it bumps exactly the counter of P, S, B or G |
| Levels.ScanRowMeaning | NatanSujansky_JavaCourse_PacMan/src/main/java/javacourse/pacman/model/level/LevelLayout.java:206-226 | a row scan succeeds exactly when every symbol is valid and the row adds no second Pac-Man, and then the counts are the row's symbol counts |
| Levels.ScanRowsMeaning | NatanSujansky_JavaCourse_PacMan/src/main/java/javacourse/pacman/model/level/LevelLayout.java:202-227 | the scan of all rows succeeds exactly when the level is rectangular, its symbols are valid and it has at most one Pac-Man, and then the counts are the symbol counts |
| Levels.ScanRowsPrefix | NatanSujansky_JavaCourse_PacMan/src/main/java/javacourse/pacman/model/level/LevelLayout.java:202-227 | scanning the rows is scanning a valid prefix and continuing from its counts |
| Levels.CheckLevelMeaning | NatanSujansky_JavaCourse_PacMan/src/main/java/javacourse/pacman/model/level/LevelLayout.java:190-237 | a level is accepted exactly when it is at least 10 by 10, rectangular, has valid symbols, exactly one Pac-Man, a small dot and a ghost; its counts are then the symbol counts |
| Levels.CountFailureOrder | NatanSujansky_JavaCourse_PacMan/src/main/java/javacourse/pacman/model/level/LevelLayout.java:208-236 | on a large enough, rectangular level with valid symbols the reported failure is: a second Pac-Man, else no Pac-Man, else no small dot, else no ghost |
| Levels.TooManyPacMenReported | NatanSujansky_JavaCourse_PacMan/src/main/java/javacourse/pacman/model/level/LevelLayout.java:208-212 | a valid level with more than one Pac-Man is refused with the one-Pac-Man error |
| Levels.TooManyPacMenInRow | NatanSujansky_JavaCourse_PacMan/src/main/java/javacourse/pacman/model/level/LevelLayout.java:208-212 | a row that brings the Pac-Man count above one is refused with the one-Pac-Man error |
| Levels.NotRectangularAt | NatanSujansky_JavaCourse_PacMan/src/main/java/javacourse/pacman/model/level/LevelLayout.java:202-205 | the first row of the wrong length, after valid rows, is refused as not rectangular |
| Levels.Layout.CellAt | NatanSujansky_JavaCourse_PacMan/src/main/java/javacourse/pacman/model/level/LevelLayout.java:143-152 | the kind at a position is the one whose cellValue is the symbol written there |
| Levels.Layout.GetComponent | NatanSujansky_JavaCourse_PacMan/src/main/java/javacourse/pacman/model/level/LevelLayout.java:143-152 | a bad row index is refused first, then a bad column index; otherwise the result is the symbol's kind |
| Levels.Layout.Grid | NatanSujansky_JavaCourse_PacMan/src/main/java/javacourse/pacman/model/level/LevelLayout.java:143-152 | the grid of kinds has the level's height and width and holds the kind of every position |
| Levels.NewLevelLayout | NatanSujansky_JavaCourse_PacMan/src/main/java/javacourse/pacman/model/level/LevelLayout.java:72-76 | a layout is built exactly when the cleaned lines form a valid level, with the cleaned lines, the name and the counts; otherwise the first failure of the check is returned |
| Counting.CountGridUpdate | NatanSujansky_JavaCourse_PacMan/src/main/java/javacourse/pacman/model/model/PacManModel.java:230-246 | overwriting one cell of the map changes the count of a kind by at most the cell that left and the cell that came |
| Counting.RowPositions | NatanSujansky_JavaCourse_PacMan/src/main/java/javacourse/pacman/model/model/PacManModel.java:97-118 | the positions of a kind in a row are as many as its cells of that kind, and each lies in that row and holds that kind |
| Counting.RowPositionsComplete | NatanSujansky_JavaCourse_PacMan/src/main/java/javacourse/pacman/model/model/PacManModel.java:97-118 | every cell of the row that holds the kind is listed |
| Counting.RowPositionsOrdered | NatanSujansky_JavaCourse_PacMan/src/main/java/javacourse/pacman/model/model/PacManModel.java:97-118 | the cells of a row are listed left to right, none twice |
| Counting.GridPositions | NatanSujansky_JavaCourse_PacMan/src/main/java/javacourse/pacman/model/model/PacManModel.java:97-118 | the positions of a kind in the map are as many as its cells of that kind, and each is in the map and holds that kind |
| Counting.GridPositionsComplete | NatanSujansky_JavaCourse_PacMan/src/main/java/javacourse/pacman/model/model/PacManModel.java:97-118 | every cell of the map that holds the kind is listed |
| Counting.GridPositionsOrdered | NatanSujansky_JavaCourse_PacMan/src/main/java/javacourse/pacman/model/model/PacManModel.java:97-118 | the cells of the map are listed in row-major order, none twice |
| Counting.LastOf | NatanSujansky_JavaCourse_PacMan/src/main/java/javacourse/pacman/model/model/PacManModel.java:101-103 | the last position met is missing only when there is none, and is one of them |
| Counting.AfterCell | NatanSujansky_JavaCourse_PacMan/src/main/java/javacourse/pacman/model/model/PacManModel.java:99-116 | after one cell the scan has one more ghost start, a new Pac-Man start, or one more big or small dot, according to the cell's kind |
| Counting.ScanOfStep | NatanSujansky_JavaCourse_PacMan/src/main/java/javacourse/pacman/model/model/PacManModel.java:98-116 | the scan progress after one more cell is the progress before it, updated by that cell |
| Counting.ScanOfAll | NatanSujansky_JavaCourse_PacMan/src/main/java/javacourse/pacman/model/model/PacManModel.java:97-118 | after the whole map the scan holds the ghost starts in row-major order, the last Pac-Man start and the counts of big and small dots |
| Counting.GridCountsSymbols | NatanSujansky_JavaCourse_PacMan/src/main/java/javacourse/pacman/model/model/PacManModel.java:108-113 | counting a kind in the decoded map gives the count of its symbol in the level lines |
| Sprites.Wrapped | NatanSujansky_JavaCourse_PacMan/src/main/java/javacourse/pacman/model/model/Sprite.java:140-157 | the neighbour in a direction is in bounds, and is the position moved by one step modulo the level's height and width |
| Sprites.WrapIsModular | NatanSujansky_JavaCourse_PacMan/src/main/java/javacourse/pacman/model/model/Sprite.java:144-153 | the source's wrap-around tests equal the modulo of the index |
| Sprites.WrapAtEdges | NatanSujansky_JavaCourse_PacMan/src/main/java/javacourse/pacman/model/model/Sprite.java:143-156 | at the edges a step wraps to the opposite edge; NONE stays in place |
| Sprites.Step | NatanSujansky_JavaCourse_PacMan/src/main/java/javacourse/pacman/model/model/Sprite.java:158-161 | a move stays in bounds, never enters a wall from a non-wall, and either stays or reaches the wrapped neighbour |
| Sprites.StepMovesUnlessWall | NatanSujansky_JavaCourse_PacMan/src/main/java/javacourse/pacman/model/model/Sprite.java:158-161 | the sprite moves to the wrapped neighbour unless that is a wall; with NONE it stays |
| Sprites.MovedFacesAndAvoidsWalls | NatanSujansky_JavaCourse_PacMan/src/main/java/javacourse/pacman/model/model/Sprite.java:138-162 | after move(d) the sprite's direction is d and a sprite off walls stays off walls |
| Sprites.Sprite.constructor | NatanSujansky_JavaCourse_PacMan/src/main/java/javacourse/pacman/model/model/Sprite.java:62-65 | a new sprite sits at its start position, with no direction, on its level |
| Sprites.Sprite.Create | NatanSujansky_JavaCourse_PacMan/src/main/java/javacourse/pacman/model/model/Sprite.java:57-66 | a start outside the level is refused with the out-of-bounds error, exactly then; otherwise a new sprite sits there with no direction |
| Sprites.Sprite.HasSameCoordinates | NatanSujansky_JavaCourse_PacMan/src/main/java/javacourse/pacman/model/model/Sprite.java:119-127 | a null sprite and the sprite itself are refused; otherwise the answer is true exactly when the two positions are equal |
| Sprites.Sprite.Move | NatanSujansky_JavaCourse_PacMan/src/main/java/javacourse/pacman/model/model/Sprite.java:138-162 | the new position and direction are those of the step in the given direction |
| Sprites.Sprite.MoveOn | NatanSujansky_JavaCourse_PacMan/src/main/java/javacourse/pacman/model/model/Sprite.java:168-170 | with a direction set the sprite steps in it; with none it is refused and stays put |
| Sprites.Sprite.SetPosition | NatanSujansky_JavaCourse_PacMan/src/main/java/javacourse/pacman/model/model/Sprite.java:177-185 | an in-bounds position is taken as is; an out-of-bounds one is refused and the sprite stays put |
| Sprites.TimerTick | NatanSujansky_JavaCourse_PacMan/src/main/java/javacourse/pacman/model/model/PacManSprite.java:50-58 | an inactive timer is left alone, and a tick keeps the counter at 0 while off and short of the duration while on |
| Sprites.RemainingTime | NatanSujansky_JavaCourse_PacMan/src/main/java/javacourse/pacman/model/model/PacManSprite.java:85-91 | the remaining time is refused exactly when the mode is off, and is positive while it is on |
| Sprites.UpdateCounter | NatanSujansky_JavaCourse_PacMan/src/main/java/javacourse/pacman/model/model/PacManSprite.java:103-109 | the update counter is refused exactly when the mode is off; for a timer kept within any duration it is never negative, and a positive count is short of the duration |
| Sprites.TicksToExpire | NatanSujansky_JavaCourse_PacMan/src/main/java/javacourse/pacman/model/model/PacManSprite.java:52-56 | the number of 200 ms updates after which the mode expires is the first with no time left |
| Sprites.TimerRunsThenExpires | NatanSujansky_JavaCourse_PacMan/src/main/java/javacourse/pacman/model/model/PacManSprite.java:50-58 | an activated mode counts 1, 2, ... updates and switches off, counter reset, exactly at the update that uses up its time |
| Sprites.DefaultDurations | NatanSujansky_JavaCourse_PacMan/src/main/java/javacourse/pacman/model/model/PacManModel.java:58-59 | Pac-Man's 8000 ms power lasts 40 updates and a ghost's 12000 ms death lasts 60 |
| PacMen.PacManSprite.constructor | NatanSujansky_JavaCourse_PacMan/src/main/java/javacourse/pacman/model/model/PacManSprite.java:43-47 | a new Pac-Man sits at its start, with no direction and the power mode off |
| PacMen.PacManSprite.PreMovementUpdate | NatanSujansky_JavaCourse_PacMan/src/main/java/javacourse/pacman/model/model/PacManSprite.java:50-58 | the power mode advances by one tick of its timer |
| PacMen.PacManSprite.ToggleGhostEatingMode | NatanSujansky_JavaCourse_PacMan/src/main/java/javacourse/pacman/model/model/PacManSprite.java:64-66 | the power mode is on and its counter is not reset |
| PacMen.PacManSprite.RemainingGhostEatingTime | NatanSujansky_JavaCourse_PacMan/src/main/java/javacourse/pacman/model/model/PacManSprite.java:85-91 | the remaining power time, refused exactly when the mode is off |
| PacMen.PacManSprite.GhostEatingUpdatesCounter | NatanSujansky_JavaCourse_PacMan/src/main/java/javacourse/pacman/model/model/PacManSprite.java:103-109 | the power-mode update counter, refused exactly when the mode is off |
| PacMen.PacManSprite.PacmanMove | NatanSujansky_JavaCourse_PacMan/src/main/java/javacourse/pacman/model/model/PacManSprite.java:120-124 | Pac-Man steps in the desired direction when it is valid and otherwise does not move or turn |
| Ghosts.Killed | NatanSujansky_JavaCourse_PacMan/src/main/java/javacourse/pacman/model/model/GhostSprite.java:83-86 | a killed ghost is dead, back at its spawn, keeps its direction and its death counter |
| Ghosts.EnumOrderComplete | NatanSujansky_JavaCourse_PacMan/src/main/java/javacourse/pacman/model/model/MovementDirection.java:4 | the enumeration order lists every direction once |
| Ghosts.Filter | NatanSujansky_JavaCourse_PacMan/src/main/java/javacourse/pacman/model/model/GhostSprite.java:147 | the kept directions are exactly those of the set, without repeats |
| Ghosts.Ordered | NatanSujansky_JavaCourse_PacMan/src/main/java/javacourse/pacman/model/model/GhostSprite.java:155-164 | the enumeration of a direction set holds its members exactly once each |
| Ghosts.Pick | NatanSujansky_JavaCourse_PacMan/src/main/java/javacourse/pacman/model/model/GhostSprite.java:155-164 | the draw fails exactly when the set is empty, and otherwise picks a member |
| Ghosts.PickCovers | NatanSujansky_JavaCourse_PacMan/src/main/java/javacourse/pacman/model/model/GhostSprite.java:155-164 | every member of the set is picked by some draw |
| Ghosts.GhostChoice | NatanSujansky_JavaCourse_PacMan/src/main/java/javacourse/pacman/model/model/GhostSprite.java:140-165 | a ghost that sees an unpowered Pac-Man heads for it; a ghost that sees a powered one avoids its direction when it has another; a ghost that sees none keeps a valid direction; otherwise it draws a valid direction, and fails exactly when there is none |
| Ghosts.FleeWithOneWayOut | NatanSujansky_JavaCourse_PacMan/src/main/java/javacourse/pacman/model/model/GhostSprite.java:146-148 | a ghost fleeing a powered Pac-Man with a single valid direction takes it |
| Ghosts.GhostSprite.constructor | NatanSujansky_JavaCourse_PacMan/src/main/java/javacourse/pacman/model/model/GhostSprite.java:59-66 | a new ghost sits at its spawn, alive, with no direction |
| Ghosts.GhostSprite.PreMovementUpdate | NatanSujansky_JavaCourse_PacMan/src/main/java/javacourse/pacman/model/model/GhostSprite.java:69-77 | the death state advances by one tick of its timer |
| Ghosts.GhostSprite.KillGhost | NatanSujansky_JavaCourse_PacMan/src/main/java/javacourse/pacman/model/model/GhostSprite.java:83-86 | the ghost becomes dead at its spawn, as Killed states |
| Ghosts.GhostSprite.RemainingDeathTime | NatanSujansky_JavaCourse_PacMan/src/main/java/javacourse/pacman/model/model/GhostSprite.java:104-110 | the remaining death time, refused exactly when the ghost is alive |
| Ghosts.GhostSprite.GhostDeathUpdateCounter | NatanSujansky_JavaCourse_PacMan/src/main/java/javacourse/pacman/model/model/GhostSprite.java:120-126 | the death update counter, refused exactly when the ghost is alive |
| Ghosts.GhostSprite.GhostMove | NatanSujansky_JavaCourse_PacMan/src/main/java/javacourse/pacman/model/model/GhostSprite.java:140-165 | the ghost steps in the direction GhostChoice gives, or reports that it has none to pick and does not move |
| Rules.ValidDirections | NatanSujansky_JavaCourse_PacMan/src/main/java/javacourse/pacman/model/model/PacManModel.java:302-323 | NONE is never a valid direction |
| Rules.ValidDirectionsAreMoves | NatanSujansky_JavaCourse_PacMan/src/main/java/javacourse/pacman/model/model/PacManModel.java:302-323 | a direction is valid exactly when it is a moving direction whose step leaves the cell |
| Rules.ValidDirectionsByCases | NatanSujansky_JavaCourse_PacMan/src/main/java/javacourse/pacman/model/model/PacManModel.java:302-323 | the valid set is the union of the four wall checks on the wrapped neighbours |
| Rules.DirectionTowardsPacMan | NatanSujansky_JavaCourse_PacMan/src/main/java/javacourse/pacman/model/model/PacManModel.java:336-377 | RIGHT, LEFT, DOWN or UP only when Pac-Man is in the same row or column on that side |
| Rules.LineOfSight | NatanSujansky_JavaCourse_PacMan/src/main/java/javacourse/pacman/model/model/PacManModel.java:336-377 | from a floor cell a direction is found exactly when the two sprites share a row or column and no wall lies strictly between them |
| Rules.Spawns | NatanSujansky_JavaCourse_PacMan/src/main/java/javacourse/pacman/model/model/PacManModel.java:104-107 | one ghost per ghost start, in scan order |
| Rules.PacStart | NatanSujansky_JavaCourse_PacMan/src/main/java/javacourse/pacman/model/model/PacManModel.java:101-103 | Pac-Man's start is a PACMAN_START cell of the level |
| Rules.InitialGame | NatanSujansky_JavaCourse_PacMan/src/main/java/javacourse/pacman/model/model/PacManModel.java:84-120 | the restarted game fits the level: map of its size, sprites in bounds |
| Rules.StartFound | NatanSujansky_JavaCourse_PacMan/src/main/java/javacourse/pacman/model/model/PacManModel.java:97-103 | the last Pac-Man start met by the scan is the level's only one |
| Rules.PreTicks | NatanSujansky_JavaCourse_PacMan/src/main/java/javacourse/pacman/model/model/PacManModel.java:226-229 | every timer ticks once and nothing else changes |
| Rules.TickGhostsFromTicksTheRest | NatanSujansky_JavaCourse_PacMan/src/main/java/javacourse/pacman/model/model/PacManModel.java:227-229 | the ghost loop ticks the remaining ghosts and keeps the earlier ones |
| Rules.PreTicksGhostByGhost | NatanSujansky_JavaCourse_PacMan/src/main/java/javacourse/pacman/model/model/PacManModel.java:226-229 | ticking Pac-Man and then the ghosts one by one gives PreTicks |
| Rules.ClearPacCell | NatanSujansky_JavaCourse_PacMan/src/main/java/javacourse/pacman/model/model/PacManModel.java:230 | Pac-Man's cell becomes EMPTY and every other cell is kept |
| Rules.MovePac | NatanSujansky_JavaCourse_PacMan/src/main/java/javacourse/pacman/model/model/PacManModel.java:231 | only Pac-Man's position and direction change: it moves as move(d) does exactly when the desired direction is valid, then faces it and stands on a cell that is not a wall; NONE never moves it |
| Rules.Collide | NatanSujansky_JavaCourse_PacMan/src/main/java/javacourse/pacman/model/model/PacManModel.java:283-292 | on a touching live ghost a powered Pac-Man kills it for 100 points and an unpowered one ends the game; otherwise nothing changes; after it, if the game goes on, ghost k is no longer a live ghost on Pac-Man's cell |
| Rules.CollideFrom | NatanSujansky_JavaCourse_PacMan/src/main/java/javacourse/pacman/model/model/PacManModel.java:232-237 | the collision loop keeps the map, Pac-Man and dot counters, never lowers the score and never resumes a finished game |
| Rules.CollideFromGhosts | NatanSujansky_JavaCourse_PacMan/src/main/java/javacourse/pacman/model/model/PacManModel.java:232-237 | the loop leaves each ghost alone or kills it, and if the game goes on no ghost it checked touches Pac-Man |
| Rules.NoCollisionsLeft | NatanSujansky_JavaCourse_PacMan/src/main/java/javacourse/pacman/model/model/PacManModel.java:232-237 | with no ghost left to check the loop changes nothing |
| Rules.CollisionsKeepShape | NatanSujansky_JavaCourse_PacMan/src/main/java/javacourse/pacman/model/model/PacManModel.java:283-292 | collisions keep the game fitting the level |
| Rules.EatDot | NatanSujansky_JavaCourse_PacMan/src/main/java/javacourse/pacman/model/model/PacManModel.java:238-246 | a big dot costs a dot, scores 50 and powers Pac-Man up; a small dot costs a dot and scores 10; nothing else changes |
| Rules.MoveGhost | NatanSujansky_JavaCourse_PacMan/src/main/java/javacourse/pacman/model/model/PacManModel.java:254-255 | only ghost k moves, by one step in the given direction |
| Rules.GhostStep | NatanSujansky_JavaCourse_PacMan/src/main/java/javacourse/pacman/model/model/PacManModel.java:253-255 | a ghost move changes only ghost k's position and direction |
| Rules.GhostTurn | NatanSujansky_JavaCourse_PacMan/src/main/java/javacourse/pacman/model/model/PacManModel.java:252-260 | a ghost's turn keeps the map, Pac-Man and dot counters, never lowers the score and never resumes a finished game |
| Rules.MoveGhostsFrom | NatanSujansky_JavaCourse_PacMan/src/main/java/javacourse/pacman/model/model/PacManModel.java:252-261 | the ghost loop keeps the map, Pac-Man and dot counters, never lowers the score, and its only failure is a ghost with no direction, which leaves the game's end unchanged |
| Rules.NoGhostsLeft | NatanSujansky_JavaCourse_PacMan/src/main/java/javacourse/pacman/model/model/PacManModel.java:252-261 | with no ghost left the loop changes nothing |
| Rules.TickSteps | NatanSujansky_JavaCourse_PacMan/src/main/java/javacourse/pacman/model/model/PacManModel.java:219-263 | an update is: timers, clearing Pac-Man's cell, Pac-Man's move and the collisions; then, if still on, eating; then victory when no dot is left, or the ghosts' turns |
| Rules.Tick | NatanSujansky_JavaCourse_PacMan/src/main/java/javacourse/pacman/model/model/PacManModel.java:219-263 | an update keeps the game fitting the level, does nothing once the game is over, never lowers the score and never takes back a victory |
| Invariants.PreTicksKeep | NatanSujansky_JavaCourse_PacMan/src/main/java/javacourse/pacman/model/model/PacManModel.java:226-229 | the timer ticks keep the game invariant |
| Invariants.ClearKeeps | NatanSujansky_JavaCourse_PacMan/src/main/java/javacourse/pacman/model/model/PacManModel.java:230 | clearing Pac-Man's cell keeps the invariant and makes the counters equal to the dots on the map |
| Invariants.MovePacKeeps | NatanSujansky_JavaCourse_PacMan/src/main/java/javacourse/pacman/model/model/PacManModel.java:231 | Pac-Man's move keeps the invariant and the dot accounting |
| Invariants.CollideKeeps | NatanSujansky_JavaCourse_PacMan/src/main/java/javacourse/pacman/model/model/PacManModel.java:283-292 | a collision keeps the invariant |
| Invariants.CollideFromKeeps | NatanSujansky_JavaCourse_PacMan/src/main/java/javacourse/pacman/model/model/PacManModel.java:232-237 | the collision loop keeps the invariant |
| Invariants.EatKeeps | NatanSujansky_JavaCourse_PacMan/src/main/java/javacourse/pacman/model/model/PacManModel.java:238-246 | after eating, the counters equal the dots on the map less the one under Pac-Man, which stays until the next update clears it |
| Invariants.GhostTurnKeeps | NatanSujansky_JavaCourse_PacMan/src/main/java/javacourse/pacman/model/model/PacManModel.java:252-260 | a live ghost's turn keeps the invariant |
| Invariants.MoveGhostsKeep | NatanSujansky_JavaCourse_PacMan/src/main/java/javacourse/pacman/model/model/PacManModel.java:252-261 | the ghost loop keeps the invariant |
| Invariants.TickKeepsInv | NatanSujansky_JavaCourse_PacMan/src/main/java/javacourse/pacman/model/model/PacManModel.java:219-263 | every update keeps the walls, Pac-Man and the ghosts off walls, dead ghosts at their spawn, the timers' bounds, a non-negative score, and while the game goes on a dot left and the counters equal to the dots on the map less the one under Pac-Man |
| Invariants.InitialGameInv | NatanSujansky_JavaCourse_PacMan/src/main/java/javacourse/pacman/model/model/PacManModel.java:84-120 | a restarted game satisfies the invariant, has the level's dot and ghost counts, score 0 and is not over; every GHOST_START cell spawns a ghost, and the ghosts' spawn cells come in row-major order, none twice |
| Invariants.TickEmptiesOnlyPacCell | NatanSujansky_JavaCourse_PacMan/src/main/java/javacourse/pacman/model/model/PacManModel.java:219-263 | an update empties only the cell Pac-Man stood on and leaves every other cell as it was |
| Invariants.GhostTurnSeparates | NatanSujansky_JavaCourse_PacMan/src/main/java/javacourse/pacman/model/model/PacManModel.java:252-260 | after a ghost's turn a game still on has no live ghost on Pac-Man |
| Invariants.MoveGhostsSeparate | NatanSujansky_JavaCourse_PacMan/src/main/java/javacourse/pacman/model/model/PacManModel.java:252-261 | after the ghost loop a game still on has no live ghost on Pac-Man |
| Invariants.TickSeparates | NatanSujansky_JavaCourse_PacMan/src/main/java/javacourse/pacman/model/model/PacManModel.java:219-263 | after an update a game still on has no live ghost on Pac-Man |
| Invariants.WinningUpdateStopsGhosts | NatanSujansky_JavaCourse_PacMan/src/main/java/javacourse/pacman/model/model/PacManModel.java:247-251 | in the update that wins the game the ghosts are exactly those left by the collision checks after Pac-Man's move: no ghost takes its turn, and every ghost keeps its direction |
| Invariants.BigDotPowersUp | NatanSujansky_JavaCourse_PacMan/src/main/java/javacourse/pacman/model/model/PacManModel.java:238-242 | when Pac-Man moves onto a big dot and the game goes on, it is powered up |
| Engine.PacManModel.constructor | NatanSujansky_JavaCourse_PacMan/src/main/java/javacourse/pacman/model/model/PacManModel.java:64-65 | a new model has no level |
| Engine.PacManModel.CopyCell | NatanSujansky_JavaCourse_PacMan/src/main/java/javacourse/pacman/model/model/PacManModel.java:99 | the copied cell is the level's, and the map holds the level's cells up to it |
| Engine.PacManModel.SpawnGhost | NatanSujansky_JavaCourse_PacMan/src/main/java/javacourse/pacman/model/model/PacManModel.java:104-107 | a new ghost is added at the position, after the earlier ones |
| Engine.PacManModel.PlacePacMan | NatanSujansky_JavaCourse_PacMan/src/main/java/javacourse/pacman/model/model/PacManModel.java:101-103 | Pac-Man is created at the position |
| Engine.PacManModel.CountDot | NatanSujansky_JavaCourse_PacMan/src/main/java/javacourse/pacman/model/model/PacManModel.java:108-113 | the big or small dot counter grows by one for a dot of that size |
| Engine.PacManModel.ScanCell | NatanSujansky_JavaCourse_PacMan/src/main/java/javacourse/pacman/model/model/PacManModel.java:98-116 | one cell is copied and its sprite or dot recorded, as AfterCell states |
| Engine.PacManModel.ScanRow | NatanSujansky_JavaCourse_PacMan/src/main/java/javacourse/pacman/model/model/PacManModel.java:98-117 | a row is copied and its sprites and dots recorded, as the row-major scan states |
| Engine.PacManModel.ScanLevel | NatanSujansky_JavaCourse_PacMan/src/main/java/javacourse/pacman/model/model/PacManModel.java:97-118 | after the scan the model is the restarted game of the level |
| Engine.PacManModel.ScanStarts | NatanSujansky_JavaCourse_PacMan/src/main/java/javacourse/pacman/model/model/PacManModel.java:88-96 | an empty ghost list, zero counters and a map of the level's size start the scan |
| Engine.PacManModel.ScanComplete | NatanSujansky_JavaCourse_PacMan/src/main/java/javacourse/pacman/model/model/PacManModel.java:97-119 | a finished scan is the restarted game of the level |
| Engine.PacManModel.CopiedAll | NatanSujansky_JavaCourse_PacMan/src/main/java/javacourse/pacman/model/model/PacManModel.java:96-99 | a finished copy is the level's grid |
| Engine.PacManModel.RestartGame | NatanSujansky_JavaCourse_PacMan/src/main/java/javacourse/pacman/model/model/PacManModel.java:84-120 | without a level the restart is refused and nothing changes; with one the model becomes the restarted game of that level, which is returned |
| Engine.PacManModel.StartOver | NatanSujansky_JavaCourse_PacMan/src/main/java/javacourse/pacman/model/model/PacManModel.java:88-118 | the model becomes the restarted game of its level |
| Engine.PacManModel.InitializeNewGame | NatanSujansky_JavaCourse_PacMan/src/main/java/javacourse/pacman/model/model/PacManModel.java:72-75 | the model holds the level and is its restarted game |
| Engine.PacManModel.GetLevelLayout | NatanSujansky_JavaCourse_PacMan/src/main/java/javacourse/pacman/model/model/PacManModel.java:129-135 | the level, refused exactly when there is none |
| Engine.PacManModel.ComponentAt | NatanSujansky_JavaCourse_PacMan/src/main/java/javacourse/pacman/model/model/PacManModel.java:150-161 | refused without a level, then for a bad row, then for a bad column; otherwise the cell of the current map |
| Engine.PacManModel.GetPacMan | NatanSujansky_JavaCourse_PacMan/src/main/java/javacourse/pacman/model/model/PacManModel.java:169-175 | Pac-Man, refused exactly when no game has been started, and its state is the game's |
| Engine.PacManModel.GetGhosts | NatanSujansky_JavaCourse_PacMan/src/main/java/javacourse/pacman/model/model/PacManModel.java:184-190 | the ghosts, refused exactly when no game has been started, in spawn order, each in the game's state |
| Engine.PacManModel.IsGameOver | NatanSujansky_JavaCourse_PacMan/src/main/java/javacourse/pacman/model/model/PacManModel.java:197-199 | whether the game is over |
| Engine.PacManModel.IsPlayerVictorious | NatanSujansky_JavaCourse_PacMan/src/main/java/javacourse/pacman/model/model/PacManModel.java:206-208 | whether the player has won |
| Engine.PacManModel.GetGameScore | NatanSujansky_JavaCourse_PacMan/src/main/java/javacourse/pacman/model/model/PacManModel.java:270-275 | the score, refused exactly when there is no level |
| Engine.PacManModel.GetValidMovementDirections | NatanSujansky_JavaCourse_PacMan/src/main/java/javacourse/pacman/model/model/PacManModel.java:302-323 | the set built is exactly ValidDirections at the sprite's position |
| Engine.PacManModel.GetDirectionTowardsPacMan | NatanSujansky_JavaCourse_PacMan/src/main/java/javacourse/pacman/model/model/PacManModel.java:336-377 | the loops find exactly DirectionTowardsPacMan |
| Engine.PacManModel.CheckGhostCollisions | NatanSujansky_JavaCourse_PacMan/src/main/java/javacourse/pacman/model/model/PacManModel.java:283-292 | the model changes as Collide states |
| Engine.PacManModel.TickPacMan | NatanSujansky_JavaCourse_PacMan/src/main/java/javacourse/pacman/model/model/PacManModel.java:226 | Pac-Man's power timer ticks and nothing else changes |
| Engine.PacManModel.TickGhostAt | NatanSujansky_JavaCourse_PacMan/src/main/java/javacourse/pacman/model/model/PacManModel.java:227-229 | ghost k's death timer ticks and nothing else changes |
| Engine.PacManModel.PreMovementUpdates | NatanSujansky_JavaCourse_PacMan/src/main/java/javacourse/pacman/model/model/PacManModel.java:226-229 | the model changes as PreTicks states |
| Engine.PacManModel.ClearPacManCell | NatanSujansky_JavaCourse_PacMan/src/main/java/javacourse/pacman/model/model/PacManModel.java:230 | the map changes as ClearPacCell states |
| Engine.PacManModel.MovePacMan | NatanSujansky_JavaCourse_PacMan/src/main/java/javacourse/pacman/model/model/PacManModel.java:231 | the model changes as MovePac states |
| Engine.PacManModel.CollisionStep | NatanSujansky_JavaCourse_PacMan/src/main/java/javacourse/pacman/model/model/PacManModel.java:232-236 | one collision check, leaving the rest of the loop as CollideFrom states |
| Engine.PacManModel.CheckAllCollisions | NatanSujansky_JavaCourse_PacMan/src/main/java/javacourse/pacman/model/model/PacManModel.java:232-237 | the model changes as CollideFrom states |
| Engine.PacManModel.EatBigDot | NatanSujansky_JavaCourse_PacMan/src/main/java/javacourse/pacman/model/model/PacManModel.java:238-242 | one big dot fewer, 50 more points, power mode on |
| Engine.PacManModel.EatSmallDot | NatanSujansky_JavaCourse_PacMan/src/main/java/javacourse/pacman/model/model/PacManModel.java:243-246 | one small dot fewer, 10 more points |
| Engine.PacManModel.EatDots | NatanSujansky_JavaCourse_PacMan/src/main/java/javacourse/pacman/model/model/PacManModel.java:238-246 | the model changes as EatDot states |
| Engine.PacManModel.DeclareVictory | NatanSujansky_JavaCourse_PacMan/src/main/java/javacourse/pacman/model/model/PacManModel.java:247-251 | the game is over and won, nothing else changes |
| Engine.PacManModel.MoveGhostAt | NatanSujansky_JavaCourse_PacMan/src/main/java/javacourse/pacman/model/model/PacManModel.java:253-255 | ghost k moves as GhostStep states, or the ghost has no direction and nothing changes |
| Engine.PacManModel.GhostPickAt | NatanSujansky_JavaCourse_PacMan/src/main/java/javacourse/pacman/model/model/PacManModel.java:254-255 | ghost k moves in the direction GhostChoice gives, or has none and nothing changes |
| Engine.PacManModel.GhostTurnAt | NatanSujansky_JavaCourse_PacMan/src/main/java/javacourse/pacman/model/model/PacManModel.java:253-259 | ghost k's turn, as GhostTurn states |
| Engine.PacManModel.GhostTurnFrom | NatanSujansky_JavaCourse_PacMan/src/main/java/javacourse/pacman/model/model/PacManModel.java:252-260 | one pass of the ghost loop, leaving the rest of the loop as MoveGhostsFrom states |
| Engine.PacManModel.MoveGhosts | NatanSujansky_JavaCourse_PacMan/src/main/java/javacourse/pacman/model/model/PacManModel.java:252-261 | the model changes as MoveGhostsFrom states, and reports its failure |
| Engine.PacManModel.EatAndMoveGhosts | NatanSujansky_JavaCourse_PacMan/src/main/java/javacourse/pacman/model/model/PacManModel.java:238-261 | eating, then victory when no dot is left, or the ghosts' turns |
| Engine.PacManModel.UpdateGameStatus | NatanSujansky_JavaCourse_PacMan/src/main/java/javacourse/pacman/model/model/PacManModel.java:219-263 | without a level the update is refused and no object of the model changes; otherwise the model changes as Tick states and reports Tick's failure |

## Left out

- Reading the level file from the classpath is not modelled. `NewLevelLayout` takes the file's lines, already split at line breaks; the I/O failures are left out.
- The ghosts' `java.util.Random` is replaced by an injected draw `roll`, one per ghost in each update (missing draws count as 0). The draw picks index `roll % size`.
- `HashSet` iteration order is replaced by the declaration order of the directions. `PickCovers` shows that every valid direction can still be drawn.
- `nextInt(0)` throws when a ghost has no direction to pick from. Here the update reports `GhostCannotMove` and stops. Earlier ghosts keep their moves.
- The score (a Java `long`) and the counters (`int`) are unbounded integers. A game cannot come near their limits. With S small dots, B big dots and G ghosts the score is at most 10·S + 50·B + 100·G·B. A ghost can be eaten again after it comes back to life, but at most once per power-up: a power-up lasts 40 updates, a big dot eaten during one does not extend it, and a dead ghost stays dead for 60 updates.
- Names of sprites and levels are kept but play no part. `getSpriteName`, `getLevelName` and the plain field getters of `LevelLayout` and `Sprite` are fields of the model.
- `SpriteFactory` is not part of this model. Its two methods call the sprite constructors, which are modelled directly.
- `Sprite` is abstract in the code. Here `PacManSprite` and `GhostSprite` each hold a `Sprite` for their position and direction. Their `preMovementUpdate` overrides are their own methods.
- `getGhosts` returns an immutable copy of the list. Here it returns the sequence of ghost objects, and the caller cannot change the model's list.
- Before the first restart the code's `pacMan` and `ghosts` are null. Here they are known to be set exactly when a level is. `getPacMan` and `getGhosts` are refused before a level is set.
- `initializeNewGame(null)` is not modelled. A layout value always exists once constructed.
- `isGhostEatingActive`, `isGhostDead` and the position getters are read through the sprites' fields.
- Views, controllers, the application entry points and the tic-tac-toe package are not part of this model.
- Java measures `String.length()` and splits a row with `split("")` in UTF-16 code units. Here a string is a sequence of Unicode scalar values. Take a row with as many characters as the first row, one of them outside the Basic Multilingual Plane (U+1F600, say). In Java that row is one unit longer, so the level is reported as not rectangular; the model reports the character as an invalid symbol.
- `split("\r?\n")` is not modelled. The model takes the lines as given and assumes that no line contains a `'\n'`.
- A caller may pass a null desired direction, for instance before the first key press. The model has no null direction. Null behaves as `NONE`, because `pacmanMove` moves only in a direction contained in the valid set, and neither null nor `NONE` is ever in it (`Rules.ValidDirections`).
- Engine.PacManModel.IsGameOver: states the answer only once a level is set. Before that the code returns its initial false, which the contract does not state.
- Engine.PacManModel.IsPlayerVictorious: states the answer only once a level is set. Before that the code returns its initial false, which the contract does not state.
