# snake-ai game engine in Dafny

This project models the game engine of the two-player snake environment for
reinforcement learning (`snakeai/gameplay/entities.py` and
`snakeai/gameplay/environment.py`). The engine has these parts:

- a square grid of cell types, with a set of its empty cells kept in step;
- two snakes, each with a body (head first) and one of four headings;
- the episode setup: load a level map, place both snakes at their head markers, put the first fruit on a random empty cell;
- the action step: keep the heading, turn left or turn right;
- the per-tick transition, which handles the two agents strictly in order:
  - move or eat;
  - write the snake's footprint into the grid;
  - read the grid back to decide death and the termination reason;
  - pay the reward and set the game-over flag.

Everything is a pure function over immutable datatypes. Each mutating method
of the program is a function from the old state to the new one. Python's
exceptions are `Failure` values of a `Result`.

The modules follow the program:

| module | models |
|---|---|
| `Geometry` | `Point`, the four directions, turning |
| `Cells` | `CellType`, the level-map symbol tables |
| `Fields` | the grid `Field`, its read/write, head search, snake placement, footprint |
| `Levels` | `create_level` and `__str__` |
| `Snakes` | `Snake`, `SnakeAction` and `valid` |
| `Environment` | `Environment`, `TimestepResult`, the `termination_reason` of the per-agent statistics |
| `Invariants` | the grid/snake agreement a surviving tick keeps |
| `Scenarios` | whole-tick consequences and the step-limit defect |

The random choice of a fruit cell is a parameter `pick`. The caller must
supply a member of the empty-cell set at the moment of the draw, which is
what `random.choice` guarantees. For a tick this is the predicate `FairPicks`:
agent 1's cell is drawn from the grid agent 0 left behind. When there is
nothing to draw from, `random.choice` raises IndexError. The model returns
`Failure(NoEmptyCell)` both when a new episode starts and when a snake eats.

Behaviours of the code a reader might not expect, which the model follows:

- **Reason priority.** The three death checks in `timestep` run in the order wall, own body, other body. Each later match overwrites the recorded reason, so "other body" wins over "own body", which wins over "wall". It is not the first match that is kept.
- **Same target cell.** When both heads aim at the same empty cell, agent 0 moves first, is alive when it is checked, and gets the step reward; its result is non-terminal unless the game was already over or the tick reaches the step limit. Agent 1 then shares a cell with agent 0 and dies with the "other body" reason (`Scenarios.SameTargetCell`).
- **Game-over flag.** The flag is one shared `is_game_over`, not one terminal flag per agent. A terminal result for agent 0 therefore makes agent 1's terminal too.
- **Step limit.** Reaching the step limit does not produce terminal results: the statement at environment.py:177 raises (see Findings).

## Model

| member | source | states |
|---|---|---|
| `Geometry.Add` | snakeai/gameplay/entities.py:11-17 | adding an offset to a point is undone by subtracting the same offset |
| `Geometry.Sub` | snakeai/gameplay/entities.py:15-17 | coordinate-wise difference; `Geometry.SubThenAdd` proves that adding the same offset back restores the point, and `Geometry.Add` the converse |
| `Geometry.SubThenAdd` | snakeai/gameplay/entities.py:11-17 | subtracting an offset and adding it back gives the original point |
| `Geometry.HeadingIsUnitStep` | snakeai/gameplay/entities.py:35-46 | each of the four listed directions moves a point to one of its 4-neighbours, never onto itself |
| `Geometry.IndexIn` | snakeai/gameplay/entities.py:114 | `list.index` returns a position holding the value, and no earlier position holds it |
| `Geometry.IndexOf` | snakeai/gameplay/entities.py:114 | a heading's position in the direction list is in range and holds that heading |
| `Geometry.LeftOf` | snakeai/gameplay/entities.py:112-115 | stepping back one place in the cyclic list, with index -1 read as the last element, is the counter-clockwise quarter turn (x, y) ↦ (y, -x) |
| `Geometry.RightOf` | snakeai/gameplay/entities.py:117-120 | stepping forward one place modulo 4 is the clockwise quarter turn (x, y) ↦ (-y, x) |
| `Geometry.LeftOfNorthIsWest` | snakeai/gameplay/entities.py:115 | turning left from NORTH goes through index -1 and yields WEST |
| `Geometry.LeftRightCancel` | snakeai/gameplay/entities.py:112-120 | a left turn and a right turn undo each other in either order |
| `Geometry.FourTurnsRestore` | snakeai/gameplay/entities.py:112-120 | four turns the same way restore the heading, and one, two or three do not |
| `Cells.CodeInjective` | snakeai/gameplay/entities.py:20-29 | distinct cell types have distinct integer codes |
| `Cells.CellOfSymbol` | snakeai/gameplay/entities.py:162-170 | a character has a cell type exactly when it is one of `A B s x # O .` |
| `Cells.SymbolOf` | snakeai/gameplay/entities.py:171-174 | the inverted table maps every cell type to a symbol that the forward table maps back to it |
| `Cells.SymbolRoundTrip` | snakeai/gameplay/entities.py:162-174 | printing the cell a known symbol denotes gives back that symbol |
| `Fields.Get` | snakeai/gameplay/entities.py:178-181 | the cell in row y, column x, the `[y, x]` order of the numpy grid; `Fields.Put` states every write through it, and `EmptyInv` ties it to the empty-cell set |
| `Fields.Put` | snakeai/gameplay/entities.py:183-193 | a write sets exactly one cell, keeps every other cell and the size, and keeps the empty-cell set equal to the set of EMPTY cells |
| `Fields.Observation` | snakeai/gameplay/environment.py:114-116 | the observation is an N×N grid whose entry at (x, y) is the code of the cell at (x, y) |
| `Fields.ObservationDeterminesGrid` | snakeai/gameplay/environment.py:114-116 | two fields of one size with equal observations hold the same cell types |
| `Fields.Scan` | snakeai/gameplay/entities.py:224-227 | the nested row/column loop resumed at (x, y) finds the first cell at or after it in row-major order that holds the marker, or reports that none does |
| `Fields.FindSnakeHead` | snakeai/gameplay/entities.py:222-228 | the result holds the marker and no cell before it in row-major order does; the search fails, with the marker's code, exactly when no cell holds the marker |
| `Fields.Stamp` | snakeai/gameplay/entities.py:238-239 | writing one type into a list of cells sets each of them, keeps all other cells and keeps the empty-cell set exact |
| `Fields.PlaceSnake` | snakeai/gameplay/entities.py:236-239 | one snake's head cell gets its head tag unless the body revisits it, every later body cell gets its body tag, and all other cells keep their type |
| `Fields.PlaceSnakes` | snakeai/gameplay/entities.py:234-239 | snake 1 is stamped after snake 0, so snake 1's tags always stand and snake 0's stand where the bodies do not meet; cells off both bodies keep their type |
| `Fields.UpdateSnakeFootprint` | snakeai/gameplay/entities.py:241-262 | the old head becomes body; a vacated old tail becomes EMPTY; the new head is tagged as head unless it holds a wall or a body, except that a cell the tail vacated this tick is always entered; no other cell changes; the empty-cell set stays exact |
| `Levels.ParseRow` | snakeai/gameplay/entities.py:209-212 | a row parses exactly when all its characters are known, into their cell types, and otherwise fails naming its first unknown character |
| `Levels.ParseRows` | snakeai/gameplay/entities.py:209-212 | all rows parse exactly when each does; otherwise the failure is that of the first failing row |
| `Levels.CreateLevel` | snakeai/gameplay/entities.py:206-220 | loading succeeds exactly when every character is known, giving the symbol's type in every cell and an exact empty-cell set; otherwise the error names the first unknown character in row-major order |
| `Levels.FailureNamesFirstUnknown` | snakeai/gameplay/entities.py:219-220 | the ValueError's symbol is unknown and every character before it in row-major order is known |
| `Levels.EmptyCellsExact` | snakeai/gameplay/entities.py:213-218 | the comprehension over y and x yields exactly the EMPTY cells |
| `Levels.Render` | snakeai/gameplay/entities.py:195-199 | the symbol of every cell, row by row, rows joined by newlines; `Levels.RenderAfterCreate` and `Levels.CreateAfterRender` make it the inverse of `Levels.CreateLevel` in both directions |
| `Levels.RenderAfterCreate` | snakeai/gameplay/entities.py:195-220 | printing a freshly loaded level yields its rows, joined by newlines |
| `Levels.CreateAfterRender` | snakeai/gameplay/entities.py:195-220 | loading the printed rows of any field with an exact empty-cell set gives that field back |
| `Snakes.NewSnake` | snakeai/gameplay/entities.py:67-80 | a new snake has the requested length, heads NORTH, starts at the start cell and lays each further cell one step south of the previous one, with no repeats |
| `Snakes.Head` | snakeai/gameplay/entities.py:83-86 | the first cell of the body; `Snakes.PeekNextMove`, `Snakes.Grow` and `Snakes.Move` state the new head through it |
| `Snakes.Tail` | snakeai/gameplay/entities.py:88-91 | the last cell of the body; `Snakes.Move` drops it and `Snakes.Grow` keeps it, as their contracts state |
| `Snakes.PeekNextMove` | snakeai/gameplay/entities.py:108-110 | the next cell is a 4-neighbour of the head, distinct from it |
| `Snakes.TurnLeft` | snakeai/gameplay/entities.py:112-115 | the body stays and the heading turns a quarter counter-clockwise |
| `Snakes.TurnRight` | snakeai/gameplay/entities.py:117-120 | the body stays and the heading turns a quarter clockwise |
| `Snakes.SteerOpposite` | snakeai/gameplay/environment.py:122-126 | steering with the opposite action gives back the snake |
| `Snakes.Steer` | snakeai/gameplay/environment.py:122-126 | keeping the direction changes nothing; a turn changes only the heading, to one that the opposite turn maps back |
| `Snakes.Grow` | snakeai/gameplay/entities.py:122-124 | the snake gets one longer, its new head is the cell ahead, and every old cell, tail included, stays in order behind it |
| `Snakes.Move` | snakeai/gameplay/entities.py:126-129 | the length is unchanged, the new head is the cell ahead, every cell shifts one place back, and the multiset of cells trades the old tail for the new head |
| `Snakes.MoveIsGrowWithoutTail` | snakeai/gameplay/entities.py:122-129 | moving equals growing and then dropping the last cell |
| `Snakes.HitsOffset` | snakeai/gameplay/entities.py:142-144 | the loop over offsets reports a hit exactly when some offset in the list takes the base point to the target |
| `Snakes.HitsDirectionIffAdjacent` | snakeai/gameplay/entities.py:142-144 | a direction offset from the other head reaches the target exactly when the target is a 4-neighbour of that head |
| `Snakes.Valid` | snakeai/gameplay/entities.py:131-145 | an action is safe exactly when the cell it leads to is EMPTY (a fruit counts as occupied) and is not a 4-neighbour of the other snake's head |
| `Environment.MakeConfig` | snakeai/gameplay/environment.py:30-35 | a missing step limit becomes 1000, a given one is kept, and the level, initial length and rewards are taken over unchanged |
| `Environment.GenerateFruit` | snakeai/gameplay/environment.py:189-194 | the drawn cell becomes FRUIT and the fruit position, leaves the empty-cell set, and nothing else changes |
| `Environment.LayOut` | snakeai/gameplay/environment.py:67-68 | placement succeeds exactly when both snakes are non-empty and lie on the field; then both are stamped, and otherwise the error says which precondition failed |
| `Environment.Setup` | snakeai/gameplay/environment.py:62-68 | a successful setup yields a field of the map's size with an exact empty-cell set and two non-empty snakes on it |
| `Environment.SetupSucceedsExactly` | snakeai/gameplay/environment.py:62-68 | setup succeeds exactly when the level loads, both head markers are found and both snakes fit on the field; a failing level load or head search is the error returned |
| `Environment.Begin` | snakeai/gameplay/environment.py:69-81 | with no empty cell the draw fails; otherwise the fruit lies on a cell that was empty, no other cell changes, the counter is 0, the game is not over, and both agents get the same non-terminal result with reward 0 |
| `Environment.NewEpisode` | snakeai/gameplay/environment.py:60-81 | a failure while loading the level, finding a head or placing the snakes is returned as is; a staged field with no empty cell fails the fruit draw; one with an empty cell always starts an episode, in which the counter is 0, the game is not over, the snakes are the staged ones, the fruit sits on a cell that was empty, and both agents get reward 0 and a non-terminal result |
| `Environment.ChooseAction` | snakeai/gameplay/environment.py:118-126 | fails exactly when a turn is addressed to an agent index past the last snake; otherwise agent i's snake takes actions[i]: a left turn rotates its heading counter-clockwise, a right turn clockwise, and keeping the direction changes nothing; no body, cell, fruit or counter changes |
| `Environment.ChooseActionUndone` | snakeai/gameplay/environment.py:118-126 | choosing the opposite actions afterwards gives back the original episode |
| `Environment.SharesCell` | snakeai/gameplay/environment.py:209 | the set intersection is non-empty exactly when some cell of one body equals some cell of the other |
| `Environment.HasHitWall` | snakeai/gameplay/environment.py:196-198 | the head cell holds WALL; `Environment.IsAlive` and `Environment.TerminationReason` state their contracts through the three checks |
| `Environment.HasHitOwnBody` | snakeai/gameplay/environment.py:200-205 | the head cell holds the snake's own body tag (not its own head tag, which the footprint has just written) |
| `Environment.HasHitOtherBody` | snakeai/gameplay/environment.py:207-211 | the head cell holds the other snake's body or head tag, or the two bodies share a coordinate (`Environment.SharesCell`) |
| `Environment.IsAlive` | snakeai/gameplay/environment.py:196-215 | a snake is alive exactly when its head cell holds EMPTY, FRUIT or its own head and the two bodies share no cell |
| `Environment.TerminationReason` | snakeai/gameplay/environment.py:159-168 | no reason is recorded exactly for a living snake; "other body" whenever it applies, "own body" only without "other body", "wall" only when neither of the others applies; the step limit is never a cause of death |
| `Environment.Feed` | snakeai/gameplay/environment.py:141-146 | on eating: the snake grows, a new fruit is drawn, the reward is the fruit unit times the new length, and the footprint is written without freeing a tail cell |
| `Environment.Slide` | snakeai/gameplay/environment.py:148-154 | otherwise: the snake moves, the reward is the step reward, and the footprint is written freeing the old tail |
| `Environment.Eats` | snakeai/gameplay/environment.py:141 | the cell ahead of the head is the fruit; `Environment.Advance` and `Environment.AgentStep` split their contracts on it |
| `Environment.Advance` | snakeai/gameplay/environment.py:140-154 | eat exactly when the next cell is the fruit, otherwise move; the head lands on the cell ahead; eating grows the snake by one, puts the fruit on the drawn cell and pays the fruit unit times the new length, moving keeps the length, the fruit and pays the step reward; the other snake, the counter and the flag are untouched |
| `Environment.Settle` | snakeai/gameplay/environment.py:156-183 | a surviving snake leaves the grid as it is; a dead snake's reward is replaced by the death reward, its head cell alone is re-tagged and the game is over; reaching the step limit also ends the game and records the step-limit reason in place of any death reason, below the limit the death reason (or none) is recorded; the result carries the grid's codes and the flag |
| `Environment.AgentStep` | snakeai/gameplay/environment.py:136-185 | one agent's turn: the other snake is untouched; the length grows by one exactly on eating and never shrinks; the head lands on the cell ahead; the grid is the one the eat-or-move step wrote, with only the head cell re-tagged when the agent died; a surviving agent earns the eat or step reward, a dead one the death reward; the game is over after the turn exactly when it was before, the agent died, or the counter reached the limit; the recorded reason is the step-limit one at the limit and the death reason (or none) below it |
| `Environment.CountTick` | snakeai/gameplay/environment.py:131 | the counter goes up by one and nothing else changes |
| `Environment.SecondTurn` | snakeai/gameplay/environment.py:136-186 | agent 1's turn completes the tick: agent 0's result and reason are kept, a game already over or a counter at the limit makes agent 1's result terminal, the limit records the step-limit reason for agent 1 and below it that reason never appears, and agent 0's snake is untouched |
| `Environment.Timestep` | snakeai/gameplay/environment.py:128-186 | the tick fails exactly when an eating agent finds no empty cell to draw the new fruit from; otherwise the counter goes up by exactly one, both results come back, a terminal result for agent 0 makes agent 1's terminal, a game that was over or a tick reaching the step limit gives two terminal results, the step limit is the recorded reason of both agents exactly on ticks that reach it, and lengths never shrink |
| `Environment.TimestepIsTwoTurns` | snakeai/gameplay/environment.py:136-186 | a tick in which both draws can happen is agent 0's whole turn followed by agent 1's whole turn on the state agent 0 left |
| `Invariants.MoveFootprintKeepsTags` | snakeai/gameplay/entities.py:241-262 | writing a move's footprint whose new head ends up tagged as head re-tags the shifted body as that snake's head and body, and the other snake keeps its tags |
| `Invariants.MoveFootprintKeepsFruit` | snakeai/gameplay/entities.py:241-262 | a footprint write creates no fruit, so a sole fruit it does not touch stays the sole fruit |
| `Invariants.SlideSurvivor` | snakeai/gameplay/environment.py:148-159 | after a surviving move, the new head cell holds the snake's own head and lies off the other body |
| `Invariants.SlideKeepsConsistent` | snakeai/gameplay/environment.py:148-159 | a surviving move keeps tags, distinct body cells, apart bodies and the sole fruit |
| `Invariants.GrowFootprintKeepsTags` | snakeai/gameplay/entities.py:241-262 | writing a meal's footprint tags the fruit cell as the new head and keeps the grown body and the other body tagged |
| `Invariants.GrowFootprintMovesFruit` | snakeai/gameplay/environment.py:141-154 | after a meal, the freshly drawn cell is the only fruit |
| `Invariants.FeedKeepsConsistent` | snakeai/gameplay/environment.py:141-159 | an eating snake always survives; the new fruit lies off both snakes and away from the old one, and the invariant holds afterwards |
| `Invariants.AgentStepKeepsConsistent` | snakeai/gameplay/environment.py:136-185 | an agent turn in which the snake survives keeps the invariant |
| `Invariants.TimestepKeepsConsistent` | snakeai/gameplay/environment.py:128-186 | a tick whose last result is not terminal keeps the invariant: the sole fruit is never on a snake and the tags match the bodies |
| `Scenarios.NoFruitAfterLoad` | snakeai/gameplay/entities.py:206-212 | a level map without `O` loads into a grid without FRUIT |
| `Scenarios.SetupPlacesNewSnakes` | snakeai/gameplay/environment.py:62-68 | setup stamps the two new snakes of the configured length, started at the first head markers, onto the loaded level |
| `Scenarios.PlaceApartSnakes` | snakeai/gameplay/entities.py:234-239 | stamping two apart bodies without repeats tags each body with its owner and creates no fruit |
| `Scenarios.SetupTagsSnakes` | snakeai/gameplay/environment.py:62-68 | on a level without fruit markers and with apart starting columns, each staged snake carries its own tags and no cell holds fruit |
| `Scenarios.NewEpisodeConsistent` | snakeai/gameplay/environment.py:60-81 | on such a level a new episode starts in a state satisfying the invariant, with exactly one fruit |
| `Scenarios.SlideOntoUntagged` | snakeai/gameplay/environment.py:141-154 | a head entering an EMPTY or WALL cell moves rather than eats; the cell becomes the head or stays a wall; the bodies stay apart |
| `Scenarios.EnterEmptyCell` | snakeai/gameplay/environment.py:136-183 | a head entering an EMPTY cell survives with the step reward, keeps its length and leaves the fruit in place; no reason is recorded below the step limit |
| `Scenarios.EatingGrows` | snakeai/gameplay/environment.py:141-146 | eating keeps the snake alive, grows it by one, pays the fruit unit times the new length, and puts the new fruit elsewhere |
| `Scenarios.WallIsFatal` | snakeai/gameplay/environment.py:159-172 | a head entering a wall is recorded as a wall death (the step-limit reason at the limit), gets the death reward and ends the episode |
| `Scenarios.SecondMoverCollides` | snakeai/gameplay/environment.py:207-211 | agent 1 entering the cell agent 0's head holds dies with the other-body reason (the step-limit reason at the limit) and the death reward |
| `Scenarios.SameTargetCell` | snakeai/gameplay/environment.py:136-183 | both heads aimed at one empty cell: agent 0 survives with the step reward and no reason, its result terminal only if the game was over or the limit is reached; agent 1 dies with the other-body reason and ends the episode; at the limit both reasons are the step-limit one |
| `Scenarios.OtherEmptyCellStays` | snakeai/gameplay/entities.py:241-262 | agent 0's move leaves every other cell that was empty still empty |
| `Scenarios.BothAdvance` | snakeai/gameplay/environment.py:128-186 | heads aimed at two different empty cells both advance one cell with the step reward; neither dies, so no reason is recorded below the step limit and the step-limit reason for both at it |
| `Scenarios.TimestepAsWritten` | snakeai/gameplay/environment.py:174-177 | as written, the tick raises the attribute error exactly when the counter reaches the step limit and agent 0's fruit draw did not fail first; below the limit it is the corrected tick |
| `Scenarios.StepLimitNeverReported` | snakeai/gameplay/environment.py:174-177 | with the default limit, the 1000th tick raises where the corrected tick returns two terminal results with the step-limit reason for both agents |

## Left out

- Statistics, CSV and log files, and `print` calls are not modelled, except the termination reason each agent's statistics record, which is the `reasons` part of a tick. This covers the other `EpisodeStatistics` fields, `record_timestep_stats`, `stats_file`, `debug_file` and the prints in `Field.__init__` and `timestep`. They are output only and do not feed back into the game.
- `seed`, `observation_shape`, `num_actions`, `current_actions` and the `_body`, `_direction` and `length` properties are not modelled. They are trivial accessors or exist only for the statistics.
- `random.choice` becomes the `pick` parameter, constrained to the empty-cell set at the moment of the draw. The explicit `position` argument of `generate_fruit` is not modelled, because no caller passes it.
- snakeai/gui/pygame.py is not part of this model.
- Environment.Timestep: requires both next head cells to lie on the field (`CanStep`). The program would index outside the numpy grid, wrapping around for -1 or raising IndexError. The model leaves those moves out rather than modelling numpy indexing.
- Snakes.Valid: requires the target cell to lie on the field, for the same reason.
- Levels.CreateLevel: requires a square map (`SquareMap`), which the program assumes by taking the size from the number of rows.
- Environment.NewEpisode: the snake length is a natural number. A negative `initial_snake_length`, which Python's `range` turns into an empty snake, is not representable.
- Snakes.Action: only the three action codes exist. An out-of-range integer is ignored by `choose_action` and breaks `valid`; it is not representable here.
- Configurations always hold every key. The program raises KeyError in its constructor when `field`, `initial_snake_length` or `rewards` is missing (environment.py:30-34), and in the middle of `timestep`, possibly after agent 0 has moved, when the rewards lack `timestep`, `ate_fruit` or `died` (environment.py:145, 152, 172). Those error paths are not modelled: `Config` and `Rewards` are records whose fields are always present.
- Rewards are integers. The program takes whatever numbers the configuration holds, possibly floats.
- Invariants.TimestepKeepsConsistent: covers only ticks in which both snakes survive. After a death the dead head is re-tagged over whatever the footprint left, and the invariant no longer describes the grid.
- Scenarios.NewEpisodeConsistent: requires a level without fruit markers and starting columns that do not meet. Extra `O` markers give extra FRUIT cells, and overlapping snakes overwrite each other's tags.
- Environment.Timestep: a failed fruit draw returns only the error, not the half-updated state the program leaves behind when it raises.
- Environment.ChooseAction: a failure returns only the error. The program has already turned the snakes of the earlier agents in the list when it raises.
- Scenarios.TimestepAsWritten: returns only the error, not the half-updated state the program leaves behind when it raises.

## Findings

| source | as written | input that shows it | evidently intended | confidence | as-written member | corrected member |
|---|---|---|---|---|---|---|
| snakeai/gameplay/environment.py:174-177 | on reaching the step limit, `timestep` assigns `termination_reason` to `self.stats`, which is a list of two statistics objects, so it raises AttributeError and no result is returned | an episode with the default limit 1000, on its 1000th tick (counter 999 before the tick) | set the game-over flag and record `timestep_limit_exceeded` in the agent's own statistics (`self.stats[i]`); placed after the death checks, this replaces a death reason recorded on the same tick, and both agents receive terminal results | not executed | `Scenarios.TimestepAsWritten`, `Scenarios.StepLimitNeverReported` | `Environment.Timestep` |
