# Ants bot: a Dafny model of the world model, the move rule and the targeting loop

This project models the core of a small C# bot for the toroidal grid game
"Ants". It covers:

- the per-turn world model `GameState` (Framework/GameState.cs). This is a
  `Height × Width` grid of cell types plus four lists (my ants, enemy ants,
  dead ants, food). Its mutators update the grid and the lists in place. Its
  geometry has three parts: the wrapped one-step `Destination`, the toroidal
  Manhattan `GetDistance`, and the ranked candidate directions of `GetDirection`;
- directions, locations, ants and the value comparer of locations
  (Framework/Location.cs), including the one-step move rule of an ant:
  take the first candidate direction whose destination is not water;
- cell types and the walkability test of a path-search tile (Framework/Tile.cs);
- the `Goal` record that a unit commits to (Goal.cs);
- the bot's turn (MyBot.cs). It visits my ants in roster order and stops when
  less than 10 ms remain. An ant without a target takes the nearest food, with
  ties going to the food listed first. Each ant then moves toward its target.

The Dafny module `Ants` holds the three framework files, because they refer
to one another as one C# namespace. The module `AntsBot` holds Goal.cs and
MyBot.cs.

Modelling choices:

- Mutable objects are classes:
  - `GameState` keeps the grid as an `array2<TileType>` and the lists as
    `seq` fields that its methods reassign;
  - an ant's `Target` is a mutable field;
  - `Goal` has the source's mutable fields.
- `Location` is a class with constant coordinates. This keeps reference
  identity, on which `removeFood` depends.
- `Direction` is a datatype. Its four constants are `North`, `South`, `West`
  and `East`. `Custom(r, c)` is any other instance created with
  `new Direction(r, c)`.
- The C# `%` (truncating) is written out as `CsRemainder`. The unchecked
  32-bit arithmetic of the comparer's hash is written out as `ToInt32`.
- An exception in the source becomes an explicit outcome:
  - `ToChar` on a non-constant direction returns `None`;
  - a missing key of the `Aim` dictionary returns `None`;
  - LINQ `First()` on an empty food list ends the turn with `NoFood`.
- Orders are not printed. `AntLoc.Move` returns the direction it chose, and
  `DoTurn` returns the order lines `o <row> <col> <letter>` in the order they
  would be written.
- The clock is a parameter:
  - `TimeRemaining` takes the elapsed milliseconds;
  - `DoTurn` takes the sequence of `TimeRemaining` readings, where
    `remaining[i]` is the value read before ant `i`.

## Model

| member | source | states |
|---|---|---|
| Ants.CsRemainder | Framework/GameState.cs:176-182 | C#'s `%` for a positive modulus: below the modulus in magnitude, equal to the Euclidean residue for a non-negative dividend, and for a negative one zero or the residue minus the modulus |
| Ants.Wrap | Framework/GameState.cs:176-182 | `% n` followed by `+ n` when negative always yields the residue of the value modulo `n`, in `[0, n)` |
| Ants.WrapStep | Framework/GameState.cs:176-182 | a unit step off either end of `[0, n)` re-enters at the other end; any in-range value is unchanged |
| Ants.ToInt32 | Framework/Location.cs:111 | unchecked conversion to a 32-bit `int`: in range, and congruent to the exact value modulo 2^32 |
| Ants.Direction.ToChar | Framework/Location.cs:22-42 | a letter exists exactly for the four constants, and it is one of n, s, e, w; any other instance has none (the ArgumentException) |
| Ants.Aim | Framework/GameState.cs:174 | the letter lookup succeeds exactly for n, s, e, w and yields a constant direction |
| Ants.AimInvertsToChar | Framework/Location.cs:22-42 | `ToChar` and `Aim` are inverse to each other on the four constants and the four letters |
| Ants.ConstantDirectionsAreUnitSteps | Framework/Location.cs:11-14 | North (-1,0), South (1,0), West (0,-1), East (0,1): each is a unit step on exactly one axis, and the row-axis ones have no column offset |
| Ants.ToCharIsByIdentity | Framework/Location.cs:16-42 | a new instance has no letter even with North's offsets, because the comparison is by reference |
| Ants.Location.constructor | Framework/Location.cs:51-56 | row and column are stored exactly as given, with no wrapping |
| Ants.AntLoc.constructor | Framework/Location.cs:70-74 | a new ant holds a new location with the given row and column, the given team, and no target |
| Ants.AntLoc.IsValidMove | Framework/Location.cs:91-94 | a move is valid exactly when the wrapped destination is not water; an ant on that cell does not matter |
| Ants.AntLoc.Move | Framework/Location.cs:76-89 | the chosen direction is `MoveOrder`: none without a target, otherwise the first candidate of `GetDirection` whose destination is passable |
| Ants.AntLoc.FirstValidMove | Framework/Location.cs:80-88 | the foreach with break returns the first candidate whose step is passable, or none |
| Ants.GameState.MoveOrder | Framework/Location.cs:76-89 | the direction an ant issues, when it issues one, is one of the four constants |
| Ants.GameState.FirstPassable | Framework/Location.cs:80-88 | the result is none exactly when no candidate is passable; otherwise it is the candidate at some index, is passable, and every earlier candidate is not |
| Ants.LocationEquals | Framework/Location.cs:104-107 | the comparer's equality: same row and same column, so the same object always compares equal (and distinct objects at one cell do too) |
| Ants.LocationHash | Framework/Location.cs:109-112 | the hash is a 32-bit value congruent to `Row * int.MaxValue + Col` modulo 2^32 |
| Ants.LocationComparerIsConsistent | Framework/Location.cs:104-112 | the comparer's equality is reflexive, symmetric and transitive, and equal locations hash alike |
| Ants.OrderLine | Framework/GameState.cs:69-77 | an order line carries the ant's row and column, and its letter reads back through `Aim` as the direction given |
| Ants.Tile.IsWalkable | Framework/Tile.cs:19-22 | water, ant, dead and unseen tiles are never walkable; land and food tiles are walkable exactly when unoccupied; walkable implies unoccupied and passable |
| Ants.GameState.constructor | Framework/GameState.cs:38-66 | every cell of the new grid is land, all four lists are empty, and the dimensions, times and radii are as given |
| Ants.GameState.ClearCells | Framework/GameState.cs:85-98 | each foreach of startNewTurn sets the listed cells to land and leaves every other cell unchanged |
| Ants.GameState.StartNewTurn | Framework/GameState.cs:79-100 | the four lists are empty; each cell that one of them listed is land; every other cell, water included, is unchanged |
| Ants.GameState.AddAnt | Framework/GameState.cs:102-115 | the cell becomes Ant; a newly allocated ant without a target is appended to my ants exactly when the team is 0, otherwise to the enemy ants; the other list, the other cells and the other lists are unchanged |
| Ants.DistinctSnoc | Framework/GameState.cs:106-109 | appending a newly created ant keeps my ants free of repeated objects |
| Ants.GameState.AddFood | Framework/GameState.cs:117-121 | the cell becomes Food and a new location at that cell is appended to the food list; nothing else changes |
| Ants.GameState.RemoveFood | Framework/GameState.cs:123-132 | as written: the cell becomes land only if it showed food, and the food list is unchanged, because the removal looks for a new object by reference |
| Ants.FirstIndex | Framework/GameState.cs:131 | the index `List.Remove` searches for: an occurrence of the element with none before it, or the length exactly when the element is absent |
| Ants.RemoveFirst | Framework/GameState.cs:131 | `List.Remove` by `Equals`: the list is unchanged when the element is absent; otherwise the first occurrence is cut out and the rest keep their order, so exactly one occurrence is gone |
| Ants.GameState.RemoveFoodByValue | Framework/GameState.cs:123-132 | as intended: the cell becomes land only if it showed food, and the first food listed at that cell leaves the list |
| Ants.RemoveFirstAt | Framework/GameState.cs:131 | the removal under value comparison: the list is unchanged when no location is at the cell; otherwise the first location at the cell is cut out and the rest keep their order |
| Ants.FirstAt | Framework/GameState.cs:131 | the index of the first location at the cell, with none before it at the cell, and it equals the length exactly when no location is at the cell |
| Ants.RemoveFirstAtKeepsRange | Framework/GameState.cs:131 | removing by value leaves only locations that were on the grid |
| Ants.RemoveFirstAtUndoesAppend | Framework/GameState.cs:117-132 | with value comparison, adding a food at a fresh cell and then removing that cell gives back the original list |
| Ants.RemoveFoodLeavesStaleEntry | Framework/GameState.cs:117-132 | on a one-cell map, addFood then removeFood leaves the cell land but the food still listed |
| Ants.RemoveFoodByValueClearsEntry | Framework/GameState.cs:117-132 | the same sequence with the value removal leaves the food list empty |
| Ants.GameState.AddWater | Framework/GameState.cs:134-137 | the cell becomes water and no other cell changes |
| Ants.GameState.DeadAnt | Framework/GameState.cs:139-150 | the cell becomes Dead only if it was land; a new location at that cell is always appended to the dead list; nothing else changes |
| Ants.GameState.IsPassable | Framework/GameState.cs:154-158 | a cell is passable exactly when it is land, food, an ant, a dead ant or unseen, that is, anything but water |
| Ants.GameState.IsUnoccupied | Framework/GameState.cs:160-164 | unoccupied implies passable, and holds exactly when the cell is neither water nor an ant |
| Ants.GameState.DestinationByChar | Framework/GameState.cs:171-185 | a result exists exactly for a letter of `Aim`; it is a new location on the grid, at the offset added and wrapped on each axis |
| Ants.GameState.Destination | Framework/GameState.cs:166-169 | a result exists exactly for the four constants; it is a new in-range location at the wrapped step |
| Ants.DestinationWrapsAtEdges | Framework/GameState.cs:171-185 | row 0 going north lands on the last row, the last column going east lands on column 0, and the other axis stays put |
| Ants.GameState.GetDistance | Framework/GameState.cs:187-197 | the distance is the same measured from either end |
| Ants.DistanceIsSymmetricAndBounded | Framework/GameState.cs:187-197 | on the grid, the distance is symmetric, zero exactly between equal coordinates, and at most half of each dimension summed |
| Ants.DistanceWrapsAroundEdge | Framework/GameState.cs:187-197 | on a map ten wide, columns 0 and 9 are one step apart, not nine |
| Ants.AxisDirections | Framework/GameState.cs:204-232 | one axis contributes only its two directions |
| Ants.GameState.GetDirection | Framework/GameState.cs:199-250 | every direction offered is one of the four constants |
| Ants.DirectionsToSameCellAreEmpty | Framework/GameState.cs:199-232 | equal coordinates give no direction |
| Ants.DirectionsPerAxis | Framework/GameState.cs:199-232 | row-axis directions come first; an axis with unequal coordinates contributes one direction, or two exactly when its difference is half the dimension |
| Ants.WestAcrossTheEdge | Framework/GameState.cs:199-232 | on a 20 by 20 map, from (0,0) toward (0,19) only West is offered; it reaches the target in one step at distance 1 |
| Ants.AxisStepApproaches | Framework/GameState.cs:204-232 | on one axis, an offered step shortens that axis' distance by one, except at the odd-length half-way tie where it keeps it |
| Ants.StepTowardTargetNeverMovesAway | Framework/GameState.cs:187-232 | no direction offered by `GetDirection` increases the distance to the target; the decrease is strict except at the odd-dimension half-way tie on that direction's axis |
| Ants.RowStepApproaches | Framework/GameState.cs:204-217 | a north or south step offered by the row axis keeps the column and shortens the row distance by one, except at the odd-height half-way tie |
| Ants.ColStepApproaches | Framework/GameState.cs:219-232 | an east or west step offered by the column axis keeps the row and shortens the column distance by one, except at the odd-width half-way tie |
| Ants.OddAxisHalfwayTieCycles | Framework/GameState.cs:204-217 | on five rows with the target two rows away, North is offered first from row 0 and South first from row 4, each landing on the other row at unchanged distance |
| Ants.GameState.TimeRemainingAsWritten | Framework/GameState.cs:16-23 | as written, the reading lies within 999 of the turn time and matches the intended reading during the first second |
| Ants.GameState.TimeRemaining | Framework/GameState.cs:16-23 | as intended, the reading never exceeds the turn time and falls below 10 exactly when more than the turn time minus 10 ms has elapsed |
| Ants.TimeRemainingAsWrittenIgnoresWholeSeconds | Framework/GameState.cs:16-23 | as written, one more whole second of elapsed time does not change the reading |
| Ants.TimeRemainingAsWrittenMissesOverrun | Framework/GameState.cs:16-23 | with a 500 ms turn, one second in, the reading as written is 500, while the intended reading is -500, below the bot's 10 ms guard |
| AntsBot.Goal.constructor | Goal.cs:32-45 | step 0 and the ant exists; the remaining path is the given path without its first tile; the start path is the given path; start and current point are the start point; the end point is the last tile's location, and the remaining path still ends there; the termination test and strategy are stored unchanged |
| AntsBot.Goal.EndPoint | Goal.cs:14-20 | the end point is the location of the start path's last tile; it reads no mutable field, so later steps taken off the remaining path cannot change it |
| AntsBot.NearestFood | MyBot.cs:23-28 | the chosen food is an index into the non-empty food list |
| AntsBot.NearestFoodIsNearest | MyBot.cs:23-28 | the chosen food is at the least distance from the ant, and every food listed before it is strictly farther (the stable `OrderBy`) |
| AntsBot.NearestFoodIsUnique | MyBot.cs:28 | any index that is nearest and earliest among the nearest is the one chosen, so the choice is fully determined |
| AntsBot.Retarget | MyBot.cs:17-28 | an ant with a target keeps it; one without takes a listed food at the least distance from it |
| AntsBot.OneOrder | Framework/Location.cs:82-85 | an ant issues one order line when it has a move and none otherwise; the line is at the ant's cell and its letter reads back as the move |
| AntsBot.AntOrders | Framework/Location.cs:76-89 | an ant issues at most one order per turn |
| AntsBot.TurnOrders | MyBot.cs:13-31 | the ants issue at most one order each, concatenated in roster order |
| AntsBot.TurnOrdersSnoc | MyBot.cs:13-31 | handling one more ant appends exactly that ant's orders |
| AntsBot.HandleAnt | MyBot.cs:17-30 | an ant with a target keeps it; one without takes the nearest food; with no food it throws, and then its target is unchanged and it issues nothing; otherwise it issues its move's order |
| AntsBot.Visit | MyBot.cs:13-30 | handling ant `i` throws exactly when it has no target and there is no food; otherwise the turn's progress extends to ant `i + 1` and no other ant changes |
| AntsBot.WestToFood | Framework/Location.cs:76-89 | on a 1 by 5 map, an ant at (0,0) with its target at (0,3) issues exactly the order `o 0 0 w`: west around the edge is the only direction offered, and it is passable |
| AntsBot.OneAntOneFood | Framework/GameState.cs:102-121 | building a state with addAnt(0, 0, 0) and addFood(0, 3) on a 1 by 5 map gives one new ant of mine without a target at (0,0), one food at (0,3), and land at (0,4) |
| AntsBot.OneAntWalksWestToFood | MyBot.cs:10-32 | in that state, with time to spare, the turn handles the ant, sets its target to the food and issues exactly `o 0 0 w` |
| AntsBot.RetargetTakesNearestFood | MyBot.cs:23-28 | an ant without a target takes a food no farther from it than any other listed food |
| AntsBot.RetargetedStep | MyBot.cs:17-28 | retargeting ant `i` keeps every earlier ant's new target and every later ant's old target, and adds ant `i` as retargeted |
| AntsBot.TurnOrdersStep | MyBot.cs:13-31 | after ant `i` takes its new target, the orders of the first `i + 1` ants are those of the first `i` followed by ant `i`'s |
| AntsBot.ProgressStep | MyBot.cs:13-30 | handling ant `i` extends the turn's progress: the targets are as above and the orders gain exactly ant `i`'s orders |
| AntsBot.TurnLoop | MyBot.cs:13-31 | the loop of doTurn over the roster: the same outcome, targets and orders as DoTurn states, over the ants the loop reads at its start |
| AntsBot.OneAntTurn | MyBot.cs:10-32 | with one ant without a target and one food on the 1 by 5 map, a finished turn sets the target to that food and issues exactly `o 0 0 w` |
| AntsBot.DoTurn | MyBot.cs:10-32 | ants are handled in roster order while the reading before each is at least 10. The loop stops either at an ant whose reading is below 10, or at an ant that has no target when there is no food. Each handled ant keeps its target or takes the nearest food. Unhandled ants keep their targets. The orders are those of the handled ants, in roster order |

## Left out

- `Ants.Aim`, `Ants.playGame` and the `Bot` base class are defined outside
  these files. `Aim` is defined here from the four constants of
  Framework/Location.cs:11-14.
- Console output: `issueOrder` (Framework/GameState.cs:69-77) prints.
  Here the order is returned as a value.
- The clock: `DateTime.Now` and `turnStart` (Framework/GameState.cs:15-23,
  82) are not modelled. The elapsed time, or the readings it yields, are
  parameters. `StartNewTurn` therefore does not restart a timer.
- `Main` (MyBot.cs:34-36) is process start-up.
- The path search. `IPathNode` and its search come from an external library
  (Framework/Tile.cs:2, 8). Only `IsWalkable` is modelled, and its context
  argument is ignored, as in the source.
- `Strategy` and `Func<GameState, bool>` are type parameters of `Goal`.
  `Strategy` is not defined in these files. The termination test is only
  stored, never called.
- `Location.GetDistance` returns a `double` (Framework/Location.cs:58-61).
  It is the integer `GameState.GetDistance` here, which is the value it
  converts.
- The back-reference `Location.State` is left out. The game state is passed
  as a parameter wherever the source reads it.
- `AntLoc` derives from `Location` in the source. Here it holds its location
  as the field `at`, because Dafny classes do not inherit.
- The map's element type. The source declares the map as `Tile[,]` and
  writes `Tile.Land`, `Tile.Ant` and so on as if `Tile` were the enum. The
  grid here holds `TileType`, the enum of Framework/Tile.cs:6.
- `Tile.IsWalkable` calls `Location.IsUnoccupied()`, which Framework/Location.cs
  does not define. It is modelled as `GameState.IsUnoccupied` of the tile's
  location.
- Array bounds. The source's map indexing throws for a cell off the grid.
  The mutators and `IsPassable`/`IsUnoccupied` instead require in-range
  coordinates, which the game engine always sends.
- Integer overflow. Coordinates are small, so 32-bit overflow in
  `Destination`, `GetDistance` and `GetDirection` is not modelled. It is
  modelled only in `LocationHash`, where `Row * int.MaxValue` does overflow.
- Ants.GameState.Valid: `DoTurn` relies on no ant object being listed twice
  among my ants. `AddAnt` preserves this because every ant is a new object,
  but the model states it as part of `Valid` rather than deriving it from
  allocation.
- Ants.GameState.Destination: the returned location's back-reference to the
  state is not modelled, since `Location` has none here.
- AntsBot.Goal.constructor: the source keeps the caller's `IEnumerable`
  as `StartPath`, and a lazy sequence could change under it later. The
  model keeps a snapshot.
- AntsBot.DoTurn: an exception in `First()` propagates out of `doTurn` in
  the source; what the unseen driver does with it is not modelled. The
  outcome `NoFood` records where it happened, and orders issued before it
  stand.
- Path search, strategy weights, goal retention and collision avoidance have
  no code in Goal.cs or MyBot.cs and are not modelled.
- `Location` and `AntLoc` store coordinates as given
  (Framework/Location.cs:51-56, 70-74); only `Destination` wraps.
- Ants.AntLoc.IsValidMove: requires one of the four constant directions. For
  any other instance the source throws `ArgumentException` through `ToChar`
  (Framework/Location.cs:41); the only caller passes directions from
  `GetDirection`, which are always constants.
- Ants.OrderLine: requires one of the four constant directions, for the same
  reason; an order for any other instance would throw in `ToChar`.

## Findings

| source | as written | input that shows it | evidently intended | confidence | as-written member | corrected member |
|---|---|---|---|---|---|---|
| Framework/GameState.cs:131 | `FoodTiles.Remove(new Location(...))` looks for a new object. `Location` has no value `Equals`, so `List.Remove` compares by reference and never finds it. | On a 1 by 1 map, `addFood(0, 0)` then `removeFood(0, 0)` leaves (0, 0) in `FoodTiles`, although the cell is land again. | Remove the first food at that row and column, as `LocationComparer` would | not executed | Ants.GameState.RemoveFood, Ants.RemoveFoodLeavesStaleEntry | Ants.GameState.RemoveFoodByValue, Ants.RemoveFoodByValueClearsEntry, Ants.RemoveFirstAtUndoesAppend |
| Framework/GameState.cs:21 | `TurnTime - timeSpent.Milliseconds` subtracts only the millisecond component (0 to 999) of the elapsed time. | With a 500 ms turn, 1000 ms into the turn the reading is 500, so the bot's `< 10` guard (MyBot.cs:15) does not stop it. | `TurnTime - timeSpent.TotalMilliseconds`, the whole elapsed time | not executed | Ants.GameState.TimeRemainingAsWritten, Ants.TimeRemainingAsWrittenIgnoresWholeSeconds, Ants.TimeRemainingAsWrittenMissesOverrun | Ants.GameState.TimeRemaining |
