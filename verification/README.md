# Container yard engine, modelled and verified in Dafny

The container yard game keeps its yard floor in an 8×8 `int` grid. Row 0, row 7, column 0
and column 7 form a BOUNDARY frame (-1). One ENTRY (-2) and one EXIT (-3) sit on that frame.
Interior cells are VACANT (0) or hold a container's ASCII letter ('A' = 65 and up).
A container is a straight run of two or three cells along a row or a column.

The engine has five parts, and each is modelled here in the form the C code takes:

- `InitialiseFloor` fills the frame and the interior, then writes the ENTRY/EXIT pair chosen by an edge letter and an index.
- `AddContainer` computes a fresh identifier: 'A', or one more than the largest cell value.
  It then writes that identifier on a run of cells, all or nothing.
  The run starts at a row-major flat index and goes along the row or down the column.
- `LocateContainer` searches the grid row-major for a letter.
  It reports the run's end points, and whether a cell next to either end is vacant.
- `MoveContainer` either only reports on ENTRY/EXIT next to an immobile container, or slides a movable container.
  A slide goes up or left to the nearest obstruction when the cell before the container is vacant.
  Otherwise it goes down or right to the nearest obstruction.
- `FloorAreaAvailable` counts the vacant cells, and `PrintFloor` turns cells into characters.

The grid is a flat `array<int>` of 64 cells; cell (r, c) is index 8r + c, as C lays out `int floor[8][8]`.
Each method is proved against a function of the grid's old contents (`seq<int>`).
The lemmas state what the game relies on:

- the frame/interior invariant `WellFormed`, which initialisation establishes and placement and sliding keep;
- placements are all or nothing, use fresh identifiers, and are found again by the search;
- a slide keeps the container's axis, line and length, lands only on vacant cells or the container's own cells, and leaves no gap;
- a movable container always moves, and after a slide the search finds it at its destination.

Files: `grid.dfy` (cell codes, coordinates, runs), `floor.dfy`, `placement.dfy`, `locator.dfy`,
`movement.dfy`, `report.dfy`, and `yard.dfy` (lemmas across operations).

Behaviour of the code that the model keeps:

- The placement position is a flat index, so `AddContainer(floor, 28, 2, 0)` fills (3,4) and (3,5) (`Yard.MainFirstPlacement`).
  A horizontal placement that would wrap past a row end covers a frame cell. Frame cells are never vacant, so such a placement is refused (`Yard.PlacedRunCells`).
- The search passes over a match whose right-hand neighbour and lower neighbour both differ. It stops at the first match that continues to the right or downwards.
- After a slide, the outcome comes from the boundary cell at the far end of the travel. It is 2 (EXIT) even when the container stopped against another container before reaching that cell.
- The setup in `main` calls `AddContainer(floor, 42, 2, 1)` twice. Repeating a placement changes nothing (`Placement.AddIsIdempotent`), so the second call places no container and uses up no letter (`Yard.MainRepeatedPlacement`).
- `PrintFloor` shows ENTRY as 'U' and EXIT as 'X', the same characters as containers 'U' and 'X'. ENTRY and EXIT only sit on the frame and containers only inside it, so the printed floor still determines the yard (`Report.PrintedFloorDetermines`).

## Model

| member | source | states |
|---|---|---|
| `YardGrid.RunCells` | containerYardProject.c:343-347 | every cell of a run with end points in 1..6 lies inside the frame, and distinct positions along the run are distinct flat cells |
| `Floor.InitialiseFloor` | containerYardProject.c:77-123 | the floor afterwards is `InitialFloor(entryboundary, index)`: frame BOUNDARY, interior VACANT, then the ENTRY/EXIT pair for the edge letter |
| `Floor.InitialFloorShape` | containerYardProject.c:89-121 | the initial floor is well formed; every interior cell is VACANT, and every frame cell other than the ENTRY/EXIT cells is BOUNDARY |
| `Floor.InitialFloorEntryExit` | containerYardProject.c:103-121 | with 'T', 'B', 'L' or 'R' exactly one cell is ENTRY and one is EXIT: 'R' puts them at [index][7] and [index][0], 'L' at [index][0] and [index][7], 'T' at [0][index] and [7][index], 'B' at [7][index] and [0][index]; any other letter places neither |
| `Placement.Largest` | containerYardProject.c:205-214 | the running maximum started at 0 is at least 0, at least every cell, and is 0 or a cell's value |
| `Placement.NextId` | containerYardProject.c:204-217 | the identifier is at least 'A', larger than every cell, and either 'A' or one more than a value on the grid |
| `Placement.NextLetter` | containerYardProject.c:201-217 | the nested scan returns `NextId` of the floor |
| `Placement.AddContainer` | containerYardProject.c:190-242 | the floor afterwards is `AfterAdd`: unchanged if any target cell is non-vacant, otherwise the targets hold the fresh identifier and nothing else changes |
| `Placement.TargetIsTarget` | containerYardProject.c:221-227 | the n-th write lands on a target, and the first n+1 targets are the first n plus the n-th |
| `Placement.TargetsBounded` | containerYardProject.c:221-239 | when the first and last target are in the array, every target is |
| `Placement.TargetOf` | containerYardProject.c:232-239 | every target cell is the n-th write for some n below size |
| `Placement.PlacementWritesFreshRun` | containerYardProject.c:219-241 | the identifier was on no cell; after a successful placement it is on exactly the target cells, which were all vacant, and every other cell is unchanged |
| `Placement.BlockedPlacementIsNoOp` | containerYardProject.c:220-237 | one non-vacant target cell leaves the floor exactly as it was |
| `Placement.NextIdAbove` | containerYardProject.c:204-217 | a grid whose largest value is a letter hands out the following letter next |
| `Placement.PlacedIdIsLargest` | containerYardProject.c:219-241 | after a successful placement the identifier just written is the largest value on the grid |
| `Placement.NextIdAfterAdd` | containerYardProject.c:204-241 | after a successful placement the next identifier is one larger; after a refused one it is the same |
| `Placement.AddIsIdempotent` | containerYardProject.c:219-241 | placing the same container twice leaves the floor as the first placement left it |
| `Placement.AddKeepsWellFormed` | containerYardProject.c:219-241 | a placement keeps the yard well formed |
| `Locator.Location.Status` | containerYardProject.c:274-300 | -1 exactly when not found, 0 exactly for an immobile container, 1 exactly for a movable one |
| `Locator.FirstAnchor` | containerYardProject.c:259-299 | the first cell at or after k that holds the letter and whose right or lower neighbour also does, or 64 when there is none |
| `Locator.RunEnd` | containerYardProject.c:267-271 | the walk's end: every position after t up to it holds the letter, and the next one does not |
| `Locator.RunEndInside` | containerYardProject.c:266-286 | a walk that starts inside the frame and continues one step ends before the frame |
| `Locator.RunFromReports` | containerYardProject.c:265-294 | the location built at a start cell starts there and describes the run along the chosen axis (`Reports`) |
| `Locator.RunAt` | containerYardProject.c:261-294 | the location reported at an anchor starts there and describes the run (`Reports`) |
| `Locator.Locate` | containerYardProject.c:244-301 | NotFound exactly when no cell is an anchor; otherwise the start is the first anchor in row-major order, horizontal exactly when the next cell holds the letter, every cell from start to end holds the letter, the cell past the end does not, and movable exactly when the cell before the start or after the end is VACANT |
| `Locator.FirstAnchorAt` | containerYardProject.c:259-294 | when a cell holding the letter continues on its right or below and no earlier cell does, the search stops there and reports the run along the right-hand axis if that cell continues it, else downwards |
| `Locator.WalkRun` | containerYardProject.c:267-271 | the while loop ends at `RunEnd` |
| `Locator.ReportRun` | containerYardProject.c:265-294 | the walk and the neighbour test give the location `RunFrom` describes |
| `Locator.LocateContainer` | containerYardProject.c:244-301 | the nested scan returns `Locate` of the floor |
| `Locator.LocateAbsent` | containerYardProject.c:300 | a letter on no cell gives NotFound |
| `Locator.FoundAtRun` | containerYardProject.c:262-285 | the four reported coordinates of a run give that run back, and meet the straight-run shape MoveContainer expects |
| `Locator.SoleRunEnd` | containerYardProject.c:267-271 | when the letter marks exactly one run, the walk from its first cell ends at its last |
| `Locator.SoleRunAnchor` | containerYardProject.c:259-263 | when the letter marks exactly one run, no cell before the run's first cell stops the search, and the right-hand test picks the run's own axis |
| `Locator.RunLocated` | containerYardProject.c:259-294 | a run that starts at the first stopping cell and whose walk ends at its last cell is what the search reports |
| `Locator.LocateSoleRun` | containerYardProject.c:259-294 | when the letter marks exactly one run, the search reports that run's end points, movable exactly when a cell next to either end is VACANT |
| `Movement.LastObstacle` | containerYardProject.c:351-355 | the upward scan's limit: the last non-vacant position before t, with every position between vacant, or 0 |
| `Movement.FirstObstacle` | containerYardProject.c:357-362 | the downward scan's limit: the first non-vacant position after t, with every position between vacant, or 7 |
| `Movement.Destination` | containerYardProject.c:349-481 | same axis, line and length, inside rows/columns 1..6; when the cell before the start is vacant and the start is past 1, the container ends before its old start, right after an obstruction or at 1, over vacant cells; otherwise at or after its old start, right before an obstruction or at 6, over vacant cells |
| `Movement.Fill` | containerYardProject.c:343-347 | exactly the run's cells receive the value; every other cell is unchanged |
| `Movement.ScanBack` | containerYardProject.c:418-422 | the scan loop returns `LastObstacle` |
| `Movement.ScanForward` | containerYardProject.c:424-429 | the scan loop returns `FirstObstacle` |
| `Movement.LastObstacleAgrees` | containerYardProject.c:351-355 | the upward scan reads only positions before the run, so clearing the run does not change its result |
| `Movement.FirstObstacleAgrees` | containerYardProject.c:358-362 | the downward scan reads only positions past the run, so clearing the run does not change its result |
| `Movement.ScanDestination` | containerYardProject.c:350-364 | on the cleared floor, the scans give `Destination` of the old floor and whether the move goes back |
| `Movement.ProbeEnds` | containerYardProject.c:321-339 | returns 1 if a cell past either end is ENTRY, else 2 if one is EXIT, else -1 |
| `Movement.SlideContainer` | containerYardProject.c:341-483 | the floor afterwards is `AfterSlide`, and the outcome is the code of the far boundary cell in the direction of travel |
| `Movement.MoveContainer` | containerYardProject.c:303-486 | with isBlocked 0 the floor is unchanged and the result is the ENTRY/EXIT probe; otherwise the floor becomes `AfterSlide` and the result is 2, 1 or 0 from the far boundary cell |
| `Movement.SlideLandsOnVacantOrOwn` | containerYardProject.c:343-481 | the destination covers only cells that were vacant or the container's own; no other non-vacant cell changes, and nothing off the container's row or column changes |
| `Movement.MovesIffMobile` | containerYardProject.c:350-414 | with non-vacant frame cells, the container stays in place exactly when neither neighbouring cell is vacant |
| `Movement.SlideKeepsWellFormed` | containerYardProject.c:343-481 | a slide keeps the yard well formed |
| `Report.VacantCells` | containerYardProject.c:174-184 | the count is the number of VACANT cells of the floor |
| `Report.Glyph` | containerYardProject.c:140-157 | a container letter below 256 prints as itself |
| `Report.GlyphCollisions` | containerYardProject.c:140-157 | two different printable codes share a character only as ENTRY and container 'U', or EXIT and container 'X' |
| `Report.PrintedFloorDetermines` | containerYardProject.c:134-160 | two well-formed yards whose letters are below 256 and whose cells print alike are equal |
| `Report.PrintFloor` | containerYardProject.c:134-160 | 72 characters: the glyph of cell (r, c) at 9r + c, and a newline at the end of every row |
| `YardGrid.FrameEndsOccupied` | containerYardProject.c:89-100 | on a well-formed yard the frame cells at both ends of every row and column are occupied |
| `Yard.VacantTargetsInside` | containerYardProject.c:219-241 | on a well-formed yard, vacant targets lie inside the frame |
| `Yard.HorizontalPlacementInRow` | containerYardProject.c:220-229 | vacant horizontal targets lie on one row, in columns 1..6, and are exactly the cells of that run |
| `Yard.VerticalPlacementInColumn` | containerYardProject.c:232-241 | vacant vertical targets lie in one column, in rows 1..6, and are exactly the cells of that run |
| `Yard.PlacedRunCells` | containerYardProject.c:219-241 | a successful placement of two or more cells is a container run inside the frame whose cells are exactly the targets |
| `Yard.PlaceThenLocate` | containerYardProject.c:244-301 | searching for a just-placed container finds exactly its cells, starting at the placement position, on its axis |
| `Yard.LocateReportsContainer` | containerYardProject.c:259-294 | for a letter that marks one run, the search reports end points `MoveContainer` accepts, and movable exactly when a slide would move the container |
| `Yard.SlideKeepsContainer` | containerYardProject.c:343-481 | after a slide the yard is well formed, the letter marks exactly the destination, and the search finds it there |
| `Yard.StatusChoosesBranch` | containerYardProject.c:66-67 | for a letter that marks one run on a well-formed yard, the status handed to MoveContainer is 1 exactly when a slide would move the container, and 0 otherwise |
| `Yard.PlayFoundMove` | containerYardProject.c:66-67 | one turn for a letter the search finds: an immobile container leaves the floor unchanged and yields the ENTRY/EXIT probe; a movable one slides and yields the far boundary cell's code |
| `Yard.FreshFloorFirstLetter` | containerYardProject.c:204-217 | the first container placed on a freshly initialised yard receives 'A' |
| `Yard.AddKeepsCell` | containerYardProject.c:219-241 | a placement leaves every cell outside its targets as it was |
| `Yard.MainFirstPlacement` | containerYardProject.c:46-47 | `InitialiseFloor(floor, 'R', 3)` puts ENTRY at (3, 7) and EXIT at (3, 0), and `AddContainer(floor, 28, 2, 0)` writes 'A' on (3, 4) and (3, 5) |
| `Yard.SetupLeavesColumnTwo` | containerYardProject.c:46-49 | the first three placements of the setup leave (5, 2) and (6, 2) vacant |
| `Yard.PairPlacementAt42` | containerYardProject.c:50-51 | on any floor where (5, 2) and (6, 2) are vacant, the vertical pair placement at 42 puts a container on both cells, and repeating it leaves the floor as it is |
| `Yard.MainRepeatedPlacement` | containerYardProject.c:46-51 | the first `AddContainer(floor, 42, 2, 1)` puts a container on (5, 2) and (6, 2), and the repeated call places nothing |

## Left out

- `GetMove` (console input that skips non-capital characters) and `main`'s banner, status messages and game loop are console I/O and control glue.
- `LocateContainer` returns a tagged `Location`, and `Location.Status` gives C's -1, 0 or 1. `MoveContainer` keeps C's `int` isBlocked.
  `Yard.PlayFoundMove` models one turn of `main`'s loop only for a letter the search finds. When nothing is found, `main` passes -1 with stale or uninitialised coordinates, and that use is not modelled.
- `FloorAreaAvailable`'s `double` product `length * width * vacantCells` is floating point; only the integer vacant count is modelled.
- `PrintFloor`'s `printf` output is modelled as the text it would write, returned as a string.
- Undefined behaviour in C is excluded by preconditions instead of modelled:
  - an `AddContainer` target outside the 64 cells;
  - a letter on a frame cell, which would let `LocateContainer` read outside the array;
  - `MoveContainer` end points that are not a straight run of two or more cells inside rows and columns 1..6.
- `Locator.LocateContainer` models `move` as an `int` compared with the cells, as C promotes the `char`.
- `Movement.MoveContainer` handles both axes with one body parameterised by the axis. The C code has two copies, which differ only in the order they test ENTRY and EXIT on the far boundary cell; that order cannot change the result.
