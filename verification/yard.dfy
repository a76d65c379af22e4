/** How the engine's operations fit together over a game: a placed container is found where it
    was placed, a found container can be handed to MoveContainer, and after a slide the yard is
    still well formed and the container is found at its destination. */
module Yard {
  import opened YardGrid
  import opened Floor
  import opened Placement
  import opened Locator
  import opened Movement

  /** The run a successful placement occupies: size cells from flat `position`, along its row
      (direction 0) or down its column (direction 1). */
  function PlacedRun(position: int, size: int, direction: int): Run
  {
    if direction == 0 then Run(Horizontal, Row(position), Col(position), Col(position) + size - 1)
    else Run(Vertical, Col(position), Row(position), Row(position) + size - 1)
  }

  /** Targets of a placement whose cells are all vacant on a well-formed yard lie inside the frame. */
  lemma VacantTargetsInside(g: seq<int>, position: int, size: int, direction: int)
    requires WellFormed(g) && TargetsInRange(position, size, direction)
    requires (direction == 0 || direction == 1) && TargetsVacant(g, position, size, direction)
    ensures forall n :: 0 <= n < size ==> !OnFrame(Target(position, direction, n))
  {
    TargetsBounded(position, size, direction);
  }

  lemma {:induction false} HorizontalPlacementInRow(g: seq<int>, position: int, size: int)
    requires WellFormed(g) && TargetsInRange(position, size, 0)
    requires 2 <= size && TargetsVacant(g, position, size, 0)
    ensures ValidRun(PlacedRun(position, size, 0))
    ensures forall k :: 0 <= k < CELLS ==> (IsTarget(position, size, 0, k) <==> InRun(PlacedRun(position, size, 0), k))
  {
    VacantTargetsInside(g, position, size, 0);
    var c := Col(position);
    assert !OnFrame(Target(position, 0, 0));
    assert 7 - c < size ==> !OnFrame(Target(position, 0, 7 - c));
    assert Col(position + (7 - c)) == 7;
  }

  lemma {:induction false} VerticalPlacementInColumn(g: seq<int>, position: int, size: int)
    requires WellFormed(g) && TargetsInRange(position, size, 1)
    requires 2 <= size && TargetsVacant(g, position, size, 1)
    ensures ValidRun(PlacedRun(position, size, 1))
    ensures forall k :: 0 <= k < CELLS ==> (IsTarget(position, size, 1, k) <==> InRun(PlacedRun(position, size, 1), k))
  {
    VacantTargetsInside(g, position, size, 1);
    var r := Row(position);
    assert !OnFrame(Target(position, 1, 0));
    assert 7 - r < size ==> !OnFrame(Target(position, 1, 7 - r));
    assert Row(Flat(7 - r, position)) == 7;
  }

  /** On a well-formed yard a placement of two or more cells whose targets are all vacant lies
      inside the frame on one row or column: a flat run that wrapped past a row end would
      include a frame cell, and frame cells are never vacant. */
  lemma PlacedRunCells(g: seq<int>, position: int, size: int, direction: int)
    requires WellFormed(g) && TargetsInRange(position, size, direction)
    requires (direction == 0 || direction == 1) && 2 <= size && TargetsVacant(g, position, size, direction)
    ensures ValidRun(PlacedRun(position, size, direction))
    ensures forall k :: 0 <= k < CELLS ==>
      (IsTarget(position, size, direction, k) <==> InRun(PlacedRun(position, size, direction), k))
  {
    if direction == 0 {
      HorizontalPlacementInRow(g, position, size);
    } else {
      VerticalPlacementInColumn(g, position, size);
    }
  }

  /** Placing a container and then searching for its identifier finds exactly the cells it
      was placed on, on the axis it was placed along. */
  lemma PlaceThenLocate(g: seq<int>, position: int, size: int, direction: int)
    requires WellFormed(g) && TargetsInRange(position, size, direction)
    requires (direction == 0 || direction == 1) && 2 <= size && TargetsVacant(g, position, size, direction)
    ensures FrameFree(AfterAdd(g, position, size, direction), NextId(g))
    ensures Locate(AfterAdd(g, position, size, direction), NextId(g)).Found?
    ensures Locate(AfterAdd(g, position, size, direction), NextId(g)) ==
      FoundAt(PlacedRun(position, size, direction), Locate(AfterAdd(g, position, size, direction), NextId(g)).movable)
    ensures Flat(Locate(AfterAdd(g, position, size, direction), NextId(g)).rowStart,
                 Locate(AfterAdd(g, position, size, direction), NextId(g)).colStart) == position
  {
    PlacedRunCells(g, position, size, direction);
    PlacementWritesFreshRun(g, position, size, direction);
    var run := PlacedRun(position, size, direction);
    LocateSoleRun(AfterAdd(g, position, size, direction), NextId(g), run);
  }

  /** A well-formed yard in which `move` marks exactly one container run: the search reports
      that run with end points MoveContainer accepts, and the container is movable exactly when
      a slide would change its place. */
  lemma LocateReportsContainer(g: seq<int>, move: int, run: Run)
    requires WellFormed(g) && ValidRun(run)
    requires forall k :: 0 <= k < CELLS ==> (g[k] == move <==> InRun(run, k))
    ensures FrameFree(g, move)
    ensures Locate(g, move).Found? && LocatedRun(Locate(g, move)) == run
    ensures IsRunCoords(Locate(g, move).rowStart, Locate(g, move).colStart, Locate(g, move).rowEnd, Locate(g, move).colEnd)
    ensures Locate(g, move).movable <==> Destination(g, run) != run
  {
    LocateSoleRun(g, move, run);
    FoundAtRun(run, g[At(run.axis, run.line, run.lo - 1)] == VACANT || g[At(run.axis, run.line, run.hi + 1)] == VACANT);
    FrameEndsOccupied(g, run.axis, run.line);
    MovesIffMobile(g, run);
  }

  /** Sliding a container keeps the yard well formed, and the container's letter then marks
      exactly its destination, where the search finds it. */
  lemma {:induction false} SlideKeepsContainer(g: seq<int>, move: int, run: Run)
    requires WellFormed(g) && move >= FIRST_LETTER && ValidRun(run)
    requires forall k :: 0 <= k < CELLS ==> (g[k] == move <==> InRun(run, k))
    ensures WellFormed(AfterSlide(g, run))
    ensures forall k :: 0 <= k < CELLS ==> (AfterSlide(g, run)[k] == move <==> InRun(Destination(g, run), k))
    ensures FrameFree(AfterSlide(g, run), move)
    ensures Locate(AfterSlide(g, run), move).Found?
    ensures LocatedRun(Locate(AfterSlide(g, run), move)) == Destination(g, run)
  {
    var d := Destination(g, run);
    var g' := AfterSlide(g, run);
    RunCells(run);
    RunCells(d);
    assert g[At(run.axis, run.line, run.lo)] == move;
    forall k | 0 <= k < CELLS
      ensures (g'[k] == move <==> InRun(d, k))
      ensures if OnFrame(k) then g'[k] == BOUNDARY || g'[k] == ENTRY || g'[k] == EXIT
              else g'[k] == VACANT || g'[k] >= FIRST_LETTER
    {
    }
    LocateSoleRun(g', move, d);
  }

  /** For a letter that marks one container run on a well-formed yard, the status the search
      returns is 1 exactly when a slide would move the container and 0 otherwise, so
      MoveContainer probes an immobile container and slides a movable one. */
  lemma StatusChoosesBranch(g: seq<int>, move: int, run: Run)
    requires WellFormed(g) && ValidRun(run)
    requires forall k :: 0 <= k < CELLS ==> (g[k] == move <==> InRun(run, k))
    ensures FrameFree(g, move)
    ensures Locate(g, move).Status() == (if Destination(g, run) != run then 1 else 0)
  {
    LocateReportsContainer(g, move, run);
  }

  /** One turn of the game loop for a letter the search finds: LocateContainer, then
      MoveContainer with the status as isBlocked. An immobile container only has its ends
      probed; a movable one slides. */
  method PlayFoundMove(floor: array<int>, move: int) returns (loc: Location, outcome: int)
    requires floor.Length == CELLS && FrameFree(floor[..], move) && Locate(floor[..], move).Found?
    modifies floor
    ensures loc == Locate(old(floor[..]), move)
    ensures !loc.movable ==>
      floor[..] == old(floor[..]) && outcome == Probe(old(floor[..]), LocatedRun(loc))
    ensures loc.movable ==>
      floor[..] == AfterSlide(old(floor[..]), LocatedRun(loc)) && outcome == SlideOutcome(old(floor[..]), LocatedRun(loc))
  {
    loc := LocateContainer(floor, move);
    outcome := MoveContainer(floor, loc.rowStart, loc.colStart, loc.rowEnd, loc.colEnd, loc.Status());
  }

  /** The first container placed on a fresh yard receives 'A'. */
  lemma FreshFloorFirstLetter(edge: char, index: int)
    requires KnownEdge(edge) ==> 0 <= index < 8
    ensures NextId(InitialFloor(edge, index)) == FIRST_LETTER
  {
    InitialFloorShape(edge, index);
    var g := InitialFloor(edge, index);
    assert forall k :: 0 <= k < CELLS ==> g[k] <= VACANT;
  }

  /** A placement leaves every cell outside its targets as it was. */
  lemma AddKeepsCell(g: seq<int>, position: int, size: int, direction: int, k: int)
    requires |g| == CELLS && TargetsInRange(position, size, direction)
    requires 0 <= k < CELLS && !IsTarget(position, size, direction, k)
    ensures AfterAdd(g, position, size, direction)[k] == g[k]
  {
  }

  /** The start of the setup in `main`: ENTRY at (3, 7), EXIT at (3, 0), and the first
      placement writing 'A' on (3, 4) and (3, 5). */
  lemma MainFirstPlacement()
    ensures InitialFloor('R', 3)[Flat(3, 7)] == ENTRY && InitialFloor('R', 3)[Flat(3, 0)] == EXIT
    ensures AfterAdd(InitialFloor('R', 3), 28, 2, 0)[Flat(3, 4)] == 'A' as int
    ensures AfterAdd(InitialFloor('R', 3), 28, 2, 0)[Flat(3, 5)] == 'A' as int
  {
    var g0 := InitialFloor('R', 3);
    FreshFloorFirstLetter('R', 3);
    assert g0[28] == VACANT && g0[29] == VACANT;
    assert TargetsVacant(g0, 28, 2, 0) by {
      assert forall n :: 0 <= n < 2 ==> g0[Target(28, 0, n)] == VACANT;
    }
  }

  /** Cells (5, 2) and (6, 2) are still vacant after the first three placements of `main`. */
  lemma SetupLeavesColumnTwo()
    ensures AfterAdd(AfterAdd(AfterAdd(InitialFloor('R', 3), 28, 2, 0), 11, 3, 1), 41, 2, 1)[42] == VACANT
    ensures AfterAdd(AfterAdd(AfterAdd(InitialFloor('R', 3), 28, 2, 0), 11, 3, 1), 41, 2, 1)[50] == VACANT
  {
    var g0 := InitialFloor('R', 3);
    assert g0[42] == VACANT && g0[50] == VACANT;
    var g1 := AfterAdd(g0, 28, 2, 0);
    AddKeepsCell(g0, 28, 2, 0, 42);
    AddKeepsCell(g0, 28, 2, 0, 50);
    var g2 := AfterAdd(g1, 11, 3, 1);
    AddKeepsCell(g1, 11, 3, 1, 42);
    AddKeepsCell(g1, 11, 3, 1, 50);
    AddKeepsCell(g2, 41, 2, 1, 42);
    AddKeepsCell(g2, 41, 2, 1, 50);
  }

  /** A vertical pair placement at flat index 42 on a floor where (5, 2) and (6, 2) are vacant
      puts a container there, and repeating it places nothing. */
  lemma PairPlacementAt42(g: seq<int>)
    requires |g| == CELLS && g[42] == VACANT && g[50] == VACANT
    ensures AfterAdd(g, 42, 2, 1)[42] >= FIRST_LETTER && AfterAdd(g, 42, 2, 1)[50] >= FIRST_LETTER
    ensures AfterAdd(AfterAdd(g, 42, 2, 1), 42, 2, 1) == AfterAdd(g, 42, 2, 1)
  {
    assert TargetsVacant(g, 42, 2, 1) by {
      assert Target(42, 1, 0) == 42 && Target(42, 1, 1) == 50;
    }
    PlacementWritesFreshRun(g, 42, 2, 1);
    assert IsTarget(42, 2, 1, 42) && IsTarget(42, 2, 1, 50);
    AddIsIdempotent(g, 42, 2, 1);
  }

  /** The repeated call in the setup of `main`: after the placements at flat indices 28, 11
      and 41, the placement at 42 puts a container on (5, 2) and (6, 2), and repeating it
      places nothing. */
  lemma MainRepeatedPlacement(g3: seq<int>)
    requires g3 == AfterAdd(AfterAdd(AfterAdd(InitialFloor('R', 3), 28, 2, 0), 11, 3, 1), 41, 2, 1)
    ensures g3[Flat(5, 2)] == VACANT && g3[Flat(6, 2)] == VACANT
    ensures AfterAdd(g3, 42, 2, 1)[Flat(5, 2)] >= FIRST_LETTER && AfterAdd(g3, 42, 2, 1)[Flat(6, 2)] >= FIRST_LETTER
    ensures AfterAdd(AfterAdd(g3, 42, 2, 1), 42, 2, 1) == AfterAdd(g3, 42, 2, 1)
  {
    SetupLeavesColumnTwo();
    PairPlacementAt42(g3);
  }
}
