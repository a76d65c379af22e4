/** MoveContainer: an immobile container only reports whether ENTRY or EXIT lies past one of
    its ends; a movable one is lifted and slid along its own row or column, up or left to the
    nearest obstruction when the cell before it is vacant, otherwise down or right to the
    nearest obstruction, and the boundary cell at the far end of the travel gives the outcome. */
module Movement {
  import opened YardGrid

  /** Outcome read from a boundary cell: 2 for EXIT, 1 for ENTRY, 0 otherwise. */
  function ArrivalCode(v: int): int
  {
    if v == EXIT then 2 else if v == ENTRY then 1 else 0
  }

  /** The outcome for an immobile container: 1 when ENTRY lies just past either end,
      otherwise 2 when EXIT does, otherwise -1. */
  function Probe(g: seq<int>, run: Run): int
    requires |g| == CELLS && ValidRun(run)
  {
    var before, after := g[At(run.axis, run.line, run.lo - 1)], g[At(run.axis, run.line, run.hi + 1)];
    if before == ENTRY || after == ENTRY then 1
    else if before == EXIT || after == EXIT then 2
    else -1
  }

  /** The container slides back (up or left) when it is not already at position 1 and the
      cell just before its start is vacant. */
  predicate SlidesBack(g: seq<int>, run: Run)
    requires |g| == CELLS && ValidRun(run)
  {
    run.lo > 1 && g[At(run.axis, run.line, run.lo - 1)] == VACANT
  }

  /** The nearest non-vacant position before t on the line, looking no further than
      position 1; 0 (the frame) when positions 1 .. t-1 are all vacant. */
  function LastObstacle(g: seq<int>, axis: Axis, line: int, t: int): (l: int)
    requires |g| == CELLS && 0 <= line < 8 && 1 <= t <= 7
    ensures 0 <= l < t
    ensures l > 0 ==> g[At(axis, line, l)] != VACANT
    ensures forall u :: l < u < t ==> g[At(axis, line, u)] == VACANT
    decreases t
  {
    if t == 1 then 0
    else if g[At(axis, line, t - 1)] != VACANT then t - 1
    else LastObstacle(g, axis, line, t - 1)
  }

  /** The nearest non-vacant position after t on the line, looking no further than
      position 6; 7 (the frame) when positions t+1 .. 6 are all vacant. */
  function FirstObstacle(g: seq<int>, axis: Axis, line: int, t: int): (f: int)
    requires |g| == CELLS && 0 <= line < 8 && 0 <= t <= 6
    ensures t < f <= 7
    ensures f < 7 ==> g[At(axis, line, f)] != VACANT
    ensures forall u :: t < u < f ==> g[At(axis, line, u)] == VACANT
    decreases 7 - t
  {
    if t == 6 then 7
    else if g[At(axis, line, t + 1)] != VACANT then t + 1
    else FirstObstacle(g, axis, line, t + 1)
  }

  /** Where a movable container comes to rest: same axis, line and length, inside the frame;
      when sliding back it ends up before its old start, over vacant cells only, right after
      an obstruction or at position 1; otherwise it ends up at or after its old start, over
      vacant cells only past its old end, right before an obstruction or at position 6. */
  function Destination(g: seq<int>, run: Run): (d: Run)
    requires |g| == CELLS && ValidRun(run)
    ensures ValidRun(d) && d.axis == run.axis && d.line == run.line && d.hi - d.lo == run.hi - run.lo
    ensures SlidesBack(g, run) ==>
      d.lo < run.lo && (d.lo == 1 || g[At(d.axis, d.line, d.lo - 1)] != VACANT) &&
      forall t :: d.lo <= t < run.lo ==> g[At(d.axis, d.line, t)] == VACANT
    ensures !SlidesBack(g, run) ==>
      run.lo <= d.lo && (d.hi == 6 || g[At(d.axis, d.line, d.hi + 1)] != VACANT) &&
      forall t :: run.hi < t <= d.hi ==> g[At(d.axis, d.line, t)] == VACANT
  {
    var size := run.hi - run.lo;
    if SlidesBack(g, run) then
      var l := LastObstacle(g, run.axis, run.line, run.lo);
      Run(run.axis, run.line, l + 1, l + 1 + size)
    else
      var f := FirstObstacle(g, run.axis, run.line, run.hi);
      Run(run.axis, run.line, f - 1 - size, f - 1)
  }

  /** The outcome of a slide: the code of the boundary cell at the end of the line in the
      direction of travel, wherever the container stopped. */
  function SlideOutcome(g: seq<int>, run: Run): int
    requires |g| == CELLS && ValidRun(run)
  {
    ArrivalCode(g[At(run.axis, run.line, if SlidesBack(g, run) then 0 else 7)])
  }

  /** The grid after a slide: the container's letter (taken from its start cell) on the
      destination, its old cells vacant, every other cell as it was. */
  function AfterSlide(g: seq<int>, run: Run): seq<int>
    requires |g| == CELLS && ValidRun(run)
  {
    var d := Destination(g, run);
    var letter := g[At(run.axis, run.line, run.lo)];
    seq(CELLS, k requires 0 <= k < CELLS =>
      if InRun(d, k) then letter else if InRun(run, k) then VACANT else g[k])
  }

  lemma RunExtend(axis: Axis, line: int, lo: int, t: int)
    requires 1 <= line <= 6 && 1 <= lo <= t <= 6
    ensures forall k :: InRun(Run(axis, line, lo, t), k) <==>
      InRun(Run(axis, line, lo, t - 1), k) || k == At(axis, line, t)
  {
    AtCoords(axis, line, t);
    forall k | 0 <= k < CELLS
      ensures InRun(Run(axis, line, lo, t), k) <==> InRun(Run(axis, line, lo, t - 1), k) || k == At(axis, line, t)
    {
      AtOf(axis, k);
    }
  }

  /** Writes v on every cell of the run: the clearing loop and the rewriting loops. */
  method Fill(floor: array<int>, run: Run, v: int)
    requires floor.Length == CELLS && ValidRun(run)
    modifies floor
    ensures forall k :: 0 <= k < CELLS ==> floor[k] == if InRun(run, k) then v else old(floor[k])
  {
    var t := run.lo;
    while t <= run.hi
      invariant run.lo <= t <= run.hi + 1
      invariant forall k :: 0 <= k < CELLS ==>
        floor[k] == if InRun(Run(run.axis, run.line, run.lo, t - 1), k) then v else old(floor[k])
    {
      RunExtend(run.axis, run.line, run.lo, t);
      floor[At(run.axis, run.line, t)] := v;
      t := t + 1;
    }
  }

  /** The upward (leftward) scan: the last non-vacant position among 1 .. t-1, or 0. */
  method ScanBack(floor: array<int>, axis: Axis, line: int, t: int) returns (limit: int)
    requires floor.Length == CELLS && 1 <= line <= 6 && 2 <= t <= 6
    ensures limit == LastObstacle(floor[..], axis, line, t)
  {
    limit := 0;
    var i := 1;
    while i < t
      invariant 1 <= i <= t
      invariant limit == LastObstacle(floor[..], axis, line, i)
    {
      AtCoords(axis, line, i);
      if floor[At(axis, line, i)] != VACANT {
        limit := i;
      }
      i := i + 1;
    }
  }

  /** The downward (rightward) scan from position 6 back to t+1: the first non-vacant
      position after t, or 7. */
  method ScanForward(floor: array<int>, axis: Axis, line: int, t: int) returns (limit: int)
    requires floor.Length == CELLS && 1 <= line <= 6 && 1 <= t <= 6
    ensures limit == FirstObstacle(floor[..], axis, line, t)
  {
    limit := 7;
    var i := 6;
    while i > t
      invariant t <= i <= 6
      invariant limit == FirstObstacle(floor[..], axis, line, i)
    {
      AtCoords(axis, line, i);
      if floor[At(axis, line, i)] != VACANT {
        limit := i;
      }
      i := i - 1;
    }
  }

  /** The scans read only the positions on their side of the run, so clearing the run does not change them. */
  lemma {:induction false} LastObstacleAgrees(g: seq<int>, h: seq<int>, axis: Axis, line: int, t: int)
    requires |g| == CELLS && |h| == CELLS && 0 <= line < 8 && 1 <= t <= 7
    requires forall u :: 1 <= u < t ==> g[At(axis, line, u)] == h[At(axis, line, u)]
    ensures LastObstacle(g, axis, line, t) == LastObstacle(h, axis, line, t)
    decreases t
  {
    if t > 1 {
      LastObstacleAgrees(g, h, axis, line, t - 1);
    }
  }

  lemma {:induction false} FirstObstacleAgrees(g: seq<int>, h: seq<int>, axis: Axis, line: int, t: int)
    requires |g| == CELLS && |h| == CELLS && 0 <= line < 8 && 0 <= t <= 6
    requires forall u :: t < u <= 6 ==> g[At(axis, line, u)] == h[At(axis, line, u)]
    ensures FirstObstacle(g, axis, line, t) == FirstObstacle(h, axis, line, t)
    decreases 7 - t
  {
    if t < 6 {
      FirstObstacleAgrees(g, h, axis, line, t + 1);
    }
  }

  /** The scans of a movable container, run on the floor after its cells were cleared:
      where it comes to rest, and whether it travels back (up or left). */
  method ScanDestination(floor: array<int>, run: Run, ghost g: seq<int>) returns (d: Run, back: bool)
    requires floor.Length == CELLS && |g| == CELLS && ValidRun(run)
    requires forall k :: 0 <= k < CELLS ==> floor[k] == if InRun(run, k) then VACANT else g[k]
    ensures d == Destination(g, run) && back == SlidesBack(g, run)
  {
    var axis, line, size := run.axis, run.line, run.hi - run.lo;
    // up or left when the start is past position 1 and the last obstruction is not right before it
    back := false;
    var limit := 0;
    if run.lo > 1 {
      limit := ScanBack(floor, axis, line, run.lo);
      forall u | 1 <= u < run.lo ensures g[At(axis, line, u)] == floor[..][At(axis, line, u)] {
        AtCoords(axis, line, u);
      }
      LastObstacleAgrees(g, floor[..], axis, line, run.lo);
      back := limit != run.lo - 1;
    }
    if back {
      d := Run(axis, line, limit + 1, limit + 1 + size);
    } else {
      limit := ScanForward(floor, axis, line, run.hi);
      forall u | run.hi < u <= 6 ensures g[At(axis, line, u)] == floor[..][At(axis, line, u)] {
        AtCoords(axis, line, u);
      }
      FirstObstacleAgrees(g, floor[..], axis, line, run.hi);
      d := Run(axis, line, limit - 1 - size, limit - 1);
    }
  }

  /** The isBlocked == 0 branch: looks past both ends of the run and changes nothing. */
  method ProbeEnds(floor: array<int>, run: Run) returns (outcome: int)
    requires floor.Length == CELLS && ValidRun(run)
    ensures outcome == Probe(floor[..], run)
  {
    var before, after := floor[At(run.axis, run.line, run.lo - 1)], floor[At(run.axis, run.line, run.hi + 1)];
    if before == ENTRY || after == ENTRY {
      outcome := 1;
    } else if before == EXIT || after == EXIT {
      outcome := 2;
    } else {
      outcome := -1;
    }
  }

  /** The isBlocked != 0 branch: clear the run, find where it comes to rest, rewrite it there
      and read the boundary cell at the end of the travel. */
  method SlideContainer(floor: array<int>, run: Run) returns (outcome: int)
    requires floor.Length == CELLS && ValidRun(run)
    modifies floor
    ensures floor[..] == AfterSlide(old(floor[..]), run) && outcome == SlideOutcome(old(floor[..]), run)
  {
    ghost var g := floor[..];
    AtCoords(run.axis, run.line, run.lo);
    var letter := floor[At(run.axis, run.line, run.lo)];
    Fill(floor, run, VACANT);
    var d, back := ScanDestination(floor, run, g);
    Fill(floor, d, letter);
    var farEnd := if back then 0 else 7;
    AtCoords(run.axis, run.line, farEnd);
    var far := floor[At(run.axis, run.line, farEnd)];
    assert far == g[At(run.axis, run.line, farEnd)];
    if far == EXIT {
      outcome := 2;
    } else if far == ENTRY {
      outcome := 1;
    } else {
      outcome := 0;
    }
    assert floor[..] == AfterSlide(g, run);
  }

  /** Moves the container with end points (r0, c0) .. (r1, c1): a run whose rows differ is
      vertical in column c0, otherwise horizontal in row r0. */
  method MoveContainer(floor: array<int>, r0: int, c0: int, r1: int, c1: int, isBlocked: int) returns (outcome: int)
    requires floor.Length == CELLS && IsRunCoords(r0, c0, r1, c1)
    modifies floor
    ensures isBlocked == 0 ==>
      floor[..] == old(floor[..]) && outcome == Probe(old(floor[..]), RunOf(r0, c0, r1, c1))
    ensures isBlocked != 0 ==>
      floor[..] == AfterSlide(old(floor[..]), RunOf(r0, c0, r1, c1)) &&
      outcome == SlideOutcome(old(floor[..]), RunOf(r0, c0, r1, c1))
  {
    var run := RunOf(r0, c0, r1, c1);
    if isBlocked == 0 {
      outcome := ProbeEnds(floor, run);
    } else {
      outcome := SlideContainer(floor, run);
    }
  }

  /** A slide lands only on cells that were vacant or the container's own, so no other
      container is overwritten, and nothing off the container's row or column changes. */
  lemma SlideLandsOnVacantOrOwn(g: seq<int>, run: Run)
    requires |g| == CELLS && ValidRun(run)
    ensures forall k :: InRun(Destination(g, run), k) ==> g[k] == VACANT || InRun(run, k)
    ensures forall k :: 0 <= k < CELLS && g[k] != VACANT && !InRun(run, k) ==> AfterSlide(g, run)[k] == g[k]
    ensures forall k :: 0 <= k < CELLS && Across(run.axis, k) != run.line ==> AfterSlide(g, run)[k] == g[k]
  {
    var d := Destination(g, run);
    forall k | InRun(d, k)
      ensures g[k] == VACANT || InRun(run, k)
    {
      AtOf(run.axis, k);
      var t := Along(run.axis, k);
      assert k == At(run.axis, run.line, t);
    }
  }

  /** With non-vacant frame cells at both ends of the line, a container stays where it is
      exactly when neither cell next to its ends is vacant: a movable container always moves. */
  lemma {:induction false} MovesIffMobile(g: seq<int>, run: Run)
    requires |g| == CELLS && ValidRun(run)
    requires g[At(run.axis, run.line, 0)] != VACANT && g[At(run.axis, run.line, 7)] != VACANT
    ensures Destination(g, run) == run <==>
      g[At(run.axis, run.line, run.lo - 1)] != VACANT && g[At(run.axis, run.line, run.hi + 1)] != VACANT
  {
    var d := Destination(g, run);
    var before, after := g[At(run.axis, run.line, run.lo - 1)], g[At(run.axis, run.line, run.hi + 1)];
    if before != VACANT && after != VACANT {
      assert !SlidesBack(g, run);
      assert FirstObstacle(g, run.axis, run.line, run.hi) == run.hi + 1;
    } else if SlidesBack(g, run) {
      assert d.lo < run.lo;
    } else {
      assert after == VACANT;
      assert FirstObstacle(g, run.axis, run.line, run.hi) > run.hi + 1;
    }
  }

  /** A slide keeps the yard well formed: both the old and the new run lie inside the frame,
      and what is written there is VACANT or the letter taken from an interior cell. */
  lemma {:induction false} SlideKeepsWellFormed(g: seq<int>, run: Run)
    requires WellFormed(g) && ValidRun(run)
    ensures WellFormed(AfterSlide(g, run))
  {
    var d := Destination(g, run);
    var g' := AfterSlide(g, run);
    RunCells(run);
    RunCells(d);
    var letter := g[At(run.axis, run.line, run.lo)];
    assert letter == VACANT || letter >= FIRST_LETTER;
    forall k | 0 <= k < CELLS
      ensures if OnFrame(k) then g'[k] == BOUNDARY || g'[k] == ENTRY || g'[k] == EXIT
              else g'[k] == VACANT || g'[k] >= FIRST_LETTER
    {
    }
  }
}
