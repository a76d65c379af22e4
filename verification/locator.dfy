/** LocateContainer: a row-major search for a container letter that reports the run's end
    points and whether a cell next to either end, along its axis, is vacant. */
module Locator {
  import opened YardGrid

  /** LocateContainer's four output parameters and its return value (-1, 0 or 1) as one result. */
  datatype Location = NotFound | Found(rowStart: int, colStart: int, rowEnd: int, colEnd: int, movable: bool)
  {
    /** The C return value: -1 when not found, 1 when movable, 0 otherwise. */
    function Status(): (s: int)
      ensures s == -1 <==> NotFound?
      ensures s == 0 <==> Found? && !movable
      ensures s == 1 <==> Found? && movable
    {
      match this
      case NotFound => -1
      case Found(_, _, _, _, movable) => if movable then 1 else 0
    }
  }

  /** The letter never sits on the frame: every cell the search reads is then inside the array. */
  predicate FrameFree(g: seq<int>, move: int)
  {
    |g| == CELLS &&
    forall r, c :: 0 <= r < 8 && 0 <= c < 8 && (r == 0 || r == 7 || c == 0 || c == 7) ==> g[Flat(r, c)] != move
  }

  /** A cell holding the letter whose right-hand neighbour or the cell below also holds it:
      the first such cell is where the search stops (a lone match is passed over). */
  predicate Anchor(g: seq<int>, move: int, k: int)
    requires |g| == CELLS
  {
    0 <= k && k + 8 < CELLS && g[k] == move && (g[k + 1] == move || g[k + 8] == move)
  }

  /** The first anchor at or after k in row-major order, or CELLS when there is none. */
  function FirstAnchor(g: seq<int>, move: int, k: int): (a: int)
    requires |g| == CELLS && 0 <= k <= CELLS
    ensures k <= a <= CELLS
    ensures a < CELLS ==> Anchor(g, move, a)
    ensures forall j :: k <= j < a ==> !Anchor(g, move, j)
    decreases CELLS - k
  {
    if k == CELLS then CELLS
    else if Anchor(g, move, k) then k
    else FirstAnchor(g, move, k + 1)
  }

  /** The last position e >= t such that positions t+1 .. e along the line all hold the letter. */
  function RunEnd(g: seq<int>, move: int, axis: Axis, line: int, t: int): (e: int)
    requires |g| == CELLS && 0 <= line < 8 && 0 <= t < 8
    ensures t <= e < 8
    ensures forall u :: t < u <= e ==> g[At(axis, line, u)] == move
    ensures e < 7 ==> g[At(axis, line, e + 1)] != move
    decreases 8 - t
  {
    if t < 7 && g[At(axis, line, t + 1)] == move then RunEnd(g, move, axis, line, t + 1) else t
  }

  /** The run described by a Found location. */
  function LocatedRun(loc: Location): Run
    requires loc.Found?
  {
    RunOf(loc.rowStart, loc.colStart, loc.rowEnd, loc.colEnd)
  }

  /** The Found location whose end points are those of `run`. */
  function FoundAt(run: Run, movable: bool): Location
  {
    if run.axis == Horizontal then Found(run.line, run.lo, run.line, run.hi, movable)
    else Found(run.lo, run.line, run.hi, run.line, movable)
  }

  /** FoundAt and LocatedRun are inverse on container runs, and a run's end points meet IsRunCoords. */
  lemma FoundAtRun(run: Run, movable: bool)
    requires ValidRun(run)
    ensures FoundAt(run, movable).Found? && LocatedRun(FoundAt(run, movable)) == run
    ensures FoundAt(run, movable).movable == movable
    ensures Flat(FoundAt(run, movable).rowStart, FoundAt(run, movable).colStart) == At(run.axis, run.line, run.lo)
    ensures IsRunCoords(FoundAt(run, movable).rowStart, FoundAt(run, movable).colStart,
                        FoundAt(run, movable).rowEnd, FoundAt(run, movable).colEnd)
  {
  }

  /** A Found location describes a container run of `move`: its end points lie inside the
      frame on one line, the run is horizontal exactly when the start's right-hand neighbour
      holds the letter, every cell from start to end holds it and the cell just past the end
      does not, and it is movable exactly when the cell before the start or after the end is vacant. */
  predicate Reports(g: seq<int>, move: int, loc: Location)
    requires |g| == CELLS && loc.Found?
  {
    var run := LocatedRun(loc);
    IsRunCoords(loc.rowStart, loc.colStart, loc.rowEnd, loc.colEnd) &&
    (run.axis == Horizontal <==> g[Flat(loc.rowStart, loc.colStart) + 1] == move) &&
    (forall t :: run.lo <= t <= run.hi ==> g[At(run.axis, run.line, t)] == move) &&
    g[At(run.axis, run.line, run.hi + 1)] != move &&
    (loc.movable <==>
      g[At(run.axis, run.line, run.lo - 1)] == VACANT || g[At(run.axis, run.line, run.hi + 1)] == VACANT)
  }

  /** The run walked from position t to its end e, with the vacancy test at both ends, satisfies Reports. */
  lemma WalkReports(g: seq<int>, move: int, axis: Axis, line: int, t: int, e: int)
    requires |g| == CELLS && 1 <= line <= 6 && 1 <= t < e <= 6
    requires forall u :: t <= u <= e ==> g[At(axis, line, u)] == move
    requires g[At(axis, line, e + 1)] != move
    requires axis == Vertical ==> g[At(axis, line, t) + 1] != move
    ensures Reports(g, move, FoundAt(Run(axis, line, t, e),
                                     g[At(axis, line, t - 1)] == VACANT || g[At(axis, line, e + 1)] == VACANT))
  {
    assert g[At(axis, line, t + 1)] == move;
    FoundAtRun(Run(axis, line, t, e), g[At(axis, line, t - 1)] == VACANT || g[At(axis, line, e + 1)] == VACANT);
  }

  /** The run that continues the letter at position t onto position t + 1 ends inside the frame. */
  lemma RunEndInside(g: seq<int>, move: int, axis: Axis, line: int, t: int)
    requires FrameFree(g, move) && 1 <= line <= 6 && 1 <= t <= 6
    requires g[At(axis, line, t + 1)] == move
    ensures t < RunEnd(g, move, axis, line, t) <= 6
  {
    AtCoords(axis, line, 7);
    AtCoords(axis, line, t + 1);
  }

  /** The location of the run that starts at position t of `line` and continues along `axis`:
      the walk's end point and the neighbour test. */
  function RunFrom(g: seq<int>, move: int, axis: Axis, line: int, t: int): (loc: Location)
    requires FrameFree(g, move) && 1 <= line <= 6 && 1 <= t <= 6
    requires g[At(axis, line, t + 1)] == move
  {
    RunEndInside(g, move, axis, line, t);
    var e := RunEnd(g, move, axis, line, t);
    FoundAt(Run(axis, line, t, e), g[At(axis, line, t - 1)] == VACANT || g[At(axis, line, e + 1)] == VACANT)
  }

  lemma RunFromReports(g: seq<int>, move: int, axis: Axis, line: int, t: int)
    requires FrameFree(g, move) && 1 <= line <= 6 && 1 <= t <= 6
    requires g[At(axis, line, t)] == move && g[At(axis, line, t + 1)] == move
    requires axis == Vertical ==> g[At(axis, line, t) + 1] != move
    ensures RunFrom(g, move, axis, line, t).Found?
    ensures Flat(RunFrom(g, move, axis, line, t).rowStart, RunFrom(g, move, axis, line, t).colStart) == At(axis, line, t)
    ensures Reports(g, move, RunFrom(g, move, axis, line, t))
  {
    RunEndInside(g, move, axis, line, t);
    var e := RunEnd(g, move, axis, line, t);
    WalkReports(g, move, axis, line, t, e);
    FoundAtRun(Run(axis, line, t, e), g[At(axis, line, t - 1)] == VACANT || g[At(axis, line, e + 1)] == VACANT);
  }

  /** What the search reports once it stops at anchor s. */
  function RunAt(g: seq<int>, move: int, s: int): (loc: Location)
    requires FrameFree(g, move) && 0 <= s < CELLS && Anchor(g, move, s)
    ensures loc.Found? && Flat(loc.rowStart, loc.colStart) == s && Reports(g, move, loc)
  {
    assert Flat(Row(s), Col(s)) == s;
    Neighbours(s);
    var axis := if g[s + 1] == move then Horizontal else Vertical;
    RunFromReports(g, move, axis, Across(axis, s), Along(axis, s));
    RunFrom(g, move, axis, Across(axis, s), Along(axis, s))
  }

  /** What LocateContainer reports for `move` on grid g: not found when no cell is an anchor,
      otherwise the run that starts at the first anchor in row-major order. */
  function Locate(g: seq<int>, move: int): (loc: Location)
    requires FrameFree(g, move)
    ensures loc.NotFound? <==> forall k :: 0 <= k < CELLS ==> !Anchor(g, move, k)
    ensures loc.Found? ==>
      Anchor(g, move, Flat(loc.rowStart, loc.colStart)) &&
      (forall k :: 0 <= k < Flat(loc.rowStart, loc.colStart) ==> !Anchor(g, move, k)) &&
      Reports(g, move, loc)
  {
    var s := FirstAnchor(g, move, 0);
    if s == CELLS then NotFound else RunAt(g, move, s)
  }

  /** The end of the run that starts at position t: the walk of LocateContainer along one axis. */
  method WalkRun(floor: array<int>, move: int, axis: Axis, line: int, t: int) returns (e: int)
    requires FrameFree(floor[..], move) && 1 <= line <= 6 && 1 <= t <= 6
    requires floor[At(axis, line, t)] == move
    ensures e == RunEnd(floor[..], move, axis, line, t)
  {
    var n := 0;
    e := t;
    while floor[At(axis, line, t + n)] == move
      invariant 0 <= n && t + n <= 7
      invariant forall u :: t <= u < t + n ==> floor[At(axis, line, u)] == move
      invariant n > 0 ==> e == t + n - 1
      invariant n == 0 ==> e == t
      decreases 7 - t - n
    {
      AtCoords(axis, line, t + n);
      e := t + n;
      n := n + 1;
    }
    AtCoords(axis, line, t + n);
  }

  /** The search stops at the first anchor, and reports there the run along the axis on
      which the anchor's next cell holds the letter, the right-hand one taking precedence. */
  lemma FirstAnchorAt(g: seq<int>, move: int, axis: Axis, line: int, t: int)
    requires FrameFree(g, move) && 1 <= line <= 6 && 1 <= t <= 6
    requires g[At(axis, line, t)] == move && g[At(axis, line, t + 1)] == move
    requires axis == Vertical ==> g[At(axis, line, t) + 1] != move
    requires forall k :: 0 <= k < At(axis, line, t) ==> !Anchor(g, move, k)
    ensures Locate(g, move) == RunFrom(g, move, axis, line, t)
  {
    var s := At(axis, line, t);
    AtCoords(axis, line, t);
    AtCoords(axis, line, t + 1);
    Neighbours(s);
    assert Anchor(g, move, s);
    assert FirstAnchor(g, move, 0) == s;
    assert Locate(g, move) == RunAt(g, move, s);
  }

  /** The end point and mobility of the run found at position t of `line` along `axis`. */
  method ReportRun(floor: array<int>, move: int, axis: Axis, line: int, t: int) returns (loc: Location)
    requires floor.Length == CELLS && FrameFree(floor[..], move) && 1 <= line <= 6 && 1 <= t <= 6
    requires floor[At(axis, line, t)] == move && floor[At(axis, line, t + 1)] == move
    ensures loc == RunFrom(floor[..], move, axis, line, t)
  {
    AtCoords(axis, line, t);
    RunEndInside(floor[..], move, axis, line, t);
    var e := WalkRun(floor, move, axis, line, t);
    var movable := floor[At(axis, line, t - 1)] == VACANT || floor[At(axis, line, e + 1)] == VACANT;
    if axis == Horizontal {
      loc := Found(line, t, line, e, movable);
    } else {
      loc := Found(t, line, e, line, movable);
    }
  }

  method LocateContainer(floor: array<int>, move: int) returns (loc: Location)
    requires floor.Length == CELLS && FrameFree(floor[..], move)
    ensures loc == Locate(floor[..], move)
  {
    var i := 0;
    while i < ROWS
      invariant 0 <= i <= ROWS
      invariant forall k :: 0 <= k < 8 * i ==> !Anchor(floor[..], move, k)
    {
      var j := 0;
      while j < COLS
        invariant 0 <= j <= COLS
        invariant forall k :: 0 <= k < 8 * i + j ==> !Anchor(floor[..], move, k)
      {
        var s := Flat(i, j);
        if floor[s] == move {
          assert !OnFrame(s);
          if floor[s + 1] == move {
            FirstAnchorAt(floor[..], move, Horizontal, i, j);
            loc := ReportRun(floor, move, Horizontal, i, j);
            return;
          } else if floor[s + 8] == move {
            FirstAnchorAt(floor[..], move, Vertical, j, i);
            loc := ReportRun(floor, move, Vertical, j, i);
            return;
          }
        }
        j := j + 1;
      }
      i := i + 1;
    }
    loc := NotFound;
  }

  /** A letter on no cell is reported as not found. */
  lemma LocateAbsent(g: seq<int>, move: int)
    requires |g| == CELLS && move !in g
    ensures Locate(g, move) == NotFound
  {
  }

  /** When the letter occupies exactly the cells of one run, the walk from the run's first
      position ends at its last. */
  lemma SoleRunEnd(g: seq<int>, move: int, run: Run)
    requires |g| == CELLS && ValidRun(run)
    requires forall k :: 0 <= k < CELLS ==> (g[k] == move <==> InRun(run, k))
    ensures RunEnd(g, move, run.axis, run.line, run.lo) == run.hi
  {
    var e := RunEnd(g, move, run.axis, run.line, run.lo);
    RunCells(run);
    AtCoords(run.axis, run.line, e);
    assert e > run.lo ==> InRun(run, At(run.axis, run.line, e));
    assert e < run.hi ==> InRun(run, At(run.axis, run.line, e + 1));
  }

  /** A letter that marks exactly the cells of one run is on no frame cell. */
  lemma SoleRunFrameFree(g: seq<int>, move: int, run: Run)
    requires |g| == CELLS && ValidRun(run)
    requires forall k :: 0 <= k < CELLS ==> (g[k] == move <==> InRun(run, k))
    ensures FrameFree(g, move)
  {
    forall r, c | 0 <= r < 8 && 0 <= c < 8 && (r == 0 || r == 7 || c == 0 || c == 7)
      ensures g[Flat(r, c)] != move
    {
      AtCoords(Horizontal, r, c);
    }
  }

  /** When the letter occupies exactly the cells of one run, the run's first cell starts the
      search's report: no cell before it is an anchor, and the cell after it holds the letter
      on the right exactly when the run is horizontal. */
  lemma SoleRunAnchor(g: seq<int>, move: int, run: Run)
    requires |g| == CELLS && ValidRun(run)
    requires forall k :: 0 <= k < CELLS ==> (g[k] == move <==> InRun(run, k))
    ensures g[At(run.axis, run.line, run.lo)] == move && g[At(run.axis, run.line, run.lo + 1)] == move
    ensures run.axis == Vertical ==> g[At(run.axis, run.line, run.lo) + 1] != move
    ensures forall k :: 0 <= k < At(run.axis, run.line, run.lo) ==> !Anchor(g, move, k)
  {
    RunCells(run);
    var s := At(run.axis, run.line, run.lo);
    AtCoords(run.axis, run.line, run.lo);
    AtCoords(run.axis, run.line, run.lo + 1);
    forall k | 0 <= k < s ensures !Anchor(g, move, k) {
      AtOf(run.axis, k);
    }
    AtCoords(Horizontal, run.lo, run.line + 1);
    assert run.axis == Vertical ==> !InRun(run, s + 1);
  }

  /** A run whose first cell is the first anchor and whose walk ends at its last cell is
      what the search reports. */
  lemma RunLocated(g: seq<int>, move: int, run: Run)
    requires FrameFree(g, move) && ValidRun(run)
    requires g[At(run.axis, run.line, run.lo)] == move && g[At(run.axis, run.line, run.lo + 1)] == move
    requires run.axis == Vertical ==> g[At(run.axis, run.line, run.lo) + 1] != move
    requires forall k :: 0 <= k < At(run.axis, run.line, run.lo) ==> !Anchor(g, move, k)
    requires RunEnd(g, move, run.axis, run.line, run.lo) == run.hi
    ensures Locate(g, move) == FoundAt(run,
      g[At(run.axis, run.line, run.lo - 1)] == VACANT || g[At(run.axis, run.line, run.hi + 1)] == VACANT)
  {
    var movable := g[At(run.axis, run.line, run.lo - 1)] == VACANT || g[At(run.axis, run.line, run.hi + 1)] == VACANT;
    assert RunFrom(g, move, run.axis, run.line, run.lo) == FoundAt(run, movable);
    FirstAnchorAt(g, move, run.axis, run.line, run.lo);
  }

  /** When the letter occupies exactly the cells of one container run, the search reports
      that run's end points, and movable exactly when a cell next to either end is vacant. */
  lemma {:induction false} LocateSoleRun(g: seq<int>, move: int, run: Run)
    requires |g| == CELLS && ValidRun(run)
    requires forall k :: 0 <= k < CELLS ==> (g[k] == move <==> InRun(run, k))
    ensures FrameFree(g, move)
    ensures Locate(g, move) == FoundAt(run,
      g[At(run.axis, run.line, run.lo - 1)] == VACANT || g[At(run.axis, run.line, run.hi + 1)] == VACANT)
  {
    SoleRunFrameFree(g, move, run);
    SoleRunAnchor(g, move, run);
    SoleRunEnd(g, move, run);
    RunLocated(g, move, run);
  }
}
