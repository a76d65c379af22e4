/** The yard floor: an 8x8 grid of integer cell codes, stored row-major in 64 cells
    (cell (r, c) is flat index 8r + c), as the C array `int floor[8][8]` is laid out. */
module YardGrid {

  /** NUM_ROWS and NUM_COLS, the bounds of the program's nested loops; contracts name
      positions 0 .. 7 by their literal values. */
  const ROWS := 8
  const COLS := 8
  const CELLS := 64

  /** Cell codes. A container is marked by its ASCII letter, 'A' (65) and up. */
  const VACANT := 0
  const BOUNDARY := -1
  const ENTRY := -2
  const EXIT := -3
  const FIRST_LETTER := 65

  /** Flat index of cell (r, c). */
  function Flat(r: int, c: int): int { 8 * r + c }
  function Row(k: int): int { k / 8 }
  function Col(k: int): int { k % 8 }

  /** Row 0, row 7, column 0 and column 7 form the outer frame of the yard. */
  predicate OnFrame(k: int) { Row(k) == 0 || Row(k) == 7 || Col(k) == 0 || Col(k) == 7 }

  /** A container lies along a row (Horizontal) or a column (Vertical). */
  datatype Axis = Horizontal | Vertical

  /** Flat index of position t along a line: column t of row `line`, or row t of column `line`. */
  function At(axis: Axis, line: int, t: int): int
  {
    if axis == Horizontal then Flat(line, t) else Flat(t, line)
  }

  /** Position of cell k along the axis, and the line (row or column) it lies on. */
  function Along(axis: Axis, k: int): int { if axis == Horizontal then Col(k) else Row(k) }
  function Across(axis: Axis, k: int): int { if axis == Horizontal then Row(k) else Col(k) }

  /** The cells At(axis, line, t) for lo <= t <= hi. */
  datatype Run = Run(axis: Axis, line: int, lo: int, hi: int)

  /** A container run: at least two cells, all inside the frame (rows and columns 1..6). */
  predicate ValidRun(run: Run)
  {
    1 <= run.line <= 6 && 1 <= run.lo < run.hi <= 6
  }

  predicate InRun(run: Run, k: int)
  {
    0 <= k < CELLS && Across(run.axis, k) == run.line && run.lo <= Along(run.axis, k) <= run.hi
  }

  /** The run with C-style end points (r0, c0) .. (r1, c1): vertical when the rows differ. */
  function RunOf(r0: int, c0: int, r1: int, c1: int): Run
  {
    if r1 - r0 > 0 then Run(Vertical, c0, r0, r1) else Run(Horizontal, r0, c0, c1)
  }

  /** End points (r0, c0) .. (r1, c1) of a straight run of two to six cells inside the frame. */
  predicate IsRunCoords(r0: int, c0: int, r1: int, c1: int)
  {
    (r0 == r1 && 1 <= r0 <= 6 && 1 <= c0 < c1 <= 6) ||
    (c0 == c1 && 1 <= c0 <= 6 && 1 <= r0 < r1 <= 6)
  }

  /** The invariant of a yard in play: the frame holds only BOUNDARY, ENTRY and EXIT,
      the interior only VACANT cells and container letters. */
  predicate WellFormed(g: seq<int>)
  {
    |g| == CELLS &&
    forall k :: 0 <= k < CELLS ==>
      if OnFrame(k) then g[k] == BOUNDARY || g[k] == ENTRY || g[k] == EXIT
      else g[k] == VACANT || g[k] >= FIRST_LETTER
  }

  lemma AtCoords(axis: Axis, line: int, t: int)
    requires 0 <= line < 8 && 0 <= t < 8
    ensures 0 <= At(axis, line, t) < CELLS
    ensures Across(axis, At(axis, line, t)) == line && Along(axis, At(axis, line, t)) == t
    ensures OnFrame(At(axis, line, t)) <==> line == 0 || line == 7 || t == 0 || t == 7
  {
  }

  lemma AtOf(axis: Axis, k: int)
    requires 0 <= k < CELLS
    ensures 0 <= Across(axis, k) < 8 && 0 <= Along(axis, k) < 8
    ensures At(axis, Across(axis, k), Along(axis, k)) == k
  {
  }

  /** An interior cell and its four neighbours, in row-major and along-the-axis terms. */
  lemma Neighbours(s: int)
    requires 0 <= s < CELLS && !OnFrame(s)
    ensures 1 <= Row(s) <= 6 && 1 <= Col(s) <= 6
    ensures s == At(Horizontal, Row(s), Col(s)) == At(Vertical, Col(s), Row(s))
    ensures s + 1 == At(Horizontal, Row(s), Col(s) + 1) && s - 1 == At(Horizontal, Row(s), Col(s) - 1)
    ensures s + 8 == At(Vertical, Col(s), Row(s) + 1) && s - 8 == At(Vertical, Col(s), Row(s) - 1)
  {
  }

  /** Every cell of a run is inside the frame, and distinct positions are distinct cells. */
  lemma RunCells(run: Run)
    requires ValidRun(run)
    ensures forall t :: run.lo <= t <= run.hi ==> InRun(run, At(run.axis, run.line, t)) && !OnFrame(At(run.axis, run.line, t))
    ensures forall k :: InRun(run, k) ==> !OnFrame(k) && k == At(run.axis, run.line, Along(run.axis, k))
  {
    forall t | run.lo <= t <= run.hi
      ensures InRun(run, At(run.axis, run.line, t)) && !OnFrame(At(run.axis, run.line, t))
    {
      AtCoords(run.axis, run.line, t);
    }
    forall k | InRun(run, k)
      ensures !OnFrame(k) && k == At(run.axis, run.line, Along(run.axis, k))
    {
      AtOf(run.axis, k);
    }
  }

  /** On a well-formed yard both frame cells at the ends of a line are occupied. */
  lemma FrameEndsOccupied(g: seq<int>, axis: Axis, line: int)
    requires WellFormed(g) && 0 <= line < 8
    ensures g[At(axis, line, 0)] != VACANT && g[At(axis, line, 7)] != VACANT
  {
    AtCoords(axis, line, 0);
    AtCoords(axis, line, 7);
  }
}
