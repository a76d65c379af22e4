/** InitialiseFloor: a BOUNDARY frame around a VACANT interior, with one ENTRY/EXIT pair
    chosen by an edge letter ('T', 'B', 'L' or 'R') and an index along that edge. */
module Floor {
  import opened YardGrid

  predicate KnownEdge(edge: char)
  {
    edge == 'T' || edge == 'B' || edge == 'L' || edge == 'R'
  }

  /** Flat index that receives ENTRY, or -1 (no cell) for any other edge letter. */
  function EntryCell(edge: char, index: int): int
  {
    match edge
    case 'T' => Flat(0, index)
    case 'B' => Flat(7, index)
    case 'L' => Flat(index, 0)
    case 'R' => Flat(index, 7)
    case _ => -1
  }

  /** Flat index that receives EXIT: the opposite end of the same column or row. */
  function ExitCell(edge: char, index: int): int
  {
    match edge
    case 'T' => Flat(7, index)
    case 'B' => Flat(0, index)
    case 'L' => Flat(index, 7)
    case 'R' => Flat(index, 0)
    case _ => -1
  }

  /** What the frame-filling loops write into cell k, before the ENTRY/EXIT pair. */
  function FrameFill(k: int): int
  {
    if OnFrame(k) then BOUNDARY else VACANT
  }

  /** The floor InitialiseFloor leaves behind. */
  function InitialFloor(edge: char, index: int): seq<int>
  {
    seq(CELLS, k =>
      if k == EntryCell(edge, index) then ENTRY
      else if k == ExitCell(edge, index) then EXIT
      else FrameFill(k))
  }

  method InitialiseFloor(floor: array<int>, entryboundary: char, index: int)
    requires floor.Length == CELLS
    requires KnownEdge(entryboundary) ==> 0 <= index < 8
    modifies floor
    ensures floor[..] == InitialFloor(entryboundary, index)
  {
    var i := 0;
    while i < ROWS
      invariant 0 <= i <= ROWS
      invariant forall k :: 0 <= k < 8 * i ==> floor[k] == FrameFill(k)
    {
      var j := 0;
      while j < COLS
        invariant 0 <= j <= COLS
        invariant forall k :: 0 <= k < 8 * i + j ==> floor[k] == FrameFill(k)
      {
        if i == 0 || i == 7 || j == 0 || j == 7 {
          floor[Flat(i, j)] := BOUNDARY;
        } else {
          floor[Flat(i, j)] := VACANT;
        }
        j := j + 1;
      }
      i := i + 1;
    }
    ghost var framed := floor[..];
    if entryboundary == 'T' {
      floor[Flat(0, index)] := ENTRY;
      floor[Flat(7, index)] := EXIT;
    }
    if entryboundary == 'B' {
      floor[Flat(7, index)] := ENTRY;
      floor[Flat(0, index)] := EXIT;
    }
    if entryboundary == 'L' {
      floor[Flat(index, 0)] := ENTRY;
      floor[Flat(index, 7)] := EXIT;
    }
    if entryboundary == 'R' {
      floor[Flat(index, 7)] := ENTRY;
      floor[Flat(index, 0)] := EXIT;
    }
    forall k | 0 <= k < CELLS
      ensures floor[k] == InitialFloor(entryboundary, index)[k]
    {
      assert framed[k] == FrameFill(k);
    }
  }

  /** The frame is BOUNDARY except for the ENTRY/EXIT pair, and the whole interior is VACANT. */
  lemma InitialFloorShape(edge: char, index: int)
    requires KnownEdge(edge) ==> 0 <= index < 8
    ensures WellFormed(InitialFloor(edge, index))
    ensures forall k :: 0 <= k < CELLS && !OnFrame(k) ==> InitialFloor(edge, index)[k] == VACANT
    ensures forall k :: 0 <= k < CELLS && OnFrame(k) && k != EntryCell(edge, index) && k != ExitCell(edge, index) ==>
      InitialFloor(edge, index)[k] == BOUNDARY
  {
    var g := InitialFloor(edge, index);
    if KnownEdge(edge) {
      assert OnFrame(EntryCell(edge, index)) && OnFrame(ExitCell(edge, index));
    }
    forall k | 0 <= k < CELLS
      ensures if OnFrame(k) then g[k] == BOUNDARY || g[k] == ENTRY || g[k] == EXIT
              else g[k] == VACANT
    {
    }
  }

  /** With a known edge letter there is exactly one ENTRY and one EXIT, at the two ends of
      row `index` ('L', 'R') or column `index` ('T', 'B'); any other letter places neither. */
  lemma InitialFloorEntryExit(edge: char, index: int)
    requires KnownEdge(edge) ==> 0 <= index < 8
    ensures KnownEdge(edge) ==> forall k :: 0 <= k < CELLS ==>
      (InitialFloor(edge, index)[k] == ENTRY <==> k == EntryCell(edge, index)) &&
      (InitialFloor(edge, index)[k] == EXIT <==> k == ExitCell(edge, index))
    ensures !KnownEdge(edge) ==> forall k :: 0 <= k < CELLS ==>
      InitialFloor(edge, index)[k] != ENTRY && InitialFloor(edge, index)[k] != EXIT
    ensures edge == 'R' ==> InitialFloor(edge, index)[Flat(index, 7)] == ENTRY && InitialFloor(edge, index)[Flat(index, 0)] == EXIT
    ensures edge == 'L' ==> InitialFloor(edge, index)[Flat(index, 0)] == ENTRY && InitialFloor(edge, index)[Flat(index, 7)] == EXIT
    ensures edge == 'T' ==> InitialFloor(edge, index)[Flat(0, index)] == ENTRY && InitialFloor(edge, index)[Flat(7, index)] == EXIT
    ensures edge == 'B' ==> InitialFloor(edge, index)[Flat(7, index)] == ENTRY && InitialFloor(edge, index)[Flat(0, index)] == EXIT
  {
    var g := InitialFloor(edge, index);
    if KnownEdge(edge) {
      assert EntryCell(edge, index) != ExitCell(edge, index);
      assert 0 <= EntryCell(edge, index) < CELLS && 0 <= ExitCell(edge, index) < CELLS;
    }
  }
}
