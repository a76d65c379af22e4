/** AddContainer: a fresh identifier is taken from the grid (one more than its largest value,
    or 'A'), and a straight run of cells at a row-major flat position receives it, all or nothing. */
module Placement {
  import opened YardGrid

  /** Running maximum of the cells, started at 0 as the scan starts it. */
  function Largest(g: seq<int>): (m: int)
    ensures m >= 0
    ensures forall k :: 0 <= k < |g| ==> g[k] <= m
    ensures m == 0 || m in g
  {
    if |g| == 0 then 0
    else
      var m := Largest(g[..|g| - 1]);
      assert g == g[..|g| - 1] + [g[|g| - 1]];
      if g[|g| - 1] > m then g[|g| - 1] else m
  }

  /** The identifier the next container receives: 'A' while no cell holds a letter,
      otherwise one more than the largest cell value. */
  function NextId(g: seq<int>): (letter: int)
    ensures letter >= FIRST_LETTER
    ensures forall k :: 0 <= k < |g| ==> g[k] < letter
    ensures letter == FIRST_LETTER || letter - 1 in g
  {
    var m := Largest(g);
    if m >= FIRST_LETTER then m + 1 else FIRST_LETTER
  }

  /** Flat index of the n-th cell of a placement: floor[0][position + n] when horizontal
      (direction 0), floor[n][position] when vertical (direction 1). */
  function Target(position: int, direction: int, n: int): int
  {
    if direction == 0 then position + n else Flat(n, position)
  }

  /** k is one of the `size` cells of the placement. */
  predicate IsTarget(position: int, size: int, direction: int, k: int)
  {
    (direction == 0 && position <= k < position + size) ||
    (direction == 1 && position <= k && (k - position) % 8 == 0 && (k - position) / 8 < size)
  }

  /** Every cell the placement reads or writes lies in the 64-cell array. */
  predicate TargetsInRange(position: int, size: int, direction: int)
  {
    (direction == 0 || direction == 1) && size > 0 ==>
      0 <= position && Target(position, direction, size - 1) < CELLS
  }

  predicate TargetsVacant(g: seq<int>, position: int, size: int, direction: int)
    requires |g| == CELLS && TargetsInRange(position, size, direction)
  {
    (direction == 0 || direction == 1) ==>
      forall n :: 0 <= n < size ==> g[Target(position, direction, n)] == VACANT
  }

  /** The grid after AddContainer(g, position, size, direction). */
  function AfterAdd(g: seq<int>, position: int, size: int, direction: int): seq<int>
    requires |g| == CELLS && TargetsInRange(position, size, direction)
  {
    if TargetsVacant(g, position, size, direction) then
      seq(CELLS, k requires 0 <= k < CELLS => if IsTarget(position, size, direction, k) then NextId(g) else g[k])
    else g
  }

  lemma TargetIsTarget(position: int, size: int, direction: int, n: int)
    requires direction == 0 || direction == 1
    requires 0 <= n < size
    ensures IsTarget(position, size, direction, Target(position, direction, n))
    ensures forall k :: IsTarget(position, n + 1, direction, k) <==>
      IsTarget(position, n, direction, k) || k == Target(position, direction, n)
  {
  }

  lemma TargetsBounded(position: int, size: int, direction: int)
    requires (direction == 0 || direction == 1) && TargetsInRange(position, size, direction)
    ensures forall n :: 0 <= n < size ==> 0 <= Target(position, direction, n) < CELLS
  {
  }

  lemma TargetOf(position: int, size: int, direction: int, k: int)
    requires IsTarget(position, size, direction, k)
    ensures direction == 0 || direction == 1
    ensures k == Target(position, direction, if direction == 0 then k - position else (k - position) / 8)
    ensures 0 <= (if direction == 0 then k - position else (k - position) / 8) < size
  {
  }

  /** The identifier scan of AddContainer (the nested loops over the whole floor). */
  method NextLetter(floor: array<int>) returns (letter: int)
    requires floor.Length == CELLS
    ensures letter == NextId(floor[..])
  {
    var largest := 0;
    var i := 0;
    while i < ROWS
      invariant 0 <= i <= ROWS
      invariant largest == Largest(floor[..8 * i])
    {
      var j := 0;
      while j < COLS
        invariant 0 <= j <= COLS
        invariant largest == Largest(floor[..8 * i + j])
      {
        assert floor[..Flat(i, j) + 1][..Flat(i, j)] == floor[..Flat(i, j)];
        if floor[Flat(i, j)] > largest {
          largest := floor[Flat(i, j)];
        }
        j := j + 1;
      }
      i := i + 1;
    }
    assert floor[..8 * ROWS] == floor[..];
    letter := FIRST_LETTER;
    if largest >= FIRST_LETTER {
      letter := largest + 1;
    }
  }

  method AddContainer(floor: array<int>, position: int, size: int, direction: int)
    requires floor.Length == CELLS
    requires TargetsInRange(position, size, direction)
    modifies floor
    ensures floor[..] == AfterAdd(old(floor[..]), position, size, direction)
  {
    var letter := NextLetter(floor);
    if direction == 0 || direction == 1 {
      // both directions share one body: Target picks floor[0][position + n] or floor[n][position]
      TargetsBounded(position, size, direction);
      var n := 0;
      while n < size
        invariant 0 <= n <= if size > 0 then size else 0
        invariant forall m :: 0 <= m < n ==> floor[Target(position, direction, m)] == VACANT
      {
        if floor[Target(position, direction, n)] != VACANT {
          return;
        }
        n := n + 1;
      }
      assert TargetsVacant(old(floor[..]), position, size, direction);
      n := 0;
      while n < size
        invariant 0 <= n <= if size > 0 then size else 0
        invariant forall k :: 0 <= k < CELLS ==>
          floor[k] == if IsTarget(position, n, direction, k) then letter else old(floor[k])
      {
        TargetIsTarget(position, size, direction, n);
        floor[Target(position, direction, n)] := letter;
        n := n + 1;
      }
      assert forall k :: IsTarget(position, n, direction, k) <==> IsTarget(position, size, direction, k);
    }
  }

  /** A successful placement writes the fresh identifier on exactly its target cells:
      the identifier was on no cell before, and nothing else changes. */
  lemma {:induction false} PlacementWritesFreshRun(g: seq<int>, position: int, size: int, direction: int)
    requires |g| == CELLS && TargetsInRange(position, size, direction)
    requires (direction == 0 || direction == 1) && TargetsVacant(g, position, size, direction)
    ensures forall k :: 0 <= k < CELLS ==> g[k] != NextId(g)
    ensures forall k :: 0 <= k < CELLS ==>
      (AfterAdd(g, position, size, direction)[k] == NextId(g) <==> IsTarget(position, size, direction, k))
    ensures forall k :: 0 <= k < CELLS && !IsTarget(position, size, direction, k) ==>
      AfterAdd(g, position, size, direction)[k] == g[k]
    ensures forall k :: 0 <= k < CELLS && IsTarget(position, size, direction, k) ==> g[k] == VACANT
  {
    forall k | 0 <= k < CELLS && IsTarget(position, size, direction, k)
      ensures g[k] == VACANT
    {
      TargetOf(position, size, direction, k);
    }
  }

  /** If any target cell is occupied, the floor is left exactly as it was. */
  lemma BlockedPlacementIsNoOp(g: seq<int>, position: int, size: int, direction: int, n: int)
    requires |g| == CELLS && TargetsInRange(position, size, direction)
    requires (direction == 0 || direction == 1) && 0 <= n < size
    requires g[Target(position, direction, n)] != VACANT
    ensures AfterAdd(g, position, size, direction) == g
  {
  }

  /** A grid whose largest value is the letter `id` at cell t hands out id + 1 next. */
  lemma NextIdAbove(g: seq<int>, id: int, t: int)
    requires id >= FIRST_LETTER && 0 <= t < |g| && g[t] == id
    requires forall k :: 0 <= k < |g| ==> g[k] <= id
    ensures NextId(g) == id + 1
  {
    var m := Largest(g);
    assert m >= id;
    if m != 0 {
      var k :| 0 <= k < |g| && g[k] == m;
    }
  }

  /** After a successful placement every cell holds at most the identifier just written. */
  lemma {:induction false} PlacedIdIsLargest(g: seq<int>, position: int, size: int, direction: int)
    requires |g| == CELLS && TargetsInRange(position, size, direction)
    requires (direction == 0 || direction == 1) && size > 0 && TargetsVacant(g, position, size, direction)
    ensures 0 <= Target(position, direction, 0) < CELLS
    ensures AfterAdd(g, position, size, direction)[Target(position, direction, 0)] == NextId(g)
    ensures forall k :: 0 <= k < CELLS ==> AfterAdd(g, position, size, direction)[k] <= NextId(g)
  {
    PlacementWritesFreshRun(g, position, size, direction);
    TargetIsTarget(position, size, direction, 0);
    TargetsBounded(position, size, direction);
  }

  /** Identifiers advance by one with each successful placement; a failed placement does
      not use one up, because the identifier is recomputed from the grid on every call. */
  lemma {:induction false} NextIdAfterAdd(g: seq<int>, position: int, size: int, direction: int)
    requires |g| == CELLS && TargetsInRange(position, size, direction)
    ensures NextId(AfterAdd(g, position, size, direction)) ==
      if (direction == 0 || direction == 1) && size > 0 && TargetsVacant(g, position, size, direction)
      then NextId(g) + 1 else NextId(g)
  {
    if (direction == 0 || direction == 1) && size > 0 && TargetsVacant(g, position, size, direction) {
      PlacedIdIsLargest(g, position, size, direction);
      NextIdAbove(AfterAdd(g, position, size, direction), NextId(g), Target(position, direction, 0));
    } else if !TargetsVacant(g, position, size, direction) {
      assert AfterAdd(g, position, size, direction) == g;
    } else {
      assert forall k :: !IsTarget(position, size, direction, k);
      assert AfterAdd(g, position, size, direction) == g;
    }
  }

  /** Repeating a placement changes nothing: after a successful placement its first target
      holds a letter, so the repeat is refused; after a refused one the floor is unchanged. */
  lemma {:induction false} AddIsIdempotent(g: seq<int>, position: int, size: int, direction: int)
    requires |g| == CELLS && TargetsInRange(position, size, direction)
    ensures AfterAdd(AfterAdd(g, position, size, direction), position, size, direction) ==
      AfterAdd(g, position, size, direction)
  {
    var g' := AfterAdd(g, position, size, direction);
    if (direction == 0 || direction == 1) && size > 0 && TargetsVacant(g, position, size, direction) {
      PlacedIdIsLargest(g, position, size, direction);
      BlockedPlacementIsNoOp(g', position, size, direction, 0);
    } else if !TargetsVacant(g, position, size, direction) {
      assert g' == g;
    } else {
      assert forall k :: !IsTarget(position, size, direction, k);
      assert g' == g;
    }
  }

  /** A placement keeps the yard well formed: a frame cell is never vacant, so a placement
      that reaches the frame is refused, and interior targets receive a letter. */
  lemma {:induction false} AddKeepsWellFormed(g: seq<int>, position: int, size: int, direction: int)
    requires WellFormed(g) && TargetsInRange(position, size, direction)
    ensures WellFormed(AfterAdd(g, position, size, direction))
  {
    if TargetsVacant(g, position, size, direction) && (direction == 0 || direction == 1) {
      var g' := AfterAdd(g, position, size, direction);
      forall k | 0 <= k < CELLS
        ensures if OnFrame(k) then g'[k] == BOUNDARY || g'[k] == ENTRY || g'[k] == EXIT
                else g'[k] == VACANT || g'[k] >= FIRST_LETTER
      {
        if IsTarget(position, size, direction, k) {
          TargetOf(position, size, direction, k);
          assert g[k] == VACANT;
        }
      }
    }
  }
}
