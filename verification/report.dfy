/** The read-only views of the floor: the vacant-cell count behind FloorAreaAvailable and the
    characters PrintFloor writes for each cell. */
module Report {
  import opened YardGrid

  /** The count loop of FloorAreaAvailable: how many cells of the floor are VACANT. */
  method VacantCells(floor: array<int>) returns (vacantCells: int)
    requires floor.Length == CELLS
    ensures vacantCells == multiset(floor[..])[VACANT]
  {
    vacantCells := 0;
    var i := 0;
    while i < ROWS
      invariant 0 <= i <= ROWS
      invariant vacantCells == multiset(floor[..8 * i])[VACANT]
    {
      var j := 0;
      while j < COLS
        invariant 0 <= j <= COLS
        invariant vacantCells == multiset(floor[..8 * i + j])[VACANT]
      {
        assert floor[..Flat(i, j) + 1] == floor[..Flat(i, j)] + [floor[Flat(i, j)]];
        if floor[Flat(i, j)] == VACANT {
          vacantCells := vacantCells + 1;
        }
        j := j + 1;
      }
      i := i + 1;
    }
    assert floor[..8 * ROWS] == floor[..];
  }

  /** The character PrintFloor shows for a cell: ' ' for VACANT, '@' for BOUNDARY, 'U' for
      ENTRY, 'X' for EXIT, and otherwise the value printed with %c (taken modulo 256). */
  function Glyph(v: int): (ch: char)
    ensures FIRST_LETTER <= v < 256 ==> ch as int == v
  {
    if v == VACANT then ' '
    else if v == BOUNDARY then '@'
    else if v == ENTRY then 'U'
    else if v == EXIT then 'X'
    else (v % 256) as char
  }

  /** The codes a yard cell holds when every container letter fits in a character. */
  predicate PrintableCode(v: int)
  {
    v == VACANT || v == BOUNDARY || v == ENTRY || v == EXIT || FIRST_LETTER <= v < 256
  }

  /** Two printable codes share a character only when one is ENTRY and the other container 'U',
      or one is EXIT and the other container 'X'. */
  lemma GlyphCollisions(v: int, w: int)
    requires PrintableCode(v) && PrintableCode(w) && v != w && Glyph(v) == Glyph(w)
    ensures (v == ENTRY && w == 'U' as int) || (v == 'U' as int && w == ENTRY) ||
            (v == EXIT && w == 'X' as int) || (v == 'X' as int && w == EXIT)
  {
  }

  /** The printed floor determines a well-formed yard whose letters fit in a character: ENTRY
      and EXIT only sit on the frame and containers only inside it, so the shared characters
      never meet at one cell. */
  lemma PrintedFloorDetermines(g: seq<int>, h: seq<int>)
    requires WellFormed(g) && WellFormed(h)
    requires forall k :: 0 <= k < CELLS ==> g[k] < 256 && h[k] < 256
    requires forall k :: 0 <= k < CELLS ==> Glyph(g[k]) == Glyph(h[k])
    ensures g == h
  {
    forall k | 0 <= k < CELLS ensures g[k] == h[k] {
      if g[k] != h[k] {
        GlyphCollisions(g[k], h[k]);
      }
    }
  }

  /** The text PrintFloor writes: eight rows of eight cell characters, each row ended by a newline. */
  method PrintFloor(floor: array<int>) returns (text: string)
    requires floor.Length == CELLS
    ensures |text| == 72
    ensures forall r, c :: 0 <= r < 8 && 0 <= c < 8 ==> text[Flat(r, c) + r] == Glyph(floor[Flat(r, c)])
    ensures forall r :: 0 <= r < 8 ==> text[9 * r + 8] == '\n'
  {
    text := [];
    var i := 0;
    while i < ROWS
      invariant 0 <= i <= ROWS
      invariant |text| == 9 * i
      invariant forall r, c :: 0 <= r < i && 0 <= c < COLS ==> text[Flat(r, c) + r] == Glyph(floor[Flat(r, c)])
      invariant forall r :: 0 <= r < i ==> text[9 * r + 8] == '\n'
    {
      var j := 0;
      while j < COLS
        invariant 0 <= j <= COLS
        invariant |text| == 9 * i + j
        invariant forall r, c :: (0 <= r < i && 0 <= c < COLS) || (r == i && 0 <= c < j) ==>
          text[Flat(r, c) + r] == Glyph(floor[Flat(r, c)])
        invariant forall r :: 0 <= r < i ==> text[9 * r + 8] == '\n'
      {
        text := text + [Glyph(floor[Flat(i, j)])];
        j := j + 1;
      }
      text := text + ['\n'];
      i := i + 1;
    }
  }
}
