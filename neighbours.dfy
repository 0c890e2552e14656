/** Counting the live neighbours of a cell, with the board's edge rule: the cell
    before index 0 is the last one (a negative list index counts from the end),
    and the cell after the last index is index 1. */
module Neighbours {
  import opened Board

  /** A board on which every cell's neighbourhood can be read: the offset taken at
      the last index reaches index 1, so both dimensions must be at least 2. */
  predicate Playable(g: Grid, w: nat, h: nat) {
    2 <= w && 2 <= h && WellFormed(g, w, h)
  }

  /** The position a list index i in [-n, n) reaches: a negative index counts
      back from the end of the list. */
  function ListIndex(i: int, n: nat): (k: nat)
    requires -(n as int) <= i < n
    ensures k < n && k % n == i % n
  {
    if i < 0 then i + n else i
  }

  /** The step taken towards the following neighbour along an axis of length n:
      1, except at the last index i, where it is 1 - i. */
  function Offset(i: nat, n: nat): int {
    if i + 1 >= n then 1 - i else 1
  }

  /** The cell read at (row, col), with list indexing. */
  function Read(g: Grid, w: nat, h: nat, row: int, col: int): bool
    requires WellFormed(g, w, h)
    requires -(h as int) <= row < h && -(w as int) <= col < w
  {
    g[ListIndex(row, h)][ListIndex(col, w)]
  }

  /** The number of live cells in a list of cell reads. */
  function Sum(cells: seq<bool>): (n: nat)
    ensures n <= |cells|
  {
    if cells == [] then 0 else (if cells[0] then 1 else 0) + Sum(cells[1..])
  }

  /** The sum is 0 exactly when no read is alive. */
  lemma {:induction false} SumZeroIffNoneAlive(cells: seq<bool>)
    ensures Sum(cells) == 0 <==> forall i :: 0 <= i < |cells| ==> !cells[i]
  {
    if cells != [] {
      SumZeroIffNoneAlive(cells[1..]);
      if Sum(cells) == 0 {
        forall i | 0 <= i < |cells| ensures !cells[i] {
          if i > 0 {
            assert cells[i] == cells[1..][i - 1];
          }
        }
      }
    }
  }

  /** The eight cell reads around (x, y): rows y + dy, y and y - 1 by columns
      x - 1, x and x + dx, without the centre. */
  function SurroundingReads(g: Grid, w: nat, h: nat, x: nat, y: nat): (cells: seq<bool>)
    requires Playable(g, w, h) && x < w && y < h
    ensures |cells| == 8
  {
    var dx, dy := Offset(x, w), Offset(y, h);
    [ Read(g, w, h, y + dy, x - 1), Read(g, w, h, y + dy, x), Read(g, w, h, y + dy, x + dx),
      Read(g, w, h, y, x - 1), Read(g, w, h, y, x + dx),
      Read(g, w, h, y - 1, x - 1), Read(g, w, h, y - 1, x), Read(g, w, h, y - 1, x + dx) ]
  }

  /** The live-neighbour count of (x, y): the sum of its eight reads. */
  function SurroundingCells(g: Grid, w: nat, h: nat, x: nat, y: nat): (n: nat)
    requires Playable(g, w, h) && x < w && y < h
    ensures n <= 8
  {
    Sum(SurroundingReads(g, w, h, x, y))
  }

  /** The index of the preceding neighbour along an axis of length n. */
  function Prev(i: nat, n: nat): nat
    requires i < n
  {
    if i == 0 then n - 1 else i - 1
  }

  /** The index of the following neighbour along an axis of length n. */
  function Succ(i: nat, n: nat): nat
    requires i < n && 2 <= n
  {
    if i == n - 1 then 1 else i + 1
  }

  /** The edge rule: index 0 reads the last index as its preceding neighbour, the
      last index reads index 1 as its following neighbour, and every other index
      reads its plain -1 and +1 neighbours. */
  lemma EdgeIndexMapping(i: nat, n: nat)
    requires 2 <= n && i < n
    ensures ListIndex(i - 1, n) == Prev(i, n)
    ensures i + Offset(i, n) < n && ListIndex(i + Offset(i, n), n) == Succ(i, n)
    ensures i == 0 ==> Prev(i, n) == n - 1
    ensures i == n - 1 ==> Succ(i, n) == 1
    ensures 0 < i < n - 1 ==> Prev(i, n) == i - 1 && Succ(i, n) == i + 1
  {
  }

  /** The eight neighbours of (x, y), stated directly with Prev and Succ: the row
      below, the same row and the row above, each from left to right. */
  function Neighbours(g: Grid, w: nat, h: nat, x: nat, y: nat): seq<bool>
    requires Playable(g, w, h) && x < w && y < h
  {
    var l, r, u, d := Prev(x, w), Succ(x, w), Prev(y, h), Succ(y, h);
    [g[d][l], g[d][x], g[d][r], g[y][l], g[y][r], g[u][l], g[u][x], g[u][r]]
  }

  /** The source's eight reads are exactly the neighbourhood given by the edge rule,
      so its sum counts the live cells of that neighbourhood. */
  lemma {:induction false} SurroundingCellsCountsNeighbours(g: Grid, w: nat, h: nat, x: nat, y: nat)
    requires Playable(g, w, h) && x < w && y < h
    ensures SurroundingReads(g, w, h, x, y) == Neighbours(g, w, h, x, y)
    ensures SurroundingCells(g, w, h, x, y) == Sum(Neighbours(g, w, h, x, y))
  {
    EdgeIndexMapping(x, w);
    EdgeIndexMapping(y, h);
  }

  /** g and g2 agree everywhere except, possibly, in column 0. */
  predicate SameOutsideColumnZero(g: Grid, g2: Grid, w: nat, h: nat)
    requires WellFormed(g, w, h) && WellFormed(g2, w, h)
  {
    forall y, x :: 0 <= y < h && 0 < x < w ==> g2[y][x] == g[y][x]
  }

  /** On a board at least three cells wide, the count of a cell in the last
      column does not depend on column 0: its neighbours lie in columns w - 2,
      w - 1 and 1, so the board does not wrap round to column 0 on the right. */
  lemma LastColumnIgnoresColumnZero(g: Grid, g2: Grid, w: nat, h: nat, y: nat)
    requires Playable(g, w, h) && Playable(g2, w, h) && 3 <= w && y < h
    requires SameOutsideColumnZero(g, g2, w, h)
    ensures SurroundingCells(g2, w, h, w - 1, y) == SurroundingCells(g, w, h, w - 1, y)
  {
    SurroundingCellsCountsNeighbours(g, w, h, w - 1, y);
    SurroundingCellsCountsNeighbours(g2, w, h, w - 1, y);
    assert Neighbours(g2, w, h, w - 1, y) == Neighbours(g, w, h, w - 1, y);
  }

  /** On a board with no live cell every count is 0. */
  lemma SurroundingCellsOfDeadBoard(g: Grid, w: nat, h: nat, x: nat, y: nat)
    requires Playable(g, w, h) && AllDead(g, w, h) && x < w && y < h
    ensures SurroundingCells(g, w, h, x, y) == 0
  {
    var cells := SurroundingReads(g, w, h, x, y);
    forall i | 0 <= i < 8 ensures !cells[i] {
    }
    SumZeroIffNoneAlive(cells);
  }
}
