/** One generation: the scan that lists the cells to flip, in row-major order,
    all counts taken on the board as it was before the generation; and the board
    that results from flipping them. */
module Generation {
  import opened Board
  import opened Neighbours
  import opened Rules
  import opened Marks

  /** Whether the scan lists cell (x, y) for flipping. */
  function IsListed(g: Grid, w: nat, h: nat, x: nat, y: nat): bool
    requires Playable(g, w, h) && x < w && y < h
  {
    Listed(g[y][x], SurroundingCells(g, w, h, x, y))
  }

  /** m holds, for every cell of the board, whether the scan lists it. The
      quantifier fires only on an IsListed term, so a proof about the scan order
      sees the count of a cell only where it asks for it. */
  ghost predicate ListsCells(g: Grid, w: nat, h: nat, m: Grid)
    requires Playable(g, w, h)
  {
    WellFormed(m, w, h) &&
    forall y, x {:trigger IsListed(g, w, h, x, y)} :: 0 <= y < h && 0 <= x < w ==> m[y][x] == IsListed(g, w, h, x, y)
  }

  /** Such a grid exists: the one built cell by cell. */
  lemma ListedCellsExist(g: Grid, w: nat, h: nat)
    requires Playable(g, w, h)
    ensures exists m :: ListsCells(g, w, h, m)
  {
    var m := seq(h, y requires 0 <= y < h => seq(w, x requires 0 <= x < w => IsListed(g, w, h, x, y)));
    assert ListsCells(g, w, h, m);
  }

  /** For every cell of the board, whether the scan lists it. It is the grid
      built cell by cell from IsListed, but it is characterised only through
      ListsCells: with the grid given directly as a comprehension, every cell
      the scan proofs mention would unfold its whole neighbour count, and those
      proofs grow beyond the solver's budget. */
  ghost function ListedCells(g: Grid, w: nat, h: nat): (m: Grid)
    requires Playable(g, w, h)
    ensures ListsCells(g, w, h, m)
  {
    ListedCellsExist(g, w, h);
    var m :| ListsCells(g, w, h, m);
    m
  }

  /** The mark of cell (x, y) is the rule's verdict on its state and count. */
  lemma ListedCellsAt(g: Grid, w: nat, h: nat, x: nat, y: nat)
    requires Playable(g, w, h) && x < w && y < h
    ensures ListedCells(g, w, h)[y][x] == Listed(g[y][x], SurroundingCells(g, w, h, x, y))
  {
    assert IsListed(g, w, h, x, y) == Listed(g[y][x], SurroundingCells(g, w, h, x, y));
  }

  /** The change list of a generation, as cells: the listed cells in scan order. */
  ghost function Changes(g: Grid, w: nat, h: nat): (cs: seq<Coord>)
    requires Playable(g, w, h)
    ensures AllInBounds(cs, w, h)
  {
    RowsMarkedInBounds(ListedCells(g, w, h), w, h, h);
    RowsMarked(ListedCells(g, w, h), w, h, h)
  }

  /** The state of cell (x, y) in the next generation, by Conway's rule with the
      edge rule's count. */
  function NextCell(g: Grid, w: nat, h: nat, x: nat, y: nat): bool
    requires Playable(g, w, h) && x < w && y < h
  {
    LifeRule(g[y][x], SurroundingCells(g, w, h, x, y))
  }

  function NextRow(g: Grid, w: nat, h: nat, y: nat): (r: seq<bool>)
    requires Playable(g, w, h) && y < h
    ensures |r| == w
  {
    seq(w, x requires 0 <= x < w => NextCell(g, w, h, x, y))
  }

  /** The board of the next generation. */
  function Next(g: Grid, w: nat, h: nat): (r: Grid)
    requires Playable(g, w, h)
    ensures WellFormed(r, w, h)
  {
    seq(h, y requires 0 <= y < h => NextRow(g, w, h, y))
  }

  /** Scans the board row by row, cell by cell, and returns the flat list of the
      cells to flip, [x0, y0, x1, y1, ...]. The board is only read. */
  method ScanCells(g: Grid, w: nat, h: nat) returns (updatedCells: seq<nat>)
    requires Playable(g, w, h)
    ensures updatedCells == Flatten(Changes(g, w, h))
  {
    ghost var marks := ListedCells(g, w, h);
    updatedCells := [];
    var y := 0;
    while y < |g|
      invariant 0 <= y <= h
      invariant updatedCells == RowsPairs(marks, w, h, y)
    {
      updatedCells := ScanRow(g, w, h, y, updatedCells);
      y := y + 1;
    }
    RowsPairsFlatten(marks, w, h, h);
  }

  /** The inner loop of the scan: visits row y cell by cell and extends the list
      with the pair of every cell the rule lists. */
  method ScanRow(g: Grid, w: nat, h: nat, y: nat, updatedCells: seq<nat>) returns (extended: seq<nat>)
    requires Playable(g, w, h) && y < h
    ensures extended == updatedCells + RowPairs(ListedCells(g, w, h), w, h, y, w)
  {
    ghost var marks := ListedCells(g, w, h);
    extended := updatedCells;
    var x := 0;
    while x < |g[y]|
      invariant 0 <= x <= w
      invariant extended == updatedCells + RowPairs(marks, w, h, y, x)
    {
      var cell := g[y][x];
      var surroundingCellCount := SurroundingCells(g, w, h, x, y);
      ListedCellsAt(g, w, h, x, y);
      if cell {
        if surroundingCellCount < 2 {
          extended := extended + [x, y];
        } else if surroundingCellCount > 3 {
          extended := extended + [x, y];
        }
      } else {
        if surroundingCellCount == 3 {
          extended := extended + [x, y];
        }
      }
      x := x + 1;
    }
  }

  /** A cell is in the change list if and only if it lies on the board and the
      rule lists it: alive with fewer than two or more than three live
      neighbours, or dead with exactly three. */
  lemma ChangesMembership(g: Grid, w: nat, h: nat, c: Coord)
    requires Playable(g, w, h)
    ensures c in Changes(g, w, h) <==>
      InBounds(c, w, h) && Listed(g[c.y][c.x], SurroundingCells(g, w, h, c.x, c.y))
  {
    RowsMarkedMembership(ListedCells(g, w, h), w, h, h, c);
    if InBounds(c, w, h) {
      ListedCellsAt(g, w, h, c.x, c.y);
    }
  }

  /** The change list is in strict row-major scan order, so no cell is listed twice. */
  lemma ChangesRowMajor(g: Grid, w: nat, h: nat)
    requires Playable(g, w, h)
    ensures RowMajorSorted(Changes(g, w, h))
    ensures Distinct(Changes(g, w, h))
  {
    RowsMarkedSorted(ListedCells(g, w, h), w, h, h);
  }

  /** The flat change list has even length and reads back, pair by pair, as the
      listed cells, in strict row-major order and none of them twice. */
  lemma ChangeListShape(g: Grid, w: nat, h: nat)
    requires Playable(g, w, h)
    ensures var s := Flatten(Changes(g, w, h));
      |s| % 2 == 0 && Pairs(s) == Changes(g, w, h) && RowMajorSorted(Pairs(s)) && Distinct(Pairs(s))
  {
    PairsFlatten(Changes(g, w, h));
    ChangesRowMajor(g, w, h);
  }

  /** A cell changes state between a board and its next generation exactly when
      it is in the change list. */
  lemma ChangedIffListed(g: Grid, w: nat, h: nat, c: Coord)
    requires Playable(g, w, h) && InBounds(c, w, h)
    ensures Next(g, w, h)[c.y][c.x] != g[c.y][c.x] <==> c in Changes(g, w, h)
  {
    ChangesMembership(g, w, h, c);
    ListedIffRuleChangesState(g[c.y][c.x], SurroundingCells(g, w, h, c.x, c.y));
  }

  /** Flipping the listed cells of the board before the generation gives the
      board of the next generation: every count is taken on the pre-step board,
      every listed cell changes, and every other cell stays as it was. */
  lemma FlipsGiveNextGeneration(g: Grid, w: nat, h: nat)
    requires Playable(g, w, h)
    ensures ApplyFlips(g, w, h, Changes(g, w, h)) == Next(g, w, h)
  {
    var cs := Changes(g, w, h);
    ChangesRowMajor(g, w, h);
    var r, n := ApplyFlips(g, w, h, cs), Next(g, w, h);
    forall y | 0 <= y < h
      ensures r[y] == n[y]
    {
      forall x | 0 <= x < w
        ensures r[y][x] == n[y][x]
      {
        ApplyFlipsAt(g, w, h, cs, x, y);
        ChangedIffListed(g, w, h, Coord(x, y));
      }
    }
  }

  lemma DeadCellStaysDead(g: Grid, w: nat, h: nat, x: nat, y: nat)
    requires Playable(g, w, h) && AllDead(g, w, h) && x < w && y < h
    ensures !ListedCells(g, w, h)[y][x]
    ensures Next(g, w, h)[y][x] == g[y][x]
  {
    SurroundingCellsOfDeadBoard(g, w, h, x, y);
    ListedCellsAt(g, w, h, x, y);
  }

  /** A board with no live cell lists nothing and stays as it is. */
  lemma DeadBoardIsStill(g: Grid, w: nat, h: nat)
    requires Playable(g, w, h) && AllDead(g, w, h)
    ensures Changes(g, w, h) == []
    ensures Next(g, w, h) == g
  {
    var m, n := ListedCells(g, w, h), Next(g, w, h);
    forall y | 0 <= y < h
      ensures n[y] == g[y]
    {
      forall x | 0 <= x < w
        ensures n[y][x] == g[y][x]
      {
        DeadCellStaysDead(g, w, h, x, y);
      }
    }
    forall y, x | 0 <= y < h && 0 <= x < w
      ensures !m[y][x]
    {
      DeadCellStaysDead(g, w, h, x, y);
    }
    UnmarkedRows(m, w, h, h);
  }
}
