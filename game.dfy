/** The game: the board held in place and updated by a generation step or by a
    mouse interaction, the window's dimensions, and the mapping from a pixel
    position to a board cell. */
module Game {
  import opened Board
  import opened Neighbours
  import opened Generation
  import opened Interaction

  /** The configured window: 200 by 200 cells of 10 by 10 pixels. */
  const WindowWidthInCells: nat := 200
  const WindowHeightInCells: nat := 200
  const CellWidthInPixels: nat := 10

  /** The cell under the pixel (mouseX, mouseY): each coordinate divided by the
      cell width, rounding down (for a positive divisor Dafny's division rounds
      down like Python's floor division, negative positions included). */
  function FigureOutClickedCell(mouseX: int, mouseY: int): (cell: (int, int))
    ensures cell.0 * CellWidthInPixels <= mouseX < (cell.0 + 1) * CellWidthInPixels
    ensures cell.1 * CellWidthInPixels <= mouseY < (cell.1 + 1) * CellWidthInPixels
  {
    (mouseX / CellWidthInPixels, mouseY / CellWidthInPixels)
  }

  /** Every pixel of the window lies in a cell of the board. */
  lemma ClickedCellInWindow(mouseX: int, mouseY: int)
    requires 0 <= mouseX < WindowWidthInCells * CellWidthInPixels
    requires 0 <= mouseY < WindowHeightInCells * CellWidthInPixels
    ensures var cell := FigureOutClickedCell(mouseX, mouseY);
      0 <= cell.0 < WindowWidthInCells && 0 <= cell.1 < WindowHeightInCells
  {
  }

  class GameOfLife {
    const width: nat
    const height: nat
    /** The board, indexed [y][x]. */
    var gameBoard: Grid

    ghost predicate Valid()
      reads this
    {
      Playable(gameBoard, width, height)
    }

    /** Starts the game on a freshly generated board: all dead, or, for a
        random board, the given choices. */
    constructor (w: nat, h: nat, randomBoard: bool, choices: Grid)
      requires 2 <= w && 2 <= h
      requires randomBoard ==> WellFormed(choices, w, h)
      ensures width == w && height == h && Valid()
      ensures !randomBoard ==> AllDead(gameBoard, w, h)
      ensures randomBoard ==> gameBoard == choices
    {
      var board := GenerateTempBoard(w, h, randomBoard, choices);
      width, height, gameBoard := w, h, board;
    }

    /** Inverts the cells of a flat change list, taken in consecutive (x, y)
        pairs; an unpaired last element is ignored. */
    method UpdateGameBoard(updatedCells: seq<nat>)
      requires Valid() && AllInBounds(Pairs(updatedCells), width, height)
      modifies this`gameBoard
      ensures Valid()
      ensures gameBoard == ApplyFlips(old(gameBoard), width, height, Pairs(updatedCells))
    {
      ghost var pairs := Pairs(updatedCells);
      var k := 0;
      while 2 * k + 1 < |updatedCells|
        invariant 0 <= k <= |pairs|
        invariant gameBoard == ApplyFlips(old(gameBoard), width, height, pairs[..k])
      {
        var x, y := updatedCells[2 * k], updatedCells[2 * k + 1];
        PairsAt(updatedCells, k);
        ApplyFlipsStep(old(gameBoard), width, height, pairs, k);
        gameBoard := gameBoard[y := gameBoard[y][x := !gameBoard[y][x]]];
        k := k + 1;
      }
      assert pairs[..k] == pairs;
    }

    /** One generation: scans the board, lists the cells the rule flips, then
        flips them all; every count is taken on the board before any flip. */
    method PermutateCells() returns (updatedCells: seq<nat>)
      requires Valid()
      modifies this`gameBoard
      ensures Valid()
      ensures updatedCells == Flatten(Changes(old(gameBoard), width, height))
      ensures gameBoard == Next(old(gameBoard), width, height)
    {
      updatedCells := ScanCells(gameBoard, width, height);
      PairsFlatten(Changes(gameBoard, width, height));
      FlipsGiveNextGeneration(gameBoard, width, height);
      UpdateGameBoard(updatedCells);
    }

    /** One interaction with the cell (x, y) under the pointer: records its
        state if none is recorded yet, then flips it when its state equals the
        recorded one. Returns the new flag and recorded state. */
    method CarryOutUserInteraction(x: nat, y: nat, firstClickedStateHasBeenSet: bool, mouseFirstClickedCellAliveState: bool)
      returns (stateHasBeenSet: bool, cellAliveState: bool)
      requires Valid() && x < width && y < height
      modifies this`gameBoard
      ensures Valid()
      ensures Touch(gameBoard, stateHasBeenSet, cellAliveState)
        == Interact(old(gameBoard), width, height, firstClickedStateHasBeenSet, mouseFirstClickedCellAliveState, Coord(x, y))
    {
      stateHasBeenSet, cellAliveState := firstClickedStateHasBeenSet, mouseFirstClickedCellAliveState;
      if !stateHasBeenSet {
        cellAliveState := gameBoard[y][x];
        stateHasBeenSet := true;
      }
      if gameBoard[y][x] == cellAliveState {
        gameBoard := gameBoard[y := gameBoard[y][x := !gameBoard[y][x]]];
      }
    }

    /** Handles one mouse event, updating the pointer flags and the board. */
    method HandleEvent(p: Pointer, e: Event) returns (q: Pointer)
      requires Valid() && EventInBounds(e, width, height)
      modifies this`gameBoard
      ensures Valid()
      ensures Screen(gameBoard, q) == React(Screen(old(gameBoard), p), width, height, e)
    {
      q := p;
      match e
      case MouseButtonDown(c) =>
        q := q.(mouseIsCurrentlyClicked := true);
        var hasBeenSet, alive := CarryOutUserInteraction(c.x, c.y, q.firstClickedStateHasBeenSet, q.firstClickedCellAlive);
        q := q.(firstClickedStateHasBeenSet := hasBeenSet, firstClickedCellAlive := alive);
      case MouseButtonUp =>
        q := q.(firstClickedStateHasBeenSet := false, mouseIsCurrentlyClicked := false);
      case MouseMotion(c) =>
        if q.mouseIsCurrentlyClicked {
          var hasBeenSet, alive := CarryOutUserInteraction(c.x, c.y, q.firstClickedStateHasBeenSet, q.firstClickedCellAlive);
          q := q.(firstClickedStateHasBeenSet := hasBeenSet, firstClickedCellAlive := alive);
        }
    }

    /** Handles a sequence of mouse events, first to last. */
    method HandleEvents(p: Pointer, es: seq<Event>) returns (q: Pointer)
      requires Valid() && EventsInBounds(es, width, height)
      modifies this`gameBoard
      ensures Valid()
      ensures Screen(gameBoard, q) == ReactAll(Screen(old(gameBoard), p), width, height, es)
    {
      q := p;
      var i := 0;
      while i < |es|
        invariant 0 <= i <= |es| && Valid()
        invariant ReactAll(Screen(gameBoard, q), width, height, es[i..]) == ReactAll(Screen(old(gameBoard), p), width, height, es)
      {
        assert es[i..][0] == es[i] && es[i..][1..] == es[i + 1..];
        q := HandleEvent(q, es[i]);
        i := i + 1;
      }
    }
  }
}
