# Game of Life engine, modelled in Dafny

This project models the cellular-automaton engine of `gameoflife.py`, a
pygame Game of Life, and proves what it does.

- **Board.** A list of rows of cells, indexed `[y][x]`. A cell is alive (`true`) or dead (`false`).
- **Neighbour count.** The count sums eight list reads around a cell. The code's edge rule is reproduced exactly:
  - At index 0, the `-1` read is a negative list index, so it reaches the last column or row.
  - At the last index, the offset is `1 - x`, so the read after the edge reaches index **1**, not index 0.
  - Both dimensions must therefore be at least 2.
- **Generation step.** `permutate_cells` scans the board row by row and cell by cell. It appends the pair `x, y` of every cell that Conway's rule flips to a flat change list. Only after the scan does `update_game_board` invert those cells, in pairs.
- **Click-and-drag toggle.**
  - The first cell a mouse gesture touches records its state.
  - Each touched cell is inverted only while it is in that recorded state.
  - Releasing the button clears the record.

Modules:

- `Board` (board.dfy): the grid, board generation, cell flips, and the flat change list with its pairing.
- `Neighbours` (neighbours.dfy): list indexing, the eight reads, the count, and the edge rule.
- `Rules` (rules.dfy): which cells are listed, and Conway's rule.
- `Marks` (marks.dfy): a grid of marks read in row-major order, as cells and as flat pairs.
- `Generation` (generation.dfy): the scan as methods with loops, and its specification `Changes` / `Next`.
- `Interaction` (interaction.dfy): the toggle and the mouse events as pure functions.
- `Game` (game.dfy): the constants, the pixel-to-cell mapping, and the class `GameOfLife`. The class holds the board and updates it in place.

The grid is not a torus. At the last index the offset is `1 - x`, so the read past the right or bottom edge reaches index 1, not index 0. At index 0 the `-1` read is a negative list index and reaches the last row or column. The model reproduces both reads (`Neighbours.EdgeIndexMapping`, `Neighbours.LastColumnIgnoresColumnZero`).

## Model

| member | source | states |
|---|---|---|
| Board.GenerateTempBoard | gameoflife.py:28-39 | The board has h rows of w cells each. Unless a random board is asked for, every cell is dead. A random board holds the supplied choices, one per cell, row by row. |
| Board.Toggle | gameoflife.py:59 | Inverting one cell changes that cell and no other. The dimensions stay the same. |
| Board.ApplyFlipsAt | gameoflife.py:55-59 | When no cell appears twice, flipping a list of cells inverts exactly the listed cells. Every other cell keeps its state. |
| Board.Flatten | gameoflife.py:73 | The flat list holds two numbers per cell. |
| Board.Pairs | gameoflife.py:56 | Reading the flat list in pairs yields half as many cells as there are numbers, rounded down. |
| Board.PairsAt | gameoflife.py:56 | The k-th pair is made of the numbers at positions 2k and 2k+1. |
| Board.PairsFlatten | gameoflife.py:56 | Reading a flattened cell list back in pairs gives the original cells. |
| Board.PairsIgnoresTrailing | gameoflife.py:56 | An unpaired last number is ignored. |
| Neighbours.ListIndex | gameoflife.py:50-52 | A list index in [-n, n) reaches a position below n, congruent to it modulo n. A negative index counts from the end. |
| Neighbours.Sum | gameoflife.py:49-53 | A sum of reads is at most the number of reads. |
| Neighbours.SumZeroIffNoneAlive | gameoflife.py:49-53 | A sum of reads is 0 if and only if no read is alive. |
| Neighbours.SurroundingReads | gameoflife.py:49-53 | The count is taken over exactly eight reads. |
| Neighbours.SurroundingCells | gameoflife.py:41-53 | The live-neighbour count lies between 0 and 8. |
| Neighbours.EdgeIndexMapping | gameoflife.py:44-52 | Index 0 reads the last index as its previous neighbour. The last index reads index 1 as its next neighbour. Interior indices read their plain -1 and +1 neighbours. |
| Neighbours.SurroundingCellsCountsNeighbours | gameoflife.py:41-53 | The eight reads are exactly the neighbourhood that the edge rule gives, so the count is the number of live cells in it. |
| Neighbours.LastColumnIgnoresColumnZero | gameoflife.py:44-52 | On a board at least three wide, the count of a cell in the last column is the same for any two boards that differ only in column 0: the right edge does not wrap round to column 0. |
| Neighbours.SurroundingCellsOfDeadBoard | gameoflife.py:49-53 | On an all-dead board every count is 0. |
| Rules.ListedIffRuleChangesState | gameoflife.py:69-85 | A cell is listed if and only if Conway's rule (born with 3, survives with 2 or 3) changes its state. |
| Generation.ScanCells | gameoflife.py:64-86 | The scan returns the flat list of the listed cells in row-major order. The board is only read. |
| Generation.ScanRow | gameoflife.py:66-85 | The inner loop appends the pairs of the listed cells of row y, left to right. |
| Generation.ChangesMembership | gameoflife.py:69-85 | A cell is in the change list if and only if it lies on the board and is alive with fewer than 2 or more than 3 neighbours, or dead with exactly 3. |
| Generation.ChangesRowMajor | gameoflife.py:65-66 | The change list is in strict row-major order (y outer, x inner), so no cell appears twice. |
| Generation.ChangeListShape | gameoflife.py:64-85 | The flat list has even length. Read back in pairs, it gives the change list, sorted and without repeats. |
| Generation.ChangedIffListed | gameoflife.py:68-87 | A cell differs between the board and its next generation if and only if it is in the change list. |
| Generation.FlipsGiveNextGeneration | gameoflife.py:61-89 | Flipping the listed cells of the pre-step board gives the next generation, with every count taken before any flip. |
| Generation.DeadCellStaysDead | gameoflife.py:81-85 | On an all-dead board no cell is listed and no cell changes. |
| Generation.DeadBoardIsStill | gameoflife.py:61-89 | On an all-dead board the change list is empty and the board stays as it is. |
| Marks.RowsMarkedMembership | gameoflife.py:65-85 | A cell is among the marked cells of the first j rows if and only if its row is below j, its column is on the board, and it is marked. |
| Marks.RowsMarkedSorted | gameoflife.py:65-66 | The marked cells come out in strict row-major order. |
| Marks.RowsPairsFlatten | gameoflife.py:64-85 | The flat pairs that the scan appends are the flattening of the marked cells in row-major order. |
| Marks.UnmarkedRows | gameoflife.py:64-85 | With nothing marked, the scan lists nothing. |
| Interaction.Interact | gameoflife.py:148-153 | The first touch records the touched cell's state; later touches keep the recorded state. After the touch, the cell holds the opposite of the recorded state, and every other cell is unchanged. |
| Interaction.React | gameoflife.py:181-200 | A press, or a motion while the button is held, touches the cell and marks the button held. A release keeps the board and clears both flags. A motion without the button held changes nothing. |
| Interaction.ReleaseEndsGesture | gameoflife.py:190-192 | After a release, nothing is recorded and the button is not held. The next press records its own cell's state afresh. |
| Interaction.HoverChangesNothing | gameoflife.py:194 | Motion without the button held leaves the board and flags unchanged, however long it lasts. |
| Interaction.DragPaints | gameoflife.py:194-200 | A drag with state b recorded leaves every dragged cell in state !b and every other cell as it was. |
| Interaction.GesturePaintsOrErases | gameoflife.py:148-200 | A press and a drag, starting with nothing recorded (as with the initial flags at lines 167-169 or after a release), record the pressed cell's state b. Every touched cell ends as !b and every other cell is kept. Only cells in state b change, so one gesture paints or erases, never both. |
| Game.FigureOutClickedCell | gameoflife.py:137-142 | The cell's pixel range contains the pointer position: floor division by the cell width. |
| Game.ClickedCellInWindow | gameoflife.py:12-14 | Every pixel of the 200 by 200 cell window maps to a cell on the board. |
| Game.GameOfLife.constructor | gameoflife.py:28-39 | The game starts on a generated board of the given dimensions. |
| Game.GameOfLife.UpdateGameBoard | gameoflife.py:55-59 | The board becomes the old board with the cells of the flat list flipped, pair by pair. |
| Game.GameOfLife.PermutateCells | gameoflife.py:61-89 | Returns the flat list of the listed cells and leaves the board at the next generation. |
| Game.GameOfLife.CarryOutUserInteraction | gameoflife.py:144-157 | The board and returned flags are those of one interaction with the given cell. |
| Game.GameOfLife.HandleEvent | gameoflife.py:181-200 | The board and flags after one mouse event are those of React. |
| Game.GameOfLife.HandleEvents | gameoflife.py:176-200 | The board and flags after a sequence of mouse events are those of handling them in order. |

## Left out

- Rendering (`draw_grid`, gameoflife.py:94-135) is not modelled. This includes the full redraw's transposed read at line 108 and the redraw call at line 155. It is presentation only.
- The rest of the event loop is not modelled: `QUIT`, the keyboard pause and resume flag, the frame counter, `pygame.init` and `cProfile.run` (gameoflife.py:161-229 outside lines 181-200). It is I/O and profiling.
- Game.GameOfLife.CarryOutUserInteraction takes the cell under the pointer as parameters. Reading the mouse with `pygame.mouse.get_pos()`, and the swapped arguments at gameoflife.py:146, are not modelled. `Game.FigureOutClickedCell` models the pixel-to-cell division on its own.
- Game.GameOfLife.HandleEvent requires the event's cell to lie on the board, with natural coordinates. A negative cell in [-200, -1], which Python reads from the end of the row or column, is not modelled. A cell at 200 or beyond raises an index error in Python.
- Game.ClickedCellInWindow covers the configured 200 by 200 cell window only, where the window and the board have the same dimensions; the class takes its dimensions as parameters.
- Board.GenerateTempBoard takes the random cells as the `choices` input. The random generator and its seed (gameoflife.py:9, 35) are not modelled.
- Game.GameOfLife.UpdateGameBoard takes natural numbers that name cells on the board. The scan only produces such lists. A negative number, which Python would read from the end of a row, is not modelled.
- Neighbours.SurroundingCells requires both dimensions to be at least 2. With a single row or column, the read at index 1 raises an index error in Python.
- The board dimensions are constructor parameters of `Game.GameOfLife`. The window constants 200, 200 and 10 are kept as module constants.
- Generation.ScanRow is the inner loop of the scan written as its own method. It keeps the proof of each loop small.
