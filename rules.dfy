/** The local rule of a generation: which cells are listed for flipping, and
    Conway's rule that the listing implements. */
module Rules {

  /** Whether a cell with this state and this many live neighbours is listed for
      flipping: a live cell with fewer than two or more than three, a dead cell
      with exactly three. */
  function Listed(alive: bool, n: nat): bool {
    if alive then n < 2 || n > 3 else n == 3
  }

  /** Conway's rule (B3/S23): the state of a cell in the next generation. A cell is
      born with three live neighbours and survives with two or three. */
  function LifeRule(alive: bool, n: nat): bool {
    n == 3 || (alive && n == 2)
  }

  /** A cell is listed exactly when Conway's rule changes its state. */
  lemma ListedIffRuleChangesState(alive: bool, n: nat)
    ensures Listed(alive, n) <==> LifeRule(alive, n) != alive
  {
  }
}
