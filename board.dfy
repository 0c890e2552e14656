/** The game board: a list of rows of cells, indexed [y][x], each cell alive (true)
    or dead (false); the cells a generation flips; and the flat change list
    [x0, y0, x1, y1, ...] in which those cells are reported. */
module Board {

  type Grid = seq<seq<bool>>

  /** A cell position: column x, row y. */
  datatype Coord = Coord(x: nat, y: nat)

  /** g has h rows of w cells each. */
  predicate WellFormed(g: Grid, w: nat, h: nat) {
    |g| == h && forall y :: 0 <= y < h ==> |g[y]| == w
  }

  predicate InBounds(c: Coord, w: nat, h: nat) {
    c.x < w && c.y < h
  }

  predicate AllInBounds(cs: seq<Coord>, w: nat, h: nat) {
    forall i :: 0 <= i < |cs| ==> InBounds(cs[i], w, h)
  }

  predicate AllDead(g: Grid, w: nat, h: nat)
    requires WellFormed(g, w, h)
  {
    forall y, x :: 0 <= y < h && 0 <= x < w ==> !g[y][x]
  }

  predicate Distinct(cs: seq<Coord>) {
    forall i, j :: 0 <= i < j < |cs| ==> cs[i] != cs[j]
  }

  /** Builds a board of h rows of w cells, row by row and cell by cell. A random
      board takes its cells from `choices`, the values the random source yields
      in that order (one per cell, arranged by row); otherwise every cell is dead. */
  method GenerateTempBoard(w: nat, h: nat, randomBoard: bool, choices: Grid) returns (tempBoard: Grid)
    requires randomBoard ==> WellFormed(choices, w, h)
    ensures WellFormed(tempBoard, w, h)
    ensures !randomBoard ==> AllDead(tempBoard, w, h)
    ensures randomBoard ==> tempBoard == choices
  {
    tempBoard := [];
    var y := 0;
    while y < h
      invariant 0 <= y <= h
      invariant |tempBoard| == y
      invariant forall j :: 0 <= j < y ==> |tempBoard[j]| == w
      invariant forall j, i :: 0 <= j < y && 0 <= i < w ==> tempBoard[j][i] == (randomBoard && choices[j][i])
    {
      tempBoard := tempBoard + [[]];
      var x := 0;
      while x < w
        invariant 0 <= x <= w
        invariant |tempBoard| == y + 1
        invariant |tempBoard[y]| == x
        invariant forall i :: 0 <= i < x ==> tempBoard[y][i] == (randomBoard && choices[y][i])
        invariant forall j :: 0 <= j < y ==> |tempBoard[j]| == w
        invariant forall j, i :: 0 <= j < y && 0 <= i < w ==> tempBoard[j][i] == (randomBoard && choices[j][i])
      {
        if randomBoard {
          tempBoard := tempBoard[y := tempBoard[y] + [choices[y][x]]];
        } else {
          tempBoard := tempBoard[y := tempBoard[y] + [false]];
        }
        x := x + 1;
      }
      y := y + 1;
    }
    if randomBoard {
      forall j | 0 <= j < h
        ensures tempBoard[j] == choices[j]
      {
      }
    }
  }

  /** The board with the single cell c inverted. */
  function Toggle(g: Grid, w: nat, h: nat, c: Coord): (r: Grid)
    requires WellFormed(g, w, h) && InBounds(c, w, h)
    ensures WellFormed(r, w, h)
    ensures forall y, x :: 0 <= y < h && 0 <= x < w ==> r[y][x] == (g[y][x] != (Coord(x, y) == c))
  {
    g[c.y := g[c.y][c.x := !g[c.y][c.x]]]
  }

  /** The board after inverting the listed cells one after another, first to last. */
  function ApplyFlips(g: Grid, w: nat, h: nat, cs: seq<Coord>): (r: Grid)
    requires WellFormed(g, w, h) && AllInBounds(cs, w, h)
    ensures WellFormed(r, w, h)
    decreases |cs|
  {
    if cs == [] then g
    else Toggle(ApplyFlips(g, w, h, cs[..|cs| - 1]), w, h, cs[|cs| - 1])
  }

  /** Flipping one more cell of a list toggles it on the board the shorter
      prefix gives. */
  lemma ApplyFlipsStep(g: Grid, w: nat, h: nat, cs: seq<Coord>, k: nat)
    requires WellFormed(g, w, h) && AllInBounds(cs, w, h) && k < |cs|
    ensures ApplyFlips(g, w, h, cs[..k + 1]) == Toggle(ApplyFlips(g, w, h, cs[..k]), w, h, cs[k])
  {
    assert cs[..k + 1][..k] == cs[..k];
  }

  /** When no cell is listed twice, flipping the list inverts exactly the listed
      cells and leaves every other cell as it was. */
  lemma {:induction false} ApplyFlipsAt(g: Grid, w: nat, h: nat, cs: seq<Coord>, x: nat, y: nat)
    requires WellFormed(g, w, h) && AllInBounds(cs, w, h) && Distinct(cs)
    requires x < w && y < h
    ensures ApplyFlips(g, w, h, cs)[y][x] == (g[y][x] != (Coord(x, y) in cs))
    decreases |cs|
  {
    if cs != [] {
      var init, last := cs[..|cs| - 1], cs[|cs| - 1];
      assert cs == init + [last];
      assert last !in init by {
        forall i | 0 <= i < |init| ensures init[i] != last {
          assert init[i] == cs[i];
        }
      }
      ApplyFlipsAt(g, w, h, init, x, y);
    }
  }

  /** The flat change list [x0, y0, x1, y1, ...] of a list of cells. */
  function Flatten(cs: seq<Coord>): (s: seq<nat>)
    ensures |s| == 2 * |cs|
  {
    if cs == [] then [] else [cs[0].x, cs[0].y] + Flatten(cs[1..])
  }

  /** The cells of a flat change list, read as consecutive (x, y) pairs; an
      unpaired last element is dropped. */
  function Pairs(s: seq<nat>): (cs: seq<Coord>)
    ensures |cs| == |s| / 2
  {
    if |s| < 2 then [] else [Coord(s[0], s[1])] + Pairs(s[2..])
  }

  /** Reading a flattened list back in pairs gives the original cells. */
  lemma {:induction false} PairsFlatten(cs: seq<Coord>)
    ensures Pairs(Flatten(cs)) == cs
  {
    if cs != [] {
      assert Flatten(cs)[2..] == Flatten(cs[1..]);
      PairsFlatten(cs[1..]);
    }
  }

  lemma {:induction false} FlattenAppend(a: seq<Coord>, b: seq<Coord>)
    ensures Flatten(a + b) == Flatten(a) + Flatten(b)
  {
    if a == [] {
      assert a + b == b;
    } else {
      assert (a + b)[1..] == a[1..] + b;
      FlattenAppend(a[1..], b);
    }
  }

  /** The k-th pair is made of the elements at 2k and 2k + 1. */
  lemma {:induction false} PairsAt(s: seq<nat>, k: nat)
    requires 2 * k + 1 < |s|
    ensures Pairs(s)[k] == Coord(s[2 * k], s[2 * k + 1])
  {
    if k > 0 {
      PairsAt(s[2..], k - 1);
    }
  }

  /** A trailing unpaired element is ignored. */
  lemma {:induction false} PairsIgnoresTrailing(s: seq<nat>)
    requires |s| % 2 == 1
    ensures Pairs(s) == Pairs(s[..|s| - 1])
  {
    if |s| > 1 {
      assert s[2..][..|s| - 3] == s[..|s| - 1][2..];
      PairsIgnoresTrailing(s[2..]);
    }
  }
}
