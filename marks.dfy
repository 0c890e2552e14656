/** A grid of marks scanned in row-major order: the marked cells as a list of
    cells and as the flat list of their coordinates, and the facts about that
    list (membership, order, the empty case). */
module Marks {
  import opened Board

  /** The marked cells of row y among columns [0, k), left to right. */
  function RowMarked(m: Grid, w: nat, h: nat, y: nat, k: nat): (cs: seq<Coord>)
    requires WellFormed(m, w, h) && y < h && k <= w
  {
    if k == 0 then []
    else if m[y][k - 1] then RowMarked(m, w, h, y, k - 1) + [Coord(k - 1, y)]
    else RowMarked(m, w, h, y, k - 1)
  }

  /** The marked cells of rows [0, j), row by row. */
  function RowsMarked(m: Grid, w: nat, h: nat, j: nat): (cs: seq<Coord>)
    requires WellFormed(m, w, h) && j <= h
  {
    if j == 0 then [] else RowsMarked(m, w, h, j - 1) + RowMarked(m, w, h, j - 1, w)
  }

  /** The flat pairs [x, y, ...] of the marked cells of row y among columns
      [0, k), left to right: what the inner loop of the scan appends. */
  function RowPairs(m: Grid, w: nat, h: nat, y: nat, k: nat): seq<nat>
    requires WellFormed(m, w, h) && y < h && k <= w
  {
    if k == 0 then []
    else if m[y][k - 1] then RowPairs(m, w, h, y, k - 1) + [k - 1, y]
    else RowPairs(m, w, h, y, k - 1)
  }

  /** The flat pairs of the marked cells of rows [0, j), row by row. */
  function RowsPairs(m: Grid, w: nat, h: nat, j: nat): seq<nat>
    requires WellFormed(m, w, h) && j <= h
  {
    if j == 0 then [] else RowsPairs(m, w, h, j - 1) + RowPairs(m, w, h, j - 1, w)
  }

  lemma {:induction false} RowPairsFlatten(m: Grid, w: nat, h: nat, y: nat, k: nat)
    requires WellFormed(m, w, h) && y < h && k <= w
    ensures RowPairs(m, w, h, y, k) == Flatten(RowMarked(m, w, h, y, k))
  {
    if k > 0 {
      RowPairsFlatten(m, w, h, y, k - 1);
      var c := Coord(k - 1, y);
      if m[y][k - 1] {
        assert Flatten([c]) == [k - 1, y] by {
          assert [c][1..] == [];
        }
        FlattenAppend(RowMarked(m, w, h, y, k - 1), [c]);
      }
    }
  }

  lemma {:induction false} RowsPairsFlatten(m: Grid, w: nat, h: nat, j: nat)
    requires WellFormed(m, w, h) && j <= h
    ensures RowsPairs(m, w, h, j) == Flatten(RowsMarked(m, w, h, j))
  {
    if j > 0 {
      var a, b := RowsMarked(m, w, h, j - 1), RowMarked(m, w, h, j - 1, w);
      assert RowsMarked(m, w, h, j) == a + b;
      calc {
        RowsPairs(m, w, h, j);
        RowsPairs(m, w, h, j - 1) + RowPairs(m, w, h, j - 1, w);
        { RowsPairsFlatten(m, w, h, j - 1); RowPairsFlatten(m, w, h, j - 1, w); }
        Flatten(a) + Flatten(b);
        { FlattenAppend(a, b); }
        Flatten(a + b);
        Flatten(RowsMarked(m, w, h, j));
      }
    }
  }

  lemma {:induction false} RowMarkedMembership(m: Grid, w: nat, h: nat, y: nat, k: nat, c: Coord)
    requires WellFormed(m, w, h) && y < h && k <= w
    ensures c in RowMarked(m, w, h, y, k) <==> c.y == y && c.x < k && m[y][c.x]
  {
    if k > 0 {
      RowMarkedMembership(m, w, h, y, k - 1, c);
    }
  }

  lemma {:induction false} RowsMarkedMembership(m: Grid, w: nat, h: nat, j: nat, c: Coord)
    requires WellFormed(m, w, h) && j <= h
    ensures c in RowsMarked(m, w, h, j) <==> c.y < j && c.x < w && m[c.y][c.x]
  {
    if j > 0 {
      RowsMarkedMembership(m, w, h, j - 1, c);
      RowMarkedMembership(m, w, h, j - 1, w, c);
    }
  }

  lemma RowsMarkedInBounds(m: Grid, w: nat, h: nat, j: nat)
    requires WellFormed(m, w, h) && j <= h
    ensures AllInBounds(RowsMarked(m, w, h, j), w, h)
  {
    var cs := RowsMarked(m, w, h, j);
    forall i | 0 <= i < |cs| ensures InBounds(cs[i], w, h) {
      RowsMarkedMembership(m, w, h, j, cs[i]);
    }
  }

  /** a comes strictly before b in a row-major scan (y outer, x inner). */
  predicate RowMajorBefore(a: Coord, b: Coord) {
    a.y < b.y || (a.y == b.y && a.x < b.x)
  }

  predicate RowMajorSorted(cs: seq<Coord>) {
    forall i, j :: 0 <= i < j < |cs| ==> RowMajorBefore(cs[i], cs[j])
  }

  lemma {:induction false} RowMarkedSorted(m: Grid, w: nat, h: nat, y: nat, k: nat)
    requires WellFormed(m, w, h) && y < h && k <= w
    ensures RowMajorSorted(RowMarked(m, w, h, y, k))
  {
    if k > 0 {
      RowMarkedSorted(m, w, h, y, k - 1);
      var a := RowMarked(m, w, h, y, k - 1);
      forall i | 0 <= i < |a| ensures RowMajorBefore(a[i], Coord(k - 1, y)) {
        RowMarkedMembership(m, w, h, y, k - 1, a[i]);
      }
    }
  }

  /** Two sorted lists, every element of the first before every element of the
      second, concatenate to a sorted list. */
  lemma SortedConcat(a: seq<Coord>, b: seq<Coord>)
    requires RowMajorSorted(a) && RowMajorSorted(b)
    requires forall p, q :: 0 <= p < |a| && 0 <= q < |b| ==> RowMajorBefore(a[p], b[q])
    ensures RowMajorSorted(a + b)
  {
  }

  lemma {:induction false} RowsMarkedSorted(m: Grid, w: nat, h: nat, j: nat)
    requires WellFormed(m, w, h) && j <= h
    ensures RowMajorSorted(RowsMarked(m, w, h, j))
  {
    if j > 0 {
      RowsMarkedSorted(m, w, h, j - 1);
      RowMarkedSorted(m, w, h, j - 1, w);
      var a, b := RowsMarked(m, w, h, j - 1), RowMarked(m, w, h, j - 1, w);
      assert RowsMarked(m, w, h, j) == a + b;
      forall p, q | 0 <= p < |a| && 0 <= q < |b| ensures RowMajorBefore(a[p], b[q]) {
        RowsMarkedMembership(m, w, h, j - 1, a[p]);
        RowMarkedMembership(m, w, h, j - 1, w, b[q]);
      }
      SortedConcat(a, b);
    }
  }

  predicate NoneMarked(m: Grid, w: nat, h: nat)
    requires WellFormed(m, w, h)
  {
    forall y, x :: 0 <= y < h && 0 <= x < w ==> !m[y][x]
  }

  lemma {:induction false} UnmarkedRow(m: Grid, w: nat, h: nat, y: nat, k: nat)
    requires WellFormed(m, w, h) && NoneMarked(m, w, h) && y < h && k <= w
    ensures RowMarked(m, w, h, y, k) == []
  {
    if k > 0 {
      UnmarkedRow(m, w, h, y, k - 1);
    }
  }

  lemma {:induction false} UnmarkedRows(m: Grid, w: nat, h: nat, j: nat)
    requires WellFormed(m, w, h) && NoneMarked(m, w, h) && j <= h
    ensures RowsMarked(m, w, h, j) == []
  {
    if j > 0 {
      assert RowsMarked(m, w, h, j) == RowsMarked(m, w, h, j - 1) + RowMarked(m, w, h, j - 1, w);
      UnmarkedRows(m, w, h, j - 1);
      UnmarkedRow(m, w, h, j - 1, w);
    }
  }
}
