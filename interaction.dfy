/** The click-and-drag toggle: one press of the mouse button starts a gesture,
    the first cell the gesture touches records its state, and every cell the
    gesture touches afterwards is flipped only while it is in that recorded
    state. A gesture therefore either only paints (dead to alive) or only
    erases (alive to dead). */
module Interaction {
  import opened Board

  /** The flags the event loop keeps between events: whether the first touched
      cell's state has been recorded, that recorded state, and whether the mouse
      button is held. */
  datatype Pointer = Pointer(firstClickedStateHasBeenSet: bool, firstClickedCellAlive: bool, mouseIsCurrentlyClicked: bool)

  /** A mouse event, with the board cell under the pointer where it matters. */
  datatype Event = MouseButtonDown(at: Coord) | MouseButtonUp | MouseMotion(at: Coord)

  /** The board together with the pointer flags. */
  datatype Screen = Screen(board: Grid, pointer: Pointer)

  /** The outcome of one interaction: the board, whether the state is now
      recorded, and the recorded state. */
  datatype Touch = Touch(board: Grid, stateHasBeenSet: bool, recorded: bool)

  /** One interaction with cell c: the first interaction of a gesture records
      c's state; then c is flipped when its state equals the recorded one. */
  function Interact(g: Grid, w: nat, h: nat, hasBeenSet: bool, recorded: bool, c: Coord): (t: Touch)
    requires WellFormed(g, w, h) && InBounds(c, w, h)
    ensures t.stateHasBeenSet
    ensures t.recorded == (if hasBeenSet then recorded else g[c.y][c.x])
    ensures WellFormed(t.board, w, h)
    ensures t.board[c.y][c.x] == !t.recorded
    ensures forall y, x :: 0 <= y < h && 0 <= x < w && Coord(x, y) != c ==> t.board[y][x] == g[y][x]
  {
    var rec := if hasBeenSet then recorded else g[c.y][c.x];
    var board := if g[c.y][c.x] == rec then Toggle(g, w, h, c) else g;
    Touch(board, true, rec)
  }

  predicate EventInBounds(e: Event, w: nat, h: nat) {
    e.MouseButtonUp? || InBounds(e.at, w, h)
  }

  predicate EventsInBounds(es: seq<Event>, w: nat, h: nat) {
    forall i :: 0 <= i < |es| ==> EventInBounds(es[i], w, h)
  }

  /** The effect of one event: a press marks the button held and interacts with
      the cell under the pointer; a release clears the recorded flag and the
      held flag; a motion interacts only while the button is held. */
  function React(s: Screen, w: nat, h: nat, e: Event): (r: Screen)
    requires WellFormed(s.board, w, h) && EventInBounds(e, w, h)
    ensures WellFormed(r.board, w, h)
    ensures e.MouseButtonUp? ==>
      r.board == s.board && r.pointer == Pointer(false, s.pointer.firstClickedCellAlive, false)
    ensures e.MouseMotion? && !s.pointer.mouseIsCurrentlyClicked ==> r == s
    ensures e.MouseButtonDown? || (e.MouseMotion? && s.pointer.mouseIsCurrentlyClicked) ==>
      var c := e.at;
      r.pointer.firstClickedStateHasBeenSet && r.pointer.mouseIsCurrentlyClicked &&
      r.pointer.firstClickedCellAlive == (if s.pointer.firstClickedStateHasBeenSet then s.pointer.firstClickedCellAlive else s.board[c.y][c.x]) &&
      r.board[c.y][c.x] == !r.pointer.firstClickedCellAlive &&
      forall y, x :: 0 <= y < h && 0 <= x < w && Coord(x, y) != c ==> r.board[y][x] == s.board[y][x]
  {
    match e
    case MouseButtonDown(c) =>
      var t := Interact(s.board, w, h, s.pointer.firstClickedStateHasBeenSet, s.pointer.firstClickedCellAlive, c);
      Screen(t.board, Pointer(t.stateHasBeenSet, t.recorded, true))
    case MouseButtonUp =>
      Screen(s.board, s.pointer.(firstClickedStateHasBeenSet := false, mouseIsCurrentlyClicked := false))
    case MouseMotion(c) =>
      if s.pointer.mouseIsCurrentlyClicked then
        var t := Interact(s.board, w, h, s.pointer.firstClickedStateHasBeenSet, s.pointer.firstClickedCellAlive, c);
        Screen(t.board, Pointer(t.stateHasBeenSet, t.recorded, true))
      else s
  }

  /** The effect of a sequence of events, handled first to last. */
  function ReactAll(s: Screen, w: nat, h: nat, es: seq<Event>): (r: Screen)
    requires WellFormed(s.board, w, h) && EventsInBounds(es, w, h)
    ensures WellFormed(r.board, w, h)
    decreases |es|
  {
    if es == [] then s else ReactAll(React(s, w, h, es[0]), w, h, es[1..])
  }

  /** The motion events that drag the pointer over the cells cs in order. */
  function Motions(cs: seq<Coord>): (es: seq<Event>)
    ensures |es| == |cs|
  {
    if cs == [] then [] else [MouseMotion(cs[0])] + Motions(cs[1..])
  }

  lemma {:induction false} MotionsInBounds(cs: seq<Coord>, w: nat, h: nat)
    requires AllInBounds(cs, w, h)
    ensures EventsInBounds(Motions(cs), w, h)
  {
    if cs != [] {
      MotionsInBounds(cs[1..], w, h);
      var es := Motions(cs);
      forall i | 0 <= i < |es| ensures EventInBounds(es[i], w, h) {
        if i > 0 {
          assert es[i] == Motions(cs[1..])[i - 1];
        }
      }
    }
  }

  /** A release ends the gesture: the board is unchanged, nothing is recorded
      and the button is no longer held, so the next press records the state of
      its own cell afresh. */
  lemma ReleaseEndsGesture(s: Screen, w: nat, h: nat, c: Coord)
    requires WellFormed(s.board, w, h) && InBounds(c, w, h)
    ensures var r := React(s, w, h, MouseButtonUp);
      r.board == s.board && !r.pointer.firstClickedStateHasBeenSet && !r.pointer.mouseIsCurrentlyClicked &&
      React(r, w, h, MouseButtonDown(c)).pointer == Pointer(true, s.board[c.y][c.x], true)
  {
  }

  /** Moving the pointer without the button held changes nothing, however long
      the motion. */
  lemma {:induction false} HoverChangesNothing(s: Screen, w: nat, h: nat, cs: seq<Coord>)
    requires WellFormed(s.board, w, h) && EventsInBounds(Motions(cs), w, h)
    requires !s.pointer.mouseIsCurrentlyClicked
    ensures ReactAll(s, w, h, Motions(cs)) == s
  {
    if cs != [] {
      var es := Motions(cs);
      assert es[0] == MouseMotion(cs[0]) && es[1..] == Motions(cs[1..]);
      HoverChangesNothing(s, w, h, cs[1..]);
    }
  }

  /** Dragging with the button held and the state rb recorded leaves every
      dragged cell in the opposite state !rb, and every other cell as it was. */
  lemma {:induction false} DragPaints(g: Grid, w: nat, h: nat, rb: bool, cs: seq<Coord>)
    requires WellFormed(g, w, h) && EventsInBounds(Motions(cs), w, h)
    ensures var r := ReactAll(Screen(g, Pointer(true, rb, true)), w, h, Motions(cs));
      r.pointer == Pointer(true, rb, true) &&
      forall y, x :: 0 <= y < h && 0 <= x < w ==> r.board[y][x] == (if Coord(x, y) in cs then !rb else g[y][x])
    decreases |cs|
  {
    if cs != [] {
      var s := Screen(g, Pointer(true, rb, true));
      var es := Motions(cs);
      assert es[0] == MouseMotion(cs[0]) && es[1..] == Motions(cs[1..]);
      var s1 := React(s, w, h, es[0]);
      DragPaints(s1.board, w, h, rb, cs[1..]);
      forall y, x | 0 <= y < h && 0 <= x < w
        ensures (Coord(x, y) in cs) == (Coord(x, y) == cs[0] || Coord(x, y) in cs[1..])
      {
        assert cs == [cs[0]] + cs[1..];
      }
    }
  }

  /** The events of one gesture: a press on cell first, then a drag over the
      cells of drag. */
  function Gesture(first: Coord, drag: seq<Coord>): (es: seq<Event>)
    ensures |es| == |drag| + 1 && es[0] == MouseButtonDown(first)
  {
    [MouseButtonDown(first)] + Motions(drag)
  }

  lemma GestureInBounds(first: Coord, drag: seq<Coord>, w: nat, h: nat)
    requires InBounds(first, w, h) && AllInBounds(drag, w, h)
    ensures EventsInBounds(Gesture(first, drag), w, h)
  {
    MotionsInBounds(drag, w, h);
    var es := Gesture(first, drag);
    forall i | 0 <= i < |es| ensures EventInBounds(es[i], w, h) {
      if i > 0 {
        assert es[i] == Motions(drag)[i - 1];
      }
    }
  }

  /** One whole gesture from a pointer with no recorded state. The state of the
      pressed cell is recorded; every touched cell ends in the opposite state
      and every other cell keeps its state. Hence a cell only ever changes from
      the recorded state: the gesture paints or erases, never both. */
  lemma GesturePaintsOrErases(g: Grid, w: nat, h: nat, p: Pointer, first: Coord, drag: seq<Coord>)
    requires WellFormed(g, w, h) && EventsInBounds(Gesture(first, drag), w, h)
    requires !p.firstClickedStateHasBeenSet
    ensures InBounds(first, w, h)
    ensures var r := ReactAll(Screen(g, p), w, h, Gesture(first, drag));
      var rb := g[first.y][first.x];
      r.pointer == Pointer(true, rb, true) &&
      (forall y, x :: 0 <= y < h && 0 <= x < w ==>
        r.board[y][x] == (if Coord(x, y) == first || Coord(x, y) in drag then !rb else g[y][x])) &&
      (forall y, x :: 0 <= y < h && 0 <= x < w && r.board[y][x] != g[y][x] ==> g[y][x] == rb)
  {
    var es := Gesture(first, drag);
    assert EventInBounds(es[0], w, h);
    assert es[1..] == Motions(drag);
    var s1 := React(Screen(g, p), w, h, es[0]);
    DragPaints(s1.board, w, h, g[first.y][first.x], drag);
  }
}
