/** The editor's interaction state across pointer events: the selection being
    drawn and whether the button is held. Each handler maps the latest state
    and a canvas-relative pointer position to the next state. */
module Session {
  import opened Selector

  datatype Option<T> = None | Some(value: T)

  /** `rect` is None until the first mouse-down; `drawing` is true between
      mouse-down and mouse-up. */
  datatype State = State(rect: Option<Rect>, drawing: bool)

  const Initial: State := State(None, false)

  /** Mouse-down: start drawing a fresh selection anchored at the pointer. */
  function MouseDown(s: State, px: real, py: real): (t: State)
    ensures t.drawing && t.rect.Some?
    ensures Normalize(t.rect.value) == Bounds(px, py, px, py)
  {
    State(Some(Begin(px, py)), true)
  }

  /** Mouse-move: ignored unless a selection is being drawn; otherwise the
      selection keeps its anchor and its far corner follows the pointer. */
  function MouseMove(s: State, px: real, py: real): (t: State)
    ensures !s.drawing || s.rect.None? ==> t == s
    ensures s.drawing && s.rect.Some? ==>
              t.drawing && t.rect.Some? &&
              t.rect.value.startX == s.rect.value.startX && t.rect.value.startY == s.rect.value.startY &&
              t.rect.value.startX + t.rect.value.width == px && t.rect.value.startY + t.rect.value.height == py
  {
    if !s.drawing || s.rect.None? then s
    else State(Some(Update(s.rect.value, px, py)), true)
  }

  /** Mouse-up: stop drawing; the current selection, if there is one, is the
      one the exposure filter is applied to. */
  function MouseUp(s: State): (result: (State, Option<Rect>))
    ensures !result.0.drawing && result.0.rect == s.rect
    ensures result.1 == s.rect
  {
    (s.(drawing := false), s.rect)
  }

  /** A whole gesture (down at p, move to q, up) hands the filter a selection
      that keeps exactly the pixels between p and q on both axes. */
  lemma GestureKeepsSpannedPixels(s: State, px: real, py: real, qx: real, qy: real, x: int, y: int)
    ensures var sel := MouseUp(MouseMove(MouseDown(s, px, py), qx, qy)).1;
            sel.Some? &&
            (!Outside(Normalize(sel.value), x, y) <==> (Between(x as real, px, qx) && Between(y as real, py, qy)))
  {
    var r := Update(Begin(px, py), qx, qy);
    assert MouseUp(MouseMove(MouseDown(s, px, py), qx, qy)).1 == Some(r);
    KeptIffBetweenCorners(r, x, y);
  }

  /** A click without movement hands the filter a zero-extent selection at the click. */
  lemma ClickSelectsPoint(s: State, px: real, py: real)
    ensures MouseUp(MouseDown(s, px, py)).1 == Some(Rect(px, py, 0.0, 0.0))
  {
  }

  /** Once the button is released, moving the pointer changes nothing. */
  lemma MoveAfterUpIgnored(s: State, px: real, py: real)
    ensures MouseMove(MouseUp(s).0, px, py) == MouseUp(s).0
  {
  }

  /** Before any mouse-down there is no selection, so mouse-up applies no filter. */
  lemma UpWithoutDownFiltersNothing()
    ensures MouseUp(Initial).1 == None
  {
  }

  /** A pointer event delivered to one of the canvas listeners. */
  datatype Event = Down(x: real, y: real) | Move(x: real, y: real) | Up

  /** The state after the listener for `e` has run. Drawing always comes with
      a selection, a selection once made is never dropped, and mouse-up
      only stops drawing. */
  function Step(s: State, e: Event): (t: State)
    ensures (s.drawing ==> s.rect.Some?) ==> (t.drawing ==> t.rect.Some?)
    ensures s.rect.Some? ==> t.rect.Some?
    ensures e.Up? ==> !t.drawing && t.rect == s.rect
  {
    match e
    case Down(x, y) => MouseDown(s, x, y)
    case Move(x, y) => MouseMove(s, x, y)
    case Up => MouseUp(s).0
  }

  /** The state after a stream of events, delivered in order. Whatever the
      events, drawing still comes with a selection, and a selection once made
      is never dropped. */
  function Run(s: State, es: seq<Event>): (t: State)
    ensures (s.drawing ==> s.rect.Some?) ==> (t.drawing ==> t.rect.Some?)
    ensures s.rect.Some? ==> t.rect.Some?
    decreases |es|
  {
    if es == [] then s else Run(Step(s, es[0]), es[1..])
  }

  predicate AllMoves(es: seq<Event>) {
    forall i :: 0 <= i < |es| ==> es[i].Move?
  }

  /** Delivering two streams one after the other is delivering their concatenation. */
  lemma {:induction false} RunAppend(s: State, es: seq<Event>, fs: seq<Event>)
    ensures Run(s, es + fs) == Run(Run(s, es), fs)
    decreases |es|
  {
    if es != [] {
      assert (es + fs)[0] == es[0] && (es + fs)[1..] == es[1..] + fs;
      RunAppend(Step(s, es[0]), es[1..], fs);
    } else {
      assert es + fs == fs;
    }
  }

  /** While drawing, any non-empty run of moves keeps drawing and keeps the
      anchor, and leaves the far corner at the last pointer position. */
  lemma {:induction false} MovesFollowPointer(s: State, es: seq<Event>)
    requires s.drawing && s.rect.Some? && AllMoves(es) && es != []
    ensures var t, last := Run(s, es), es[|es| - 1];
            t.drawing && t.rect.Some? &&
            t.rect.value.startX == s.rect.value.startX && t.rect.value.startY == s.rect.value.startY &&
            t.rect.value.startX + t.rect.value.width == last.x && t.rect.value.startY + t.rect.value.height == last.y
    decreases |es|
  {
    if |es| > 1 {
      MovesFollowPointer(Step(s, es[0]), es[1..]);
    }
  }

  /** When the button is not held, moves change nothing, however many. */
  lemma {:induction false} MovesIgnoredWhenIdle(s: State, es: seq<Event>)
    requires !s.drawing && AllMoves(es)
    ensures Run(s, es) == s
    decreases |es|
  {
    if es != [] {
      MovesIgnoredWhenIdle(Step(s, es[0]), es[1..]);
    }
  }

  /** A drag (mouse-down at p, any moves, mouse-up) hands the filter a
      selection that keeps exactly the pixels between p and the last pointer
      position on both axes; without moves, only the pixel at p. */
  lemma DragSelectsToLastPointer(s: State, px: real, py: real, moves: seq<Event>, x: int, y: int)
    requires AllMoves(moves)
    ensures var sel := MouseUp(Run(s, [Down(px, py)] + moves)).1;
            var q := if moves == [] then (px, py) else (moves[|moves| - 1].x, moves[|moves| - 1].y);
            sel.Some? &&
            (!Outside(Normalize(sel.value), x, y) <==> (Between(x as real, px, q.0) && Between(y as real, py, q.1)))
  {
    var d := MouseDown(s, px, py);
    RunAppend(s, [Down(px, py)], moves);
    assert Run(s, [Down(px, py)]) == Run(d, []);
    if moves == [] {
      KeptIffBetweenCorners(d.rect.value, x, y);
    } else {
      MovesFollowPointer(d, moves);
      KeptIffBetweenCorners(Run(d, moves).rect.value, x, y);
    }
  }

  /** Before the first mouse-down there is no selection and nothing is being
      drawn, so any moves are ignored and a mouse-up applies no filter. */
  lemma MovesBeforeDownIgnored(es: seq<Event>)
    requires AllMoves(es)
    ensures Initial.rect.None? && !Initial.drawing
    ensures Run(Initial, es) == Initial && MouseUp(Run(Initial, es)).1 == None
  {
    MovesIgnoredWhenIdle(Initial, es);
  }
}
