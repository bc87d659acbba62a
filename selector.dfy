/** The selection rectangle the user drags over the canvas.
    Coordinates are canvas-relative and may be fractional (pointer positions),
    so they are `real`; the extent is signed while the drag is in progress. */
module Selector {

  /** The selection as the editor keeps it: the point where the button went
      down and the signed extent from there to the pointer. */
  datatype Rect = Rect(startX: real, startY: real, width: real, height: real)

  /** Inclusive bounds of a selection: pixel columns startX..endX and rows
      startY..endY (as compared by the exposure filter) are inside it. */
  datatype Bounds = Bounds(startX: real, startY: real, endX: real, endY: real)

  function Min(a: real, b: real): real { if a <= b then a else b }

  function Max(a: real, b: real): real { if a <= b then b else a }

  function Abs(a: real): real { if a < 0.0 then -a else a }

  /** `v` lies on the segment between `a` and `b`, whichever end is smaller. */
  predicate Between(v: real, a: real, b: real) {
    (a <= v && v <= b) || (b <= v && v <= a)
  }

  /** Mouse-down: a selection anchored at the pointer, with no extent yet. */
  function Begin(px: real, py: real): (r: Rect)
    ensures Normalize(r) == Bounds(px, py, px, py)
  {
    Rect(px, py, 0.0, 0.0)
  }

  /** Mouse-move: the origin stays put and the opposite corner follows the pointer. */
  function Update(r: Rect, px: real, py: real): (u: Rect)
    ensures u.startX == r.startX && u.startY == r.startY
    ensures u.startX + u.width == px && u.startY + u.height == py
  {
    r.(width := px - r.startX, height := py - r.startY)
  }

  /** The inclusive bounds the exposure filter derives from a selection. */
  function Normalize(r: Rect): (b: Bounds)
    ensures b.startX <= b.endX && b.startY <= b.endY
    ensures {b.startX, b.endX} == {r.startX, r.startX + r.width}
    ensures {b.startY, b.endY} == {r.startY, r.startY + r.height}
    ensures b.endX - b.startX == Abs(r.width) && b.endY - b.startY == Abs(r.height)
  {
    Bounds(Min(r.startX, r.startX + r.width), Min(r.startY, r.startY + r.height),
           Max(r.startX, r.startX + r.width), Max(r.startY, r.startY + r.height))
  }

  /** The red outline drawn while dragging: top-left corner and non-negative size. */
  function Outline(r: Rect): (o: Rect)
    ensures o.width >= 0.0 && o.height >= 0.0
    ensures o.startX == Normalize(r).startX && o.startX + o.width == Normalize(r).endX
    ensures o.startY == Normalize(r).startY && o.startY + o.height == Normalize(r).endY
  {
    Rect(Min(r.startX, r.startX + r.width), Min(r.startY, r.startY + r.height),
         Abs(r.width), Abs(r.height))
  }

  /** The exposure filter's test: pixel (x, y) lies strictly outside the bounds. */
  predicate Outside(b: Bounds, x: int, y: int) {
    x as real < b.startX || x as real > b.endX || y as real < b.startY || y as real > b.endY
  }

  /** The same rectangle, dragged from the opposite corner. */
  function Flip(r: Rect): (f: Rect) {
    Rect(r.startX + r.width, r.startY + r.height, -r.width, -r.height)
  }

  /** A pixel is kept exactly when it lies between the anchor and the far
      corner on both axes, boundary included, in whichever direction the
      user dragged. */
  lemma KeptIffBetweenCorners(r: Rect, x: int, y: int)
    ensures !Outside(Normalize(r), x, y) <==>
              (Between(x as real, r.startX, r.startX + r.width) &&
               Between(y as real, r.startY, r.startY + r.height))
  {
  }

  /** Normalisation does not depend on the direction of the drag. */
  lemma DragDirectionIrrelevant(r: Rect)
    ensures Normalize(Flip(r)) == Normalize(r)
    ensures Outline(Flip(r)) == Outline(r)
  {
  }

  /** Dragging from p to q selects the same pixels as dragging from q to p. */
  lemma DragSymmetric(px: real, py: real, qx: real, qy: real)
    ensures Normalize(Update(Begin(px, py), qx, qy)) == Normalize(Update(Begin(qx, qy), px, py))
  {
    DragDirectionIrrelevant(Update(Begin(px, py), qx, qy));
    assert Flip(Update(Begin(px, py), qx, qy)) == Update(Begin(qx, qy), px, py);
  }

  /** The outline is already normal: normalising it again changes nothing,
      and it denotes the same bounds as the selection it outlines. */
  lemma OutlineIdempotent(r: Rect)
    ensures Outline(Outline(r)) == Outline(r)
    ensures Normalize(Outline(r)) == Normalize(r)
  {
  }

  /** A freshly begun selection keeps exactly the pixel under the pointer
      (none at all when the pointer is between pixels). */
  lemma BeginKeepsOnlyAnchor(px: real, py: real, x: int, y: int)
    ensures !Outside(Normalize(Begin(px, py)), x, y) <==> (x as real == px && y as real == py)
  {
  }

  /** Moving the pointer again replaces the previous extent: only the latest
      pointer position matters. */
  lemma UpdateForgetsEarlierMoves(r: Rect, px: real, py: real, qx: real, qy: real)
    ensures Update(Update(r, px, py), qx, qy) == Update(r, qx, qy)
  {
  }
}
