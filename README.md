# Image editor exposure mask, modelled in Dafny

The image editor shows an image on a canvas. The user drags a rectangle over it, and on
mouse-up every pixel outside the rectangle is darkened. This project models the logic of
that component (`components/ImageEditor.tsx`) in four modules:

- `Selector` (`selector.dfy`): the selection rectangle. Mouse-down anchors it at the
  pointer with zero extent. Mouse-move sets a signed extent from the anchor to the pointer.
  Two normalisations are modelled: the inclusive bounds the filter uses (`Normalize`) and
  the outline drawn while dragging (`Outline`). Coordinates are `real`, because pointer
  positions may be fractional. Pixel columns and rows are compared as `x as real`.
- `Session` (`session.dfy`): the interaction state, meaning the current selection and the
  "drawing" flag. Mouse-down, mouse-move and mouse-up are pure transitions on it. Mouse-move
  is ignored unless a selection is being drawn. Mouse-up hands the current selection to
  the filter. A stream of events, delivered in order to the three canvas listeners, is
  `Run`. The lemmas about runs are proved by induction on the stream.
- `Exposure` (`exposure.dfy`): the mask filter. `AdjustExposure` runs the source's nested
  row/column scan in place on the RGBA buffer, an `array<byte>` of `width * height * 4`
  elements. For every pixel strictly outside the bounds, it replaces red, green and blue
  by `Dim(v)`. `Dim(v)` is `v * 0.8` as a `Uint8ClampedArray` stores it: rounded to the
  nearest integer, which is `(8v + 5) / 10` because `4v/5` never ends in .5. The method is
  proved equal to the specification function `Exposed`. Each step of its inner loop is the
  method `ExposePixel`. The per-pixel promises are lemmas
  about `Exposed`.
- `CanvasFit` (`fit.dfy`): the canvas display size. The natural image size is clamped to
  90% of the window on each axis, keeping the aspect ratio. Sizes are `real`. The method
  `UpdateCanvasSize` is proved to scale the natural size by the specification function
  `FitScale`. The lemmas about `FitScale` prove the fit, the aspect ratio and that it is
  the largest such scale.

The code hard-codes the factor 0.8 (line 115). It has no scale adapter between display size
and native resolution. It does not clip the selection to the canvas: the selection is only
compared against pixel coordinates, and `Exposure.IndexInBounds` shows that no access leaves
the buffer.

## Model

| member | source | states |
|---|---|---|
| `Selector.Begin` | components/ImageEditor.tsx:31-36 | A mouse-down selection has zero extent. Its bounds are the pointer position itself. |
| `Selector.Update` | components/ImageEditor.tsx:42-48 | Mouse-move keeps the anchor. The far corner (anchor plus extent) becomes the pointer, so the extent may be negative. |
| `Selector.Normalize` | components/ImageEditor.tsx:106-109 | The bounds are ordered (`startX <= endX`, `startY <= endY`). On each axis they are exactly the anchor and the far corner. Their span is the absolute extent. |
| `Selector.Outline` | components/ImageEditor.tsx:82-87 | The drawn outline has non-negative size. It covers exactly the bounds the filter uses. |
| `Selector.Outside` | components/ImageEditor.tsx:113 | The filter's test: pixel (x, y) is strictly left of, right of, above or below the inclusive bounds. |
| `Selector.KeptIffBetweenCorners` | components/ImageEditor.tsx:106-113 | A pixel escapes the filter if and only if it lies between anchor and far corner on both axes, boundary included, in either drag direction. |
| `Selector.DragDirectionIrrelevant` | components/ImageEditor.tsx:106-109 | The same rectangle dragged from the opposite corner has the same bounds and the same outline. |
| `Selector.DragSymmetric` | components/ImageEditor.tsx:31-48 | Dragging from p to q selects the same bounds as dragging from q to p. |
| `Selector.OutlineIdempotent` | components/ImageEditor.tsx:82-87 | Normalising an outline again changes nothing. An outline has the same bounds as its selection. |
| `Selector.BeginKeepsOnlyAnchor` | components/ImageEditor.tsx:31-36 | A zero-extent selection keeps exactly the pixel under the pointer, and none when the pointer is between pixels. |
| `Selector.UpdateForgetsEarlierMoves` | components/ImageEditor.tsx:42-48 | Only the latest pointer position determines the extent. |
| `Session.MouseDown` | components/ImageEditor.tsx:28-37 | Mouse-down starts drawing. The new selection is the single point under the pointer. |
| `Session.MouseMove` | components/ImageEditor.tsx:39-51 | When not drawing, or with no selection, the state is unchanged. Otherwise drawing goes on, the anchor is kept and the far corner is the pointer. |
| `Session.MouseUp` | components/ImageEditor.tsx:53-58 | Mouse-up stops drawing and keeps the selection. The selection handed to the filter is the current one, or none. |
| `Session.GestureKeepsSpannedPixels` | components/ImageEditor.tsx:28-58 | Down at p, move to q, then up always hands the filter a selection. That selection keeps exactly the pixels between p and q on both axes. |
| `Session.ClickSelectsPoint` | components/ImageEditor.tsx:28-58 | A click without a move hands the filter the zero-extent rectangle at the click. |
| `Session.MoveAfterUpIgnored` | components/ImageEditor.tsx:40-54 | After mouse-up, moving the pointer does not change the state. |
| `Session.UpWithoutDownFiltersNothing` | components/ImageEditor.tsx:16-56 | Before any mouse-down there is no selection, so mouse-up applies no filter. |
| `Session.Step` | components/ImageEditor.tsx:28-62 | Dispatching one event to its listener. Drawing always comes with a selection, a selection once made is never dropped, and mouse-up only stops drawing. |
| `Session.Run` | components/ImageEditor.tsx:60-62 | Delivering a stream of events in order. Whatever the events, drawing still comes with a selection, and a selection once made is never dropped. |
| `Session.RunAppend` | components/ImageEditor.tsx:60-62 | Delivering two event streams one after the other gives the same state as delivering their concatenation. |
| `Session.MovesBeforeDownIgnored` | components/ImageEditor.tsx:16-17 | The initial state has no selection and is not drawing. Any moves before the first mouse-down leave it unchanged, and a mouse-up then applies no filter. |
| `Session.MovesFollowPointer` | components/ImageEditor.tsx:39-51 | While drawing, any non-empty run of moves keeps drawing and keeps the anchor. It leaves the far corner at the last pointer position. |
| `Session.MovesIgnoredWhenIdle` | components/ImageEditor.tsx:39-40 | When the button is not held, any run of moves leaves the state unchanged. |
| `Session.DragSelectsToLastPointer` | components/ImageEditor.tsx:28-62 | Mouse-down at p, then any moves, then mouse-up always hands the filter a selection. It keeps exactly the pixels between p and the last pointer position on both axes. With no moves, that position is p itself. |
| `Exposure.Dim` | components/ImageEditor.tsx:115-117 | The stored value is the integer nearest to `0.8 * v` (within 0.5). It never exceeds `v`. Its type keeps it in 0..255. |
| `Exposure.Exposed` | components/ImageEditor.tsx:111-120 | The filtered buffer has the same length as the input. |
| `Exposure.OnlyDarkens` | components/ImageEditor.tsx:115-117 | No channel of the buffer becomes brighter. |
| `Exposure.Index` | components/ImageEditor.tsx:114 | The row-major RGBA index of channel c of pixel (x, y). Its properties are stated by `IndexDecodes` and `IndexInBounds`. |
| `Exposure.IndexDecodes` | components/ImageEditor.tsx:114 | The row-major index `(y * width + x) * 4 + c` decodes back to pixel (x, y) and channel c. |
| `Exposure.IndexInBounds` | components/ImageEditor.tsx:111-114 | Every channel index of every canvas pixel is inside the `width * height * 4` buffer, whatever the selection. |
| `Exposure.PixelOf` | components/ImageEditor.tsx:111-114 | Every buffer index is a channel of a pixel inside the canvas, and decodes to that pixel and channel. |
| `Exposure.ExposedChannel` | components/ImageEditor.tsx:111-118 | For every pixel of the canvas and every channel: a colour channel (red, green, blue) of a pixel strictly outside the bounds becomes `Dim` of its old value. Every other channel is unchanged, in particular alpha and every channel of a pixel on or inside the bounds. |
| `Exposure.CoveringSelectionIsIdentity` | components/ImageEditor.tsx:106-120 | A selection that covers the whole canvas leaves the buffer unchanged. |
| `Exposure.ClickDimsAllButAnchor` | components/ImageEditor.tsx:106-120 | With a zero-area selection at an integer point, every pixel's colour is dimmed except the clicked pixel's. |
| `Exposure.ExposedPixel` | components/ImageEditor.tsx:113-118 | After the filter, a pixel's red, green and blue are dimmed exactly when the pixel is outside the bounds. Its alpha is unchanged. |
| `Exposure.ExposePixel` | components/ImageEditor.tsx:113-118 | One step of the scan. The pixel's four channels become their filtered values. No other element changes. |
| `Exposure.AdjustExposure` | components/ImageEditor.tsx:90-124 | The in-place nested scan leaves the buffer equal to `Exposed` of the old buffer and the normalised selection. Every array access is proved in bounds. |
| `CanvasFit.UpdateCanvasSize` | components/ImageEditor.tsx:131-147 | Clamping the width and then the height to 90% of the window gives the natural size scaled by `FitScale`, which is `min(1, maxWidth/naturalWidth, maxHeight/naturalHeight)`, with `maxWidth` and `maxHeight` 90% of the window. |
| `CanvasFit.ClampInTurnIsFitScale` | components/ImageEditor.tsx:139-147 | Clamping the width first, and then the height of the already clamped size, applies exactly the scale `FitScale`. |
| `CanvasFit.FittedSize` | components/ImageEditor.tsx:131-147 | The size scaled by `FitScale` fits within the maximum size on both axes. It keeps the natural aspect ratio (`width * naturalHeight == height * naturalWidth`). It is the natural size itself when that already fits. |
| `CanvasFit.FitScaleIsLargestFit` | components/ImageEditor.tsx:132-147 | `FitScale` is between 0 and 1 and fits both bounds. Every other scale that never enlarges and fits both bounds is no larger. |

## Left out

- React state hooks, `useEffect` listener registration and removal, and re-rendering.
  Handlers are modelled as seeing the latest state, and stale closures are not modelled.
- Browser canvas and DOM calls are not modelled. These are `clearRect`, `drawImage`,
  `strokeRect` and its styling, `getImageData`/`putImageData`, `toDataURL` and
  `getBoundingClientRect`. The buffer is an input array, and the pointer is given already
  relative to the canvas. Redrawing the image before filtering means each mouse-up filters
  a fresh copy of the image. The model takes the buffer as given.
- Window size reads and the resize listener are not modelled. The window size is an
  input to `CanvasFit.UpdateCanvasSize`.
- Assigning a fractional size to `canvas.width`/`canvas.height` truncates it to an
  integer. This is not modelled, because it is DOM behaviour. `Exposure.AdjustExposure`
  takes the canvas size as whole numbers.
- `Selector.Update`, `Selector.Normalize`: pointer coordinates and extents are exact reals.
  The code computes them in double precision, where the far corner `startX + (pointer -
  startX)` need not equal the pointer (anchor 0.4 and pointer 1.7 give 1.6999999999999997).
  So "the far corner is the pointer" and "the bounds are the anchor and the far corner" hold
  here in exact arithmetic only. Integer pointer positions, which doubles hold exactly,
  compute exactly. The same idealisation applies to the lemmas of `Session` built on them.
- `CanvasFit.UpdateCanvasSize`: floating-point rounding is idealised as exact real
  arithmetic. A natural size of zero is excluded: the sizing runs only after the image has
  loaded, and a loaded raster image has a positive natural width and height.
- `handleSaveImage` (download link) and `handleSaveToDB` (HTTP POST and alerts) are
  left out. They are I/O.
- components/CropImage.ts, components/VideoPlayer.tsx and next.config.mjs are not part
  of this model. They contain only browser calls, display code or build settings.
- No scale adapter and no configurable dimming factor are modelled, because the code has
  neither. `Exposure.CoveringSelectionIsIdentity` states the identity case the code does
  have: a selection covering the canvas leaves the buffer unchanged.
