/** Sizing the canvas to the window when the image loads or the window is
    resized: the image's natural size, shrunk if necessary so that it fits in
    90% of the window on both axes, keeping its aspect ratio. Sizes are
    `real`, an idealisation of the browser's floating-point numbers. */
module CanvasFit {
  import Selector

  /** Fraction of the window, on each axis, that the canvas may occupy. */
  const Budget: real := 0.9

  /** The uniform scale that fits a natural size into the maximum size
      without ever enlarging it. */
  function FitScale(naturalWidth: real, naturalHeight: real, maxWidth: real, maxHeight: real): (k: real)
    requires naturalWidth > 0.0 && naturalHeight > 0.0
  {
    Selector.Min(1.0, Selector.Min(maxWidth / naturalWidth, maxHeight / naturalHeight))
  }

  /** The display size for the canvas: first clamp the width to the budget,
      then clamp the height, recomputing the other side from the aspect ratio
      each time. The window size is an input. */
  method UpdateCanvasSize(naturalWidth: real, naturalHeight: real, innerWidth: real, innerHeight: real)
    returns (newWidth: real, newHeight: real)
    requires naturalWidth > 0.0 && naturalHeight > 0.0
    requires innerWidth >= 0.0 && innerHeight >= 0.0
    ensures var k := FitScale(naturalWidth, naturalHeight, innerWidth * Budget, innerHeight * Budget);
            newWidth == k * naturalWidth && newHeight == k * naturalHeight
  {
    var aspectRatio := naturalWidth / naturalHeight;
    var maxWidth := innerWidth * Budget;
    var maxHeight := innerHeight * Budget;

    newWidth := naturalWidth;
    newHeight := naturalHeight;
    ghost var scale := 1.0;  // the scale applied so far
    if newWidth > maxWidth {
      newWidth := maxWidth;
      newHeight := maxWidth / aspectRatio;
      scale := maxWidth / naturalWidth;
      assert newWidth == scale * naturalWidth && newHeight == scale * naturalHeight by {
        AspectScale(naturalWidth, naturalHeight, maxWidth);
      }
    }
    if newHeight > maxHeight {
      newHeight := maxHeight;
      newWidth := maxHeight * aspectRatio;
      scale := maxHeight / naturalHeight;
      assert newWidth == scale * naturalWidth && newHeight == scale * naturalHeight by {
        AspectScale(naturalHeight, naturalWidth, maxHeight);
      }
    }
    assert scale == FitScale(naturalWidth, naturalHeight, maxWidth, maxHeight) by {
      ClampInTurnIsFitScale(naturalWidth, naturalHeight, maxWidth, maxHeight);
    }
  }

  /** The fitted size: within the maximum size, in the natural aspect ratio,
      and the natural size itself when that already fits. */
  lemma FittedSize(naturalWidth: real, naturalHeight: real, maxWidth: real, maxHeight: real)
    requires naturalWidth > 0.0 && naturalHeight > 0.0 && maxWidth >= 0.0 && maxHeight >= 0.0
    ensures var k := FitScale(naturalWidth, naturalHeight, maxWidth, maxHeight);
            var w, h := k * naturalWidth, k * naturalHeight;
            w <= maxWidth && h <= maxHeight && w * naturalHeight == h * naturalWidth &&
            (naturalWidth <= maxWidth && naturalHeight <= maxHeight ==> w == naturalWidth && h == naturalHeight)
  {
    var k := FitScale(naturalWidth, naturalHeight, maxWidth, maxHeight);
    FitScaleIsLargestFit(naturalWidth, naturalHeight, maxWidth, maxHeight, 1.0);
    Commute(k, naturalWidth, naturalHeight);
  }

  /** Clamping the width first and then the height, as the method does,
      applies exactly the fit scale. */
  lemma ClampInTurnIsFitScale(naturalWidth: real, naturalHeight: real, maxWidth: real, maxHeight: real)
    requires naturalWidth > 0.0 && naturalHeight > 0.0
    ensures var k1 := if naturalWidth > maxWidth then maxWidth / naturalWidth else 1.0;
            var k2 := if k1 * naturalHeight > maxHeight then maxHeight / naturalHeight else k1;
            k2 == FitScale(naturalWidth, naturalHeight, maxWidth, maxHeight)
  {
    DivBound(1.0, naturalWidth, maxWidth);
    var k1 := if naturalWidth > maxWidth then maxWidth / naturalWidth else 1.0;
    DivBound(k1, naturalHeight, maxHeight);
  }

  lemma Commute(k: real, w: real, h: real)
    ensures (k * w) * h == (k * h) * w
  {
  }

  /** For a positive divisor `d`, `k * d <= m` exactly when `k <= m / d`, and
      `m / d` times `d` is `m`. */
  lemma DivBound(k: real, d: real, m: real)
    requires d > 0.0
    ensures k * d <= m <==> k <= m / d
    ensures (m / d) * d == m
  {
    if k * d <= m {
      assert k == (k * d) / d;
    }
  }

  /** Clamping one side of a `w` by `h` size to `m` and deriving the other
      side from the aspect ratio scales both sides by `m / w`. */
  lemma AspectScale(w: real, h: real, m: real)
    requires w > 0.0 && h > 0.0
    ensures m / (w / h) == (m / w) * h && m * (h / w) == (m / w) * h
    ensures (m / w) * w == m
  {
  }

  /** The fit scale never enlarges, fits both bounds, and is the largest
      scale that does: any other scale `k` that never enlarges and fits both
      bounds is no larger. */
  lemma FitScaleIsLargestFit(naturalWidth: real, naturalHeight: real, maxWidth: real, maxHeight: real, k: real)
    requires naturalWidth > 0.0 && naturalHeight > 0.0 && maxWidth >= 0.0 && maxHeight >= 0.0
    ensures var f := FitScale(naturalWidth, naturalHeight, maxWidth, maxHeight);
            0.0 <= f <= 1.0 && f * naturalWidth <= maxWidth && f * naturalHeight <= maxHeight
    ensures k <= 1.0 && k * naturalWidth <= maxWidth && k * naturalHeight <= maxHeight ==>
              k <= FitScale(naturalWidth, naturalHeight, maxWidth, maxHeight)
  {
  }
}
