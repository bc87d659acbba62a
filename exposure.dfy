/** The exposure mask: every pixel of the canvas's RGBA buffer that lies
    strictly outside the selection has its red, green and blue channels
    multiplied by 0.8; alpha, and every pixel inside the selection or on its
    boundary, is left alone. */
module Exposure {
  import opened Selector

  /** One element of the canvas buffer (a Uint8ClampedArray). */
  newtype byte = x: int | 0 <= x < 256

  /** Index of channel `c` (0 red, 1 green, 2 blue, 3 alpha) of pixel (x, y)
      in a row-major RGBA buffer `width` pixels wide. */
  function Index(width: nat, x: nat, y: nat, c: nat): (i: nat) {
    (y * width + x) * 4 + c
  }

  /** `v * 0.8` as stored into a Uint8ClampedArray: rounded to the nearest
      integer. For v in 0..255, 4v/5 is never halfway between two integers,
      so the rounding mode for ties never applies. */
  function Dim(v: byte): (r: byte)
    ensures r <= v
    ensures -0.5 < r as real - 0.8 * v as real < 0.5
  {
    DimRounds(v as int);
    ((8 * v as int + 5) / 10) as byte
  }

  /** `(8n + 5) / 10` is within half of `0.8 * n`, in integers: the
      remainder of the odd number `8n + 5` by 10 is never 0. */
  lemma DimRounds(n: int)
    requires 0 <= n < 256
    ensures var q := (8 * n + 5) / 10; 0 <= q <= n && -5 < 10 * q - 8 * n < 5
  {
    DivMod(8 * n + 5, 10);
  }

  /** Channel `i` of the buffer after the filter: dimmed when it is a colour
      channel of a pixel outside the bounds, unchanged otherwise. A buffer of
      width 0 has no pixels. */
  function ExposedAt(s: seq<byte>, width: nat, b: Bounds, i: nat): (v: byte)
    requires i < |s|
  {
    if width > 0 && i % 4 < 3 && Outside(b, (i / 4) % width, (i / 4) / width) then Dim(s[i]) else s[i]
  }

  /** The whole buffer after the filter. */
  function Exposed(s: seq<byte>, width: nat, b: Bounds): (t: seq<byte>)
    ensures |t| == |s|
  {
    seq(|s|, i requires 0 <= i < |s| => ExposedAt(s, width, b, i))
  }

  /** The filter only darkens: no channel of the buffer increases. */
  lemma OnlyDarkens(s: seq<byte>, width: nat, b: Bounds, i: nat)
    requires i < |s|
    ensures Exposed(s, width, b)[i] <= s[i]
  {
  }

  /** Division by a positive divisor is determined by any quotient and
      remainder that reconstruct the dividend. */
  lemma DivModUnique(n: int, d: int, q: int, r: int)
    requires d > 0 && 0 <= r < d && n == q * d + r
    ensures n / d == q && n % d == r
  {
    var q', r' := n / d, n % d;
    assert (q - q') * d == r' - r;
    if q > q' {
      assert (q - q') * d >= d by { MulMonotone(q - q', d); }
    } else if q < q' {
      assert (q' - q) * d >= d by { MulMonotone(q' - q, d); }
    }
  }

  lemma MulMonotone(k: int, d: int)
    requires k >= 1 && d >= 0
    ensures k * d >= d
  {
  }

  /** Decoding an index gives back the pixel and channel it was built from. */
  lemma IndexDecodes(width: nat, x: nat, y: nat, c: nat)
    requires x < width && c < 4
    ensures Index(width, x, y, c) % 4 == c && Index(width, x, y, c) / 4 == y * width + x
    ensures (y * width + x) % width == x && (y * width + x) / width == y
  {
    DivModUnique(Index(width, x, y, c), 4, y * width + x, c);
    DivModUnique(y * width + x, width, y, x);
  }

  /** Every channel of every pixel of the canvas has an index inside the
      buffer, whatever the selection. */
  lemma IndexInBounds(width: nat, height: nat, x: nat, y: nat, c: nat)
    requires x < width && y < height && c < 4
    ensures Index(width, x, y, c) < width * height * 4
  {
    MulLe(y + 1, height, width);
    assert (y + 1) * width == y * width + width;
  }

  lemma {:induction false} MulLe(a: nat, b: nat, c: nat)
    ensures a <= b ==> a * c <= b * c
  {
    if a < b {
      MulLe(a, b - 1, c);
      assert (b - 1) * c + c == b * c;
    }
  }

  /** Every index of the buffer is a channel of a pixel inside the canvas. */
  lemma PixelOf(width: nat, height: nat, i: nat) returns (x: nat, y: nat, c: nat)
    requires i < width * height * 4
    ensures x < width && y < height && c < 4 && i == Index(width, x, y, c)
    ensures width > 0 && i % 4 == c && (i / 4) % width == x && (i / 4) / width == y
  {
    assert width > 0 by {
      assert width * height * 4 > 0;
    }
    var p := i / 4;
    c := i % 4;
    x, y := p % width, p / width;
    DivMod(i, 4);
    DivMod(p, width);
    assert y < height by {
      assert p < width * height;
      if y >= height {
        MulLe(height, y, width);
        assert false;
      }
    }
  }

  /** Quotient and remainder reconstruct the dividend. */
  lemma DivMod(n: int, d: int)
    requires d > 0
    ensures n == (n / d) * d + n % d && 0 <= n % d < d
  {
  }

  /** Channel `c` of pixel (x, y) after the filter: a colour channel of a
      pixel outside the bounds is dimmed, every other channel is unchanged. */
  lemma ExposedChannel(s: seq<byte>, width: nat, height: nat, b: Bounds, x: nat, y: nat, c: nat)
    requires |s| == width * height * 4
    requires x < width && y < height && c < 4
    ensures Index(width, x, y, c) < |s|
    ensures Exposed(s, width, b)[Index(width, x, y, c)] ==
              if c < 3 && Outside(b, x, y) then Dim(s[Index(width, x, y, c)]) else s[Index(width, x, y, c)]
  {
    IndexInBounds(width, height, x, y, c);
    IndexDecodes(width, x, y, c);
  }

  /** A selection that covers the whole canvas leaves the buffer unchanged. */
  lemma CoveringSelectionIsIdentity(s: seq<byte>, width: nat, height: nat, b: Bounds)
    requires |s| == width * height * 4
    requires b.startX <= 0.0 && b.startY <= 0.0
    requires b.endX >= (width - 1) as real && b.endY >= (height - 1) as real
    ensures Exposed(s, width, b) == s
  {
    forall i | 0 <= i < |s|
      ensures Exposed(s, width, b)[i] == s[i]
    {
      var x, y, c := PixelOf(width, height, i);
      assert x as real <= (width - 1) as real && y as real <= (height - 1) as real;
      assert !Outside(b, x, y);
    }
  }

  /** A click without a drag selects a zero-area rectangle: the colour
      channels of every pixel are dimmed except those of the clicked pixel. */
  lemma ClickDimsAllButAnchor(s: seq<byte>, width: nat, height: nat, px: int, py: int, x: nat, y: nat, c: nat)
    requires |s| == width * height * 4
    requires x < width && y < height && c < 3
    ensures Index(width, x, y, c) < |s|
    ensures var e := Exposed(s, width, Normalize(Begin(px as real, py as real)));
            e[Index(width, x, y, c)] == if x == px && y == py then s[Index(width, x, y, c)] else Dim(s[Index(width, x, y, c)])
  {
    var b := Normalize(Begin(px as real, py as real));
    BeginKeepsOnlyAnchor(px as real, py as real, x, y);
    ExposedChannel(s, width, height, b, x, y, c);
  }

  /** The four channels of one pixel after the filter, as the scan writes them. */
  lemma ExposedPixel(s: seq<byte>, width: nat, height: nat, b: Bounds, x: nat, y: nat)
    requires |s| == width * height * 4
    requires x < width && y < height
    ensures Index(width, x, y, 3) < |s|
    ensures var t, i := Exposed(s, width, b), Index(width, x, y, 0);
            t[i] == (if Outside(b, x, y) then Dim(s[i]) else s[i]) &&
            t[i + 1] == (if Outside(b, x, y) then Dim(s[i + 1]) else s[i + 1]) &&
            t[i + 2] == (if Outside(b, x, y) then Dim(s[i + 2]) else s[i + 2]) &&
            t[i + 3] == s[i + 3]
  {
    ExposedChannel(s, width, height, b, x, y, 0);
    ExposedChannel(s, width, height, b, x, y, 1);
    ExposedChannel(s, width, height, b, x, y, 2);
    ExposedChannel(s, width, height, b, x, y, 3);
  }

  /** One step of the scan: dim the colour channels of pixel (x, y) when it
      lies outside the bounds. The pixel and everything after it still hold
      the original buffer; afterwards the pixel holds its filtered channels
      and no other element has changed. */
  method ExposePixel(data: array<byte>, width: nat, height: nat, b: Bounds, x: nat, y: nat, ghost orig: seq<byte>)
    requires data.Length == width * height * 4 == |orig|
    requires x < width && y < height
    requires forall i :: Index(width, x, y, 0) <= i < data.Length ==> data[i] == orig[i]
    modifies data
    ensures Index(width, x, y, 3) < data.Length
    ensures forall i :: 0 <= i < Index(width, x, y, 0) ==> data[i] == old(data[i])
    ensures forall i :: Index(width, x, y, 0) <= i <= Index(width, x, y, 3) ==> data[i] == Exposed(orig, width, b)[i]
    ensures forall i :: Index(width, x, y, 3) < i < data.Length ==> data[i] == orig[i]
  {
    ExposedPixel(orig, width, height, b, x, y);
    var index := (y * width + x) * 4;
    if x as real < b.startX || x as real > b.endX || y as real < b.startY || y as real > b.endY {
      data[index] := Dim(data[index]);
      data[index + 1] := Dim(data[index + 1]);
      data[index + 2] := Dim(data[index + 2]);
      forall i | index <= i <= index + 3
        ensures data[i] == Exposed(orig, width, b)[i]
      {
        assert i == index || i == index + 1 || i == index + 2 || i == index + 3;
      }
    } else {
      forall i | index <= i <= index + 3
        ensures data[i] == Exposed(orig, width, b)[i]
      {
        assert i == index || i == index + 1 || i == index + 2 || i == index + 3;
      }
    }
  }

  /** The mask filter, in place on the canvas buffer of a `width` by `height`
      canvas: scan rows, then columns, and dim the colour channels of every
      pixel outside the normalised selection. */
  method AdjustExposure(data: array<byte>, width: nat, height: nat, r: Rect)
    requires data.Length == width * height * 4
    modifies data
    ensures data[..] == Exposed(old(data[..]), width, Normalize(r))
  {
    var b := Normalize(r);
    ghost var orig := data[..];
    ghost var done: nat := 0;  // pixels scanned so far
    for y := 0 to height
      invariant done == y * width && done * 4 <= data.Length
      invariant forall i :: 0 <= i < done * 4 ==> data[i] == Exposed(orig, width, b)[i]
      invariant forall i :: done * 4 <= i < data.Length ==> data[i] == orig[i]
    {
      MulLe(y + 1, height, width);
      assert (y + 1) * width == y * width + width;
      for x := 0 to width
        invariant done == y * width + x && done <= (y + 1) * width <= height * width
        invariant forall i :: 0 <= i < done * 4 ==> data[i] == Exposed(orig, width, b)[i]
        invariant forall i :: done * 4 <= i < data.Length ==> data[i] == orig[i]
      {
        ExposePixel(data, width, height, b, x, y, orig);
        done := done + 1;
      }
    }
    assert done == width * height;
  }
}
