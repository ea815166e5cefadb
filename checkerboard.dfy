/** The checkered backdrop drawn behind translucent colours
    (src/Avalonia.ColorPicker/ColorHelpers.cs, `CreateCheckeredBackgroundAsync`).

    Pixels are BGRA bytes, premultiplied by alpha, in row-major order. The
    cancellation token is the boolean `cancelled`: a token is never reset, so
    one that is set when the work finishes was set from some check on, and
    one that is clear then was clear at every check. */
module Checkerboard {
  import opened ColorSpace

  /** Side of one checker square, in pixels. */
  const CheckerSize: nat := 4

  /** Whether pixel (x, y) is left transparent: the squares alternate along
      both axes. */
  predicate IsBlank(x: nat, y: nat) {
    (x / CheckerSize + y / CheckerSize) % 2 == 0
  }

  /** A channel scaled by alpha, in integer arithmetic. */
  function Premultiply(channel: Byte, alpha: Byte): (b: Byte)
    ensures b <= channel && b <= alpha
    ensures alpha == 255 ==> b == channel
  {
    var product := channel * alpha;
    assert product <= 255 * channel by { MulMonotone(alpha, 255, channel); }
    assert product <= 255 * alpha by { MulMonotone(channel, 255, alpha); }
    product / 255
  }

  /** The four BGRA bytes of pixel (x, y). */
  function CheckerPixel(x: nat, y: nat, c: Color): (p: seq<Byte>)
    ensures |p| == 4
    ensures IsBlank(x, y) ==> p == [0, 0, 0, 0]
    ensures !IsBlank(x, y) ==> p[3] == c.a && p[2] == Premultiply(c.r, c.a)
    ensures !IsBlank(x, y) ==> p[1] == Premultiply(c.g, c.a) && p[0] == Premultiply(c.b, c.a)
  {
    if IsBlank(x, y) then [0, 0, 0, 0]
    else [Premultiply(c.b, c.a), Premultiply(c.g, c.a), Premultiply(c.r, c.a), c.a]
  }

  /** The first `n` pixels of row `y`. */
  function Row(y: nat, n: nat, c: Color): seq<Byte> {
    if n == 0 then [] else Row(y, n - 1, c) + CheckerPixel(n - 1, y, c)
  }

  /** The first `n` rows of a backdrop `width` pixels wide. */
  function Rows(width: nat, n: nat, c: Color): seq<Byte> {
    if n == 0 then [] else Rows(width, n - 1, c) + Row(n - 1, width, c)
  }

  /** Offset of the first byte of pixel (x, y) of a backdrop of the given size. */
  function PixelOffset(width: nat, height: nat, x: nat, y: nat): (offset: nat)
    requires x < width && y < height
    ensures offset + 4 <= 4 * (height * width)
  {
    MulMonotone(y + 1, height, width);
    assert (y + 1) * width == y * width + width;
    4 * (y * width + x)
  }

  /** Fills the backdrop row by row, giving up as soon as the token is set.
      `None` stands for the null the source returns. */
  method CreateCheckeredBackground(width: nat, height: nat, checkerColor: Color, cancelled: bool)
    returns (pixels: Option<seq<Byte>>)
    ensures pixels.None? <==> width == 0 || height == 0 || cancelled
    ensures pixels.Some? ==> |pixels.value| == 4 * (height * width)
    ensures pixels.Some? ==> forall x: nat, y: nat | x < width && y < height ::
      pixels.value[PixelOffset(width, height, x, y) .. PixelOffset(width, height, x, y) + 4] == CheckerPixel(x, y, checkerColor)
  {
    if width == 0 || height == 0 {
      return None;
    }
    var data := FillCheckers(width, height, checkerColor, cancelled);
    if cancelled {
      return None;
    }
    RowsLength(width, height, checkerColor);
    forall x: nat, y: nat | x < width && y < height
      ensures data[PixelOffset(width, height, x, y) .. PixelOffset(width, height, x, y) + 4] == CheckerPixel(x, y, checkerColor)
    {
      RowsLayout(width, height, checkerColor, x, y);
    }
    return Some(data);
  }

  /** The work item: the nested loops that append each pixel's bytes, checking
      the token before every row and every pixel. */
  method FillCheckers(width: nat, height: nat, checkerColor: Color, cancelled: bool) returns (data: seq<Byte>)
    ensures !cancelled ==> data == Rows(width, height, checkerColor)
  {
    data := [];
    var y := 0;
    while y < height
      invariant 0 <= y <= height
      invariant !cancelled ==> data == Rows(width, y, checkerColor)
    {
      if cancelled {
        break;
      }
      var x := 0;
      while x < width
        invariant 0 <= x <= width
        invariant data == Rows(width, y, checkerColor) + Row(y, x, checkerColor)
      {
        if cancelled {
          break;
        }
        if IsBlank(x, y) {
          data := data + [0, 0, 0, 0];
        } else {
          data := data + [Premultiply(checkerColor.b, checkerColor.a), Premultiply(checkerColor.g, checkerColor.a),
                          Premultiply(checkerColor.r, checkerColor.a), checkerColor.a];
        }
        x := x + 1;
      }
      y := y + 1;
    }
  }

  lemma {:induction false} RowLength(y: nat, n: nat, c: Color)
    ensures |Row(y, n, c)| == 4 * n
  {
    if n > 0 {
      RowLength(y, n - 1, c);
    }
  }

  lemma {:induction false} RowsLength(width: nat, n: nat, c: Color)
    ensures |Rows(width, n, c)| == 4 * (n * width)
  {
    if n > 0 {
      RowsLength(width, n - 1, c);
      RowLength(n - 1, width, c);
      assert (n - 1) * width == n * width - width;
    }
  }

  /** Pixel `x` of a row sits at byte `4 * x`. */
  lemma {:induction false} RowLayout(y: nat, n: nat, c: Color, x: nat)
    requires x < n
    ensures |Row(y, n, c)| == 4 * n
    ensures Row(y, n, c)[4 * x .. 4 * x + 4] == CheckerPixel(x, y, c)
  {
    var front := Row(y, n - 1, c);
    assert Row(y, n, c) == front + CheckerPixel(n - 1, y, c);
    RowLength(y, n - 1, c);
    if x < n - 1 {
      RowLayout(y, n - 1, c, x);
      SliceOfPrefix(front, CheckerPixel(n - 1, y, c), 4 * x, 4 * x + 4);
    } else {
      SliceOfSuffix(front, CheckerPixel(n - 1, y, c), 4 * x, 4 * x + 4);
    }
  }

  /** Pixel (x, y) of the backdrop sits at byte `4 * (y * width + x)`. */
  lemma {:induction false} RowsLayout(width: nat, n: nat, c: Color, x: nat, y: nat)
    requires x < width && y < n
    ensures |Rows(width, n, c)| == 4 * (n * width)
    ensures Rows(width, n, c)[PixelOffset(width, n, x, y) .. PixelOffset(width, n, x, y) + 4] == CheckerPixel(x, y, c)
  {
    RowsLength(width, n, c);
    var above := Rows(width, n - 1, c);
    var last := Row(n - 1, width, c);
    assert Rows(width, n, c) == above + last;
    RowsLength(width, n - 1, c);
    var offset := PixelOffset(width, n, x, y);
    if y < n - 1 {
      RowsLayout(width, n - 1, c, x, y);
      assert offset == PixelOffset(width, n - 1, x, y);
      SliceOfPrefix(above, last, offset, offset + 4);
    } else {
      RowLayout(y, width, c, x);
      assert offset == |above| + 4 * x;
      SliceOfSuffix(above, last, offset, offset + 4);
    }
  }

  lemma SliceOfPrefix<T>(a: seq<T>, b: seq<T>, i: nat, j: nat)
    requires i <= j <= |a|
    ensures (a + b)[i..j] == a[i..j]
  {
  }

  lemma SliceOfSuffix<T>(a: seq<T>, b: seq<T>, i: nat, j: nat)
    requires |a| <= i <= j <= |a| + |b|
    ensures (a + b)[i..j] == b[i - |a| .. j - |a|]
  {
  }
}
