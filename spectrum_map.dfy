/** The box-shaped colour map of a spectrum
    (src/AvaloniaWinUI.ColorPicker/ColorSpectrum.cs, `CreateBitmapsAndColorMap`
    and `FillPixelForBox`): for every pixel of an n-by-n square, the HSV colour
    the two spanned channels give it, and BGRA bytes for the bitmaps drawn at
    the extremes of the third channel (or, when hue is the third channel, at
    the six hues 0, 60, ..., 300). */
module SpectrumMap {
  import opened ColorSpace
  import opened ChannelIncrement
  import opened PickerText
  import opened SpectrumComponents

  /** Every range has its minimum at or below its maximum. */
  predicate Ordered(b: HsvBounds) {
    b.minHue <= b.maxHue && b.minSaturation <= b.maxSaturation && b.minValue <= b.maxValue
  }

  /** By convention a range whose minimum is not below its maximum holds only
      its minimum. */
  function Pinned(b: HsvBounds): (p: HsvBounds)
    ensures Ordered(p)
    ensures p.minHue == b.minHue && p.minSaturation == b.minSaturation && p.minValue == b.minValue
    ensures Ordered(b) ==> p == b
    ensures b.minHue >= b.maxHue ==> p.maxHue == p.minHue
    ensures b.minSaturation >= b.maxSaturation ==> p.maxSaturation == p.minSaturation
    ensures b.minValue >= b.maxValue ==> p.maxValue == p.minValue
    ensures ValidBounds(b) ==> ValidBounds(p)
  {
    var maxHue := if b.minHue >= b.maxHue then b.minHue else b.maxHue;
    var maxSaturation := if b.minSaturation >= b.maxSaturation then b.minSaturation else b.maxSaturation;
    var maxValue := if b.minValue >= b.maxValue then b.minValue else b.maxValue;
    b.(maxHue := maxHue, maxSaturation := maxSaturation, maxValue := maxValue)
  }

  /** The lower end of a channel's range in HSV units (degrees, or a fraction). */
  function Low(ch: Channel, b: HsvBounds): real
    requires IsHsvChannel(ch)
  {
    match ch
    case Hue => b.minHue as real
    case Saturation => b.minSaturation as real / 100.0
    case Value => b.minValue as real / 100.0
  }

  /** The upper end of a channel's range in HSV units. */
  function High(ch: Channel, b: HsvBounds): real
    requires IsHsvChannel(ch)
  {
    match ch
    case Hue => b.maxHue as real
    case Saturation => b.maxSaturation as real / 100.0
    case Value => b.maxValue as real / 100.0
  }

  predicate InRange(hsv: Hsv, ch: Channel, b: HsvBounds)
    requires IsHsvChannel(ch)
  {
    Low(ch, b) <= Get(hsv, ch) <= High(ch, b)
  }

  /** How far pixel `i` of `n` sits from the far edge: 1 at pixel 0, 0 at the
      last pixel. */
  function Percent(n: nat, i: nat): (p: real)
    requires 2 <= n && i < n
    ensures InUnitRange(p)
    ensures i == 0 ==> p == 1.0
    ensures i == n - 1 ==> p == 0.0
  {
    var d := n as real - 1.0;
    FractionInUnitRange(d - i as real, d);
    assert d / d == 1.0 && 0.0 / d == 0.0;
    (d - i as real) / d
  }

  /** The point a fraction `p` of the way from `lo` to `hi`. */
  function Axis(lo: real, hi: real, p: real): (r: real)
    ensures lo <= hi && InUnitRange(p) ==> lo <= r <= hi
  {
    Offset(lo, hi - lo, p)
  }

  /** `lo` moved a fraction `p` of the distance `d`. */
  function Offset(lo: real, d: real, p: real): (r: real)
    ensures 0.0 <= d && InUnitRange(p) ==> lo <= r <= lo + d
  {
    lo + p * d
  }

  /** The channel mirrored within its range so that it is largest at the top:
      saturation when it is spanned together with hue, value otherwise. */
  function MirroredChannel(c: Components): (ch: Channel)
    ensures ch == FirstNamed(c) || ch == SecondNamed(c)
    ensures ch == Saturation || ch == Value
  {
    if ThirdDimension(c) == Value then Saturation else Value
  }

  /** `ch` reflected within its range: `max - x + min`. */
  function Mirror(hsv: Hsv, ch: Channel, b: HsvBounds): (r: Hsv)
    requires IsHsvChannel(ch)
    ensures SameExcept(r, hsv, ch)
    ensures InRange(hsv, ch, b) ==> InRange(r, ch, b)
  {
    With(hsv, ch, High(ch, b) - Get(hsv, ch) + Low(ch, b))
  }

  /** Layer `i` of a pixel before its spanned channels are set: the third
      channel at its minimum (layer 0), at its maximum (layer 5) or as the
      current colour has it, or hue 60i when hue is the third channel. */
  function ThirdSetting(c: Components, base: Hsv, i: int): (r: Hsv)
    requires 0 <= i < 6
    ensures SameExcept(r, base, ThirdDimension(c))
  {
    var third := ThirdDimension(c);
    if third == Hue then With(base, Hue, 60.0 * i as real)
    else if i == 0 then With(base, third, 0.0)
    else if i == 5 then With(base, third, 1.0)
    else base
  }

  /** Layer `i` of pixel (x, y) of an n-by-n box before the mirroring: the
      first-named channel runs along y and the second-named along x, each from
      the maximum of its range at pixel 0 to the minimum at pixel n - 1. */
  function Spanned(x: nat, y: nat, base: Hsv, n: nat, c: Components, b: HsvBounds, i: int): (l: Hsv)
    requires 2 <= n && x < n && y < n && 0 <= i < 6
    ensures Ordered(b) ==> InRange(l, FirstNamed(c), b) && InRange(l, SecondNamed(c), b)
    ensures Get(l, ThirdDimension(c)) == Get(ThirdSetting(c, base, i), ThirdDimension(c))
  {
    var first, second := FirstNamed(c), SecondNamed(c);
    With(With(ThirdSetting(c, base, i), first, Axis(Low(first, b), High(first, b), Percent(n, y))),
         second, Axis(Low(second, b), High(second, b), Percent(n, x)))
  }

  /** Layer `i` of pixel (x, y): both spanned channels lie within their
      ranges, and the third channel is left as the layer sets it. */
  function BoxLayer(x: nat, y: nat, base: Hsv, n: nat, c: Components, b: HsvBounds, i: int): (l: Hsv)
    requires 2 <= n && x < n && y < n && 0 <= i < 6
    ensures Ordered(b) ==> InRange(l, FirstNamed(c), b) && InRange(l, SecondNamed(c), b)
    ensures Get(l, ThirdDimension(c)) == Get(ThirdSetting(c, base, i), ThirdDimension(c))
  {
    Mirror(Spanned(x, y, base, n, c, b, i), MirroredChannel(c), b)
  }

  /** All six layers of a pixel agree on the two spanned channels: the
      bitmaps show the same picture at different settings of the third
      channel. */
  lemma LayersShareAxes(x: nat, y: nat, base: Hsv, n: nat, c: Components, b: HsvBounds, i: int, k: int)
    requires 2 <= n && x < n && y < n && 0 <= i < 6 && 0 <= k < 6
    ensures Get(BoxLayer(x, y, base, n, c, b, i), FirstNamed(c)) == Get(BoxLayer(x, y, base, n, c, b, k), FirstNamed(c))
    ensures Get(BoxLayer(x, y, base, n, c, b, i), SecondNamed(c)) == Get(BoxLayer(x, y, base, n, c, b, k), SecondNamed(c))
  {
    var first, second, mirrored := FirstNamed(c), SecondNamed(c), MirroredChannel(c);
    var si, sk := Spanned(x, y, base, n, c, b, i), Spanned(x, y, base, n, c, b, k);
    assert Get(si, first) == Get(sk, first) && Get(si, second) == Get(sk, second);
  }

  /** The top-left pixel holds the top of the unmirrored channel's range and
      the bottom of the mirrored one's; the bottom-right pixel the reverse. */
  lemma BoxCorners(base: Hsv, n: nat, c: Components, b: HsvBounds, i: int)
    requires 2 <= n && 0 <= i < 6
    ensures var mirrored := MirroredChannel(c);
      var plain := if mirrored == FirstNamed(c) then SecondNamed(c) else FirstNamed(c);
      var top, bottom := BoxLayer(0, 0, base, n, c, b, i), BoxLayer(n - 1, n - 1, base, n, c, b, i);
      Get(top, plain) == High(plain, b) && Get(top, mirrored) == Low(mirrored, b) &&
      Get(bottom, plain) == Low(plain, b) && Get(bottom, mirrored) == High(mirrored, b)
  {
    var first, second, mirrored := FirstNamed(c), SecondNamed(c), MirroredChannel(c);
    var top, bottom := Spanned(0, 0, base, n, c, b, i), Spanned(n - 1, n - 1, base, n, c, b, i);
    assert Get(top, first) == High(first, b) && Get(top, second) == High(second, b);
    assert Get(bottom, first) == Low(first, b) && Get(bottom, second) == Low(second, b);
  }

  /** The two ranges agree on the channels the spectrum spans. */
  predicate SameAxisBounds(c: Components, b: HsvBounds, b': HsvBounds) {
    KeyBounds(FirstNamed(c), b) == KeyBounds(FirstNamed(c), b') &&
    KeyBounds(SecondNamed(c), b) == KeyBounds(SecondNamed(c), b')
  }

  /** The range of the third channel plays no part in a pixel. */
  lemma LayerIgnoresThirdBounds(x: nat, y: nat, base: Hsv, n: nat, c: Components, b: HsvBounds, b': HsvBounds, i: int)
    requires 2 <= n && x < n && y < n && 0 <= i < 6
    requires SameAxisBounds(c, b, b')
    ensures BoxLayer(x, y, base, n, c, b, i) == BoxLayer(x, y, base, n, c, b', i)
  {
    var first, second := FirstNamed(c), SecondNamed(c);
    assert Low(first, b) == Low(first, b') && High(first, b) == High(first, b');
    assert Low(second, b) == Low(second, b') && High(second, b) == High(second, b');
  }

  /** The four bytes one layer contributes to its bitmap: blue, green and red
      rounded to bytes, and an opaque alpha. */
  function Bgra(hsv: Hsv): (p: seq<Byte>)
    ensures |p| == 4 && p[3] == 255
  {
    var rgb := HsvToRgb(hsv);
    [RoundToByte(rgb.b), RoundToByte(rgb.g), RoundToByte(rgb.r), 255]
  }

  /** Whether hue is the channel the box does not span, so that the four
      intermediate bitmaps are kept. */
  predicate KeepsMiddleBitmaps(c: Components) {
    c == ValueSaturation || c == SaturationValue
  }

  /** The lists one map build appends to: pixel data for the minimum, the four
      intermediate and the maximum bitmap, and the HSV colour of each pixel. */
  class PixelBuffers {
    var minPixels: seq<Byte>
    var middle1Pixels: seq<Byte>
    var middle2Pixels: seq<Byte>
    var middle3Pixels: seq<Byte>
    var middle4Pixels: seq<Byte>
    var maxPixels: seq<Byte>
    var hsvValues: seq<Hsv>

    constructor()
      ensures minPixels == middle1Pixels == middle2Pixels == middle3Pixels == middle4Pixels == maxPixels == []
      ensures hsvValues == []
    {
      minPixels, middle1Pixels, middle2Pixels, middle3Pixels, middle4Pixels, maxPixels := [], [], [], [], [], [];
      hsvValues := [];
    }
  }

  /** Pixel layers that hold, in order, layers 0 to 5 of pixel (x, y)
      before the mirroring. */
  predicate Spans(x: nat, y: nat, baseHsv: Hsv, n: nat, c: Components, b: HsvBounds,
                  hsvMin: Hsv, hsvMiddle1: Hsv, hsvMiddle2: Hsv, hsvMiddle3: Hsv, hsvMiddle4: Hsv, hsvMax: Hsv)
    requires 2 <= n && x < n && y < n
  {
    hsvMin == Spanned(x, y, baseHsv, n, c, b, 0) && hsvMiddle1 == Spanned(x, y, baseHsv, n, c, b, 1) &&
    hsvMiddle2 == Spanned(x, y, baseHsv, n, c, b, 2) && hsvMiddle3 == Spanned(x, y, baseHsv, n, c, b, 3) &&
    hsvMiddle4 == Spanned(x, y, baseHsv, n, c, b, 4) && hsvMax == Spanned(x, y, baseHsv, n, c, b, 5)
  }

  /** The first half of `FillPixelForBox`: the six layers of pixel (x, y)
      with the spanned channels set from the pixel's position and the third
      channel set per layer, before the mirroring; one method per arm of the
      switch on the components. */
  method SpanPixel(x: nat, y: nat, baseHsv: Hsv, n: nat, c: Components, b: HsvBounds)
    returns (hsvMin: Hsv, hsvMiddle1: Hsv, hsvMiddle2: Hsv, hsvMiddle3: Hsv, hsvMiddle4: Hsv, hsvMax: Hsv)
    requires 2 <= n && x < n && y < n
    ensures Spans(x, y, baseHsv, n, c, b, hsvMin, hsvMiddle1, hsvMiddle2, hsvMiddle3, hsvMiddle4, hsvMax)
  {
    var xPercent := (n as real - 1.0 - x as real) / (n as real - 1.0);
    var yPercent := (n as real - 1.0 - y as real) / (n as real - 1.0);
    assert xPercent == Percent(n, x) && yPercent == Percent(n, y);
    match c {
      case HueValue =>
        hsvMin, hsvMiddle1, hsvMiddle2, hsvMiddle3, hsvMiddle4, hsvMax :=
          SpanHueValue(x, y, baseHsv, n, b, xPercent, yPercent);
      case HueSaturation =>
        hsvMin, hsvMiddle1, hsvMiddle2, hsvMiddle3, hsvMiddle4, hsvMax :=
          SpanHueSaturation(x, y, baseHsv, n, b, xPercent, yPercent);
      case ValueHue =>
        hsvMin, hsvMiddle1, hsvMiddle2, hsvMiddle3, hsvMiddle4, hsvMax :=
          SpanValueHue(x, y, baseHsv, n, b, xPercent, yPercent);
      case ValueSaturation =>
        hsvMin, hsvMiddle1, hsvMiddle2, hsvMiddle3, hsvMiddle4, hsvMax :=
          SpanValueSaturation(x, y, baseHsv, n, b, xPercent, yPercent);
      case SaturationHue =>
        hsvMin, hsvMiddle1, hsvMiddle2, hsvMiddle3, hsvMiddle4, hsvMax :=
          SpanSaturationHue(x, y, baseHsv, n, b, xPercent, yPercent);
      case SaturationValue =>
        hsvMin, hsvMiddle1, hsvMiddle2, hsvMiddle3, hsvMiddle4, hsvMax :=
          SpanSaturationValue(x, y, baseHsv, n, b, xPercent, yPercent);
    }
  }

  /** The `HueValue` arm of the switch in `FillPixelForBox`. */
  method SpanHueValue(x: nat, y: nat, baseHsv: Hsv, n: nat, b: HsvBounds, xPercent: real, yPercent: real)
    returns (hsvMin: Hsv, hsvMiddle1: Hsv, hsvMiddle2: Hsv, hsvMiddle3: Hsv, hsvMiddle4: Hsv, hsvMax: Hsv)
    requires 2 <= n && x < n && y < n && xPercent == Percent(n, x) && yPercent == Percent(n, y)
    ensures Spans(x, y, baseHsv, n, HueValue, b, hsvMin, hsvMiddle1, hsvMiddle2, hsvMiddle3, hsvMiddle4, hsvMax)
  {
    var hMin, hMax := b.minHue as real, b.maxHue as real;
    var vMin, vMax := b.minValue as real / 100.0, b.maxValue as real / 100.0;
    hsvMin, hsvMiddle1, hsvMiddle2, hsvMiddle3, hsvMiddle4, hsvMax :=
      baseHsv, baseHsv, baseHsv, baseHsv, baseHsv, baseHsv;
    var h, v := hMin + yPercent * (hMax - hMin), vMin + xPercent * (vMax - vMin);
    hsvMin, hsvMiddle1, hsvMiddle2 := hsvMin.(h := h, v := v), hsvMiddle1.(h := h, v := v), hsvMiddle2.(h := h, v := v);
    hsvMiddle3, hsvMiddle4, hsvMax := hsvMiddle3.(h := h, v := v), hsvMiddle4.(h := h, v := v), hsvMax.(h := h, v := v);
    hsvMin, hsvMax := hsvMin.(s := 0.0), hsvMax.(s := 1.0);
    assert h == Axis(Low(Hue, b), High(Hue, b), Percent(n, y));
    assert v == Axis(Low(Value, b), High(Value, b), Percent(n, x));
  }

  /** The `HueSaturation` arm of the switch in `FillPixelForBox`. */
  method SpanHueSaturation(x: nat, y: nat, baseHsv: Hsv, n: nat, b: HsvBounds, xPercent: real, yPercent: real)
    returns (hsvMin: Hsv, hsvMiddle1: Hsv, hsvMiddle2: Hsv, hsvMiddle3: Hsv, hsvMiddle4: Hsv, hsvMax: Hsv)
    requires 2 <= n && x < n && y < n && xPercent == Percent(n, x) && yPercent == Percent(n, y)
    ensures Spans(x, y, baseHsv, n, HueSaturation, b, hsvMin, hsvMiddle1, hsvMiddle2, hsvMiddle3, hsvMiddle4, hsvMax)
  {
    var hMin, hMax := b.minHue as real, b.maxHue as real;
    var sMin, sMax := b.minSaturation as real / 100.0, b.maxSaturation as real / 100.0;
    hsvMin, hsvMiddle1, hsvMiddle2, hsvMiddle3, hsvMiddle4, hsvMax :=
      baseHsv, baseHsv, baseHsv, baseHsv, baseHsv, baseHsv;
    var h, s := hMin + yPercent * (hMax - hMin), sMin + xPercent * (sMax - sMin);
    hsvMin, hsvMiddle1, hsvMiddle2 := hsvMin.(h := h, s := s), hsvMiddle1.(h := h, s := s), hsvMiddle2.(h := h, s := s);
    hsvMiddle3, hsvMiddle4, hsvMax := hsvMiddle3.(h := h, s := s), hsvMiddle4.(h := h, s := s), hsvMax.(h := h, s := s);
    hsvMin, hsvMax := hsvMin.(v := 0.0), hsvMax.(v := 1.0);
    assert h == Axis(Low(Hue, b), High(Hue, b), Percent(n, y));
    assert s == Axis(Low(Saturation, b), High(Saturation, b), Percent(n, x));
  }

  /** The `ValueHue` arm of the switch in `FillPixelForBox`. */
  method SpanValueHue(x: nat, y: nat, baseHsv: Hsv, n: nat, b: HsvBounds, xPercent: real, yPercent: real)
    returns (hsvMin: Hsv, hsvMiddle1: Hsv, hsvMiddle2: Hsv, hsvMiddle3: Hsv, hsvMiddle4: Hsv, hsvMax: Hsv)
    requires 2 <= n && x < n && y < n && xPercent == Percent(n, x) && yPercent == Percent(n, y)
    ensures Spans(x, y, baseHsv, n, ValueHue, b, hsvMin, hsvMiddle1, hsvMiddle2, hsvMiddle3, hsvMiddle4, hsvMax)
  {
    var hMin, hMax := b.minHue as real, b.maxHue as real;
    var vMin, vMax := b.minValue as real / 100.0, b.maxValue as real / 100.0;
    hsvMin, hsvMiddle1, hsvMiddle2, hsvMiddle3, hsvMiddle4, hsvMax :=
      baseHsv, baseHsv, baseHsv, baseHsv, baseHsv, baseHsv;
    var v, h := vMin + yPercent * (vMax - vMin), hMin + xPercent * (hMax - hMin);
    hsvMin, hsvMiddle1, hsvMiddle2 := hsvMin.(h := h, v := v), hsvMiddle1.(h := h, v := v), hsvMiddle2.(h := h, v := v);
    hsvMiddle3, hsvMiddle4, hsvMax := hsvMiddle3.(h := h, v := v), hsvMiddle4.(h := h, v := v), hsvMax.(h := h, v := v);
    hsvMin, hsvMax := hsvMin.(s := 0.0), hsvMax.(s := 1.0);
    assert v == Axis(Low(Value, b), High(Value, b), Percent(n, y));
    assert h == Axis(Low(Hue, b), High(Hue, b), Percent(n, x));
  }

  /** The `ValueSaturation` arm of the switch in `FillPixelForBox`. */
  method SpanValueSaturation(x: nat, y: nat, baseHsv: Hsv, n: nat, b: HsvBounds, xPercent: real, yPercent: real)
    returns (hsvMin: Hsv, hsvMiddle1: Hsv, hsvMiddle2: Hsv, hsvMiddle3: Hsv, hsvMiddle4: Hsv, hsvMax: Hsv)
    requires 2 <= n && x < n && y < n && xPercent == Percent(n, x) && yPercent == Percent(n, y)
    ensures Spans(x, y, baseHsv, n, ValueSaturation, b, hsvMin, hsvMiddle1, hsvMiddle2, hsvMiddle3, hsvMiddle4, hsvMax)
  {
    var sMin, sMax := b.minSaturation as real / 100.0, b.maxSaturation as real / 100.0;
    var vMin, vMax := b.minValue as real / 100.0, b.maxValue as real / 100.0;
    hsvMin, hsvMiddle1, hsvMiddle2, hsvMiddle3, hsvMiddle4, hsvMax :=
      baseHsv, baseHsv, baseHsv, baseHsv, baseHsv, baseHsv;
    var v, s := vMin + yPercent * (vMax - vMin), sMin + xPercent * (sMax - sMin);
    hsvMin, hsvMiddle1, hsvMiddle2 := Hsv(0.0, s, v), Hsv(60.0, s, v), Hsv(120.0, s, v);
    hsvMiddle3, hsvMiddle4, hsvMax := Hsv(180.0, s, v), Hsv(240.0, s, v), Hsv(300.0, s, v);
    assert v == Axis(Low(Value, b), High(Value, b), Percent(n, y));
    assert s == Axis(Low(Saturation, b), High(Saturation, b), Percent(n, x));
  }

  /** The `SaturationHue` arm of the switch in `FillPixelForBox`. */
  method SpanSaturationHue(x: nat, y: nat, baseHsv: Hsv, n: nat, b: HsvBounds, xPercent: real, yPercent: real)
    returns (hsvMin: Hsv, hsvMiddle1: Hsv, hsvMiddle2: Hsv, hsvMiddle3: Hsv, hsvMiddle4: Hsv, hsvMax: Hsv)
    requires 2 <= n && x < n && y < n && xPercent == Percent(n, x) && yPercent == Percent(n, y)
    ensures Spans(x, y, baseHsv, n, SaturationHue, b, hsvMin, hsvMiddle1, hsvMiddle2, hsvMiddle3, hsvMiddle4, hsvMax)
  {
    var hMin, hMax := b.minHue as real, b.maxHue as real;
    var sMin, sMax := b.minSaturation as real / 100.0, b.maxSaturation as real / 100.0;
    hsvMin, hsvMiddle1, hsvMiddle2, hsvMiddle3, hsvMiddle4, hsvMax :=
      baseHsv, baseHsv, baseHsv, baseHsv, baseHsv, baseHsv;
    var s, h := sMin + yPercent * (sMax - sMin), hMin + xPercent * (hMax - hMin);
    hsvMin, hsvMiddle1, hsvMiddle2 := hsvMin.(h := h, s := s), hsvMiddle1.(h := h, s := s), hsvMiddle2.(h := h, s := s);
    hsvMiddle3, hsvMiddle4, hsvMax := hsvMiddle3.(h := h, s := s), hsvMiddle4.(h := h, s := s), hsvMax.(h := h, s := s);
    hsvMin, hsvMax := hsvMin.(v := 0.0), hsvMax.(v := 1.0);
    assert s == Axis(Low(Saturation, b), High(Saturation, b), Percent(n, y));
    assert h == Axis(Low(Hue, b), High(Hue, b), Percent(n, x));
  }

  /** The `SaturationValue` arm of the switch in `FillPixelForBox`. */
  method SpanSaturationValue(x: nat, y: nat, baseHsv: Hsv, n: nat, b: HsvBounds, xPercent: real, yPercent: real)
    returns (hsvMin: Hsv, hsvMiddle1: Hsv, hsvMiddle2: Hsv, hsvMiddle3: Hsv, hsvMiddle4: Hsv, hsvMax: Hsv)
    requires 2 <= n && x < n && y < n && xPercent == Percent(n, x) && yPercent == Percent(n, y)
    ensures Spans(x, y, baseHsv, n, SaturationValue, b, hsvMin, hsvMiddle1, hsvMiddle2, hsvMiddle3, hsvMiddle4, hsvMax)
  {
    var sMin, sMax := b.minSaturation as real / 100.0, b.maxSaturation as real / 100.0;
    var vMin, vMax := b.minValue as real / 100.0, b.maxValue as real / 100.0;
    hsvMin, hsvMiddle1, hsvMiddle2, hsvMiddle3, hsvMiddle4, hsvMax :=
      baseHsv, baseHsv, baseHsv, baseHsv, baseHsv, baseHsv;
    var s, v := sMin + yPercent * (sMax - sMin), vMin + xPercent * (vMax - vMin);
    hsvMin, hsvMiddle1, hsvMiddle2 := Hsv(0.0, s, v), Hsv(60.0, s, v), Hsv(120.0, s, v);
    hsvMiddle3, hsvMiddle4, hsvMax := Hsv(180.0, s, v), Hsv(240.0, s, v), Hsv(300.0, s, v);
    assert s == Axis(Low(Saturation, b), High(Saturation, b), Percent(n, y));
    assert v == Axis(Low(Value, b), High(Value, b), Percent(n, x));
  }

  /** The second half of `FillPixelForBox`: the six layers with the mirrored
      channel reflected within its range. */
  method BoxPixel(x: nat, y: nat, baseHsv: Hsv, n: nat, c: Components, b: HsvBounds)
    returns (hsvMin: Hsv, hsvMiddle1: Hsv, hsvMiddle2: Hsv, hsvMiddle3: Hsv, hsvMiddle4: Hsv, hsvMax: Hsv)
    requires 2 <= n && x < n && y < n
    ensures hsvMin == BoxLayer(x, y, baseHsv, n, c, b, 0) && hsvMiddle1 == BoxLayer(x, y, baseHsv, n, c, b, 1)
    ensures hsvMiddle2 == BoxLayer(x, y, baseHsv, n, c, b, 2) && hsvMiddle3 == BoxLayer(x, y, baseHsv, n, c, b, 3)
    ensures hsvMiddle4 == BoxLayer(x, y, baseHsv, n, c, b, 4) && hsvMax == BoxLayer(x, y, baseHsv, n, c, b, 5)
  {
    var sMin, sMax := b.minSaturation as real / 100.0, b.maxSaturation as real / 100.0;
    var vMin, vMax := b.minValue as real / 100.0, b.maxValue as real / 100.0;
    hsvMin, hsvMiddle1, hsvMiddle2, hsvMiddle3, hsvMiddle4, hsvMax := SpanPixel(x, y, baseHsv, n, c, b);

    if c == HueSaturation || c == SaturationHue {
      assert MirroredChannel(c) == Saturation;
      hsvMin, hsvMiddle1, hsvMiddle2 := hsvMin.(s := sMax - hsvMin.s + sMin),
        hsvMiddle1.(s := sMax - hsvMiddle1.s + sMin), hsvMiddle2.(s := sMax - hsvMiddle2.s + sMin);
      hsvMiddle3, hsvMiddle4, hsvMax := hsvMiddle3.(s := sMax - hsvMiddle3.s + sMin),
        hsvMiddle4.(s := sMax - hsvMiddle4.s + sMin), hsvMax.(s := sMax - hsvMax.s + sMin);
    } else {
      assert MirroredChannel(c) == Value;
      hsvMin, hsvMiddle1, hsvMiddle2 := hsvMin.(v := vMax - hsvMin.v + vMin),
        hsvMiddle1.(v := vMax - hsvMiddle1.v + vMin), hsvMiddle2.(v := vMax - hsvMiddle2.v + vMin);
      hsvMiddle3, hsvMiddle4, hsvMax := hsvMiddle3.(v := vMax - hsvMiddle3.v + vMin),
        hsvMiddle4.(v := vMax - hsvMiddle4.v + vMin), hsvMax.(v := vMax - hsvMax.v + vMin);
    }

  }

  /** Appends pixel (x, y): its minimum layer to the colour map, and each kept
      layer's bytes to that layer's bitmap. */
  method FillPixelForBox(x: nat, y: nat, baseHsv: Hsv, n: nat, c: Components, b: HsvBounds, buffers: PixelBuffers)
    requires 2 <= n && x < n && y < n
    modifies buffers
    ensures buffers.hsvValues == old(buffers.hsvValues) + [BoxLayer(x, y, baseHsv, n, c, b, 0)]
    ensures buffers.minPixels == old(buffers.minPixels) + Pixels([BoxLayer(x, y, baseHsv, n, c, b, 0)])
    ensures buffers.maxPixels == old(buffers.maxPixels) + Pixels([BoxLayer(x, y, baseHsv, n, c, b, 5)])
    ensures if KeepsMiddleBitmaps(c) then
        buffers.middle1Pixels == old(buffers.middle1Pixels) + Pixels([BoxLayer(x, y, baseHsv, n, c, b, 1)]) &&
        buffers.middle2Pixels == old(buffers.middle2Pixels) + Pixels([BoxLayer(x, y, baseHsv, n, c, b, 2)]) &&
        buffers.middle3Pixels == old(buffers.middle3Pixels) + Pixels([BoxLayer(x, y, baseHsv, n, c, b, 3)]) &&
        buffers.middle4Pixels == old(buffers.middle4Pixels) + Pixels([BoxLayer(x, y, baseHsv, n, c, b, 4)])
      else
        buffers.middle1Pixels == old(buffers.middle1Pixels) && buffers.middle2Pixels == old(buffers.middle2Pixels) &&
        buffers.middle3Pixels == old(buffers.middle3Pixels) && buffers.middle4Pixels == old(buffers.middle4Pixels)
  {
    var hsvMin, hsvMiddle1, hsvMiddle2, hsvMiddle3, hsvMiddle4, hsvMax := BoxPixel(x, y, baseHsv, n, c, b);
    buffers.hsvValues := buffers.hsvValues + [hsvMin];
    buffers.minPixels := buffers.minPixels + Pixels([hsvMin]);
    if KeepsMiddleBitmaps(c) {
      buffers.middle1Pixels := buffers.middle1Pixels + Pixels([hsvMiddle1]);
      buffers.middle2Pixels := buffers.middle2Pixels + Pixels([hsvMiddle2]);
      buffers.middle3Pixels := buffers.middle3Pixels + Pixels([hsvMiddle3]);
      buffers.middle4Pixels := buffers.middle4Pixels + Pixels([hsvMiddle4]);
    }
    buffers.maxPixels := buffers.maxPixels + Pixels([hsvMax]);
  }

  // ---------------------------------------------------------------------------
  // The whole box
  // ---------------------------------------------------------------------------

  /** Columns are filled from the last (x = n - 1) to the first and, within a
      column, rows from the last to the first; entry j of the map is pixel
      (PixelX(n, j), PixelY(n, j)). */
  function PixelX(n: nat, j: nat): (x: nat)
    requires j < n * n
    ensures x < n
  {
    DivBelow(n, j);
    n - 1 - j / n
  }

  function PixelY(n: nat, j: nat): (y: nat)
    requires j < n * n
    ensures y < n
  {
    n - 1 - j % n
  }

  lemma DivBelow(n: nat, j: nat)
    requires j < n * n
    ensures j / n < n
  {
    if j / n >= n {
      MulMonotone(n, j / n, n);
      assert false;
    }
  }

  /** Entry k of column `column` (both counted from the start of the fill) is
      entry `column * n + k` of the map. */
  lemma EntryIndex(n: nat, column: nat, k: nat)
    requires k < n && column < n
    ensures column * n + k < n * n
    ensures (column * n + k) / n == column && (column * n + k) % n == k
  {
    var j := column * n + k;
    MulMonotone(column + 1, n, n);
    assert j < (column + 1) * n;
    var q, r := j / n, j % n;
    assert n * (q - column) == k - r;
    if q > column {
      MulMonotone(1, q - column, n);
    } else if q < column {
      MulMonotone(1, column - q, n);
    }
  }

  /** Layer `i` of map entry `j`. */
  function EntryLayer(n: nat, base: Hsv, c: Components, b: HsvBounds, i: int, j: nat): Hsv
    requires n != 1 && j < n * n && 0 <= i < 6
  {
    BoxLayer(PixelX(n, j), PixelY(n, j), base, n, c, b, i)
  }

  /** Layer `i` of the first `count` entries of the map; layer 0 is the
      colour map itself. */
  function MapLayer(n: nat, base: Hsv, c: Components, b: HsvBounds, i: int, count: nat): (m: seq<Hsv>)
    requires n != 1 && count <= n * n && 0 <= i < 6
    ensures |m| == count
  {
    seq(count, j requires 0 <= j < count => EntryLayer(n, base, c, b, i, j))
  }

  /** Four bytes for each element of `xs`, one element after another (a
      byte `f` does not supply is 0; `Bgra` supplies all four). */
  function FourEach<T>(xs: seq<T>, f: T -> seq<Byte>): (p: seq<Byte>)
    ensures |p| == 4 * |xs|
  {
    seq(4 * |xs|, k requires 0 <= k < 4 * |xs| =>
      var bytes := f(xs[k / 4]);
      if k % 4 < |bytes| then bytes[k % 4] else 0)
  }

  /** The BGRA bytes of a row of colours, four per colour. */
  function Pixels(layer: seq<Hsv>): (p: seq<Byte>)
    ensures |p| == 4 * |layer|
  {
    FourEach(layer, Bgra)
  }

  /** Bytes 4j to 4j + 3 are element j's. */
  lemma FourEachAt<T>(xs: seq<T>, f: T -> seq<Byte>, j: nat)
    requires j < |xs| && |f(xs[j])| == 4
    ensures FourEach(xs, f)[4 * j..4 * j + 4] == f(xs[j])
  {
    var p := FourEach(xs, f)[4 * j..4 * j + 4];
    forall t | 0 <= t < 4
      ensures p[t] == f(xs[j])[t]
    {
      assert (4 * j + t) / 4 == j && (4 * j + t) % 4 == t;
    }
  }

  /** Two rows of elements, one after the other. */
  lemma FourEachConcat<T>(front: seq<T>, back: seq<T>, f: T -> seq<Byte>)
    ensures FourEach(front + back, f) == FourEach(front, f) + FourEach(back, f)
  {
    var whole, parts := FourEach(front + back, f), FourEach(front, f) + FourEach(back, f);
    forall k | 0 <= k < |whole|
      ensures whole[k] == parts[k]
    {
      if k >= 4 * |front| {
        var t := k - 4 * |front|;
        assert k / 4 == |front| + t / 4 && k % 4 == t % 4;
      }
    }
  }

  /** Bytes 4j to 4j + 3 of a bitmap are colour j's pixel. */
  lemma PixelsAt(layer: seq<Hsv>, j: nat)
    requires j < |layer|
    ensures Pixels(layer)[4 * j..4 * j + 4] == Bgra(layer[j])
  {
    FourEachAt(layer, Bgra, j);
  }

  /** Filling pixel j extends layer `i`, and its bytes, by that pixel. */
  lemma LayerStep(n: nat, base: Hsv, c: Components, b: HsvBounds, i: int, j: nat, x: nat, y: nat)
    requires n != 1 && j < n * n && 0 <= i < 6 && x == PixelX(n, j) && y == PixelY(n, j)
    ensures MapLayer(n, base, c, b, i, j + 1) == MapLayer(n, base, c, b, i, j) + [BoxLayer(x, y, base, n, c, b, i)]
    ensures Pixels(MapLayer(n, base, c, b, i, j + 1)) == Pixels(MapLayer(n, base, c, b, i, j)) + Pixels([BoxLayer(x, y, base, n, c, b, i)])
  {
    assert MapLayer(n, base, c, b, i, j + 1) == MapLayer(n, base, c, b, i, j) + [EntryLayer(n, base, c, b, i, j)];
    FourEachConcat(MapLayer(n, base, c, b, i, j), [EntryLayer(n, base, c, b, i, j)], Bgra);
  }

  /** The loops of `CreateBitmapsAndColorMap` for a box of n-by-n pixels:
      every pixel, column by column, appended to fresh buffers. */
  method FillBox(n: nat, baseHsv: Hsv, c: Components, b: HsvBounds) returns (buffers: PixelBuffers)
    requires n != 1
    ensures fresh(buffers)
    ensures Filled(n, baseHsv, c, b, buffers, n * n)
  {
    buffers := new PixelBuffers();
    for x := n downto 0
      invariant Filled(n, baseHsv, c, b, buffers, (n - x) * n)
    {
      FillColumn(x, n, baseHsv, c, b, buffers, (n - 1 - x) * n);
      ColumnsDone(n, x);
    }
    assert n * n == (n - 0) * n;
  }

  lemma ColumnsDone(n: nat, x: nat)
    requires x < n
    ensures (n - 1 - x) * n + n == (n - x) * n
  {
  }

  /** The inner loop of `CreateBitmapsAndColorMap`: column x, from its last
      row to its first. */
  method FillColumn(x: nat, n: nat, baseHsv: Hsv, c: Components, b: HsvBounds, buffers: PixelBuffers, ghost start: nat)
    requires 2 <= n && x < n && start == (n - 1 - x) * n
    requires Filled(n, baseHsv, c, b, buffers, start)
    modifies buffers
    ensures Filled(n, baseHsv, c, b, buffers, start + n)
  {
    for y := n downto 0
      invariant Filled(n, baseHsv, c, b, buffers, start + (n - y))
    {
      EntryIndex(n, n - 1 - x, n - 1 - y);
      FillEntry(x, y, n, baseHsv, c, b, buffers, start + (n - 1 - y));
    }
  }

  /** One pass of the inner loop: pixel (x, y) is map entry `j`, and
      appending its layers extends the filled prefix by one entry. */
  method FillEntry(x: nat, y: nat, n: nat, baseHsv: Hsv, c: Components, b: HsvBounds, buffers: PixelBuffers, ghost j: nat)
    requires 2 <= n && j < n * n && x == PixelX(n, j) && y == PixelY(n, j)
    requires Filled(n, baseHsv, c, b, buffers, j)
    modifies buffers
    ensures Filled(n, baseHsv, c, b, buffers, j + 1)
  {
    FillPixelForBox(x, y, baseHsv, n, c, b, buffers);
    forall i | 0 <= i < 6 {
      LayerStep(n, baseHsv, c, b, i, j, x, y);
    }
  }

  /** The buffers hold the first `count` entries of the map: the colour map,
      and the bitmaps of all six layers when hue is the third channel or of
      the minimum and maximum otherwise. */
  ghost predicate Filled(n: nat, base: Hsv, c: Components, b: HsvBounds, buffers: PixelBuffers, count: nat)
    reads buffers
  {
    n != 1 && count <= n * n &&
    buffers.hsvValues == MapLayer(n, base, c, b, 0, count) &&
    buffers.minPixels == Pixels(MapLayer(n, base, c, b, 0, count)) &&
    buffers.maxPixels == Pixels(MapLayer(n, base, c, b, 5, count)) &&
    if KeepsMiddleBitmaps(c) then
      buffers.middle1Pixels == Pixels(MapLayer(n, base, c, b, 1, count)) &&
      buffers.middle2Pixels == Pixels(MapLayer(n, base, c, b, 2, count)) &&
      buffers.middle3Pixels == Pixels(MapLayer(n, base, c, b, 3, count)) &&
      buffers.middle4Pixels == Pixels(MapLayer(n, base, c, b, 4, count))
    else
      buffers.middle1Pixels == buffers.middle2Pixels == buffers.middle3Pixels == buffers.middle4Pixels == []
  }

  /** Changing only the range of the channel the spectrum does not span
      leaves every layer of the whole map as it was, so the map need not be
      rebuilt for it. */
  lemma MapIgnoresThirdBounds(n: nat, base: Hsv, c: Components, b: HsvBounds, b': HsvBounds, i: int)
    requires n != 1 && 0 <= i < 6
    requires SameAxisBounds(c, b, b')
    ensures MapLayer(n, base, c, Pinned(b), i, n * n) == MapLayer(n, base, c, Pinned(b'), i, n * n)
  {
    var pb, pb' := Pinned(b), Pinned(b');
    assert SameAxisBounds(c, pb, pb');
    forall j | 0 <= j < n * n
      ensures EntryLayer(n, base, c, pb, i, j) == EntryLayer(n, base, c, pb', i, j)
    {
      LayerIgnoresThirdBounds(PixelX(n, j), PixelY(n, j), base, n, c, pb, pb', i);
    }
  }

  /** The layers that are kept fix the third channel themselves, so the
      current colour plays no part in them. */
  lemma LayerIgnoresBase(x: nat, y: nat, base: Hsv, base': Hsv, n: nat, c: Components, b: HsvBounds, i: int)
    requires 2 <= n && x < n && y < n && 0 <= i < 6
    requires i == 0 || i == 5 || KeepsMiddleBitmaps(c)
    ensures BoxLayer(x, y, base, n, c, b, i) == BoxLayer(x, y, base', n, c, b, i)
  {
    assert Spanned(x, y, base, n, c, b, i) == Spanned(x, y, base', n, c, b, i);
  }

  /** A kept layer of the whole map is the same whatever the current colour,
      so the map need not be rebuilt when the colour changes. */
  lemma MapIgnoresBase(n: nat, base: Hsv, base': Hsv, c: Components, b: HsvBounds, i: int)
    requires n != 1 && 0 <= i < 6
    requires i == 0 || i == 5 || KeepsMiddleBitmaps(c)
    ensures MapLayer(n, base, c, b, i, n * n) == MapLayer(n, base', c, b, i, n * n)
  {
    forall j | 0 <= j < n * n
      ensures EntryLayer(n, base, c, b, i, j) == EntryLayer(n, base', c, b, i, j)
    {
      LayerIgnoresBase(PixelX(n, j), PixelY(n, j), base, base', n, c, b, i);
    }
  }
}
