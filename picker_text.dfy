/** The pure pieces of the colour picker (src/Avalonia.ColorPicker/ColorPicker.cs):
    the hex string of the current colour, the clamps that keep a colour inside
    the Min/Max properties, the rules that accept or reject text typed into the
    channel boxes, and the stops of the hue slider's gradient. */
module PickerText {
  import opened ColorSpace
  import ColorRoundTrip

  // ---------------------------------------------------------------------------
  // Hex formatting
  // ---------------------------------------------------------------------------

  /** The digits `ToString("x8")` writes. */
  predicate IsLowerHexDigit(ch: char) { '0' <= ch <= '9' || 'a' <= ch <= 'f' }

  function HexDigit(n: int): (ch: char)
    requires 0 <= n < 16
    ensures IsLowerHexDigit(ch)
  {
    if n < 10 then ('0' as int + n) as char else ('a' as int + n - 10) as char
  }

  /** The value of one hex digit in either case; `None` for any other character. */
  function DigitValue(ch: char): (r: Option<int>)
    ensures r.Some? ==> 0 <= r.value < 16
    ensures r.Some? <==> ('0' <= ch <= '9' || 'a' <= ch <= 'f' || 'A' <= ch <= 'F')
  {
    if '0' <= ch <= '9' then Some(ch as int - '0' as int)
    else if 'a' <= ch <= 'f' then Some(ch as int - 'a' as int + 10)
    else if 'A' <= ch <= 'F' then Some(ch as int - 'A' as int + 10)
    else None
  }

  /** `Color.ToUint32()`: the channels packed as 0xAARRGGBB. */
  function ToUint32(c: Color): (n: nat)
    ensures n < 0x1_0000_0000
    ensures n / 0x100_0000 == c.a && n % 0x100 == c.b
  {
    ((c.a * 0x100 + c.r) * 0x100 + c.g) * 0x100 + c.b
  }

  /** The lowest `count` hex digits of `n`, most significant first, in lower case. */
  function HexDigitsOf(n: nat, count: nat): (s: string)
    ensures |s| == count
    ensures forall i | 0 <= i < count :: IsLowerHexDigit(s[i])
  {
    if count == 0 then "" else HexDigitsOf(n / 16, count - 1) + [HexDigit(n % 16)]
  }

  /** The two lower-case hex digits of one byte. */
  function ByteHex(b: Byte): (s: string)
    ensures |s| == 2
  {
    [HexDigit(b / 16), HexDigit(b % 16)]
  }

  /** `GetCurrentHexValue` of the colour it quantises to: "#" and the eight
      digits of `ToUint32().ToString("x8")`, or only the last six of them when
      alpha is disabled. */
  function HexValue(c: Color, isAlphaEnabled: bool): (s: string)
    ensures |s| == if isAlphaEnabled then 9 else 7
    ensures s[0] == '#'
  {
    var digits := HexDigitsOf(ToUint32(c), 8);
    "#" + if isAlphaEnabled then digits else digits[2..]
  }

  /** The hex string is "#" and two lower-case digits for each of A (only when
      alpha is enabled), R, G and B, in that order. */
  lemma HexValueLayout(c: Color, isAlphaEnabled: bool)
    ensures forall i | 1 <= i < |HexValue(c, isAlphaEnabled)| :: IsLowerHexDigit(HexValue(c, isAlphaEnabled)[i])
    ensures isAlphaEnabled ==>
      HexValue(c, isAlphaEnabled) == "#" + ByteHex(c.a) + ByteHex(c.r) + ByteHex(c.g) + ByteHex(c.b)
    ensures !isAlphaEnabled ==> HexValue(c, isAlphaEnabled) == "#" + ByteHex(c.r) + ByteHex(c.g) + ByteHex(c.b)
  {
    HexDigitsOfColor(c);
  }

  /** Two more digits of a number are the digits of its low byte. */
  lemma {:induction false} HexDigitsOfByte(n: nat, count: nat)
    ensures HexDigitsOf(n, count + 2) == HexDigitsOf(n / 0x100, count) + ByteHex(n % 0x100)
  {
    assert n / 16 / 16 == n / 0x100;
    assert n / 16 % 16 == n % 0x100 / 16;
    assert n % 16 == n % 0x100 % 16;
  }

  /** The eight digits of a packed colour are its four bytes' digits in A, R, G, B order. */
  lemma HexDigitsOfColor(c: Color)
    ensures HexDigitsOf(ToUint32(c), 8) == ByteHex(c.a) + ByteHex(c.r) + ByteHex(c.g) + ByteHex(c.b)
  {
    var rgb := (c.a * 0x100 + c.r) * 0x100 + c.g;
    var rg := c.a * 0x100 + c.r;
    HexDigitsOfByte(ToUint32(c), 6);
    assert ToUint32(c) / 0x100 == rgb && ToUint32(c) % 0x100 == c.b;
    HexDigitsOfByte(rgb, 4);
    assert rgb / 0x100 == rg && rgb % 0x100 == c.g;
    HexDigitsOfByte(rg, 2);
    assert rg / 0x100 == c.a && rg % 0x100 == c.r;
    HexDigitsOfByte(c.a, 0);
    assert c.a / 0x100 == 0 && c.a % 0x100 == c.a;
  }

  /** Reads two hex digits as a byte. */
  function ParseByte(two: string): (r: Option<Byte>)
    requires |two| == 2
    ensures r.Some? <==> DigitValue(two[0]).Some? && DigitValue(two[1]).Some?
  {
    match (DigitValue(two[0]), DigitValue(two[1]))
    case (Some(hi), Some(lo)) => Some(hi * 16 + lo)
    case _ => None
  }

  /** The "#aarrggbb" and "#rrggbb" forms of a colour string (the latter opaque);
      `None` for any other text. */
  function ParseHex(s: string): (r: Option<Color>)
    ensures r.Some? ==> (|s| == 9 || |s| == 7) && s[0] == '#'
    ensures r.Some? && |s| == 7 ==> r.value.a == 255
  {
    if |s| == 9 && s[0] == '#' then
      match (ParseByte(s[1..3]), ParseByte(s[3..5]), ParseByte(s[5..7]), ParseByte(s[7..9]))
      case (Some(a), Some(r), Some(g), Some(b)) => Some(Color(a, r, g, b))
      case _ => None
    else if |s| == 7 && s[0] == '#' then
      match (ParseByte(s[1..3]), ParseByte(s[3..5]), ParseByte(s[5..7]))
      case (Some(r), Some(g), Some(b)) => Some(Color(255, r, g, b))
      case _ => None
    else None
  }

  lemma ParseByteHex(b: Byte)
    ensures ParseByte(ByteHex(b)) == Some(b)
  {
    assert DigitValue(HexDigit(b / 16)) == Some(b / 16);
    assert DigitValue(HexDigit(b % 16)) == Some(b % 16);
  }

  /** Reading back the hex string gives the colour again; without alpha, its
      opaque version. */
  lemma HexValueRoundTrip(c: Color, isAlphaEnabled: bool)
    ensures ParseHex(HexValue(c, isAlphaEnabled)) == Some(if isAlphaEnabled then c else c.(a := 255))
  {
    var s := HexValue(c, isAlphaEnabled);
    HexValueLayout(c, isAlphaEnabled);
    ParseByteHex(c.a);
    ParseByteHex(c.r);
    ParseByteHex(c.g);
    ParseByteHex(c.b);
    if isAlphaEnabled {
      assert s[1..3] == ByteHex(c.a) && s[3..5] == ByteHex(c.r);
      assert s[5..7] == ByteHex(c.g) && s[7..9] == ByteHex(c.b);
    } else {
      assert s[1..3] == ByteHex(c.r) && s[3..5] == ByteHex(c.g) && s[5..7] == ByteHex(c.b);
    }
  }

  /** Different colours have different hex strings when alpha is shown. */
  lemma HexValueInjective(c: Color, d: Color)
    requires HexValue(c, true) == HexValue(d, true)
    ensures c == d
  {
    HexValueRoundTrip(c, true);
    HexValueRoundTrip(d, true);
  }

  // ---------------------------------------------------------------------------
  // Bounds
  // ---------------------------------------------------------------------------

  /** The six bound properties: hue in degrees, saturation and value in percent. */
  datatype HsvBounds = HsvBounds(minHue: int, maxHue: int, minSaturation: int, maxSaturation: int,
                                 minValue: int, maxValue: int)

  /** What the property validators let through. */
  predicate ValidBounds(b: HsvBounds) {
    0 <= b.minHue <= 359 && 0 <= b.maxHue <= 359 &&
    0 <= b.minSaturation <= 100 && 0 <= b.maxSaturation <= 100 &&
    0 <= b.minValue <= 100 && 0 <= b.maxValue <= 100
  }

  predicate WithinBounds(hsv: Hsv, b: HsvBounds) {
    b.minHue as real <= hsv.h <= b.maxHue as real &&
    b.minSaturation as real / 100.0 <= hsv.s <= b.maxSaturation as real / 100.0 &&
    b.minValue as real / 100.0 <= hsv.v <= b.maxValue as real / 100.0
  }

  /** `Math.Min(Math.Max(x, lo), hi)`: raised to `lo` first, so `hi` wins when
      the bounds cross. */
  function ClampLowFirst(x: real, lo: real, hi: real): (r: real)
    ensures lo <= hi ==> lo <= r <= hi
    ensures lo > hi ==> r == hi
    ensures lo <= x <= hi ==> r == x
  {
    var raised := if x > lo then x else lo;
    if raised < hi then raised else hi
  }

  /** `Math.Max(lo, Math.Min(x, hi))`: lowered to `hi` first, so `lo` wins when
      the bounds cross. */
  function ClampHighFirst(x: real, lo: real, hi: real): (r: real)
    ensures lo <= hi ==> lo <= r <= hi
    ensures lo > hi ==> r == lo
    ensures lo <= x <= hi ==> r == x
  {
    var lowered := if x < hi then x else hi;
    if lowered > lo then lowered else lo
  }

  /** Each HSV channel clamped into its bounds, as `ApplyraintsToRgbColor` does. */
  function ConstrainHsv(hsv: Hsv, b: HsvBounds): (r: Hsv)
    ensures b.minHue <= b.maxHue ==> b.minHue as real <= r.h <= b.maxHue as real
    ensures b.minSaturation <= b.maxSaturation ==>
      b.minSaturation as real / 100.0 <= r.s <= b.maxSaturation as real / 100.0
    ensures b.minValue <= b.maxValue ==> b.minValue as real / 100.0 <= r.v <= b.maxValue as real / 100.0
    ensures WithinBounds(hsv, b) ==> r == hsv
  {
    Hsv(ClampLowFirst(hsv.h, b.minHue as real, b.maxHue as real),
        ClampLowFirst(hsv.s, b.minSaturation as real / 100.0, b.maxSaturation as real / 100.0),
        ClampLowFirst(hsv.v, b.minValue as real / 100.0, b.maxValue as real / 100.0))
  }

  /** `ApplyraintsToRgbColor`: to HSV, clamp every channel, and back. The
      brightest channel of the result is the clamped value. */
  function ApplyConstraints(rgb: Rgb, b: HsvBounds): (r: Rgb)
    requires NonNegative(rgb) && ValidBounds(b)
    ensures InUnitCube(r)
    ensures b.minValue <= b.maxValue ==>
      b.minValue as real / 100.0 <= MaxChannel(r) <= b.maxValue as real / 100.0
  {
    HsvToRgb(ConstrainHsv(RgbToHsv(rgb), b))
  }

  /** A colour whose HSV form is already inside the bounds passes unchanged. */
  lemma ApplyConstraintsKeepsColorInBounds(rgb: Rgb, b: HsvBounds)
    requires InUnitCube(rgb) && ValidBounds(b) && WithinBounds(RgbToHsv(rgb), b)
    ensures ApplyConstraints(rgb, b) == rgb
  {
    ColorRoundTrip.RgbHsvRoundTrip(rgb);
  }

  /** Converted back to HSV, the constrained colour has the clamped value,
      and, off the grey axis (clamped saturation and value above zero), the
      clamped hue and saturation too. */
  lemma ApplyConstraintsYieldsClampedHsv(rgb: Rgb, b: HsvBounds)
    requires NonNegative(rgb) && ValidBounds(b)
    ensures var c := ConstrainHsv(RgbToHsv(rgb), b);
      RgbToHsv(ApplyConstraints(rgb, b)).v == c.v &&
      (c.s > 0.0 && c.v > 0.0 ==> RgbToHsv(ApplyConstraints(rgb, b)) == c)
  {
    var c := ConstrainHsv(RgbToHsv(rgb), b);
    assert 0.0 <= c.h < 360.0 && 0.0 <= c.s <= 1.0 && 0.0 <= c.v <= 1.0;
    if c.s > 0.0 && c.v > 0.0 {
      ColorRoundTrip.HsvRgbRoundTrip(c);
    }
  }

  // ---------------------------------------------------------------------------
  // Text boxes
  // ---------------------------------------------------------------------------

  /** A parsed integer is accepted iff it parsed and lies in [min, max]. */
  predicate AcceptsInt(parsed: Option<int>, min: int, max: int) {
    parsed.Some? && min <= parsed.value <= max
  }

  predicate EndsWithPercent(text: string) { |text| > 0 && text[|text| - 1] == '%' }

  /** The alpha box's text after the handler has appended a missing "%". */
  function WithPercent(text: string): (t: string)
    ensures EndsWithPercent(t)
    ensures EndsWithPercent(text) ==> t == text
    ensures t[..|t| - 1] == (if EndsWithPercent(text) then text[..|text| - 1] else text)
  {
    if EndsWithPercent(text) then text else text + "%"
  }

  /** The part of the alpha text that is parsed as the percentage. */
  function PercentNumber(text: string): (n: string)
    ensures |n| == |WithPercent(text)| - 1
  {
    var t := WithPercent(text);
    t[..|t| - 1]
  }

  /** Appending "%" once is enough: a second pass changes nothing. */
  lemma WithPercentIdempotent(text: string)
    ensures WithPercent(WithPercent(text)) == WithPercent(text)
    ensures PercentNumber(WithPercent(text)) == PercentNumber(text)
  {
  }

  /** The hex box's text after the handler has prepended a missing "#". */
  function WithHash(text: string): (t: string)
    ensures |t| > 0 && t[0] == '#'
    ensures |text| > 0 && text[0] == '#' ==> t == text
    ensures !(|text| > 0 && text[0] == '#') ==> t[1..] == text
  {
    if |text| > 0 && text[0] == '#' then text else "#" + text
  }

  /** The hex string the picker shows is left alone by the "#" rule. */
  lemma WithHashKeepsHexValue(c: Color, isAlphaEnabled: bool)
    ensures WithHash(HexValue(c, isAlphaEnabled)) == HexValue(c, isAlphaEnabled)
  {
  }

  // ---------------------------------------------------------------------------
  // Hue slider gradient
  // ---------------------------------------------------------------------------

  /** A stop as `AddGradientStop` receives it: its place in [0, 1] and the
      HSV colour it shows; the brush holds `StopColor` of that colour. */
  datatype GradientStop = GradientStop(offset: real, hsv: Hsv)

  /** `AddGradientStop`'s colour: the HSV colour converted, each channel
      rounded to the nearest byte. */
  function StopColor(hsv: Hsv, alpha: real): (c: Color)
    requires InUnitRange(alpha)
    ensures var rgb := HsvToRgb(hsv);
      -0.5 <= c.r as real - rgb.r * 255.0 <= 0.5 && -0.5 <= c.g as real - rgb.g * 255.0 <= 0.5 &&
      -0.5 <= c.b as real - rgb.b * 255.0 <= 0.5 && -0.5 <= c.a as real - alpha * 255.0 <= 0.5
  {
    var rgb := HsvToRgb(hsv);
    Color(RoundToByte(alpha), RoundToByte(rgb.r), RoundToByte(rgb.g), RoundToByte(rgb.b))
  }

  /** The fully saturated, full-value colour of a hue. */
  function PureHue(hue: real): Hsv {
    Hsv(hue, 1.0, 1.0)
  }

  /** Whether the hue `60 * k` of sextant boundary `k` lies strictly inside the slider's range. */
  predicate SextantInside(minOffset: real, maxOffset: real, k: int) {
    minOffset < k as real / 6.0 < maxOffset
  }

  /** The stop for sextant boundary `k`, placed proportionally within the range. */
  function SextantStop(minOffset: real, maxOffset: real, k: int): (stop: GradientStop)
    requires SextantInside(minOffset, maxOffset, k)
    ensures 0.0 < stop.offset < 1.0
  {
    var offset := k as real / 6.0;
    QuotientInUnitRange(offset - minOffset, maxOffset - minOffset);
    GradientStop((offset - minOffset) / (maxOffset - minOffset), PureHue(60.0 * k as real))
  }

  lemma QuotientInUnitRange(x: real, d: real)
    requires 0.0 < x < d
    ensures 0.0 < x / d < 1.0
  {
    var rest := (d - x) / d;
    assert 0.0 < rest;
    assert x / d + rest == d / d == 1.0;
  }

  /** The stops the loop adds for sextant boundaries 1 through `k`. */
  function SextantStops(minOffset: real, maxOffset: real, k: nat): (stops: seq<GradientStop>)
    ensures |stops| <= k
  {
    if k == 0 then []
    else
      SextantStops(minOffset, maxOffset, k - 1) +
      if SextantInside(minOffset, maxOffset, k) then [SextantStop(minOffset, maxOffset, k)] else []
  }

  /** The larger bound, pinned to `minHue` when the bounds do not increase. */
  function TopHue(minHue: int, maxHue: int): (top: int)
    ensures top >= minHue
    ensures minHue < maxHue ==> top == maxHue
  {
    if minHue >= maxHue then minHue else maxHue
  }

  /** The hue-slider gradient: a stop for `minHue` at 0, one for every sextant
      boundary strictly inside the range, and one for the top hue at 1. */
  function HueGradient(minHue: int, maxHue: int): (g: seq<GradientStop>)
    ensures 2 <= |g| <= 7
    ensures g[0].offset == 0.0 && g[0].hsv.h == minHue as real
    ensures g[|g| - 1].offset == 1.0 && g[|g| - 1].hsv.h == TopHue(minHue, maxHue) as real
  {
    var top := TopHue(minHue, maxHue);
    [GradientStop(0.0, PureHue(minHue as real))] +
    SextantStops(minHue as real / 359.0, top as real / 359.0, 5) +
    [GradientStop(1.0, PureHue(top as real))]
  }

  /** The loop of `UpdateThirdDimensionSlider` for the hue channel. */
  method HueGradientStops(minHue: int, maxHue: int) returns (stops: seq<GradientStop>)
    ensures stops == HueGradient(minHue, maxHue)
  {
    var top := maxHue;
    if minHue >= top {
      top := minHue;
    }
    var minOffset := minHue as real / 359.0;
    var maxOffset := top as real / 359.0;
    stops := [GradientStop(0.0, PureHue(minHue as real))];
    for sextant := 1 to 6
      invariant stops == [GradientStop(0.0, PureHue(minHue as real))] + SextantStops(minOffset, maxOffset, sextant - 1)
    {
      var offset := sextant as real / 6.0;
      if minOffset < offset && maxOffset > offset {
        stops := stops + [GradientStop((offset - minOffset) / (maxOffset - minOffset), PureHue(60.0 * sextant as real))];
      }
    }
    stops := stops + [GradientStop(1.0, PureHue(top as real))];
  }

  /** The sextant boundary whose hue a stop shows. */
  function SextantOf(stop: GradientStop): int {
    (stop.hsv.h / 60.0).Floor
  }

  /** `stop` is the stop of an inside sextant boundary among 1 through `k`. */
  predicate IsSextantStop(minOffset: real, maxOffset: real, k: int, stop: GradientStop) {
    var j := SextantOf(stop);
    1 <= j <= k && SextantInside(minOffset, maxOffset, j) && stop == SextantStop(minOffset, maxOffset, j)
  }

  /** Every stop added by the loop is the stop of an inside sextant boundary,
      every inside boundary has its stop, and their offsets increase strictly
      within (0, 1). */
  lemma {:induction false} SextantStopsShape(minOffset: real, maxOffset: real, k: nat)
    ensures forall i | 0 <= i < |SextantStops(minOffset, maxOffset, k)| ::
      0.0 < SextantStops(minOffset, maxOffset, k)[i].offset < 1.0 &&
      IsSextantStop(minOffset, maxOffset, k, SextantStops(minOffset, maxOffset, k)[i])
    ensures forall j | 1 <= j <= k && SextantInside(minOffset, maxOffset, j) ::
      SextantStop(minOffset, maxOffset, j) in SextantStops(minOffset, maxOffset, k)
    ensures forall i, i' | 0 <= i < i' < |SextantStops(minOffset, maxOffset, k)| ::
      SextantStops(minOffset, maxOffset, k)[i].offset < SextantStops(minOffset, maxOffset, k)[i'].offset
  {
    if k > 0 {
      SextantStopsShape(minOffset, maxOffset, k - 1);
      var before := SextantStops(minOffset, maxOffset, k - 1);
      if SextantInside(minOffset, maxOffset, k) {
        var last := SextantStop(minOffset, maxOffset, k);
        assert SextantOf(last) == k;
        forall i | 0 <= i < |before|
          ensures before[i].offset < last.offset
        {
          var j := SextantOf(before[i]);
          QuotientIncreasing(j as real / 6.0 - minOffset, k as real / 6.0 - minOffset, maxOffset - minOffset);
        }
      } else {
        assert SextantStops(minOffset, maxOffset, k) == before;
      }
    }
  }

  /** No boundary is inside a range whose ends do not increase, so no stop is added. */
  lemma {:induction false} NoSextantStops(minOffset: real, maxOffset: real, k: nat)
    requires minOffset >= maxOffset
    ensures SextantStops(minOffset, maxOffset, k) == []
  {
    if k > 0 {
      NoSextantStops(minOffset, maxOffset, k - 1);
    }
  }

  lemma QuotientIncreasing(x: real, y: real, d: real)
    requires x < y && d > 0.0
    ensures x / d < y / d
  {
    assert y / d - x / d == (y - x) / d;
  }

  /** The gradient starts at offset 0 with the minimum hue and ends at offset 1
      with the top hue; the stops in between are exactly those of the sextant
      boundaries strictly inside the range, and all offsets increase strictly. */
  lemma HueGradientShape(minHue: int, maxHue: int)
    ensures var g := HueGradient(minHue, maxHue);
      2 <= |g| &&
      g[0] == GradientStop(0.0, PureHue(minHue as real)) &&
      g[|g| - 1] == GradientStop(1.0, PureHue(TopHue(minHue, maxHue) as real)) &&
      forall i, i' | 0 <= i < i' < |g| :: g[i].offset < g[i'].offset
    ensures var minOffset := minHue as real / 359.0;
      var maxOffset := TopHue(minHue, maxHue) as real / 359.0;
      var g := HueGradient(minHue, maxHue);
      (forall i | 0 < i < |g| - 1 :: IsSextantStop(minOffset, maxOffset, 5, g[i])) &&
      (forall k | 1 <= k <= 5 && SextantInside(minOffset, maxOffset, k) ::
        SextantStop(minOffset, maxOffset, k) in g)
  {
    var minOffset := minHue as real / 359.0;
    var maxOffset := TopHue(minHue, maxHue) as real / 359.0;
    var middle := SextantStops(minOffset, maxOffset, 5);
    SextantStopsShape(minOffset, maxOffset, 5);
    var g := HueGradient(minHue, maxHue);
    assert g == [GradientStop(0.0, PureHue(minHue as real))] + middle +
      [GradientStop(1.0, PureHue(TopHue(minHue, maxHue) as real))];
    forall i | 0 < i < |g| - 1
      ensures g[i] == middle[i - 1]
    {
    }
  }

  /** With the default bounds 0 and 359 the gradient has all seven stops. */
  lemma FullHueRangeHasSevenStops()
    ensures |HueGradient(0, 359)| == 7
  {
    assert SextantInside(0.0, 1.0, 1) && SextantInside(0.0, 1.0, 2) && SextantInside(0.0, 1.0, 3);
    assert SextantInside(0.0, 1.0, 4) && SextantInside(0.0, 1.0, 5);
  }

  /** Crossed or equal bounds leave only the two end stops, both for `minHue`. */
  lemma PinnedHueRangeHasTwoStops(minHue: int, maxHue: int)
    requires minHue >= maxHue
    ensures HueGradient(minHue, maxHue) ==
      [GradientStop(0.0, PureHue(minHue as real)), GradientStop(1.0, PureHue(minHue as real))]
  {
    NoSextantStops(minHue as real / 359.0, minHue as real / 359.0, 5);
  }
}
