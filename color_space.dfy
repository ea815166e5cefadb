/** Value types of the colour picker and the conversions between RGB, HSV and
    8-bit ARGB colours (src/Avalonia.ColorPicker/ColorHelpers.cs).

    Doubles are modelled as mathematical reals; a C# cast of a non-negative
    double to `byte` or `int` is modelled as `Floor`, and `Math.Round` as the
    banker's rounding `RoundHalfEven`. */
module ColorSpace {

  /** An RGB triple; each channel is nominally in [0, 1]. */
  datatype Rgb = Rgb(r: real, g: real, b: real)

  /** An HSV triple: hue in degrees, saturation and value nominally in [0, 1]. */
  datatype Hsv = Hsv(h: real, s: real, v: real)

  type Byte = x: int | 0 <= x < 256

  /** An optional value; `None` stands for a missing or unparsable one. */
  datatype Option<T> = None | Some(value: T)

  /** Avalonia's `Color`: four 8-bit channels. */
  datatype Color = Color(a: Byte, r: Byte, g: Byte, b: Byte)

  predicate InUnitRange(x: real) { 0.0 <= x <= 1.0 }

  predicate InUnitCube(c: Rgb) { InUnitRange(c.r) && InUnitRange(c.g) && InUnitRange(c.b) }

  predicate NonNegative(c: Rgb) { 0.0 <= c.r && 0.0 <= c.g && 0.0 <= c.b }

  /** Largest of the three channels. */
  function MaxChannel(c: Rgb): real {
    if c.r >= c.g then (if c.r >= c.b then c.r else c.b) else (if c.g >= c.b then c.g else c.b)
  }

  /** Smallest of the three channels. */
  function MinChannel(c: Rgb): real {
    if c.r <= c.g then (if c.r <= c.b then c.r else c.b) else (if c.g <= c.b then c.g else c.b)
  }

  predicate IsGrey(c: Rgb) { c.r == c.g == c.b }

  // ---------------------------------------------------------------------------
  // Rounding helpers
  // ---------------------------------------------------------------------------

  /** `Math.Round(double)`: to the nearest integer, ties to the even neighbour. */
  function RoundHalfEven(x: real): (n: int)
    ensures -0.5 <= n as real - x <= 0.5
    ensures (n as real - x == 0.5 || x - n as real == 0.5) ==> n % 2 == 0
  {
    var f := x.Floor;
    var d := x - f as real;
    if d < 0.5 then f
    else if d > 0.5 then f + 1
    else if f % 2 == 0 then f
    else f + 1
  }

  /** `(byte)(x * 255)`: truncation, not rounding. */
  function TruncateToByte(x: real): (b: Byte)
    requires InUnitRange(x)
    ensures b as real <= x * 255.0 < b as real + 1.0
    ensures b == 255 <==> x == 1.0
  {
    (x * 255.0).Floor
  }

  /** `(byte)Math.Round(x * 255)`. */
  function RoundToByte(x: real): (b: Byte)
    requires InUnitRange(x)
    ensures -0.5 <= b as real - x * 255.0 <= 0.5
  {
    RoundHalfEven(x * 255.0)
  }

  // ---------------------------------------------------------------------------
  // RGB -> HSV
  // ---------------------------------------------------------------------------

  /** The hexcone conversion; grey colours get hue 0 and saturation 0. */
  function RgbToHsv(c: Rgb): (hsv: Hsv)
    requires NonNegative(c)
    ensures hsv.v == MaxChannel(c)
    ensures IsGrey(c) ==> hsv.h == 0.0 && hsv.s == 0.0
    ensures !IsGrey(c) ==> 0.0 <= hsv.h < 360.0 && 0.0 < hsv.s <= 1.0
    ensures !IsGrey(c) ==> hsv.s * hsv.v == MaxChannel(c) - MinChannel(c)
  {
    var max := MaxChannel(c);
    var min := MinChannel(c);
    var chroma := max - min;
    if chroma == 0.0 then
      Hsv(0.0, 0.0, max)
    else
      Hsv(Hue(c, max, chroma), Saturation(chroma, max), max)
  }

  /** The hue of a non-grey colour: 60 degrees per unit of the difference of the
      two channels other than the largest, measured from red, green or blue. */
  function Hue(c: Rgb, max: real, chroma: real): (h: real)
    requires max == MaxChannel(c) && chroma == max - MinChannel(c) && chroma > 0.0
    ensures 0.0 <= h < 360.0
  {
    HueBounds(c, max, chroma);
    var hue :=
      if c.r == max then 60.0 * ((c.g - c.b) / chroma)
      else if c.g == max then 120.0 + 60.0 * ((c.b - c.r) / chroma)
      else 240.0 + 60.0 * ((c.r - c.g) / chroma);
    if hue < 0.0 then hue + 360.0 else hue
  }

  /** Chroma relative to the value. */
  function Saturation(chroma: real, value: real): (s: real)
    requires 0.0 < chroma <= value
    ensures 0.0 < s <= 1.0 && s * value == chroma
  {
    chroma / value
  }

  /** The raw hue of each branch of `RgbToHsv` lies within its 120-degree sector. */
  lemma HueBounds(c: Rgb, max: real, chroma: real)
    requires max == MaxChannel(c) && chroma == max - MinChannel(c) && chroma > 0.0
    ensures -1.0 <= (c.g - c.b) / chroma <= 1.0
    ensures -1.0 <= (c.b - c.r) / chroma <= 1.0
    ensures -1.0 <= (c.r - c.g) / chroma <= 1.0
  {
    UnitQuotient(c.g - c.b, chroma);
    UnitQuotient(c.b - c.r, chroma);
    UnitQuotient(c.r - c.g, chroma);
  }

  lemma UnitQuotient(x: real, d: real)
    requires d > 0.0 && -d <= x <= d
    ensures -1.0 <= x / d <= 1.0
  {
    var q := x / d;
    assert x == q * d;
  }

  // ---------------------------------------------------------------------------
  // HSV -> RGB
  // ---------------------------------------------------------------------------

  /** Hue moved into [0, 360) by whole turns. */
  function NormalizeHue(h: real): (r: real)
    ensures 0.0 <= r < 360.0
    ensures 0.0 <= h < 360.0 ==> r == h
  {
    var k := (h / 360.0).Floor;
    h - 360.0 * k as real
  }

  /** Any value in [0, 360) that differs from `h` by whole turns is `NormalizeHue(h)`. */
  lemma NormalizeHueUnique(h: real, x: real, k: int)
    requires 0.0 <= x < 360.0 && x == h + 360.0 * k as real
    ensures x == NormalizeHue(h)
  {
    var j := (h / 360.0).Floor;
    var n := NormalizeHue(h);
    assert n == h - 360.0 * j as real;
    assert x - n == 360.0 * (k + j) as real;
  }

  /** The two hue-normalising loops of `HsvToRgb`. */
  method WrapHue(h: real) returns (hue: real)
    ensures hue == NormalizeHue(h)
  {
    hue := h;
    ghost var turns: int := 0;
    while hue >= 360.0
      invariant hue == h + 360.0 * turns as real
      decreases hue.Floor
    {
      hue := hue - 360.0;
      turns := turns - 1;
    }
    while hue < 0.0
      invariant hue == h + 360.0 * turns as real
      invariant hue < 360.0
      decreases (-hue).Floor
    {
      hue := hue + 360.0;
      turns := turns + 1;
    }
    NormalizeHueUnique(h, hue, turns);
  }

  /** Saturation and value are clamped into [0, 1] before conversion. */
  function Clamp01(x: real): (r: real)
    ensures InUnitRange(r)
    ensures InUnitRange(x) ==> r == x
  {
    var lo := if x < 0.0 then 0.0 else x;
    if lo > 1.0 then 1.0 else lo
  }

  /** Which 60-degree sector a normalised hue falls into, and how far into it. */
  function Sextant(hue: real): (k: int)
    requires 0.0 <= hue < 360.0
    ensures 0 <= k <= 5
    ensures k as real <= hue / 60.0 < k as real + 1.0
  {
    (hue / 60.0).Floor
  }

  /** The hexcone conversion: the hue picks one of six sextants, in which one
      channel is the value, one is `value - chroma`, and the third moves
      linearly between the two. */
  function HsvToRgb(hsv: Hsv): (rgb: Rgb)
    ensures InUnitCube(rgb)
    ensures MaxChannel(rgb) == Clamp01(hsv.v)
    ensures MinChannel(rgb) == Clamp01(hsv.v) - Chroma(hsv)
    ensures Chroma(hsv) == 0.0 ==> IsGrey(rgb)
  {
    var hue := NormalizeHue(hsv.h);
    var value := Clamp01(hsv.v);
    var chroma := Chroma(hsv);
    var min := value - chroma;
    if chroma == 0.0 then
      Rgb(min, min, min)
    else
      var sextant := Sextant(hue);
      var f := hue / 60.0 - sextant as real;
      var max := chroma + min;
      SextantTable(sextant, min, max, Lerp(min, chroma, f), Lerp(min, chroma, 1.0 - f))
  }

  /** Saturation times value, after clamping both into [0, 1]. */
  function Chroma(hsv: Hsv): (c: real)
    ensures 0.0 <= c <= Clamp01(hsv.v)
  {
    var saturation := Clamp01(hsv.s);
    var value := Clamp01(hsv.v);
    var c := saturation * value;
    assert 0.0 <= c <= value by {
      ProductInUnitRange(value, saturation);
    }
    c
  }

  /** The six rows of the conversion table, given the sextant, the extreme
      channel values, and the rising and falling intermediate channel. */
  function SextantTable(sextant: int, min: real, max: real, rising: real, falling: real): (rgb: Rgb)
    requires 0 <= sextant <= 5
    requires min <= rising <= max && min <= falling <= max
    ensures MaxChannel(rgb) == max && MinChannel(rgb) == min
    ensures 0.0 <= min && max <= 1.0 ==> InUnitCube(rgb)
  {
    if sextant == 0 then Rgb(max, rising, min)
    else if sextant == 1 then Rgb(falling, max, min)
    else if sextant == 2 then Rgb(min, max, rising)
    else if sextant == 3 then Rgb(min, falling, max)
    else if sextant == 4 then Rgb(rising, min, max)
    else Rgb(max, min, falling)
  }

  /** `min + chroma * f`, a point between `min` and `min + chroma`. */
  function Lerp(min: real, chroma: real, f: real): (r: real)
    requires 0.0 <= chroma && InUnitRange(f)
    ensures min <= r <= min + chroma
  {
    ProductInUnitRange(chroma, f);
    min + chroma * f
  }

  lemma MulMonotone(a: nat, b: nat, w: nat)
    requires a <= b
    ensures a * w <= b * w
  {
  }

  lemma FractionInUnitRange(x: real, d: real)
    requires 0.0 <= x <= d && 0.0 < d
    ensures InUnitRange(x / d)
  {
    var q := x / d;
    assert x == q * d;
  }

  lemma ProductInUnitRange(x: real, y: real)
    requires 0.0 <= x && InUnitRange(y)
    ensures 0.0 <= x * y <= x && 0.0 <= y * x <= x
  {
  }

  // ---------------------------------------------------------------------------
  // Quantisation
  // ---------------------------------------------------------------------------

  /** `Color.FromArgb` of the truncated channels; callers that omit the opacity pass 1. */
  function ColorFromRgba(rgb: Rgb, opacity: real := 1.0): (c: Color)
    requires InUnitCube(rgb) && InUnitRange(opacity)
    ensures c.a as real <= opacity * 255.0 < c.a as real + 1.0
    ensures c.r as real <= rgb.r * 255.0 < c.r as real + 1.0
    ensures c.g as real <= rgb.g * 255.0 < c.g as real + 1.0
    ensures c.b as real <= rgb.b * 255.0 < c.b as real + 1.0
  {
    Color(TruncateToByte(opacity), TruncateToByte(rgb.r), TruncateToByte(rgb.g), TruncateToByte(rgb.b))
  }

  /** The RGB triple a byte colour stands for: each channel divided by 255. */
  function RgbOfColor(c: Color): (rgb: Rgb)
    ensures InUnitCube(rgb)
  {
    Rgb(c.r as real / 255.0, c.g as real / 255.0, c.b as real / 255.0)
  }

  /** One `ColorChanged` event: the colour before and after. */
  datatype ColorChange = ColorChange(oldColor: Color, newColor: Color)

  /** The events a control raises for a change of its `Color`: one event
      when any of A, R, G, B differs, none otherwise. */
  function Raised(oldColor: Color, newColor: Color): (events: seq<ColorChange>)
    ensures |events| <= 1
    ensures events != [] <==> oldColor.a != newColor.a || oldColor.r != newColor.r ||
                              oldColor.g != newColor.g || oldColor.b != newColor.b
    ensures events != [] ==> events[0] == ColorChange(oldColor, newColor)
  {
    if oldColor.a != newColor.a || oldColor.r != newColor.r || oldColor.g != newColor.g || oldColor.b != newColor.b
    then [ColorChange(oldColor, newColor)]
    else []
  }
}
