/** The spectrum control (src/AvaloniaWinUI.ColorPicker/ColorSpectrum.cs):
    its `Color` and `HsvColor` properties kept in step with each other, the
    `ColorChanged` events, the arrow keys, picking the colour under the
    pointer, and building the colour map and its bitmaps.

    Avalonia runs a property's change handler synchronously inside the
    setter, and only when the new value differs from the old one. `HsvColor`
    is a vector of four floats: hue, saturation, value and alpha. Only the
    box shape is modelled. */
module Spectrum {
  import opened ColorSpace
  import opened ChannelIncrement
  import opened PickerText
  import opened SpectrumComponents
  import opened SpectrumMap
  import ColorRoundTrip

  /** `System.Numerics.Vector4`, with its floats as reals. */
  datatype Vec4 = Vec4(x: real, y: real, z: real, w: real)

  /** `(Hsv)v`: the first three components. */
  function HsvOf(v: Vec4): Hsv {
    Hsv(v.x, v.y, v.z)
  }

  /** The `HsvColor` that `OnColorChanged` derives from a colour: the HSV
      form of its channels, and its alpha as a fraction. */
  function HsvColorOf(c: Color): (v: Vec4)
    ensures 0.0 <= v.x < 360.0 && InUnitRange(v.y) && InUnitRange(v.z) && InUnitRange(v.w)
    ensures HsvToRgb(HsvOf(v)) == RgbOfColor(c)
    ensures v.w * 255.0 == c.a as real
  {
    var hsv := RgbToHsv(RgbOfColor(c));
    ColorRoundTrip.RgbHsvRoundTrip(RgbOfColor(c));
    Vec4(hsv.h, hsv.s, hsv.v, c.a as real / 255.0)
  }

  /** The colour `SetColor` and `UpdateColor` derive from an `HsvColor`,
      with alpha taken from `W`, where `OnColorChanged` stores it. */
  function ColorOfHsvColor(v: Vec4): (c: Color)
    requires InUnitRange(v.w)
    ensures c.a as real <= v.w * 255.0 < c.a as real + 1.0
  {
    ColorFromRgba(HsvToRgb(HsvOf(v)), v.w)
  }

  /** The colour as `SetColor` and `UpdateColor` compute it: alpha is taken
      from `Z`, the value slot. It differs from the colour meant only in
      alpha. */
  function ColorOfHsvColorAsWritten(v: Vec4): (c: Color)
    requires InUnitRange(v.z)
    ensures c.a as real <= v.z * 255.0 < c.a as real + 1.0
    ensures InUnitRange(v.w) ==> c == ColorOfHsvColor(v).(a := c.a)
  {
    ColorFromRgba(HsvToRgb(HsvOf(v)), v.z)
  }

  /** The default `HsvColor`, (0, 0, 1, 1), is the default `Color`, opaque
      white. */
  lemma DefaultIsWhite(v: Vec4)
    requires v.x == 0.0 && v.y == 0.0 && v.z == 1.0 && v.w == 1.0
    ensures ColorOfHsvColor(v) == Color(255, 255, 255, 255)
  {
    assert HsvOf(v) == Hsv(0.0, 0.0, 1.0);
    GreyFromZeroSaturation();
    OpaqueWhiteFromRgb();
  }

  lemma OpaqueWhiteFromRgb()
    ensures ColorFromRgba(Rgb(1.0, 1.0, 1.0), 1.0) == Color(255, 255, 255, 255)
  {
    assert TruncateToByte(1.0) == 255;
  }

  lemma GreyFromZeroSaturation()
    ensures HsvToRgb(Hsv(0.0, 0.0, 1.0)) == Rgb(1.0, 1.0, 1.0)
  {
    assert Chroma(Hsv(0.0, 0.0, 1.0)) == 0.0;
  }

  /** A colour written to `Color`, synchronised into `HsvColor` and read
      back through `ColorOfHsvColor`, is the same colour. */
  lemma HsvColorRoundTrip(c: Color)
    ensures ColorOfHsvColor(HsvColorOf(c)) == c
  {
    ColorRoundTrip.QuantiseColorRoundTrip(c);
  }

  /** With alpha read from the value slot the round trip fails for opaque
      green (A 255, G 128): its value 128/255 becomes its alpha. */
  lemma AlphaFromValueSlot()
    ensures var green := Color(255, 0, 128, 0);
      ColorOfHsvColorAsWritten(HsvColorOf(green)).a == 128 &&
      ColorOfHsvColorAsWritten(HsvColorOf(green)) != green
  {
    var green := Color(255, 0, 128, 0);
    var rgb := RgbOfColor(green);
    assert rgb == Rgb(0.0, 128.0 / 255.0, 0.0);
    assert MaxChannel(rgb) == 128.0 / 255.0;
    assert HsvColorOf(green).z == 128.0 / 255.0;
  }

  /** The colour the spectrum's unit test synchronises: opaque green (A 255,
      G 128) has hue 120, saturation 1 and value 128/255. */
  lemma TestGreenToHsv()
    ensures HsvColorOf(Color(255, 0, 128, 0)) == Vec4(120.0, 1.0, 128.0 / 255.0, 1.0)
  {
    var rgb := RgbOfColor(Color(255, 0, 128, 0));
    assert rgb == Rgb(0.0, 128.0 / 255.0, 0.0);
    assert MaxChannel(rgb) == 128.0 / 255.0 && MinChannel(rgb) == 0.0;
    assert ColorSpace.Hue(rgb, 128.0 / 255.0, 128.0 / 255.0) == 120.0;
  }

  /** The HSV vector the unit test sets, (120, 1, 1, 1), gives opaque pure
      green, whichever slot alpha is read from. */
  lemma TestHsvToGreen()
    ensures ColorOfHsvColor(Vec4(120.0, 1.0, 1.0, 1.0)) == Color(255, 0, 255, 0)
    ensures ColorOfHsvColorAsWritten(Vec4(120.0, 1.0, 1.0, 1.0)) == Color(255, 0, 255, 0)
  {
    PureGreen(Hsv(120.0, 1.0, 1.0));
    assert TruncateToByte(1.0) == 255 && TruncateToByte(0.0) == 0;
  }

  lemma PureGreen(hsv: Hsv)
    requires hsv.h == 120.0 && hsv.s == 1.0 && hsv.v == 1.0
    ensures HsvToRgb(hsv) == Rgb(0.0, 1.0, 0.0)
  {
    var green := Rgb(0.0, 1.0, 0.0);
    assert MaxChannel(green) == 1.0 && MinChannel(green) == 0.0;
    assert ColorSpace.Hue(green, 1.0, 1.0) == 120.0;
    assert RgbToHsv(green) == hsv;
    ColorRoundTrip.RgbHsvRoundTrip(green);
  }

  // ---------------------------------------------------------------------------
  // Picking a colour with the pointer
  // ---------------------------------------------------------------------------

  /** The pixel a pointer coordinate falls on: rounded, then clamped into
      [0, n) where n, the rounded image size, is the number of pixels per
      side of the map. */
  function ClampToPixel(p: real, size: real): (i: int)
    ensures 1 <= RoundHalfEven(size) ==> 0 <= i < RoundHalfEven(size)
    ensures 0 <= RoundHalfEven(p) < RoundHalfEven(size) ==> i == RoundHalfEven(p)
  {
    var i := RoundHalfEven(p);
    if i < 0 then 0 else if i >= RoundHalfEven(size) then RoundHalfEven(size) - 1 else i
  }

  /** The clamp as `UpdateColorFromPoint` writes it: the upper test compares
      with the unrounded size, so a coordinate can land one past the last
      pixel when the size has a fractional part. */
  function ClampToPixelAsWritten(p: real, size: real): (i: int)
    ensures 1 <= RoundHalfEven(size) ==> 0 <= i <= RoundHalfEven(size)
    ensures 0 <= RoundHalfEven(p) && RoundHalfEven(p) as real < size ==> i == RoundHalfEven(p)
  {
    var i := RoundHalfEven(p);
    if i < 0 then 0 else if i as real >= size then RoundHalfEven(size) - 1 else i
  }

  /** On an image of size 10.4 (ten pixels per side) the point (10.2, 9.0)
      is clamped to column 10, and the row-major index 9 * 10 + 10 is one
      past the last of the 100 map entries. */
  lemma PointIndexAsWrittenOutOfRange()
    ensures var n := RoundHalfEven(10.4);
      var x, y := ClampToPixelAsWritten(10.2, 10.4), ClampToPixelAsWritten(9.0, 10.4);
      n == 10 && x == 10 && y == 9 && y * n + x == n * n
  {
    assert (10.4).Floor == 10 && (10.2).Floor == 10 && (9.0).Floor == 9;
  }

  /** The map index of the pixel under the pointer: row-major, with the
      image as wide as it is high. Every point of the plane, inside the image
      or not, picks an entry of the map. */
  function PickedIndex(px: real, py: real, size: real): (j: int)
    requires 1 <= RoundHalfEven(size)
    ensures 0 <= j < RoundHalfEven(size) * RoundHalfEven(size)
    ensures j % RoundHalfEven(size) == ClampToPixel(px, size)
    ensures j / RoundHalfEven(size) == ClampToPixel(py, size)
  {
    var n, x, y := RoundHalfEven(size), ClampToPixel(px, size), ClampToPixel(py, size);
    EntryIndex(n, y, x);
    y * n + x
  }

  /** The colour map entry at any index has both spanned channels within
      their (pinned) ranges. */
  lemma MapEntryInRange(n: nat, base: Hsv, c: Components, b: HsvBounds, j: int)
    requires n != 1 && 0 <= j < n * n
    ensures var e := MapLayer(n, base, c, Pinned(b), 0, n * n)[j];
      InRange(e, FirstNamed(c), Pinned(b)) && InRange(e, SecondNamed(c), Pinned(b))
  {
    assert MapLayer(n, base, c, Pinned(b), 0, n * n)[j] == EntryLayer(n, base, c, Pinned(b), 0, j);
  }

  /** Wherever the pointer is, the colour `UpdateColorFromPoint` picks from a
      map drawn for the current components and bounds has both spanned
      channels within their ranges; the third channel is the current one. */
  lemma PickedInRange(size: real, c: Components, b: HsvBounds, values: seq<Hsv>, bitmaps: map<Bitmap, seq<Byte>>,
                      px: real, py: real, current: Hsv)
    requires 2 <= RoundHalfEven(size) && Drawn(RoundHalfEven(size), AnyBase, c, Pinned(b), values, bitmaps)
    ensures var third := ThirdDimension(c);
      var e := With(values[PickedIndex(px, py, size)], third, Get(current, third));
      InRange(e, FirstNamed(c), Pinned(b)) && InRange(e, SecondNamed(c), Pinned(b)) &&
      Get(e, third) == Get(current, third)
  {
    MapEntryInRange(RoundHalfEven(size), AnyBase, c, b, PickedIndex(px, py, size));
  }

  // ---------------------------------------------------------------------------
  // The map and bitmaps a build leaves behind
  // ---------------------------------------------------------------------------

  /** The bitmaps a build replaces: the saturation extremes, the value
      maximum or the six hue bitmaps, by the channel the box does not span. */
  function Rebuilt(c: Components): (s: set<Bitmap>)
    ensures ThirdDimension(c) == Hue ==> forall k :: 0 <= k < 6 ==> HueBitmap(k) in s
  {
    match ThirdDimension(c)
    case Saturation => {SaturationMinimum, SaturationMaximum}
    case Value => {ValueBitmap}
    case Hue => {HueBitmap(0), HueBitmap(1), HueBitmap(2), HueBitmap(3), HueBitmap(4), HueBitmap(5)}
  }

  /** The colour map is layer 0 of an n-by-n box, and each bitmap the
      components call for holds the pixels of its layer: saturation 0 and 1,
      value 1, or hues 0, 60, ..., 300. */
  ghost predicate Drawn(n: nat, base: Hsv, c: Components, b: HsvBounds, values: seq<Hsv>,
                        bitmaps: map<Bitmap, seq<Byte>>)
    requires n != 1
  {
    values == MapLayer(n, base, c, b, 0, n * n) &&
    (ThirdDimension(c) == Saturation ==>
      SaturationMinimum in bitmaps && bitmaps[SaturationMinimum] == Pixels(MapLayer(n, base, c, b, 0, n * n)) &&
      SaturationMaximum in bitmaps && bitmaps[SaturationMaximum] == Pixels(MapLayer(n, base, c, b, 5, n * n))) &&
    (ThirdDimension(c) == Value ==>
      ValueBitmap in bitmaps && bitmaps[ValueBitmap] == Pixels(MapLayer(n, base, c, b, 5, n * n))) &&
    (ThirdDimension(c) == Hue ==>
      forall k :: 0 <= k < 6 ==>
        HueBitmap(k) in bitmaps && bitmaps[HueBitmap(k)] == Pixels(MapLayer(n, base, c, b, k, n * n)))
  }

  /** A colour to state which map a build draws: any other gives the same
      map (`DrawnIgnoresBase`). */
  const AnyBase := Hsv(0.0, 0.0, 0.0)

  /** A drawn map stays drawn whatever the current colour becomes. */
  lemma DrawnIgnoresBase(n: nat, base: Hsv, base': Hsv, c: Components, b: HsvBounds, values: seq<Hsv>,
                         bitmaps: map<Bitmap, seq<Byte>>)
    requires n != 1 && Drawn(n, base, c, b, values, bitmaps)
    ensures Drawn(n, base', c, b, values, bitmaps)
  {
    MapIgnoresBase(n, base, base', c, b, 0);
    MapIgnoresBase(n, base, base', c, b, 5);
    if ThirdDimension(c) == Hue {
      forall k | 0 <= k < 6
        ensures MapLayer(n, base, c, b, k, n * n) == MapLayer(n, base', c, b, k, n * n)
      {
        MapIgnoresBase(n, base, base', c, b, k);
      }
    }
  }

  /** A drawn map stays drawn whatever the range of the channel it does not
      span becomes. */
  lemma DrawnIgnoresThirdBounds(n: nat, base: Hsv, c: Components, b: HsvBounds, b': HsvBounds, values: seq<Hsv>,
                                bitmaps: map<Bitmap, seq<Byte>>)
    requires n != 1 && SameAxisBounds(c, b, b') && Drawn(n, base, c, Pinned(b), values, bitmaps)
    ensures Drawn(n, base, c, Pinned(b'), values, bitmaps)
  {
    forall k | 0 <= k < 6
      ensures MapLayer(n, base, c, Pinned(b), k, n * n) == MapLayer(n, base, c, Pinned(b'), k, n * n)
    {
      MapIgnoresThirdBounds(n, base, c, b, b', k);
    }
  }

  /** The six bound properties. */
  datatype BoundProperty =
    | MinHueProperty | MaxHueProperty
    | MinSaturationProperty | MaxSaturationProperty
    | MinValueProperty | MaxValueProperty

  /** The channel a bound property limits. */
  function BoundChannel(p: BoundProperty): (ch: Channel)
    ensures IsHsvChannel(ch)
  {
    match p
    case MinHueProperty => Hue
    case MaxHueProperty => Hue
    case MinSaturationProperty => Saturation
    case MaxSaturationProperty => Saturation
    case MinValueProperty => Value
    case MaxValueProperty => Value
  }

  /** The largest value a bound property's validator accepts; the
      smallest is 0. */
  function BoundLimit(p: BoundProperty): (limit: int)
    ensures limit == if BoundChannel(p) == Hue then 359 else 100
  {
    match p
    case MinHueProperty => 359
    case MaxHueProperty => 359
    case MinSaturationProperty => 100
    case MaxSaturationProperty => 100
    case MinValueProperty => 100
    case MaxValueProperty => 100
  }

  /** The bounds with one property set; the ranges of the other two
      channels are untouched. */
  function WithBound(b: HsvBounds, p: BoundProperty, value: int): (r: HsvBounds)
    ensures forall c :: ThirdDimension(c) == BoundChannel(p) ==> SameAxisBounds(c, b, r)
  {
    match p
    case MinHueProperty => b.(minHue := value)
    case MaxHueProperty => b.(maxHue := value)
    case MinSaturationProperty => b.(minSaturation := value)
    case MaxSaturationProperty => b.(maxSaturation := value)
    case MinValueProperty => b.(minValue := value)
    case MaxValueProperty => b.(maxValue := value)
  }

  /** The control's own state. */
  class ColorSpectrum {
    /** The `Color` property. */
    var color: Color
    /** The `HsvColor` property. */
    var hsvColor: Vec4
    /** The colour before the last change of `Color`, reported as the old
        colour of the next `ColorChanged` event. */
    var oldColor: Color
    var updatingColor: bool
    var updatingHsvColor: bool

    var components: Components
    var minHue: int
    var maxHue: int
    var minSaturation: int
    var maxSaturation: int
    var minValue: int
    var maxValue: int

    /** The colour of every pixel of the last map built, row by row. */
    var hsvValues: seq<Hsv>
    /** The pixel data of the bitmaps built so far. */
    var bitmaps: map<Bitmap, seq<Byte>>
    var componentsFromLastBitmapCreation: Components
    var imageWidthFromLastBitmapCreation: real
    var imageHeightFromLastBitmapCreation: real
    var boundsFromLastBitmapCreation: HsvBounds

    /** Every `ColorChanged` event raised so far, oldest first. */
    var colorChanged: seq<ColorChange>

    function Bounds(): HsvBounds
      reads this`minHue, this`maxHue, this`minSaturation, this`maxSaturation, this`minValue, this`maxValue
    {
      HsvBounds(minHue, maxHue, minSaturation, maxSaturation, minValue, maxValue)
    }

    /** The pixels per side of the last map built. */
    function PixelsPerSide(): (n: int)
      reads this`imageWidthFromLastBitmapCreation
      ensures -0.5 <= n as real - imageWidthFromLastBitmapCreation <= 0.5
      ensures imageWidthFromLastBitmapCreation >= 0.0 ==> n >= 0
    {
      RoundHalfEven(imageWidthFromLastBitmapCreation)
    }

    /** The colour, its previous value and the events raised. */
    function ColorState(): (Color, Vec4, Color, seq<ColorChange>)
      reads this
    {
      (color, hsvColor, oldColor, colorChanged)
    }

    /** Everything the last map build left behind. */
    function Built(): (Components, real, real, HsvBounds, seq<Hsv>, map<Bitmap, seq<Byte>>)
      reads this
    {
      (componentsFromLastBitmapCreation, imageWidthFromLastBitmapCreation, imageHeightFromLastBitmapCreation,
       boundsFromLastBitmapCreation, hsvValues, bitmaps)
    }

    /** `Color` and `HsvColor` describe the same colour, no update is half
        done, and the map is a square of the last image size. */
    predicate Valid()
      reads this
    {
      InUnitRange(hsvColor.w) && color == ColorOfHsvColor(hsvColor) &&
      !updatingColor && !updatingHsvColor &&
      0.0 <= imageWidthFromLastBitmapCreation && imageHeightFromLastBitmapCreation == imageWidthFromLastBitmapCreation &&
      PixelsPerSide() != 1 && |hsvValues| == PixelsPerSide() * PixelsPerSide()
    }

    /** The map and bitmaps are what a build with the current components and
        bounds draws. The layers a build keeps do not depend on the colour it
        starts from (`DrawnIgnoresBase`), so the current colour plays no part. */
    ghost predicate MapCurrent()
      reads this`components, this`minHue, this`maxHue, this`minSaturation, this`maxSaturation, this`minValue,
            this`maxValue, this`imageWidthFromLastBitmapCreation, this`hsvValues, this`bitmaps
    {
      0 <= PixelsPerSide() != 1 && Drawn(PixelsPerSide(), AnyBase, components, Pinned(Bounds()), hsvValues, bitmaps)
    }

    /** The field initialisers and property defaults: white, HSV (0, 0, 1, 1),
        hue against saturation, full ranges, and no map yet; `ConstructedValid`
        shows that this state satisfies `Valid`. */
    constructor ()
      ensures color == oldColor == Color(255, 255, 255, 255) && hsvColor == Vec4(0.0, 0.0, 1.0, 1.0)
      ensures !updatingColor && !updatingHsvColor
      ensures components == componentsFromLastBitmapCreation == HueSaturation
      ensures Bounds() == boundsFromLastBitmapCreation == HsvBounds(0, 359, 0, 100, 0, 100)
      ensures imageWidthFromLastBitmapCreation == imageHeightFromLastBitmapCreation == 0.0
      ensures hsvValues == [] && bitmaps == map[] && colorChanged == []
    {
      color, hsvColor, oldColor := Color(255, 255, 255, 255), Vec4(0.0, 0.0, 1.0, 1.0), Color(255, 255, 255, 255);
      updatingColor, updatingHsvColor, components := false, false, HueSaturation;
      minHue, maxHue, minSaturation, maxSaturation, minValue, maxValue := 0, 359, 0, 100, 0, 100;
      hsvValues, bitmaps, componentsFromLastBitmapCreation := [], map[], HueSaturation;
      imageWidthFromLastBitmapCreation, imageHeightFromLastBitmapCreation := 0.0, 0.0;
      boundsFromLastBitmapCreation, colorChanged := HsvBounds(0, 359, 0, 100, 0, 100), [];
    }

    // -------------------------------------------------------------------------
    // Colour synchronisation
    // -------------------------------------------------------------------------

    /** The `Color` setter: a different colour is stored and handed to
        `OnColorChanged`. */
    method StoreColor(newColor: Color)
      requires updatingHsvColor ==> updatingColor
      modifies this`color, this`hsvColor, this`oldColor, this`updatingHsvColor
      ensures color == newColor
      ensures oldColor == if old(color) != newColor then old(color) else old(oldColor)
      ensures updatingColor || old(color) == newColor ==> hsvColor == old(hsvColor)
      ensures !updatingColor && old(color) != newColor ==> hsvColor == HsvColorOf(newColor)
      ensures updatingHsvColor == old(updatingHsvColor)
    {
      if newColor != color {
        var previous := color;
        color := newColor;
        OnColorChanged(previous);
      }
    }

    /** Unless the control itself is writing `Color`, derives `HsvColor` from
        it (that setter's handler returns at once while `updatingHsvColor`
        is set); then remembers the colour it replaced. Raises no event. */
    method OnColorChanged(previous: Color)
      requires updatingHsvColor ==> updatingColor
      modifies this`hsvColor, this`oldColor, this`updatingHsvColor
      ensures oldColor == previous
      ensures hsvColor == if updatingColor then old(hsvColor) else HsvColorOf(color)
      ensures updatingHsvColor == old(updatingHsvColor)
    {
      if !updatingColor {
        updatingHsvColor := true;
        hsvColor := HsvColorOf(color);
        updatingHsvColor := false;
      }
      oldColor := previous;
    }

    /** The `Color` property as set from outside: `HsvColor` follows it and
        no `ColorChanged` event is raised. */
    method SetColorProperty(newColor: Color)
      requires Valid()
      modifies this`color, this`hsvColor, this`oldColor, this`updatingHsvColor
      ensures Valid()
      ensures color == newColor
      ensures old(color) != newColor ==> hsvColor == HsvColorOf(newColor) && oldColor == old(color)
      ensures old(color) == newColor ==> hsvColor == old(hsvColor) && oldColor == old(oldColor)
    {
      StoreColor(newColor);
      HsvColorRoundTrip(newColor);
    }

    /** The `HsvColor` property as set from outside: a different value is
        stored and `SetColor` derives `Color` from it. */
    method SetHsvColorProperty(v: Vec4)
      requires Valid() && InUnitRange(v.w)
      modifies this`color, this`hsvColor, this`oldColor, this`updatingColor, this`updatingHsvColor, this`colorChanged
      ensures Valid()
      ensures hsvColor == v
      ensures old(hsvColor) == v ==> ColorState() == old(ColorState())
      ensures old(hsvColor) != v ==>
        color == ColorOfHsvColor(v) &&
        oldColor == (if old(color) != color then old(color) else old(oldColor)) &&
        colorChanged == old(colorChanged) + Raised(oldColor, color)
    {
      if v != hsvColor {
        hsvColor := v;
        OnHsvColorChanged();
      }
    }

    /** Runs `SetColor` unless the control itself is writing `HsvColor`. */
    method OnHsvColorChanged()
      requires !updatingColor && InUnitRange(hsvColor.w)
      modifies this`color, this`hsvColor, this`oldColor, this`updatingColor, this`updatingHsvColor, this`colorChanged
      ensures hsvColor == old(hsvColor) && updatingHsvColor == old(updatingHsvColor) && !updatingColor
      ensures !old(updatingHsvColor) ==>
        color == ColorOfHsvColor(hsvColor) &&
        oldColor == (if old(color) != color then old(color) else old(oldColor)) &&
        colorChanged == old(colorChanged) + Raised(oldColor, color)
      ensures old(updatingHsvColor) ==> ColorState() == old(ColorState())
    {
      if !updatingHsvColor {
        SetColor();
      }
    }

    /** Writes the colour `HsvColor` stands for into `Color` (whose handler
        then only remembers the colour replaced) and raises `ColorChanged`. */
    method SetColor()
      requires !updatingColor && !updatingHsvColor && InUnitRange(hsvColor.w)
      modifies this`color, this`hsvColor, this`oldColor, this`updatingColor, this`updatingHsvColor, this`colorChanged
      ensures hsvColor == old(hsvColor) && !updatingHsvColor && !updatingColor
      ensures color == ColorOfHsvColor(hsvColor)
      ensures oldColor == if old(color) != color then old(color) else old(oldColor)
      ensures colorChanged == old(colorChanged) + Raised(oldColor, color)
    {
      var newColor := ColorOfHsvColor(hsvColor);
      updatingColor := true;
      StoreColor(newColor);
      assert hsvColor == old(hsvColor) && color == newColor;
      updatingColor := false;
      RaiseColorChanged();
    }

    /** Raises `ColorChanged` from the remembered old colour to the current
        one, if they differ in any channel. */
    method RaiseColorChanged()
      modifies this`colorChanged
      ensures colorChanged == old(colorChanged) + Raised(oldColor, color)
    {
      colorChanged := colorChanged + Raised(oldColor, color);
    }

    /** Makes `newHsv` the current colour, keeping alpha, with both change
        handlers held off, then raises `ColorChanged`. */
    method UpdateColor(newHsv: Hsv)
      requires Valid()
      modifies this`color, this`hsvColor, this`oldColor, this`updatingColor, this`updatingHsvColor, this`colorChanged
      ensures Valid()
      ensures hsvColor == Vec4(newHsv.h, newHsv.s, newHsv.v, old(hsvColor.w))
      ensures oldColor == if old(color) != color then old(color) else old(oldColor)
      ensures colorChanged == old(colorChanged) + Raised(oldColor, color)
    {
      updatingColor := true;
      updatingHsvColor := true;
      var alpha := hsvColor.w;
      StoreColor(ColorFromRgba(HsvToRgb(newHsv), alpha));
      // The `HsvColor` setter; its handler returns at once while `updatingHsvColor` is set.
      hsvColor := Vec4(newHsv.h, newHsv.s, newHsv.v, alpha);
      assert HsvOf(hsvColor) == newHsv;
      updatingHsvColor := false;
      updatingColor := false;
      RaiseColorChanged();
    }

    // -------------------------------------------------------------------------
    // Input
    // -------------------------------------------------------------------------

    /** An arrow key steps the channel `ArrowStep` picks, wrapping at its
        bounds; Control makes the step a large one. Other keys go to the base
        control. A large step whose named-colour search does not finish within
        `fuel` steps changes nothing. */
    method OnKeyDown(key: Key, controlDown: bool, name: Namer, fuel: nat)
      requires Valid()
      modifies this`color, this`hsvColor, this`oldColor, this`updatingColor, this`updatingHsvColor, this`colorChanged
      ensures Valid()
      ensures !IsArrow(key) ==> ColorState() == old(ColorState())
      ensures IsArrow(key) ==>
        var s := ArrowStep(components, key, controlDown, Bounds());
        var r := IncrementedColor(name, HsvOf(old(hsvColor)), s.channel, s.direction, s.amount, true, s.min, s.max, fuel);
        (r.Success? ==> HsvOf(hsvColor) == r.value && colorChanged == old(colorChanged) + Raised(oldColor, color)) &&
        (r.Failure? ==> ColorState() == old(ColorState()))
      ensures IsArrow(key) ==>
        var s := ArrowStep(components, key, controlDown, Bounds());
        SameExcept(HsvOf(hsvColor), HsvOf(old(hsvColor)), s.channel) &&
        (!controlDown && s.min <= s.max ==> s.min <= Scaled(HsvOf(hsvColor), s.channel) <= s.max)
      ensures hsvColor.w == old(hsvColor.w)
    {
      if !IsArrow(key) {
        return;
      }
      var step := ArrowStep(components, key, controlDown, Bounds());
      var incremented := IncrementColorChannel(name, HsvOf(hsvColor), step.channel, step.direction, step.amount,
                                               true, step.min, step.max, fuel);
      if incremented.Success? {
        UpdateColor(incremented.value);
      }
    }

    /** Picks the colour of the map entry under the pointer, keeping the
        channel the box does not span as it is; nothing happens before a map
        has been built. */
    method UpdateColorFromPoint(px: real, py: real)
      requires Valid()
      modifies this`color, this`hsvColor, this`oldColor, this`updatingColor, this`updatingHsvColor, this`colorChanged
      ensures Valid()
      ensures old(hsvValues) == [] ==> ColorState() == old(ColorState())
      ensures old(hsvValues) != [] ==>
        var third := ThirdDimension(components);
        HsvOf(hsvColor) == With(hsvValues[PickedIndex(px, py, imageWidthFromLastBitmapCreation)], third,
                                Get(HsvOf(old(hsvColor)), third)) &&
        colorChanged == old(colorChanged) + Raised(oldColor, color)
      ensures hsvColor.w == old(hsvColor.w)
    {
      if hsvValues == [] {
        return;
      }
      var x := ClampToPixel(px, imageWidthFromLastBitmapCreation);
      var y := ClampToPixel(py, imageHeightFromLastBitmapCreation);
      var width := RoundHalfEven(imageWidthFromLastBitmapCreation);
      var j := PickedIndex(px, py, imageWidthFromLastBitmapCreation);
      assert j == y * width + x;
      var third := ThirdDimension(components);
      var hsvAtPoint := With(hsvValues[j], third, Get(HsvOf(hsvColor), third));
      UpdateColor(hsvAtPoint);
    }

    // -------------------------------------------------------------------------
    // Building the map
    // -------------------------------------------------------------------------

    /** Builds the colour map and bitmaps for a square of side `minDimension`
        (the smaller side of the layout), with each empty range pinned to its
        minimum, and records the size, components and bounds used. A zero
        size builds nothing. */
    method CreateBitmapsAndColorMap(minDimension: real)
      requires Valid() && 0.0 <= minDimension && RoundHalfEven(minDimension) != 1
      modifies this`hsvValues, this`bitmaps, this`componentsFromLastBitmapCreation,
               this`imageWidthFromLastBitmapCreation, this`imageHeightFromLastBitmapCreation,
               this`boundsFromLastBitmapCreation
      ensures Valid()
      ensures minDimension == 0.0 ==> Built() == old(Built())
      ensures minDimension != 0.0 ==>
        MapCurrent() && imageWidthFromLastBitmapCreation == minDimension &&
        componentsFromLastBitmapCreation == components && boundsFromLastBitmapCreation == Bounds() &&
        bitmaps.Keys == old(bitmaps).Keys + Rebuilt(components) &&
        forall bm :: bm in old(bitmaps) && bm !in Rebuilt(components) ==> bitmaps[bm] == old(bitmaps)[bm]
    {
      if minDimension == 0.0 {
        return;
      }
      var n := RoundHalfEven(minDimension);
      var values, stored := DrawMap(n, HsvOf(hsvColor), components, Pinned(Bounds()), bitmaps);
      Install(minDimension, values, stored);
    }

    /** Records a finished build: its map, bitmaps, size, components and
        bounds. */
    method Install(minDimension: real, values: seq<Hsv>, stored: map<Bitmap, seq<Byte>>)
      requires Valid() && 0.0 <= minDimension && RoundHalfEven(minDimension) != 1
      requires |values| == RoundHalfEven(minDimension) * RoundHalfEven(minDimension)
      modifies this`hsvValues, this`bitmaps, this`componentsFromLastBitmapCreation,
               this`imageWidthFromLastBitmapCreation, this`imageHeightFromLastBitmapCreation,
               this`boundsFromLastBitmapCreation
      ensures Valid() && PixelsPerSide() == RoundHalfEven(minDimension)
      ensures Built() == (components, minDimension, minDimension, Bounds(), values, stored)
    {
      bitmaps := stored;
      componentsFromLastBitmapCreation := components;
      imageWidthFromLastBitmapCreation := minDimension;
      imageHeightFromLastBitmapCreation := minDimension;
      boundsFromLastBitmapCreation := Bounds();
      hsvValues := values;
    }

    /** The `Components` setter: a different pair is stored and the map is
        rebuilt for it. */
    method SetComponents(c: Components, minDimension: real)
      requires Valid() && 0.0 <= minDimension && RoundHalfEven(minDimension) != 1
      modifies this`components, this`hsvValues, this`bitmaps, this`componentsFromLastBitmapCreation,
               this`imageWidthFromLastBitmapCreation, this`imageHeightFromLastBitmapCreation,
               this`boundsFromLastBitmapCreation
      ensures Valid()
      ensures components == c
      ensures c == old(components) || minDimension == 0.0 ==> Built() == old(Built())
      ensures c != old(components) && minDimension != 0.0 ==> MapCurrent()
    {
      if c != components {
        components := c;
        CreateBitmapsAndColorMap(minDimension);
      }
    }

    /** A bound property setter: a different value is stored and the handler
        for its channel runs. The handler rebuilds the map unless the channel
        is the one the box does not span, whose bounds the map does not
        depend on; with no image size nothing is rebuilt. */
    method SetBoundProperty(p: BoundProperty, value: int, minDimension: real)
      requires Valid() && 0 <= value <= BoundLimit(p)
      requires 0.0 <= minDimension && RoundHalfEven(minDimension) != 1
      modifies this`minHue, this`maxHue, this`minSaturation, this`maxSaturation, this`minValue, this`maxValue,
               this`hsvValues, this`bitmaps, this`componentsFromLastBitmapCreation,
               this`imageWidthFromLastBitmapCreation, this`imageHeightFromLastBitmapCreation,
               this`boundsFromLastBitmapCreation
      ensures Valid()
      ensures Bounds() == WithBound(old(Bounds()), p, value)
      ensures Bounds() == old(Bounds()) || ThirdDimension(components) == BoundChannel(p) || minDimension == 0.0
        ==> Built() == old(Built())
      ensures ThirdDimension(components) != BoundChannel(p) && minDimension != 0.0 && Bounds() != old(Bounds())
        ==> MapCurrent()
    {
      if WithBound(Bounds(), p, value) == Bounds() {
        return;
      }
      SetBound(p, value);
      match BoundChannel(p)
      case Hue => OnMinMaxHueChanged(minDimension);
      case Saturation => OnMinMaxSaturationChanged(minDimension);
      case Value => OnMinMaxValueChanged(minDimension);
    }

    /** Stores one bound property. */
    method SetBound(p: BoundProperty, value: int)
      modifies this`minHue, this`maxHue, this`minSaturation, this`maxSaturation, this`minValue, this`maxValue
      ensures Bounds() == WithBound(old(Bounds()), p, value)
    {
      match p
      case MinHueProperty => minHue := value;
      case MaxHueProperty => maxHue := value;
      case MinSaturationProperty => minSaturation := value;
      case MaxSaturationProperty => maxSaturation := value;
      case MinValueProperty => minValue := value;
      case MaxValueProperty => maxValue := value;
    }

    /** Rebuilds the map unless hue is the channel the box does not span. */
    method OnMinMaxHueChanged(minDimension: real)
      requires Valid() && 0.0 <= minDimension && RoundHalfEven(minDimension) != 1
      modifies this`hsvValues, this`bitmaps, this`componentsFromLastBitmapCreation,
               this`imageWidthFromLastBitmapCreation, this`imageHeightFromLastBitmapCreation,
               this`boundsFromLastBitmapCreation
      ensures Valid()
      ensures ThirdDimension(components) == Hue || minDimension == 0.0 ==> Built() == old(Built())
      ensures ThirdDimension(components) != Hue && minDimension != 0.0 ==> MapCurrent()
    {
      if components != SaturationValue && components != ValueSaturation {
        CreateBitmapsAndColorMap(minDimension);
      }
    }

    /** Rebuilds the map unless saturation is the channel the box does not
        span. */
    method OnMinMaxSaturationChanged(minDimension: real)
      requires Valid() && 0.0 <= minDimension && RoundHalfEven(minDimension) != 1
      modifies this`hsvValues, this`bitmaps, this`componentsFromLastBitmapCreation,
               this`imageWidthFromLastBitmapCreation, this`imageHeightFromLastBitmapCreation,
               this`boundsFromLastBitmapCreation
      ensures Valid()
      ensures ThirdDimension(components) == Saturation || minDimension == 0.0 ==> Built() == old(Built())
      ensures ThirdDimension(components) != Saturation && minDimension != 0.0 ==> MapCurrent()
    {
      if components != HueValue && components != ValueHue {
        CreateBitmapsAndColorMap(minDimension);
      }
    }

    /** Rebuilds the map unless value is the channel the box does not span. */
    method OnMinMaxValueChanged(minDimension: real)
      requires Valid() && 0.0 <= minDimension && RoundHalfEven(minDimension) != 1
      modifies this`hsvValues, this`bitmaps, this`componentsFromLastBitmapCreation,
               this`imageWidthFromLastBitmapCreation, this`imageHeightFromLastBitmapCreation,
               this`boundsFromLastBitmapCreation
      ensures Valid()
      ensures ThirdDimension(components) == Value || minDimension == 0.0 ==> Built() == old(Built())
      ensures ThirdDimension(components) != Value && minDimension != 0.0 ==> MapCurrent()
    {
      if components != HueSaturation && components != SaturationHue {
        CreateBitmapsAndColorMap(minDimension);
      }
    }
  }

  /** A freshly constructed spectrum is valid: its default colour and HSV
      colour agree and it holds the empty map of a zero-sized image. */
  lemma ConstructedValid(s: ColorSpectrum)
    requires s.color == Color(255, 255, 255, 255)
    requires s.hsvColor.x == 0.0 && s.hsvColor.y == 0.0 && s.hsvColor.z == 1.0 && s.hsvColor.w == 1.0
    requires !s.updatingColor && !s.updatingHsvColor
    requires s.imageWidthFromLastBitmapCreation == s.imageHeightFromLastBitmapCreation == 0.0
    requires s.hsvValues == []
    ensures s.Valid()
  {
    ConstructedColors(s);
    ConstructedMap(s);
  }

  lemma ConstructedColors(s: ColorSpectrum)
    requires s.color == Color(255, 255, 255, 255)
    requires s.hsvColor.x == 0.0 && s.hsvColor.y == 0.0 && s.hsvColor.z == 1.0 && s.hsvColor.w == 1.0
    ensures s.color == ColorOfHsvColor(s.hsvColor)
  {
    DefaultIsWhite(s.hsvColor);
  }

  lemma ConstructedMap(s: ColorSpectrum)
    requires s.imageWidthFromLastBitmapCreation == s.imageHeightFromLastBitmapCreation == 0.0
    requires s.hsvValues == []
    ensures s.PixelsPerSide() != 1 && |s.hsvValues| == s.PixelsPerSide() * s.PixelsPerSide()
  {
  }

  /** The bitmaps after a build: the saturation extremes from the minimum
      and maximum layers, the value bitmap from the maximum layer, or the six
      hue bitmaps from all six layers (red from the minimum, yellow to blue
      from the intermediate ones, purple from the maximum); the others are
      kept. */
  function Stored(bitmaps: map<Bitmap, seq<Byte>>, c: Components, buffers: PixelBuffers): (r: map<Bitmap, seq<Byte>>)
    reads buffers
    ensures r.Keys == bitmaps.Keys + Rebuilt(c)
    ensures forall bm :: bm in bitmaps && bm !in Rebuilt(c) ==> r[bm] == bitmaps[bm]
  {
    match c
    case HueValue => bitmaps[SaturationMinimum := buffers.minPixels][SaturationMaximum := buffers.maxPixels]
    case ValueHue => bitmaps[SaturationMinimum := buffers.minPixels][SaturationMaximum := buffers.maxPixels]
    case HueSaturation => bitmaps[ValueBitmap := buffers.maxPixels]
    case SaturationHue => bitmaps[ValueBitmap := buffers.maxPixels]
    case ValueSaturation => HueBitmaps(bitmaps, buffers)
    case SaturationValue => HueBitmaps(bitmaps, buffers)
  }

  function HueBitmaps(bitmaps: map<Bitmap, seq<Byte>>, buffers: PixelBuffers): (r: map<Bitmap, seq<Byte>>)
    reads buffers
    ensures r.Keys == bitmaps.Keys + {HueBitmap(0), HueBitmap(1), HueBitmap(2), HueBitmap(3), HueBitmap(4), HueBitmap(5)}
    ensures r[HueBitmap(0)] == buffers.minPixels && r[HueBitmap(5)] == buffers.maxPixels
    ensures r[HueBitmap(1)] == buffers.middle1Pixels && r[HueBitmap(2)] == buffers.middle2Pixels
    ensures r[HueBitmap(3)] == buffers.middle3Pixels && r[HueBitmap(4)] == buffers.middle4Pixels
  {
    bitmaps[HueBitmap(0) := buffers.minPixels][HueBitmap(1) := buffers.middle1Pixels]
           [HueBitmap(2) := buffers.middle2Pixels][HueBitmap(3) := buffers.middle3Pixels]
           [HueBitmap(4) := buffers.middle4Pixels][HueBitmap(5) := buffers.maxPixels]
  }

  /** The loops of `CreateBitmapsAndColorMap` and the bitmaps made from
      their buffers. */
  method DrawMap(n: nat, base: Hsv, c: Components, b: HsvBounds, bitmaps: map<Bitmap, seq<Byte>>)
    returns (values: seq<Hsv>, stored: map<Bitmap, seq<Byte>>)
    requires n != 1
    ensures |values| == n * n && Drawn(n, AnyBase, c, b, values, stored)
    ensures stored.Keys == bitmaps.Keys + Rebuilt(c)
    ensures forall bm :: bm in bitmaps && bm !in Rebuilt(c) ==> stored[bm] == bitmaps[bm]
  {
    var buffers := FillBox(n, base, c, b);
    values, stored := buffers.hsvValues, Stored(bitmaps, c, buffers);
    BuildDrawn(n, base, c, b, buffers, bitmaps);
  }

  /** A finished fill, stored, is a drawn map. */
  lemma BuildDrawn(n: nat, base: Hsv, c: Components, b: HsvBounds, buffers: PixelBuffers,
                   bitmaps: map<Bitmap, seq<Byte>>)
    requires n != 1 && Filled(n, base, c, b, buffers, n * n)
    ensures |buffers.hsvValues| == n * n
    ensures Drawn(n, AnyBase, c, b, buffers.hsvValues, Stored(bitmaps, c, buffers))
  {
    DrawnIgnoresBase(n, base, AnyBase, c, b, buffers.hsvValues, Stored(bitmaps, c, buffers));
  }
}
