/** The component pair a colour spectrum spans and the decisions that follow
    from it alone (src/AvaloniaWinUI.ColorPicker/ColorSpectrum.cs): which HSV
    channel an arrow key steps and which way, and which pre-rendered bitmaps
    are blended to show the channel the spectrum does not span. */
module SpectrumComponents {
  import opened ColorSpace
  import opened ChannelIncrement
  import opened PickerText

  /** The two channels a spectrum spans; the name lists the channel the
      left/right keys step first and the one the up/down keys step second. */
  datatype Components =
    | HueValue
    | ValueHue
    | HueSaturation
    | SaturationHue
    | SaturationValue
    | ValueSaturation

  /** The channel a component pair names first. */
  function FirstNamed(c: Components): (ch: Channel)
    ensures IsHsvChannel(ch)
  {
    match c
    case HueValue => Hue
    case HueSaturation => Hue
    case ValueHue => Value
    case ValueSaturation => Value
    case SaturationHue => Saturation
    case SaturationValue => Saturation
  }

  /** The channel a component pair names second: never the first one. */
  function SecondNamed(c: Components): (ch: Channel)
    ensures IsHsvChannel(ch)
    ensures ch != FirstNamed(c)
  {
    match c
    case ValueHue => Hue
    case SaturationHue => Hue
    case HueValue => Value
    case SaturationValue => Value
    case HueSaturation => Saturation
    case ValueSaturation => Saturation
  }

  /** The channel the spectrum does not span. */
  function ThirdDimension(c: Components): (ch: Channel)
    ensures IsHsvChannel(ch)
    ensures ch != FirstNamed(c) && ch != SecondNamed(c)
  {
    match c
    case HueValue => Saturation
    case ValueHue => Saturation
    case HueSaturation => Value
    case SaturationHue => Value
    case SaturationValue => Hue
    case ValueSaturation => Hue
  }

  // ---------------------------------------------------------------------------
  // Arrow keys
  // ---------------------------------------------------------------------------

  /** The keys `OnKeyDown` distinguishes; every other key goes to the base class. */
  datatype Key = Left | Right | Up | Down | OtherKey

  predicate IsArrow(key: Key) { key != OtherKey }

  predicate IsHorizontal(key: Key) { key == Left || key == Right }

  /** The channel an arrow key steps: left and right step the first-named
      channel, up and down the second-named one. */
  function ArrowChannel(c: Components, key: Key): (ch: Channel)
    requires IsArrow(key)
    ensures IsHsvChannel(ch)
    ensures IsHorizontal(key) ==> ch == FirstNamed(c)
    ensures !IsHorizontal(key) ==> ch == SecondNamed(c)
  {
    if key == Left || key == Right then
      match c
      case HueSaturation => Hue
      case HueValue => Hue
      case SaturationHue => Saturation
      case SaturationValue => Saturation
      case ValueHue => Value
      case ValueSaturation => Value
    else
      match c
      case SaturationHue => Hue
      case ValueHue => Hue
      case HueSaturation => Saturation
      case ValueSaturation => Saturation
      case HueValue => Value
      case SaturationValue => Value
  }

  /** Hue grows rightwards and downwards on the spectrum while saturation and
      value shrink, so left and up lower the hue but raise the other two. */
  function ArrowDirection(ch: Channel, key: Key): (d: Direction)
    requires IsArrow(key)
    ensures d == Lower <==> ((key == Left || key == Up) <==> ch == Hue)
  {
    if (ch == Hue && (key == Left || key == Up)) || (ch != Hue && (key == Right || key == Down))
    then Lower
    else Higher
  }

  /** The bounds of a channel as the spectrum's bound properties give them:
      degrees for hue, percent for saturation and value. */
  function KeyBounds(ch: Channel, b: HsvBounds): (r: (real, real))
    requires IsHsvChannel(ch)
    ensures ch == Hue ==> r == (b.minHue as real, b.maxHue as real)
    ensures ch == Saturation ==> r == (b.minSaturation as real, b.maxSaturation as real)
    ensures ch == Value ==> r == (b.minValue as real, b.maxValue as real)
  {
    match ch
    case Hue => (b.minHue as real, b.maxHue as real)
    case Saturation => (b.minSaturation as real, b.maxSaturation as real)
    case Value => (b.minValue as real, b.maxValue as real)
  }

  /** Everything `OnKeyDown` passes to `IncrementColorChannel` besides the
      colour; it always asks for wrapping at the bounds. */
  datatype KeyStep = KeyStep(channel: Channel, direction: Direction, amount: Amount, min: real, max: real)

  function ArrowStep(c: Components, key: Key, controlDown: bool, b: HsvBounds): (s: KeyStep)
    requires IsArrow(key)
    ensures IsHsvChannel(s.channel)
    ensures IsHorizontal(key) ==> s.channel == FirstNamed(c)
    ensures !IsHorizontal(key) ==> s.channel == SecondNamed(c)
    ensures s.direction == Lower <==> ((key == Left || key == Up) <==> s.channel == Hue)
    ensures s.amount == Large <==> controlDown
    ensures (s.min, s.max) == KeyBounds(s.channel, b)
  {
    var ch := ArrowChannel(c, key);
    var bounds := KeyBounds(ch, b);
    KeyStep(ch, ArrowDirection(ch, key), if controlDown then Large else Small, bounds.0, bounds.1)
  }

  /** The two keys of one axis step the same channel, by the same amount,
      within the same bounds, in opposite directions. */
  lemma OppositeArrowKeys(c: Components, controlDown: bool, b: HsvBounds)
    ensures var l, r := ArrowStep(c, Left, controlDown, b), ArrowStep(c, Right, controlDown, b);
      l.channel == r.channel && l.amount == r.amount && l.min == r.min && l.max == r.max &&
      l.direction != r.direction
    ensures var u, d := ArrowStep(c, Up, controlDown, b), ArrowStep(c, Down, controlDown, b);
      u.channel == d.channel && u.amount == d.amount && u.min == d.min && u.max == d.max &&
      u.direction != d.direction
    ensures ArrowStep(c, Left, controlDown, b).channel != ArrowStep(c, Up, controlDown, b).channel
  {
  }

  // ---------------------------------------------------------------------------
  // Bitmap blending
  // ---------------------------------------------------------------------------

  /** The pre-rendered bitmaps: saturation at its minimum and maximum, value at
      its maximum, and the six hue bitmaps `HueBitmap(k)` at hue 60k (red,
      yellow, green, cyan, blue, purple). */
  datatype Bitmap = SaturationMinimum | SaturationMaximum | ValueBitmap | HueBitmap(sextant: int)

  /** A base bitmap with an overlay drawn over it at the given opacity. */
  datatype Blend = Blend(base: Bitmap, overlay: Bitmap, opacity: real)

  /** The `(int)` cast: truncation toward zero. */
  function Truncate(x: real): (n: int)
    ensures 0.0 <= x ==> n == x.Floor
    ensures x < 0.0 ==> n == -((-x).Floor)
  {
    if x >= 0.0 then x.Floor else -((-x).Floor)
  }

  /** The two hue bitmaps either side of `h` and how much of the upper one
      shows: for a hue in [0, 360) the base is the sextant below it, the
      overlay the next one round the wheel, and blending their hues at that
      opacity gives back `h`. */
  function HueBlend(h: real): (b: Blend)
    ensures b.base.HueBitmap? && b.overlay.HueBitmap?
    ensures 0 <= b.base.sextant < 6 && b.overlay.sextant == (b.base.sextant + 1) % 6
    ensures 0.0 <= h < 360.0 ==>
      b.base.sextant == (h / 60.0).Floor && 0.0 <= b.opacity < 1.0 &&
      60.0 * (b.base.sextant as real + b.opacity) == h
  {
    var sextant := h / 60.0;
    var opacity := sextant - Truncate(sextant) as real;
    if sextant < 1.0 then Blend(HueBitmap(0), HueBitmap(1), opacity)
    else if sextant >= 1.0 && sextant < 2.0 then Blend(HueBitmap(1), HueBitmap(2), opacity)
    else if sextant >= 2.0 && sextant < 3.0 then Blend(HueBitmap(2), HueBitmap(3), opacity)
    else if sextant >= 3.0 && sextant < 4.0 then Blend(HueBitmap(3), HueBitmap(4), opacity)
    else if sextant >= 4.0 && sextant < 5.0 then Blend(HueBitmap(4), HueBitmap(5), opacity)
    else Blend(HueBitmap(5), HueBitmap(0), opacity)
  }

  /** What `UpdateBitmapSources` shows for the current colour: the saturation
      bitmaps blended at the saturation, the value bitmap alone, or the hue
      blend. */
  function BitmapSources(c: Components, hsv: Hsv): (b: Blend)
    ensures ThirdDimension(c) == Saturation ==>
      b.base == SaturationMinimum && b.overlay == SaturationMaximum && b.opacity == hsv.s
    ensures ThirdDimension(c) == Value ==> b.base == b.overlay == ValueBitmap && b.opacity == 1.0
    ensures ThirdDimension(c) == Hue ==> b == HueBlend(hsv.h)
  {
    match c
    case HueValue => Blend(SaturationMinimum, SaturationMaximum, hsv.s)
    case ValueHue => Blend(SaturationMinimum, SaturationMaximum, hsv.s)
    case HueSaturation => Blend(ValueBitmap, ValueBitmap, 1.0)
    case SaturationHue => Blend(ValueBitmap, ValueBitmap, 1.0)
    case ValueSaturation => HueBlend(hsv.h)
    case SaturationValue => HueBlend(hsv.h)
  }
}
