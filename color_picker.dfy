/** The colour state of the picker control (src/Avalonia.ColorPicker/ColorPicker.cs):
    the current colour held as RGB, HSV, alpha and hex string, the `Color`
    property they are written back to, the `ColorChanged` events that writing
    raises, and the handlers that feed typed text and new bounds into it.

    Avalonia calls the property-changed handler synchronously from inside the
    `Color` setter; `SetColor` models that setter. */
module Picker {
  import opened ColorSpace
  import opened PickerText
  import ColorRoundTrip

  /** Why the colour is being updated; the control that caused it is not refreshed. */
  datatype ColorUpdateReason =
    | InitializingColor
    | ColorPropertyChanged
    | ColorSpectrumColorChanged
    | ThirdDimensionSliderChanged
    | AlphaSliderChanged
    | RgbTextBoxChanged
    | HsvTextBoxChanged
    | AlphaTextBoxChanged
    | HexTextBoxChanged

  /** The numbers `UpdateColorControls` writes into the text boxes: RGB as
      rounded bytes, hue in rounded degrees, saturation, value and alpha in
      rounded percent (the alpha box adds "%"), and the hex string. */
  datatype TextBoxes = TextBoxes(red: int, green: int, blue: int, hue: int, saturation: int, value: int,
                                 alpha: int, hex: string)

  /** Which channel box of the RGB or HSV group is being typed into. */
  datatype RgbBox = RedBox | GreenBox | BlueBox
  datatype HsvBox = HueBox | SaturationBox | ValueBox

  /** `int.TryParse`, which is outside this model. */
  type IntParser = string -> Option<int>

  /** `Color.TryParse`, which is outside this model. */
  type ColorParser = string -> Option<Color>

  /** The colour the current RGB triple and alpha quantise to. */
  function Quantised(rgb: Rgb, alpha: real): (c: Color)
    requires InUnitCube(rgb) && InUnitRange(alpha)
  {
    ColorFromRgba(rgb, alpha)
  }

  /** The text boxes after `UpdateColorControls`: every group but the one
      named by `reason` shows the current colour, rounded to whole units. */
  function Refreshed(boxes: TextBoxes, reason: ColorUpdateReason, rgb: Rgb, hsv: Hsv, alpha: real, hex: string)
    : (r: TextBoxes)
    requires InUnitCube(rgb)
    ensures reason != RgbTextBoxChanged ==>
      -0.5 <= r.red as real - rgb.r * 255.0 <= 0.5 && -0.5 <= r.green as real - rgb.g * 255.0 <= 0.5 &&
      -0.5 <= r.blue as real - rgb.b * 255.0 <= 0.5
    ensures reason == RgbTextBoxChanged ==> r.red == boxes.red && r.green == boxes.green && r.blue == boxes.blue
    ensures reason != HsvTextBoxChanged ==>
      -0.5 <= r.hue as real - hsv.h <= 0.5 && -0.5 <= r.saturation as real - hsv.s * 100.0 <= 0.5 &&
      -0.5 <= r.value as real - hsv.v * 100.0 <= 0.5
    ensures reason == HsvTextBoxChanged ==>
      r.hue == boxes.hue && r.saturation == boxes.saturation && r.value == boxes.value
    ensures reason != AlphaTextBoxChanged ==> -0.5 <= r.alpha as real - alpha * 100.0 <= 0.5
    ensures reason == AlphaTextBoxChanged ==> r.alpha == boxes.alpha
    ensures r.hex == if reason == HexTextBoxChanged then boxes.hex else hex
  {
    var withRgb := if reason == RgbTextBoxChanged then boxes
      else boxes.(red := RoundToByte(rgb.r), green := RoundToByte(rgb.g), blue := RoundToByte(rgb.b));
    var withHsv := if reason == HsvTextBoxChanged then withRgb
      else withRgb.(hue := RoundHalfEven(hsv.h), saturation := RoundHalfEven(hsv.s * 100.0),
                    value := RoundHalfEven(hsv.v * 100.0));
    var withAlpha := if reason == AlphaTextBoxChanged then withHsv
      else withHsv.(alpha := RoundHalfEven(alpha * 100.0));
    if reason == HexTextBoxChanged then withAlpha else withAlpha.(hex := hex)
  }

  /** The representations of one colour agree: the RGB triple is the
      conversion of the HSV one, the byte colour is the RGB triple and alpha
      truncated, and the hex string formats that byte colour. */
  predicate Agrees(rgb: Rgb, hsv: Hsv, alpha: real, hex: string, color: Color, isAlphaEnabled: bool) {
    InUnitCube(rgb) && InUnitRange(alpha) && rgb == HsvToRgb(hsv) &&
    color == Quantised(rgb, alpha) && hex == HexValue(color, isAlphaEnabled)
  }

  class ColorPicker {
    /** The `Color` styled property. */
    var color: Color
    var isAlphaEnabled: bool
    var minHue: int
    var maxHue: int
    var minSaturation: int
    var maxSaturation: int
    var minValue: int
    var maxValue: int

    var currentRgb: Rgb
    var currentHsv: Hsv
    var currentHex: string
    var currentAlpha: real
    /** The internal `CurrentHsv` property the channel sliders read. It is
        separate from `currentHsv`, and nothing in the picker assigns it. */
    var currentHsvProperty: Hsv
    var updatingColor: bool
    var updatingControls: bool
    var isFocusedTextBoxValid: bool

    /** What the text boxes were last set to by `UpdateColorControls`. */
    var shown: TextBoxes
    /** Every `ColorChanged` event raised so far, oldest first. */
    var colorChanged: seq<ColorChange>

    function Bounds(): HsvBounds
      reads this
    {
      HsvBounds(minHue, maxHue, minSaturation, maxSaturation, minValue, maxValue)
    }

    /** The three representations of the current colour agree with each other
        and with the `Color` property, and no update is half done. */
    predicate Valid()
      reads this
    {
      ValidBounds(Bounds()) &&
      Agrees(currentRgb, currentHsv, currentAlpha, currentHex, color, isAlphaEnabled) &&
      !updatingColor && !updatingControls
    }

    /** The field initialisers and property defaults: white, bounds 0-359 and
        0-100, alpha disabled. The HSV field starts as pure red and the hex
        string in upper case until `InitializeColor` runs. */
    constructor ()
      ensures color == Color(255, 255, 255, 255) && !isAlphaEnabled
      ensures Bounds() == HsvBounds(0, 359, 0, 100, 0, 100)
      ensures currentRgb == Rgb(1.0, 1.0, 1.0) && currentHsv == Hsv(0.0, 1.0, 1.0)
      ensures currentHex == "#FFFFFFFF" && currentAlpha == 1.0
      ensures currentHsvProperty == Hsv(0.0, 0.0, 0.0)
      ensures !updatingColor && !updatingControls && !isFocusedTextBoxValid
      ensures colorChanged == []
    {
      color := Color(255, 255, 255, 255);
      isAlphaEnabled := false;
      minHue, maxHue := 0, 359;
      minSaturation, maxSaturation := 0, 100;
      minValue, maxValue := 0, 100;
      currentRgb := Rgb(1.0, 1.0, 1.0);
      currentHsv := Hsv(0.0, 1.0, 1.0);
      currentHex := "#FFFFFFFF";
      currentAlpha := 1.0;
      currentHsvProperty := Hsv(0.0, 0.0, 0.0);
      updatingColor, updatingControls := false, false;
      isFocusedTextBoxValid := false;
      shown := TextBoxes(0, 0, 0, 0, 0, 0, 0, "");
      colorChanged := [];
    }

    /** The `Color` setter: a different value is stored and handed to the
        change handler; setting the current value does nothing. */
    method SetColor(newColor: Color)
      requires ValidBounds(Bounds()) && !updatingControls
      modifies this
      ensures color == newColor
      ensures colorChanged == old(colorChanged) + Raised(old(color), newColor)
      ensures old(color) != newColor && !old(updatingColor) ==>
        Valid() && currentRgb == RgbOfColor(newColor) && currentAlpha == newColor.a as real / 255.0
      ensures old(color) == newColor || old(updatingColor) ==>
        currentRgb == old(currentRgb) && currentHsv == old(currentHsv) && currentAlpha == old(currentAlpha) &&
        currentHex == old(currentHex) && shown == old(shown) && updatingColor == old(updatingColor)
      ensures Bounds() == old(Bounds()) && isAlphaEnabled == old(isAlphaEnabled)
      ensures isFocusedTextBoxValid == old(isFocusedTextBoxValid) && !updatingControls
    {
      if newColor != color {
        var oldColor := color;
        color := newColor;
        OnColorChanged(oldColor, newColor);
      }
    }

    /** Unless the picker itself is writing the colour, re-derives RGB, alpha,
        HSV and hex from the new colour and refreshes every box; then raises
        `ColorChanged` when the colour differs. */
    method OnColorChanged(oldColor: Color, newColor: Color)
      requires color == newColor && ValidBounds(Bounds()) && !updatingControls
      modifies this
      ensures color == newColor
      ensures colorChanged == old(colorChanged) + Raised(oldColor, newColor)
      ensures !old(updatingColor) ==>
        Valid() && currentRgb == RgbOfColor(newColor) && currentAlpha == newColor.a as real / 255.0
      ensures old(updatingColor) ==>
        currentRgb == old(currentRgb) && currentHsv == old(currentHsv) && currentAlpha == old(currentAlpha) &&
        currentHex == old(currentHex) && shown == old(shown) && updatingColor
      ensures Bounds() == old(Bounds()) && isAlphaEnabled == old(isAlphaEnabled)
      ensures isFocusedTextBoxValid == old(isFocusedTextBoxValid) && !updatingControls
    {
      if !updatingColor {
        currentRgb := RgbOfColor(color);
        currentAlpha := color.a as real / 255.0;
        currentHsv := RgbToHsv(currentRgb);
        currentHex := HexValue(Quantised(currentRgb, currentAlpha), isAlphaEnabled);
        ColorRoundTrip.RgbHsvRoundTrip(currentRgb);
        ColorRoundTrip.QuantiseColorRoundTrip(color);
        UpdateColorControls(ColorPropertyChanged);
      }
      colorChanged := colorChanged + Raised(oldColor, newColor);
    }

    /** Re-derives the state from the `Color` property and writes it back. */
    method InitializeColor()
      requires ValidBounds(Bounds()) && !updatingColor && !updatingControls
      modifies this
      ensures Valid()
      ensures color == old(color) && colorChanged == old(colorChanged)
      ensures currentRgb == RgbOfColor(color) && currentAlpha == color.a as real / 255.0
    {
      currentRgb := RgbOfColor(color);
      currentHsv := RgbToHsv(currentRgb);
      currentAlpha := color.a as real / 255.0;
      currentHex := HexValue(Quantised(currentRgb, currentAlpha), isAlphaEnabled);
      ColorRoundTrip.RgbHsvRoundTrip(currentRgb);
      ColorRoundTrip.QuantiseColorRoundTrip(color);
      SetColorAndUpdateControls(InitializingColor);
    }

    /** A new RGB colour: HSV follows it, alpha stays. */
    method UpdateColorRgb(rgb: Rgb, reason: ColorUpdateReason)
      requires Valid() && InUnitCube(rgb)
      modifies this
      ensures Valid()
      ensures currentRgb == rgb && currentHsv == RgbToHsv(rgb) && currentAlpha == old(currentAlpha)
      ensures color == Quantised(rgb, old(currentAlpha))
      ensures colorChanged == old(colorChanged) + Raised(old(color), color)
      ensures Bounds() == old(Bounds()) && isAlphaEnabled == old(isAlphaEnabled)
      ensures isFocusedTextBoxValid == old(isFocusedTextBoxValid)
    {
      currentRgb := rgb;
      currentHsv := RgbToHsv(currentRgb);
      currentHex := HexValue(Quantised(currentRgb, currentAlpha), isAlphaEnabled);
      ColorRoundTrip.RgbHsvRoundTrip(rgb);
      SetColorAndUpdateControls(reason);
    }

    /** A new HSV colour: RGB follows it, alpha stays. */
    method UpdateColorHsv(hsv: Hsv, reason: ColorUpdateReason)
      requires Valid()
      modifies this
      ensures Valid()
      ensures currentHsv == hsv && currentRgb == HsvToRgb(hsv) && currentAlpha == old(currentAlpha)
      ensures color == Quantised(HsvToRgb(hsv), old(currentAlpha))
      ensures colorChanged == old(colorChanged) + Raised(old(color), color)
      ensures Bounds() == old(Bounds()) && isAlphaEnabled == old(isAlphaEnabled)
      ensures isFocusedTextBoxValid == old(isFocusedTextBoxValid)
    {
      currentHsv := hsv;
      currentRgb := HsvToRgb(hsv);
      currentHex := HexValue(Quantised(currentRgb, currentAlpha), isAlphaEnabled);
      SetColorAndUpdateControls(reason);
    }

    /** A new alpha: RGB and HSV stay. */
    method UpdateColorAlpha(alpha: real, reason: ColorUpdateReason)
      requires Valid() && InUnitRange(alpha)
      modifies this
      ensures Valid()
      ensures currentAlpha == alpha && currentRgb == old(currentRgb) && currentHsv == old(currentHsv)
      ensures color == Quantised(old(currentRgb), alpha)
      ensures colorChanged == old(colorChanged) + Raised(old(color), color)
      ensures Bounds() == old(Bounds()) && isAlphaEnabled == old(isAlphaEnabled)
      ensures isFocusedTextBoxValid == old(isFocusedTextBoxValid)
    {
      currentAlpha := alpha;
      currentHex := HexValue(Quantised(currentRgb, currentAlpha), isAlphaEnabled);
      SetColorAndUpdateControls(reason);
    }

    /** Writes the quantised colour to the `Color` property with the handler's
        re-derivation switched off, then refreshes the controls. */
    method SetColorAndUpdateControls(reason: ColorUpdateReason)
      requires ValidBounds(Bounds()) && !updatingColor && !updatingControls
      requires InUnitCube(currentRgb) && InUnitRange(currentAlpha)
      requires Agrees(currentRgb, currentHsv, currentAlpha, currentHex, Quantised(currentRgb, currentAlpha),
                      isAlphaEnabled)
      modifies this
      ensures Valid()
      ensures color == Quantised(currentRgb, currentAlpha)
      ensures currentRgb == old(currentRgb) && currentHsv == old(currentHsv) && currentAlpha == old(currentAlpha)
      ensures colorChanged == old(colorChanged) + Raised(old(color), color)
      ensures Bounds() == old(Bounds()) && isAlphaEnabled == old(isAlphaEnabled)
      ensures isFocusedTextBoxValid == old(isFocusedTextBoxValid)
    {
      updatingColor := true;
      SetColor(Quantised(currentRgb, currentAlpha));
      UpdateColorControls(reason);
      updatingColor := false;
    }

    /** Refreshes every text box except the group that caused the update. */
    method UpdateColorControls(reason: ColorUpdateReason)
      requires InUnitCube(currentRgb) && !updatingControls
      modifies this
      ensures currentRgb == old(currentRgb) && currentHsv == old(currentHsv)
      ensures currentAlpha == old(currentAlpha) && currentHex == old(currentHex)
      ensures shown == Refreshed(old(shown), reason, currentRgb, currentHsv, currentAlpha, currentHex)
      ensures !updatingControls && color == old(color) && colorChanged == old(colorChanged)
      ensures updatingColor == old(updatingColor) && isFocusedTextBoxValid == old(isFocusedTextBoxValid)
      ensures Bounds() == old(Bounds()) && isAlphaEnabled == old(isAlphaEnabled)
    {
      updatingControls := true;
      shown := Refreshed(shown, reason, currentRgb, currentHsv, currentAlpha, currentHex);
      updatingControls := false;
    }

    /** Toggling alpha only re-formats the hex string. */
    method OnIsAlphaEnabledChanged(enabled: bool)
      requires Valid()
      modifies this
      ensures Valid() && isAlphaEnabled == enabled
      ensures currentHex == HexValue(color, enabled) && shown.hex == currentHex
      ensures color == old(color) && currentRgb == old(currentRgb) && currentHsv == old(currentHsv)
      ensures currentAlpha == old(currentAlpha) && colorChanged == old(colorChanged)
    {
      isAlphaEnabled := enabled;
      currentHex := HexValue(Quantised(currentRgb, currentAlpha), isAlphaEnabled);
      updatingControls := true;
      shown := shown.(hex := currentHex);
      updatingControls := false;
    }

    /** New hue bounds: the current hue is clamped into them (to `newMin` when
        they cross) and the colour recomputed from HSV. */
    method OnMinMaxHueChanged(newMin: int, newMax: int)
      requires Valid() && 0 <= newMin <= 359 && 0 <= newMax <= 359
      modifies this
      ensures Valid() && minHue == newMin && maxHue == newMax
      ensures currentHsv == old(currentHsv).(h := ClampHighFirst(old(currentHsv.h), newMin as real, newMax as real))
      ensures newMin <= newMax ==> newMin as real <= currentHsv.h <= newMax as real
      ensures currentAlpha == old(currentAlpha)
    {
      minHue, maxHue := newMin, newMax;
      var hsv := currentHsv.(h := ClampHighFirst(currentHsv.h, minHue as real, maxHue as real));
      UpdateColorHsv(hsv, ColorPropertyChanged);
    }

    /** New saturation bounds, in percent, applied to the current saturation. */
    method OnMinMaxSaturationChanged(newMin: int, newMax: int)
      requires Valid() && 0 <= newMin <= 100 && 0 <= newMax <= 100
      modifies this
      ensures Valid() && minSaturation == newMin && maxSaturation == newMax
      ensures currentHsv ==
        old(currentHsv).(s := ClampHighFirst(old(currentHsv.s), newMin as real / 100.0, newMax as real / 100.0))
      ensures newMin <= newMax ==> newMin as real / 100.0 <= currentHsv.s <= newMax as real / 100.0
      ensures currentAlpha == old(currentAlpha)
    {
      minSaturation, maxSaturation := newMin, newMax;
      var hsv := currentHsv.(s := ClampHighFirst(currentHsv.s, minSaturation as real / 100.0,
                                                 maxSaturation as real / 100.0));
      UpdateColorHsv(hsv, ColorPropertyChanged);
    }

    /** New value bounds, in percent, applied to the current value. */
    method OnMinMaxValueChanged(newMin: int, newMax: int)
      requires Valid() && 0 <= newMin <= 100 && 0 <= newMax <= 100
      modifies this
      ensures Valid() && minValue == newMin && maxValue == newMax
      ensures currentHsv ==
        old(currentHsv).(v := ClampHighFirst(old(currentHsv.v), newMin as real / 100.0, newMax as real / 100.0))
      ensures newMin <= newMax ==> newMin as real / 100.0 <= currentHsv.v <= newMax as real / 100.0
      ensures currentAlpha == old(currentAlpha)
    {
      minValue, maxValue := newMin, newMax;
      var hsv := currentHsv.(v := ClampHighFirst(currentHsv.v, minValue as real / 100.0, maxValue as real / 100.0));
      UpdateColorHsv(hsv, ColorPropertyChanged);
    }

    /** Text typed into one of the R, G, B boxes. It is accepted iff it parses
        to 0-255; the colour then becomes the three boxes' colour with the
        bounds applied. The other two boxes hold numbers in 0-255. */
    method OnRgbTextChanging(edited: RgbBox, red: string, green: string, blue: string, parse: IntParser)
      requires Valid()
      requires edited != RedBox ==> AcceptsInt(parse(red), 0, 255)
      requires edited != GreenBox ==> AcceptsInt(parse(green), 0, 255)
      requires edited != BlueBox ==> AcceptsInt(parse(blue), 0, 255)
      modifies this
      ensures Valid()
      ensures var typed := match edited case RedBox => red case GreenBox => green case BlueBox => blue;
        isFocusedTextBoxValid == AcceptsInt(parse(typed), 0, 255) &&
        (isFocusedTextBoxValid ==> currentRgb == ApplyConstraints(
          Rgb(parse(red).value as real / 255.0, parse(green).value as real / 255.0,
              parse(blue).value as real / 255.0), Bounds())) &&
        (!isFocusedTextBoxValid ==> currentRgb == old(currentRgb) && color == old(color))
      ensures currentAlpha == old(currentAlpha)
    {
      var typed := match edited case RedBox => red case GreenBox => green case BlueBox => blue;
      if !AcceptsInt(parse(typed), 0, 255) {
        isFocusedTextBoxValid := false;
      } else {
        isFocusedTextBoxValid := true;
        var rgb := Rgb(parse(red).value as real / 255.0, parse(green).value as real / 255.0,
                       parse(blue).value as real / 255.0);
        UpdateColorRgb(ApplyConstraints(rgb, Bounds()), RgbTextBoxChanged);
      }
    }

    /** The bounds, in the box's own units, that text typed into an HSV box must meet. */
    function HsvTextBounds(box: HsvBox): (range: (int, int))
      reads this
      ensures ValidBounds(Bounds()) ==> 0 <= range.0 && range.1 <= (if box == HueBox then 359 else 100)
    {
      match box
      case HueBox => (minHue, maxHue)
      case SaturationBox => (minSaturation, maxSaturation)
      case ValueBox => (minValue, maxValue)
    }

    /** Text typed into the hue, saturation or value box. It is accepted iff it
        parses to a whole number within that channel's bounds; the colour then
        becomes the three boxes' HSV colour (saturation and value in percent).
        The other two boxes hold whole numbers. */
    method OnHsvTextChanging(edited: HsvBox, hue: string, saturation: string, value: string, parse: IntParser)
      requires Valid()
      requires edited != HueBox ==> parse(hue).Some?
      requires edited != SaturationBox ==> parse(saturation).Some?
      requires edited != ValueBox ==> parse(value).Some?
      modifies this
      ensures Valid()
      ensures var typed := match edited case HueBox => hue case SaturationBox => saturation case ValueBox => value;
        var range := old(HsvTextBounds(edited));
        isFocusedTextBoxValid == AcceptsInt(parse(typed), range.0, range.1) &&
        (isFocusedTextBoxValid ==> currentHsv == Hsv(parse(hue).value as real,
          parse(saturation).value as real / 100.0, parse(value).value as real / 100.0)) &&
        (!isFocusedTextBoxValid ==> currentHsv == old(currentHsv) && color == old(color))
      ensures currentAlpha == old(currentAlpha)
    {
      var typed := match edited case HueBox => hue case SaturationBox => saturation case ValueBox => value;
      var range := HsvTextBounds(edited);
      if !AcceptsInt(parse(typed), range.0, range.1) {
        isFocusedTextBoxValid := false;
      } else {
        isFocusedTextBoxValid := true;
        var hsv := Hsv(parse(hue).value as real, parse(saturation).value as real / 100.0,
                       parse(value).value as real / 100.0);
        UpdateColorHsv(hsv, HsvTextBoxChanged);
      }
    }

    /** Text typed into the alpha box: a missing "%" is appended (the box then
        shows `boxText`), and the text before it is accepted iff it parses to
        0-100, which becomes the alpha in percent. */
    method OnAlphaTextChanging(text: string, parse: IntParser) returns (boxText: string)
      requires Valid()
      modifies this
      ensures Valid()
      ensures boxText == WithPercent(text)
      ensures isFocusedTextBoxValid == AcceptsInt(parse(PercentNumber(text)), 0, 100)
      ensures isFocusedTextBoxValid ==> currentAlpha == parse(PercentNumber(text)).value as real / 100.0
      ensures !isFocusedTextBoxValid ==> currentAlpha == old(currentAlpha) && color == old(color)
      ensures currentRgb == old(currentRgb) && currentHsv == old(currentHsv)
    {
      boxText := text;
      if |boxText| == 0 || boxText[|boxText| - 1] != '%' {
        boxText := boxText + "%";
      }
      var alphaString := boxText[..|boxText| - 1];
      var parsed := parse(alphaString);
      if !AcceptsInt(parsed, 0, 100) {
        isFocusedTextBoxValid := false;
      } else {
        isFocusedTextBoxValid := true;
        UpdateColorAlpha(parsed.value as real / 100.0, AlphaTextBoxChanged);
      }
    }

    /** Text typed into the hex box: a missing "#" is prepended (the box then
        shows `boxText`). A parsable colour is accepted: its RGB part, with the
        bounds applied, and then its alpha (opaque while alpha is disabled)
        become the current colour, each step writing the `Color` property. */
    method OnHexTextChanging(text: string, parse: ColorParser) returns (boxText: string)
      requires Valid()
      modifies this
      ensures Valid()
      ensures boxText == WithHash(text)
      ensures isFocusedTextBoxValid == parse(WithHash(text)).Some?
      ensures isFocusedTextBoxValid ==>
        var parsed := parse(WithHash(text)).value;
        var rgb := ApplyConstraints(RgbOfColor(parsed), old(Bounds()));
        var middle := Quantised(rgb, old(currentAlpha));
        currentRgb == rgb &&
        currentAlpha == (if isAlphaEnabled then parsed.a as real / 255.0 else 1.0) &&
        colorChanged == old(colorChanged) + Raised(old(color), middle) + Raised(middle, color)
      ensures !isFocusedTextBoxValid ==>
        currentRgb == old(currentRgb) && currentAlpha == old(currentAlpha) &&
        color == old(color) && colorChanged == old(colorChanged)
    {
      boxText := text;
      if |boxText| == 0 || boxText[0] != '#' {
        boxText := "#" + boxText;
      }
      var alphaEnabled := isAlphaEnabled;
      var parsed := parse(boxText);
      if parsed.Some? {
        var rgb := RgbOfColor(parsed.value);
        var alpha := parsed.value.a as real / 255.0;
        if !alphaEnabled {
          alpha := 1.0;
        }
        isFocusedTextBoxValid := true;
        UpdateColorRgb(ApplyConstraints(rgb, Bounds()), HexTextBoxChanged);
        UpdateColorAlpha(alpha, HexTextBoxChanged);
      } else {
        isFocusedTextBoxValid := false;
      }
    }
  }
}
