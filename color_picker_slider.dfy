/** The keyboard stepping of the colour picker's channel sliders
    (src/Avalonia.ColorPicker/ColorPickerSlider.cs and
    src/AvaloniaWinUI.ColorPicker/ColorPickerSlider.cs, which agree): an arrow
    key along the slider steps the channel the slider shows, within the bounds
    of the parent picker, and writes the stepped channel back to the slider. */
module Slider {
  import opened ColorSpace
  import opened ChannelIncrement
  import opened ChannelIncrementProperties
  import opened PickerText
  import opened SpectrumComponents
  import Picker

  datatype Orientation = Horizontal | Vertical

  /** What became of a key press. */
  datatype KeyOutcome =
    | PassedToBase      // not an arrow along the slider: the base slider handles it
    | NoParent          // no colour picker above the slider: nothing happens
    | Handled           // the channel was stepped and written back
    | Unfinished        // the named-colour search ran out of fuel

  /** The slider handles left/right when horizontal and up/down when vertical. */
  predicate SteersAlong(o: Orientation, key: Key) {
    if o == Horizontal then key == Left || key == Right else key == Up || key == Down
  }

  /** Left and up step down; right and down step up (the horizontal direction
      is never inverted). */
  function KeyDirection(key: Key): (dir: Direction)
    ensures dir == Lower <==> key == Left || key == Up
  {
    if key == Left || key == Up then Lower else Higher
  }

  /** The bounds of a channel in slider units: degrees for hue, percent for
      saturation and value, and always [0, 100] for alpha. */
  function ChannelRange(ch: Channel, b: HsvBounds): (range: (real, real))
    ensures ch == Alpha ==> range == (0.0, 100.0)
    ensures ValidBounds(b) ==> 0.0 <= range.0 && range.1 <= (if ch == Hue then 359.0 else 100.0)
  {
    match ch
    case Hue => (b.minHue as real, b.maxHue as real)
    case Saturation => (b.minSaturation as real, b.maxSaturation as real)
    case Value => (b.minValue as real, b.maxValue as real)
    case Alpha => (0.0, 100.0)
  }

  /** The HSV channel a slider value stands for: the value itself for hue, a
      hundredth of it for saturation and value. */
  function FromSlider(ch: Channel, value: real): (x: real)
    requires IsHsvChannel(ch)
    ensures (if ch == Hue then x else 100.0 * x) == value
  {
    if ch == Hue then value else value / 100.0
  }

  /** The slider's value after one step of its channel, starting from the
      colour `hsv` (the parent picker's `CurrentHsv` property) with the
      slider's own value put in the channel; the step never wraps. A large step of an HSV channel is a
      named-colour search that may run out of fuel. */
  function SteppedValue(value: real, ch: Channel, hsv: Hsv, b: HsvBounds, dir: Direction, amount: Amount,
                        name: Namer, fuel: nat): (r: Result<real>)
    ensures r.Failure? <==> r == Failure(SearchUnfinished)
    ensures r.Failure? ==> amount == Large && ch != Alpha
    ensures var (lo, hi) := ChannelRange(ch, b);
      r.Success? && amount == Small && lo <= hi ==> lo <= r.value <= hi
    ensures var (lo, hi) := ChannelRange(ch, b);
      amount == Small && lo <= value + Signed(dir, 1.0) <= hi ==> r == Success(value + Signed(dir, 1.0))
  {
    var (lo, hi) := ChannelRange(ch, b);
    if ch == Alpha then
      Success(100.0 * IncrementAlphaChannel(value / 100.0, dir, amount, false, lo, hi))
    else
      var start := With(hsv, ch, FromSlider(ch, value));
      assert Scaled(start, ch) == value;
      match IncrementedColor(name, start, ch, dir, amount, false, lo, hi, fuel)
      case Failure(e) => Failure(e)
      case Success(stepped) => Success(Scaled(stepped, ch))
  }

  /** A channel slider: its value, the channel it shows and its orientation. */
  class ColorPickerSlider {
    var value: real
    var channel: Channel
    var orientation: Orientation

    /** A new slider shows the value channel, at zero. */
    constructor (orientation: Orientation)
      ensures this.orientation == orientation && channel == Value && value == 0.0
    {
      this.orientation := orientation;
      channel := Value;
      value := 0.0;
    }

    /** An arrow key along the slider steps its channel within the parent
        picker's bounds (a large step when control is held) and writes the
        result to the slider's value; nothing else changes, the parent
        picker included. */
    method OnKeyDown(key: Key, controlDown: bool, parent: Picker.ColorPicker?, name: Namer, fuel: nat)
      returns (outcome: KeyOutcome)
      modifies this`value
      ensures !SteersAlong(orientation, key) ==> outcome == PassedToBase && value == old(value)
      ensures SteersAlong(orientation, key) && parent == null ==> outcome == NoParent && value == old(value)
      ensures SteersAlong(orientation, key) && parent != null ==>
        var r := SteppedValue(old(value), channel, parent.currentHsvProperty, parent.Bounds(), KeyDirection(key),
                              if controlDown then Large else Small, name, fuel);
        (r.Success? ==> outcome == Handled && value == r.value) &&
        (r.Failure? ==> outcome == Unfinished && value == old(value))
    {
      if !SteersAlong(orientation, key) {
        return PassedToBase;
      }
      if parent == null {
        return NoParent;
      }
      var b := parent.Bounds();
      var (minBound, maxBound) := ChannelRange(channel, b);
      var currentHsv := parent.currentHsvProperty;
      var currentAlpha := 0.0;
      if channel == Alpha {
        currentAlpha := value / 100.0;
      } else {
        currentHsv := With(currentHsv, channel, FromSlider(channel, value));
      }
      var direction := KeyDirection(key);
      var amount := if controlDown then Large else Small;
      if channel != Alpha {
        var stepped := IncrementColorChannel(name, currentHsv, channel, direction, amount, false,
                                             minBound, maxBound, fuel);
        if stepped.Failure? {
          return Unfinished;
        }
        currentHsv := stepped.value;
        value := Scaled(currentHsv, channel);
      } else {
        currentAlpha := IncrementAlphaChannel(currentAlpha, direction, amount, false, minBound, maxBound);
        value := currentAlpha * 100.0;
      }
      outcome := Handled;
    }
  }

  // ---------------------------------------------------------------------------
  // Properties of a key step
  // ---------------------------------------------------------------------------

  /** Every successful step, small or large, of every channel lands within the
      picker's bounds for that channel, because the bounds are whole degrees
      or percents and the step never wraps. */
  lemma StepStaysInRange(value: real, ch: Channel, hsv: Hsv, b: HsvBounds, dir: Direction, amount: Amount,
                         name: Namer, fuel: nat)
    requires ValidBounds(b)
    requires ChannelRange(ch, b).0 <= ChannelRange(ch, b).1
    ensures var r := SteppedValue(value, ch, hsv, b, dir, amount, name, fuel);
      r.Success? ==> ChannelRange(ch, b).0 <= r.value <= ChannelRange(ch, b).1
  {
    var (lo, hi) := ChannelRange(ch, b);
    if ch != Alpha && amount == Large {
      var start := With(hsv, ch, FromSlider(ch, value));
      var s := Search(HsvNamer(name), start, ch, dir, false,
                      if ch == Hue then lo else lo / 100.0, if ch == Hue then hi else hi / 100.0);
      var k: nat := if ch == Hue then b.minHue else if ch == Saturation then b.minSaturation else b.minValue;
      assert lo == k as real;
      LargeStepStaysInBounds(s, fuel, k);
    }
  }

  /** From a value within the bounds, a small step down never raises the
      value and a small step up never lowers it: without wrapping, a step past
      a bound stops on that bound. */
  lemma SmallStepMovesWithKey(value: real, ch: Channel, hsv: Hsv, b: HsvBounds, dir: Direction,
                              name: Namer, fuel: nat)
    requires ChannelRange(ch, b).0 <= value <= ChannelRange(ch, b).1
    ensures var r := SteppedValue(value, ch, hsv, b, dir, Small, name, fuel);
      r.Success? && (dir == Lower ==> r.value <= value) && (dir == Higher ==> r.value >= value)
  {
    var (lo, hi) := ChannelRange(ch, b);
    if ch != Alpha {
      var start := With(hsv, ch, FromSlider(ch, value));
      assert Scaled(start, ch) == value;
      var next := value + Signed(dir, 1.0);
      assert BoundSmallStep(value, next, false, lo, hi) == (if next < lo then lo else if next > hi then hi else next);
    }
  }

  /** A small step depends only on the slider's own value, not on the rest of
      the colour it starts from; only a large step, which searches colour
      names, reads the other channels. */
  lemma SmallStepIgnoresColor(value: real, ch: Channel, hsv: Hsv, other: Hsv, b: HsvBounds, dir: Direction,
                              name: Namer, fuel: nat)
    ensures SteppedValue(value, ch, hsv, b, dir, Small, name, fuel)
         == SteppedValue(value, ch, other, b, dir, Small, name, fuel)
  {
  }

  /** A small step between two values inside the bounds is undone by the
      opposite small step. */
  lemma SmallStepsCancel(value: real, ch: Channel, hsv: Hsv, b: HsvBounds, name: Namer, fuel: nat)
    requires ChannelRange(ch, b).0 <= value - 1.0 && value <= ChannelRange(ch, b).1
    ensures var down := SteppedValue(value, ch, hsv, b, Lower, Small, name, fuel);
      down.Success? && SteppedValue(down.value, ch, hsv, b, Higher, Small, name, fuel) == Success(value)
  {
  }
}
