# AvaloniaWinUI colour picker — a verified model of its colour logic

This project models the colour logic of the AvaloniaWinUI colour picker, a
port of the WinUI `ColorPicker` control to Avalonia. It covers:

* **Colour arithmetic** (`ColorHelpers`).
  * RGB↔HSV conversion and `ColorFromRgba`.
  * Stepping one HSV channel by a small step or to the next named colour.
  * Stepping alpha in decades.
  * The checkered backdrop bitmap.
* **The picker's colour state** (`ColorPicker`).
  * The current RGB, HSV, alpha and hex values.
  * How they follow the `Color` property.
  * How the text boxes are refreshed and how typed text is accepted.
  * Clamping into the HSV bounds.
  * The hue slider's gradient.
* **The colour spectrum** (`ColorSpectrum`) apart from drawing.
  * The `Color` / `HsvColor` synchronisation and its `ColorChanged` events.
  * Arrow-key stepping.
  * The colour map and the six HSV bitmaps built for a box spectrum, with
    the pixel picked under the pointer.
  * Which map entries each property change rebuilds.
* **The channel sliders' keyboard stepping** (`ColorPickerSlider`, in both
  its Avalonia and WinUI copies).

Modules, one per file:

* `ColorSpace` (color_space.dfy): colour types, `RgbToHsv`, `HsvToRgb` and the `Math.Round`/cast helpers.
* `ColorRoundTrip` (color_round_trip.dfy): RGB→HSV→RGB is the identity on the unit cube, HSV→RGB→HSV is the identity for hue in [0, 360) and positive saturation and value, and bytes→RGB→bytes is the identity too.
* `ChannelIncrement` (channel_increment.dfy) and `ChannelIncrementProperties` (channel_increment_properties.dfy): `IncrementColorChannel`, `FindNextNamedColor` and `IncrementAlphaChannel`.
* `Checkerboard` (checkerboard.dfy): `CreateCheckeredBackgroundAsync`.
* `PickerText` (picker_text.dfy): the hex string, the text-box rules, `ApplyraintsToRgbColor` (spelt so in the source) and the hue gradient.
* `Picker` (color_picker.dfy): the `ColorPicker` class.
* `SpectrumComponents` (spectrum_components.dfy), `SpectrumMap` (spectrum_map.dfy) and `Spectrum` (color_spectrum.dfy): the `ColorSpectrum` class.
* `Slider` (color_picker_slider.dfy): the `ColorPickerSlider` class.

Modelling conventions:

* **Numbers.**
  * Doubles (and the `float` components of `HsvColor`) are mathematical reals.
  * `Math.Round` is round-half-to-even (`RoundHalfEven`).
  * The `(int)` cast truncates toward zero (`Truncate`).
  * `(byte)` of a non-negative value is its floor.
* **Display names and text parsing.**
  * `ColorHelpers.ToDisplayName` is a parameter (`Namer`) to the named-colour search.
  * `int.TryParse` and `Color.TryParse` are parameters of the text handlers.
* **Fuel.** The named-colour search takes a step budget (`fuel`) and reports `SearchUnfinished` when the budget runs out.
* **Avalonia properties.**
  * A property setter runs the property's change handler synchronously, and only when the value differs.
  * Each setter is a method that stores the value and calls the handler.
  * The validators of the bound properties are `requires` clauses.
* **`ColorConversion` in the WinUI files.** The WinUI spectrum calls `ColorConversion.RgbToHsv`, `HsvToRgb` and `ColorFromRgba`. That file is not part of this model, so the same functions as the Avalonia `ColorHelpers` stand in for them.
* **What the channel sliders read.** The slider reads the picker's internal `CurrentHsv` property (src/Avalonia.ColorPicker/ColorPicker.Properties.cs:235), and no code of the picker ever assigns it. The model keeps this: `Picker.ColorPicker.currentHsvProperty` stays at its default, black.
  * A small step does not depend on that colour (`Slider.SmallStepIgnoresColor`).
  * A large step searches names from black plus the slider's own channel.

## Model

| member | source | states |
|---|---|---|
| `ColorSpace.RoundHalfEven` | src/AvaloniaWinUI.ColorPicker/ColorSpectrum.cs:449-451 | the result is within 1/2 of x, and an exact half goes to the even neighbour |
| `ColorSpace.TruncateToByte` | src/Avalonia.ColorPicker/ColorHelpers.cs:573-580 | the byte is the whole part of 255·x, and it is 255 exactly when x is 1 |
| `ColorSpace.RoundToByte` | src/Avalonia.ColorPicker/ColorPicker.cs:514-524 | the byte is within 1/2 of 255·x |
| `ColorSpace.RgbToHsv` | src/Avalonia.ColorPicker/ColorHelpers.cs:166-253 | value is the largest channel; grey gives hue 0 and saturation 0; otherwise hue lies in [0, 360), saturation in (0, 1], and saturation × value is the chroma |
| `ColorSpace.Hue` | src/Avalonia.ColorPicker/ColorHelpers.cs:208-240 | the hue of a non-grey colour lies in [0, 360) |
| `ColorSpace.Saturation` | src/Avalonia.ColorPicker/ColorHelpers.cs:246-250 | saturation lies in (0, 1], and saturation × value is the chroma |
| `ColorSpace.HueBounds` | src/Avalonia.ColorPicker/ColorHelpers.cs:208-233 | the channel difference over chroma in each hue branch lies in [−1, 1], so each branch stays in its 120-degree sector |
| `ColorSpace.NormalizeHue` | src/Avalonia.ColorPicker/ColorHelpers.cs:467-475 | the result lies in [0, 360), and a hue already there is unchanged |
| `ColorSpace.NormalizeHueUnique` | src/Avalonia.ColorPicker/ColorHelpers.cs:467-475 | any value in [0, 360) that differs from h by whole turns is the normalised hue |
| `ColorSpace.WrapHue` | src/Avalonia.ColorPicker/ColorHelpers.cs:461-475 | the two while loops compute the normalised hue |
| `ColorSpace.Clamp01` | src/Avalonia.ColorPicker/ColorHelpers.cs:478-482 | the result is x clamped into [0, 1] |
| `ColorSpace.Sextant` | src/Avalonia.ColorPicker/ColorHelpers.cs:528-530 | the sextant index k is 0 to 5, with k ≤ hue/60 < k + 1 |
| `ColorSpace.HsvToRgb` | src/Avalonia.ColorPicker/ColorHelpers.cs:459-571 | every channel lies in [0, 1]; the largest is the clamped value, the smallest is that minus the chroma, and zero chroma gives grey |
| `ColorSpace.Chroma` | src/Avalonia.ColorPicker/ColorHelpers.cs:493-494 | chroma lies between 0 and the clamped value |
| `ColorSpace.SextantTable` | src/Avalonia.ColorPicker/ColorHelpers.cs:536-568 | every row has the given extremes as its largest and smallest channels |
| `ColorSpace.Lerp` | src/Avalonia.ColorPicker/ColorHelpers.cs:540-566 | the blended channel lies between min and min + chroma |
| `ColorSpace.ColorFromRgba` | src/Avalonia.ColorPicker/ColorHelpers.cs:573-580 | each byte, alpha included, is the whole part of 255 times its channel |
| `ColorSpace.RgbOfColor` | src/Avalonia.ColorPicker/ColorPicker.cs:328-331 | the colour lies in the unit cube |
| `ColorSpace.Raised` | src/Avalonia.ColorPicker/ColorPicker.cs:338-348 | one `ColorChanged` event carrying both colours, exactly when they differ in some byte |
| `ColorRoundTrip.RgbHsvRoundTrip` | src/Avalonia.ColorPicker/ColorHelpers.cs:166-571 | HsvToRgb(RgbToHsv(c)) == c for every colour in the unit cube |
| `ColorRoundTrip.ChromaInUnitRange` | src/Avalonia.ColorPicker/ColorHelpers.cs:478-494 | for saturation and value in [0, 1], clamping leaves the value alone and chroma is saturation × value |
| `ColorRoundTrip.Converted` | src/Avalonia.ColorPicker/ColorHelpers.cs:183-249 | a non-grey colour in the unit cube converts to hue in [0, 360), saturation and value in (0, 1], value the largest channel and saturation × value the chroma |
| `ColorRoundTrip.RowOfConverted` | src/Avalonia.ColorPicker/ColorHelpers.cs:166-249 | a non-grey colour converts to an HSV whose sextant row is the colour again |
| `ColorRoundTrip.RedHue` | src/Avalonia.ColorPicker/ColorHelpers.cs:208-219 | with red largest, the hue is 60 × (g − b)/chroma, plus 360 when blue is above green |
| `ColorRoundTrip.GreenHue` | src/Avalonia.ColorPicker/ColorHelpers.cs:220-226 | with green largest, the hue is 120 + 60 × (b − r)/chroma |
| `ColorRoundTrip.BlueHue` | src/Avalonia.ColorPicker/ColorHelpers.cs:227-233 | with blue largest, the hue is 240 + 60 × (r − g)/chroma |
| `ColorRoundTrip.RowRedRising` | src/Avalonia.ColorPicker/ColorHelpers.cs:538-542 | red largest and green at least blue: sextant 0 gives the colour back |
| `ColorRoundTrip.RowGreenFalling` | src/Avalonia.ColorPicker/ColorHelpers.cs:543-547 | green largest and blue below red: sextant 1 gives the colour back |
| `ColorRoundTrip.RowGreenRising` | src/Avalonia.ColorPicker/ColorHelpers.cs:548-552 | green largest and red at most blue: sextant 2 gives the colour back |
| `ColorRoundTrip.RowBlueFalling` | src/Avalonia.ColorPicker/ColorHelpers.cs:553-557 | blue largest and red below green: sextant 3 gives the colour back |
| `ColorRoundTrip.RowBlueRising` | src/Avalonia.ColorPicker/ColorHelpers.cs:558-562 | blue largest and green at most red: sextant 4 gives the colour back |
| `ColorRoundTrip.RowRedFalling` | src/Avalonia.ColorPicker/ColorHelpers.cs:563-567 | red largest and blue above green: sextant 5 gives the colour back |
| `ColorRoundTrip.TableRedRising` | src/Avalonia.ColorPicker/ColorHelpers.cs:528-542 | for hue 60 × (g − b)/chroma the sextant is 0, the fraction lies in [0, 1), and the table row is the colour |
| `ColorRoundTrip.TableGreenFalling` | src/Avalonia.ColorPicker/ColorHelpers.cs:528-547 | for the green-largest hue below 120 the sextant and fraction are in range and the table row is the colour |
| `ColorRoundTrip.TableGreenRising` | src/Avalonia.ColorPicker/ColorHelpers.cs:528-552 | for the green-largest hue at or above 120 the sextant and fraction are in range and the table row is the colour |
| `ColorRoundTrip.TableBlueFalling` | src/Avalonia.ColorPicker/ColorHelpers.cs:528-557 | for the blue-largest hue below 240 the sextant and fraction are in range and the table row is the colour |
| `ColorRoundTrip.TableBlueRising` | src/Avalonia.ColorPicker/ColorHelpers.cs:528-562 | for the blue-largest hue at or above 240 the sextant and fraction are in range and the table row is the colour |
| `ColorRoundTrip.TableRedFalling` | src/Avalonia.ColorPicker/ColorHelpers.cs:528-567 | for the wrapped red-largest hue the sextant is 5, the fraction lies in [0, 1), and the table row is the colour |
| `ColorRoundTrip.HsvRgbRoundTrip` | src/Avalonia.ColorPicker/ColorHelpers.cs:166-571 | RgbToHsv(HsvToRgb(hsv)) == hsv for hue in [0, 360) and saturation and value in (0, 1] |
| `ColorRoundTrip.Compose` | src/Avalonia.ColorPicker/ColorHelpers.cs:166-571 | a conversion to a non-negative colour that converts back gives the round trip |
| `ColorRoundTrip.TableRow` | src/Avalonia.ColorPicker/ColorHelpers.cs:486-571 | off the grey axis, HsvToRgb is the sextant row of its hue |
| `ColorRoundTrip.RowBack` | src/Avalonia.ColorPicker/ColorHelpers.cs:166-253 | the sextant row is non-negative and converts back to the HSV it came from |
| `ColorRoundTrip.RowValueAndSaturation` | src/Avalonia.ColorPicker/ColorHelpers.cs:183-250 | the sextant row converts back with the original value and saturation |
| `ColorRoundTrip.RowHue` | src/Avalonia.ColorPicker/ColorHelpers.cs:204-240 | the sextant row converts back with the original hue |
| `ColorRoundTrip.RowTable` | src/Avalonia.ColorPicker/ColorHelpers.cs:486-568 | the sextant lies in 0 to 5, the fraction in [0, 1), the chroma is positive and the minimum non-negative |
| `ColorRoundTrip.RowChannels` | src/Avalonia.ColorPicker/ColorHelpers.cs:536-568 | the sextant row is non-negative and not grey, its largest channel is the value and its smallest the value minus the chroma |
| `ColorRoundTrip.ValueAndSaturationOf` | src/Avalonia.ColorPicker/ColorHelpers.cs:183-250 | a colour with largest channel v and spread s × v converts to value v and saturation s |
| `ColorRoundTrip.SpreadOfConverted` | src/Avalonia.ColorPicker/ColorHelpers.cs:183-250 | the converted value is the largest channel, and saturation × value is the spread |
| `ColorRoundTrip.SextantHue` | src/Avalonia.ColorPicker/ColorHelpers.cs:208-240 | each sextant row is non-negative and converts back to hue 60 × (sextant + fraction) |
| `ColorRoundTrip.QuantiseColorRoundTrip` | src/Avalonia.ColorPicker/ColorPicker.cs:328-333 | a byte colour divided by 255 and truncated back gives the same bytes |
| `ChannelIncrement.With` | src/Avalonia.ColorPicker/ColorHelpers.cs:99-125 | the chosen channel takes the new value and no other channel changes |
| `ChannelIncrement.BoundSmallStep` | src/Avalonia.ColorPicker/ColorHelpers.cs:127-142 | a step inside the bounds is kept; a step past a bound stops on it, or jumps to the other bound when wrapping from that bound |
| `ChannelIncrement.SmallIncrement` | src/Avalonia.ColorPicker/ColorHelpers.cs:92-147 | the channel moves one degree or percent when that stays in bounds, and always ends within them; other channels are unchanged |
| `ChannelIncrement.StepOf` | src/Avalonia.ColorPicker/ColorHelpers.cs:279-301 | the search step is 1 (degree) or 0.01 (a percent as a fraction) |
| `ChannelIncrement.WrapIncrementOf` | src/Avalonia.ColorPicker/ColorHelpers.cs:371-393 | the wrap increment is at least 1 |
| `ChannelIncrement.Depart` | src/Avalonia.ColorPicker/ColorHelpers.cs:305-357 | when the first loop finds a new name, that name differs from the starting colour's |
| `ChannelIncrement.Land` | src/Avalonia.ColorPicker/ColorHelpers.cs:346-356 | when one step lands on a new name, that name differs from the starting colour's |
| `ChannelIncrement.Cross` | src/Avalonia.ColorPicker/ColorHelpers.cs:395-430 | without wrapping, the second loop never changes the wrap offset |
| `ChannelIncrement.Reach` | src/Avalonia.ColorPicker/ColorHelpers.cs:402-429 | without wrapping, one step of the second loop keeps the wrap offset |
| `ChannelIncrement.StepRemainder` | src/Avalonia.ColorPicker/ColorHelpers.cs:436-443 | intended: the remainder lies in [0, step) and is at most x |
| `ChannelIncrement.StepRemainderAsWritten` | src/Avalonia.ColorPicker/ColorHelpers.cs:436-443 | as written: the remainder lies in [0, step], a whole step included, and is at most x |
| `ChannelIncrement.RaiseTo` | src/Avalonia.ColorPicker/ColorHelpers.cs:445-448 | the result is at least the bound, a value already there is kept, and a raised one ends less than one increment above the bound |
| `ChannelIncrement.LowerTo` | src/Avalonia.ColorPicker/ColorHelpers.cs:450-453 | the result is at most the bound, a value already there is kept, and a lowered one ends less than one increment below the bound |
| `ChannelIncrement.Midpoint` | src/Avalonia.ColorPicker/ColorHelpers.cs:432-454 | corrected (see Findings): the snapped midpoint is at most the maximum, and when the middle is at least one step above the minimum it lies in (middle − step, middle] |
| `ChannelIncrement.MidpointAsWritten` | src/Avalonia.ColorPicker/ColorHelpers.cs:432-454 | as written: at most the maximum, and within [middle − step, middle], a whole step below included |
| `ChannelIncrement.NextNamedColor` | src/Avalonia.ColorPicker/ColorHelpers.cs:255-457 | corrected (see Findings): a found colour differs from the start only in the searched channel |
| `ChannelIncrement.FindNextNamedColor` | src/Avalonia.ColorPicker/ColorHelpers.cs:255-302 | corrected (see Findings): the loops compute `NextNamedColor` |
| `ChannelIncrement.WalkToNewName` | src/Avalonia.ColorPicker/ColorHelpers.cs:303-357 | the loop computes `Depart` |
| `ChannelIncrement.WalkAcrossName` | src/Avalonia.ColorPicker/ColorHelpers.cs:359-430 | the loop computes `Cross` |
| `ChannelIncrement.SnapToMidpoint` | src/Avalonia.ColorPicker/ColorHelpers.cs:432-454 | corrected (see Findings): the last three loops compute `Midpoint` |
| `ChannelIncrement.IncrementedColor` | src/Avalonia.ColorPicker/ColorHelpers.cs:81-164 | corrected (see Findings): alpha is refused as not supported; a result changes only the stepped channel; a small step ends within the bounds |
| `ChannelIncrement.IncrementColorChannel` | src/Avalonia.ColorPicker/ColorHelpers.cs:148-164 | corrected (see Findings): the method returns `IncrementedColor` |
| `ChannelIncrement.Ceiling` | src/Avalonia.ColorPicker/ColorHelpers.cs:602-605 | the least integer at or above x |
| `ChannelIncrement.DecadeAbove` | src/Avalonia.ColorPicker/ColorHelpers.cs:606-609 | a multiple of 10 above x, at most 10 above it |
| `ChannelIncrement.DecadeBelow` | src/Avalonia.ColorPicker/ColorHelpers.cs:602-605 | a multiple of 10 below x, at most 10 below it |
| `ChannelIncrement.IncrementAlphaChannel` | src/Avalonia.ColorPicker/ColorHelpers.cs:582-626 | the percent steps by ±1 or to the next decade; a step within the bounds is kept, and one past a bound stops on it, or on the other bound when wrapping; with ordered bounds the result always lies within them |
| `ChannelIncrementProperties.GridValueHasNoRemainder` | src/Avalonia.ColorPicker/ColorHelpers.cs:436-443 | a whole number of steps leaves remainder 0 |
| `ChannelIncrementProperties.AsWrittenGridValueLosesAStep` | src/Avalonia.ColorPicker/ColorHelpers.cs:438-443 | as written, a whole number of steps leaves a remainder of one whole step |
| `ChannelIncrementProperties.SnapKeepsGridFloor` | src/Avalonia.ColorPicker/ColorHelpers.cs:432-443 | snapping never moves a value below any grid point at or below it |
| `ChannelIncrementProperties.DepartStaysInBounds` | src/Avalonia.ColorPicker/ColorHelpers.cs:315-344 | the first loop's stopping point lies within the bounds |
| `ChannelIncrementProperties.CrossStaysInBounds` | src/Avalonia.ColorPicker/ColorHelpers.cs:402-427 | without wrapping, the second loop's end lies within the bounds and its offset is 0 |
| `ChannelIncrementProperties.LargeStepStaysInBounds` | src/Avalonia.ColorPicker/ColorHelpers.cs:148-161 | without wrapping and with the minimum on the step grid, a finished search lands within the bounds |
| `ChannelIncrementProperties.DepartStopsOnBound` | src/Avalonia.ColorPicker/ColorHelpers.cs:305-357 | without wrapping, a first phase that moves away from the start and stops without a new name stops exactly on the minimum or the maximum |
| `ChannelIncrementProperties.LargeStepStopsOnBound` | src/Avalonia.ColorPicker/ColorHelpers.cs:255-357 | without wrapping, a large step whose first phase hits a bound returns the colour with the channel on that bound, with no midpoint step |
| `ChannelIncrementProperties.AsWrittenLargeStepLeavesBounds` | src/Avalonia.ColorPicker/ColorHelpers.cs:432-453 | hue 11 stepped down with bounds [10, 359] and a new name at 10: the as-written midpoint is 9, the corrected one 10 |
| `ChannelIncrementProperties.PinnedSearchNeverEnds` | src/Avalonia.ColorPicker/ColorHelpers.cs:305-357 | with wrapping on and the range pinned to the start, the search never finishes, whatever the fuel |
| `ChannelIncrementProperties.SmallStepWrapsOnlyFromBound` | src/Avalonia.ColorPicker/ColorHelpers.cs:134-142 | a small step past the maximum wraps to the minimum only when it starts on the maximum; otherwise it stops on the maximum |
| `Checkerboard.Premultiply` | src/Avalonia.ColorPicker/ColorHelpers.cs:688-691 | the scaled channel is at most both the channel and alpha, and full alpha keeps the channel |
| `Checkerboard.CheckerPixel` | src/Avalonia.ColorPicker/ColorHelpers.cs:674-692 | a pixel in a blank square is transparent black; otherwise it is the premultiplied checker colour in BGRA |
| `Checkerboard.PixelOffset` | src/Avalonia.ColorPicker/ColorHelpers.cs:658-694 | pixel (x, y)'s four bytes lie inside the buffer |
| `Checkerboard.CreateCheckeredBackground` | src/Avalonia.ColorPicker/ColorHelpers.cs:640-705 | nothing iff the size is zero or the request is cancelled; otherwise 4·w·h bytes with every pixel's bytes at its offset |
| `Checkerboard.FillCheckers` | src/Avalonia.ColorPicker/ColorHelpers.cs:656-695 | when not cancelled, the nested loops build every row of the backdrop |
| `Checkerboard.RowLength` | src/Avalonia.ColorPicker/ColorHelpers.cs:662-693 | a row of n pixels is 4·n bytes |
| `Checkerboard.RowsLength` | src/Avalonia.ColorPicker/ColorHelpers.cs:658-694 | n rows are 4·n·width bytes |
| `Checkerboard.RowLayout` | src/Avalonia.ColorPicker/ColorHelpers.cs:662-692 | pixel x of a row is bytes 4x to 4x + 3 |
| `Checkerboard.RowsLayout` | src/Avalonia.ColorPicker/ColorHelpers.cs:660-694 | pixel (x, y) of the backdrop is `CheckerPixel(x, y)` at `PixelOffset` |
| `PickerText.HexDigit` | src/Avalonia.ColorPicker/ColorPicker.cs:962-966 | a lower-case hex digit |
| `PickerText.DigitValue` | src/Avalonia.ColorPicker/ColorPicker.cs:923-926 | a digit in either case reads back as its value; any other character is rejected |
| `PickerText.ToUint32` | src/Avalonia.ColorPicker/ColorPicker.cs:962-966 | the packed value is below 2^32, with alpha as its top byte and blue as its bottom byte |
| `PickerText.HexDigitsOf` | src/Avalonia.ColorPicker/ColorPicker.cs:962-966 | exactly count lower-case hex digits |
| `PickerText.ByteHex` | src/Avalonia.ColorPicker/ColorPicker.cs:962-966 | two characters |
| `PickerText.HexValue` | src/Avalonia.ColorPicker/ColorPicker.cs:960-968 | "#" then 8 characters when alpha is enabled, else 6 |
| `PickerText.HexValueLayout` | src/Avalonia.ColorPicker/ColorPicker.cs:960-968 | the string is "#" and the digits of A (only with alpha), R, G and B |
| `PickerText.HexDigitsOfColor` | src/Avalonia.ColorPicker/ColorPicker.cs:962 | the eight digits of the packed colour are its bytes' digits in A, R, G, B order |
| `PickerText.ParseByte` | src/Avalonia.ColorPicker/ColorPicker.cs:923-926 | parses iff both characters are hex digits |
| `PickerText.ParseHex` | src/Avalonia.ColorPicker/ColorPicker.cs:923-939 | only 9- or 7-character strings starting with "#" parse, and the 7-character form is opaque |
| `PickerText.ParseByteHex` | src/Avalonia.ColorPicker/ColorPicker.cs:923-926 | a byte's two digits parse back to the byte |
| `PickerText.HexValueRoundTrip` | src/Avalonia.ColorPicker/ColorPicker.cs:923-968 | parsing the hex string gives the colour back (made opaque when alpha is hidden) |
| `PickerText.HexValueInjective` | src/Avalonia.ColorPicker/ColorPicker.cs:960-968 | with alpha shown, different colours give different strings |
| `PickerText.ClampLowFirst` | src/Avalonia.ColorPicker/ColorPicker.cs:979-983 | within ordered bounds, the result lies inside them and x inside them is kept; crossed bounds give the upper bound |
| `PickerText.ClampHighFirst` | src/Avalonia.ColorPicker/ColorPicker.cs:373 | within ordered bounds, the result lies inside them and x inside them is kept; crossed bounds give the lower bound |
| `PickerText.ConstrainHsv` | src/Avalonia.ColorPicker/ColorPicker.cs:976-983 | each channel lies within its ordered bounds, and a colour inside all of them is unchanged |
| `PickerText.ApplyConstraints` | src/Avalonia.ColorPicker/ColorPicker.cs:970-986 | the result lies in the unit cube, and its value (largest channel) lies within the value bounds |
| `PickerText.ApplyConstraintsYieldsClampedHsv` | src/Avalonia.ColorPicker/ColorPicker.cs:970-986 | converted back, the constrained colour has the clamped value, and off the grey axis the clamped hue and saturation too |
| `PickerText.ApplyConstraintsKeepsColorInBounds` | src/Avalonia.ColorPicker/ColorPicker.cs:970-986 | a colour whose HSV form is already inside the bounds passes unchanged |
| `PickerText.WithPercent` | src/Avalonia.ColorPicker/ColorPicker.cs:876-880 | the text ends in "%"; text that already did is unchanged; otherwise "%" is appended |
| `PickerText.PercentNumber` | src/Avalonia.ColorPicker/ColorPicker.cs:884-886 | one character shorter than the text with "%" added |
| `PickerText.WithPercentIdempotent` | src/Avalonia.ColorPicker/ColorPicker.cs:876-880 | adding "%" twice is adding it once, and the parsed part stays the same |
| `PickerText.WithHash` | src/Avalonia.ColorPicker/ColorPicker.cs:913-918 | the text starts with "#"; text that already did is unchanged; otherwise "#" is prepended |
| `PickerText.WithHashKeepsHexValue` | src/Avalonia.ColorPicker/ColorPicker.cs:913-918 | the picker's own hex string is left alone |
| `PickerText.StopColor` | src/Avalonia.ColorPicker/ColorPicker.cs:1207-1219 | each byte is within 1/2 of 255 times the converted channel |
| `PickerText.SextantStop` | src/Avalonia.ColorPicker/ColorPicker.cs:1076-1084 | the stop of an inside sextant boundary has its offset strictly inside (0, 1) |
| `PickerText.TopHue` | src/Avalonia.ColorPicker/ColorPicker.cs:1061-1064 | at least minHue, and maxHue when the bounds increase |
| `PickerText.HueGradientStops` | src/Avalonia.ColorPicker/ColorPicker.cs:1049-1088 | the loop builds the stops for min, every sextant boundary strictly inside, then max |
| `PickerText.SextantStopsShape` | src/Avalonia.ColorPicker/ColorPicker.cs:1076-1084 | every inside boundary gets a stop, every offset lies strictly in (0, 1), and offsets increase |
| `PickerText.NoSextantStops` | src/Avalonia.ColorPicker/ColorPicker.cs:1076-1084 | a range whose ends do not increase adds no stops |
| `PickerText.HueGradientShape` | src/Avalonia.ColorPicker/ColorPicker.cs:1049-1088 | at least two stops: minHue at offset 0 first, the top hue at offset 1 last, and increasing offsets |
| `PickerText.HueGradient` | src/Avalonia.ColorPicker/ColorPicker.cs:1049-1088 | two to seven stops, the first for minHue at offset 0 and the last for the top hue at offset 1 |
| `PickerText.FullHueRangeHasSevenStops` | src/Avalonia.ColorPicker/ColorPicker.cs:1066-1086 | the default bounds give seven stops |
| `PickerText.PinnedHueRangeHasTwoStops` | src/Avalonia.ColorPicker/ColorPicker.cs:1061-1068 | crossed or equal bounds give just the two end stops, both showing minHue |
| `Picker.Refreshed` | src/Avalonia.ColorPicker/ColorPicker.cs:508-563 | every box group except the one that caused the update shows the current values (bytes and percents within 1/2); that group is left as it was |
| `Picker.ColorPicker.constructor` | src/Avalonia.ColorPicker/ColorPicker.cs:31-36 | white, HSV (0, 1, 1), hex "#FFFFFFFF", alpha 1, bounds 0–359 and 0–100 |
| `Picker.ColorPicker.SetColor` | src/Avalonia.ColorPicker/ColorPicker.Properties.cs:229-233 | the colour is stored and one event is raised iff it differs; a different colour, unless the picker is updating, re-derives RGB and alpha; the same colour changes nothing else |
| `Picker.ColorPicker.OnColorChanged` | src/Avalonia.ColorPicker/ColorPicker.cs:322-349 | unless the picker is updating, RGB and alpha follow the new colour and the state is valid; one event is raised iff the colour changed |
| `Picker.ColorPicker.InitializeColor` | src/Avalonia.ColorPicker/ColorPicker.cs:407-417 | RGB and alpha are re-derived from `Color`, which, like the events, does not change |
| `Picker.ColorPicker.UpdateColorRgb` | src/Avalonia.ColorPicker/ColorPicker.cs:419-426 | HSV follows the new RGB, alpha stays, `Color` is the quantised colour, and one event is raised iff it changed |
| `Picker.ColorPicker.UpdateColorHsv` | src/Avalonia.ColorPicker/ColorPicker.cs:428-435 | RGB follows the new HSV, alpha stays, `Color` is the quantised colour, and one event is raised iff it changed |
| `Picker.ColorPicker.UpdateColorAlpha` | src/Avalonia.ColorPicker/ColorPicker.cs:437-443 | RGB and HSV stay, and `Color` is the quantised colour with the new alpha |
| `Picker.ColorPicker.SetColorAndUpdateControls` | src/Avalonia.ColorPicker/ColorPicker.cs:445-453 | `Color` becomes the quantised colour without re-deriving RGB, HSV or alpha |
| `Picker.ColorPicker.UpdateColorControls` | src/Avalonia.ColorPicker/ColorPicker.cs:472-585 | the boxes become `Refreshed`, and the colour state is unchanged |
| `Picker.ColorPicker.OnIsAlphaEnabledChanged` | src/Avalonia.ColorPicker/ColorPicker.cs:356-366 | the hex string and box follow the new setting; the colour is unchanged |
| `Picker.ColorPicker.OnMinMaxHueChanged` | src/Avalonia.ColorPicker/ColorPicker.cs:368-377 | the hue is clamped (lower bound winning when they cross) and lies within ordered bounds; alpha stays |
| `Picker.ColorPicker.OnMinMaxSaturationChanged` | src/Avalonia.ColorPicker/ColorPicker.cs:379-388 | the saturation is clamped into the new percent bounds; alpha stays |
| `Picker.ColorPicker.OnMinMaxValueChanged` | src/Avalonia.ColorPicker/ColorPicker.cs:390-399 | the value is clamped into the new percent bounds; alpha stays |
| `Picker.ColorPicker.OnRgbTextChanging` | src/Avalonia.ColorPicker/ColorPicker.cs:749-774 | the typed text is accepted iff it parses to 0–255; then RGB becomes the three boxes' colour with the bounds applied; otherwise nothing changes |
| `Picker.ColorPicker.OnHsvTextChanging` | src/Avalonia.ColorPicker/ColorPicker.cs:776-855 | the typed text is accepted iff it parses within its channel's bounds; then HSV becomes the three boxes' values; otherwise nothing changes |
| `Picker.ColorPicker.HsvTextBounds` | src/Avalonia.ColorPicker/ColorPicker.cs:789-846 | with valid bounds, the accepted range starts at 0 or above and ends at 359 for hue, 100 otherwise |
| `Picker.ColorPicker.OnAlphaTextChanging` | src/Avalonia.ColorPicker/ColorPicker.cs:857-896 | "%" is appended; the text is accepted iff it parses to 0–100, which becomes alpha; otherwise nothing changes |
| `Picker.ColorPicker.OnHexTextChanging` | src/Avalonia.ColorPicker/ColorPicker.cs:898-940 | "#" is prepended; a parsed colour sets RGB (bounded) and alpha (opaque when alpha is disabled), with the events of both writes; otherwise nothing changes |
| `SpectrumComponents.FirstNamed` | src/AvaloniaWinUI.ColorPicker/ColorSpectrum.cs:143-162 | an HSV channel |
| `SpectrumComponents.SecondNamed` | src/AvaloniaWinUI.ColorPicker/ColorSpectrum.cs:164-184 | an HSV channel other than the first-named one |
| `SpectrumComponents.ThirdDimension` | src/AvaloniaWinUI.ColorPicker/ColorSpectrum.cs:475-494 | the HSV channel distinct from both named ones |
| `SpectrumComponents.ArrowChannel` | src/AvaloniaWinUI.ColorPicker/ColorSpectrum.cs:141-184 | left/right step the first-named channel and up/down the second |
| `SpectrumComponents.ArrowDirection` | src/AvaloniaWinUI.ColorPicker/ColorSpectrum.cs:210-214 | hue steps down on left and up; saturation and value step down on right and down |
| `SpectrumComponents.KeyBounds` | src/AvaloniaWinUI.ColorPicker/ColorSpectrum.cs:186-204 | the channel's bound properties as a pair |
| `SpectrumComponents.ArrowStep` | src/AvaloniaWinUI.ColorPicker/ColorSpectrum.cs:128-219 | the channel by axis, the direction by channel and key, a large step iff control is down, and that channel's bounds (the step always wraps) |
| `SpectrumComponents.OppositeArrowKeys` | src/AvaloniaWinUI.ColorPicker/ColorSpectrum.cs:141-216 | the two keys of an axis step the same channel by the same amount within the same bounds in opposite directions; the two axes step different channels |
| `SpectrumComponents.Truncate` | src/AvaloniaWinUI.ColorPicker/ColorSpectrum.cs:1302 | the floor for non-negative x, minus the floor of −x otherwise |
| `SpectrumComponents.HueBlend` | src/AvaloniaWinUI.ColorPicker/ColorSpectrum.cs:1302-1335 | two neighbouring hue bitmaps; for a hue in [0, 360) the lower is its sextant and 60·(sextant + opacity) is the hue |
| `SpectrumComponents.BitmapSources` | src/AvaloniaWinUI.ColorPicker/ColorSpectrum.cs:1224-1342 | saturation extremes blended by saturation, the value bitmap opaque, or `HueBlend` of the hue, by the unspanned channel |
| `SpectrumMap.Pinned` | src/AvaloniaWinUI.ColorPicker/ColorSpectrum.cs:779-792 | the result is ordered, keeps every minimum, pins a non-increasing range to its minimum, and leaves ordered bounds alone |
| `SpectrumMap.Percent` | src/AvaloniaWinUI.ColorPicker/ColorSpectrum.cs:930-931 | 1 − i/(n−1): 1 at pixel 0, 0 at the last pixel, within [0, 1] |
| `SpectrumMap.Axis` | src/AvaloniaWinUI.ColorPicker/ColorSpectrum.cs:936-938 | for p in [0, 1], the point lies between lo and hi |
| `SpectrumMap.Offset` | src/AvaloniaWinUI.ColorPicker/ColorSpectrum.cs:957-958 | for p in [0, 1] and d ≥ 0, the point lies between lo and lo + d |
| `SpectrumMap.MirroredChannel` | src/AvaloniaWinUI.ColorPicker/ColorSpectrum.cs:992-1010 | one of the named channels, and saturation or value, never hue |
| `SpectrumMap.Mirror` | src/AvaloniaWinUI.ColorPicker/ColorSpectrum.cs:992-1010 | only that channel changes, and a channel within its range stays within it |
| `SpectrumMap.ThirdSetting` | src/AvaloniaWinUI.ColorPicker/ColorSpectrum.cs:923-983 | only the unspanned channel differs from the current colour |
| `SpectrumMap.Spanned` | src/AvaloniaWinUI.ColorPicker/ColorSpectrum.cs:930-983 | with ordered bounds both spanned channels lie within them, and the unspanned one is the layer's setting |
| `SpectrumMap.BoxLayer` | src/AvaloniaWinUI.ColorPicker/ColorSpectrum.cs:914-1010 | with ordered bounds both spanned channels lie within them, after mirroring, and the unspanned one is the layer's setting |
| `SpectrumMap.LayersShareAxes` | src/AvaloniaWinUI.ColorPicker/ColorSpectrum.cs:933-1010 | all layers of a pixel agree on the two spanned channels |
| `SpectrumMap.BoxCorners` | src/AvaloniaWinUI.ColorPicker/ColorSpectrum.cs:930-1010 | pixel (0, 0) holds the top of the unmirrored channel's range and the bottom of the mirrored one's |
| `SpectrumMap.LayerIgnoresThirdBounds` | src/AvaloniaWinUI.ColorPicker/ColorSpectrum.cs:914-1010 | the range of the unspanned channel plays no part in a pixel |
| `SpectrumMap.Bgra` | src/AvaloniaWinUI.ColorPicker/ColorSpectrum.cs:1014-1018 | four bytes, the last 255 |
| `SpectrumMap.PixelBuffers.constructor` | src/AvaloniaWinUI.ColorPicker/ColorSpectrum.cs:798-804 | the map and the six bitmaps start empty |
| `SpectrumMap.SpanPixel` | src/AvaloniaWinUI.ColorPicker/ColorSpectrum.cs:933-983 | the switch sets the six layers to `Spanned` |
| `SpectrumMap.SpanHueValue` | src/AvaloniaWinUI.ColorPicker/ColorSpectrum.cs:935-940 | the HueValue arm gives `Spanned` |
| `SpectrumMap.SpanHueSaturation` | src/AvaloniaWinUI.ColorPicker/ColorSpectrum.cs:942-947 | the HueSaturation arm gives `Spanned` |
| `SpectrumMap.SpanValueHue` | src/AvaloniaWinUI.ColorPicker/ColorSpectrum.cs:949-954 | the ValueHue arm gives `Spanned` |
| `SpectrumMap.SpanValueSaturation` | src/AvaloniaWinUI.ColorPicker/ColorSpectrum.cs:956-965 | the ValueSaturation arm gives `Spanned` |
| `SpectrumMap.SpanSaturationHue` | src/AvaloniaWinUI.ColorPicker/ColorSpectrum.cs:967-972 | the SaturationHue arm gives `Spanned` |
| `SpectrumMap.SpanSaturationValue` | src/AvaloniaWinUI.ColorPicker/ColorSpectrum.cs:974-983 | the SaturationValue arm gives `Spanned` |
| `SpectrumMap.BoxPixel` | src/AvaloniaWinUI.ColorPicker/ColorSpectrum.cs:914-1010 | the six layers of pixel (x, y) are `BoxLayer` |
| `SpectrumMap.FillPixelForBox` | src/AvaloniaWinUI.ColorPicker/ColorSpectrum.cs:914-1054 | appends layer 0 to the map, and each kept layer's bytes to its bitmap |
| `SpectrumMap.PixelX` | src/AvaloniaWinUI.ColorPicker/ColorSpectrum.cs:840-842 | the column of entry j is within the box |
| `SpectrumMap.PixelY` | src/AvaloniaWinUI.ColorPicker/ColorSpectrum.cs:844-846 | the row of entry j is within the box |
| `SpectrumMap.EntryIndex` | src/AvaloniaWinUI.ColorPicker/ColorSpectrum.cs:840-852 | entry k of a column lies within the map and divides back into that column and k |
| `SpectrumMap.MapLayer` | src/AvaloniaWinUI.ColorPicker/ColorSpectrum.cs:840-852 | one entry per filled pixel |
| `SpectrumMap.Pixels` | src/AvaloniaWinUI.ColorPicker/ColorSpectrum.cs:1012-1053 | four bytes per colour |
| `SpectrumMap.PixelsAt` | src/AvaloniaWinUI.ColorPicker/ColorSpectrum.cs:1014-1018 | bytes 4j to 4j + 3 of a bitmap are colour j's `Bgra` |
| `SpectrumMap.LayerStep` | src/AvaloniaWinUI.ColorPicker/ColorSpectrum.cs:846-849 | filling pixel j extends each layer and its bytes by that pixel |
| `SpectrumMap.FillBox` | src/AvaloniaWinUI.ColorPicker/ColorSpectrum.cs:840-852 | the two loops fill the whole map: all n² entries of layer 0 and each kept layer's bytes |
| `SpectrumMap.FillColumn` | src/AvaloniaWinUI.ColorPicker/ColorSpectrum.cs:844-851 | the inner loop fills one more column |
| `SpectrumMap.FillEntry` | src/AvaloniaWinUI.ColorPicker/ColorSpectrum.cs:846-849 | one pass fills the next entry |
| `SpectrumMap.MapIgnoresThirdBounds` | src/AvaloniaWinUI.ColorPicker/ColorSpectrum.cs:344-381 | changing only the unspanned channel's range leaves every layer of the map unchanged |
| `SpectrumMap.LayerIgnoresBase` | src/AvaloniaWinUI.ColorPicker/ColorSpectrum.cs:923-983 | kept layers fix the third channel themselves, so they ignore the current colour |
| `SpectrumMap.MapIgnoresBase` | src/AvaloniaWinUI.ColorPicker/ColorSpectrum.cs:875-895 | a kept layer of the map is the same whatever the current colour |
| `Spectrum.HsvColorOf` | src/AvaloniaWinUI.ColorPicker/ColorSpectrum.cs:286-289 | HSV within range that converts back to the colour's RGB, with alpha/255 in the fourth slot |
| `Spectrum.ColorOfHsvColor` | src/AvaloniaWinUI.ColorPicker/ColorSpectrum.cs:307-315 | intended: alpha is the whole part of 255 times the fourth slot |
| `Spectrum.ColorOfHsvColorAsWritten` | src/AvaloniaWinUI.ColorPicker/ColorSpectrum.cs:313-315 | as written: alpha is taken from the value slot Z; the RGB bytes agree with the intended colour |
| `Spectrum.DefaultIsWhite` | src/AvaloniaWinUI.ColorPicker/ColorSpectrum.Properties.cs:131-139 | the default `HsvColor` (0, 0, 1, 1) is the default colour, opaque white |
| `Spectrum.HsvColorRoundTrip` | src/AvaloniaWinUI.ColorPicker/ColorSpectrum.cs:279-315 | a colour written to `Color`, synced into `HsvColor` and read back is unchanged |
| `Spectrum.AlphaFromValueSlot` | src/AvaloniaWinUI.ColorPicker/ColorSpectrum.cs:411-414 | as written, opaque green (A 255, G 128) reads back with alpha 128 |
| `Spectrum.TestGreenToHsv` | tests/AvaloniaWinUI.ColorPicker.Tests/ColorPickerTests.cs:130-137 | opaque green gives HSV (120, 1, 128/255) and alpha 1 |
| `Spectrum.TestHsvToGreen` | tests/AvaloniaWinUI.ColorPicker.Tests/ColorPickerTests.cs:148-151 | HSV (120, 1, 1, 1) gives ARGB (255, 0, 255, 0) |
| `Spectrum.ClampToPixel` | src/AvaloniaWinUI.ColorPicker/ColorSpectrum.cs:449-469 | intended: the pixel lies in [0, pixels), and a rounded point already there is kept |
| `Spectrum.ClampToPixelAsWritten` | src/AvaloniaWinUI.ColorPicker/ColorSpectrum.cs:453-469 | as written: the pixel lies in [0, pixels], one past the end included |
| `Spectrum.PointIndexAsWrittenOutOfRange` | src/AvaloniaWinUI.ColorPicker/ColorSpectrum.cs:449-473 | on size 10.4 the point (10.2, 9.0) indexes past the end of the 100-entry map |
| `Spectrum.PickedIndex` | src/AvaloniaWinUI.ColorPicker/ColorSpectrum.cs:471-473 | the index lies within the map for every point, row-major from the clamped pixels |
| `Spectrum.MapEntryInRange` | src/AvaloniaWinUI.ColorPicker/ColorSpectrum.cs:914-1010 | every map entry has both spanned channels within the pinned bounds |
| `Spectrum.PickedInRange` | src/AvaloniaWinUI.ColorPicker/ColorSpectrum.cs:425-497 | the picked colour keeps the current third channel and has the spanned ones within their bounds |
| `Spectrum.Rebuilt` | src/AvaloniaWinUI.ColorPicker/ColorSpectrum.cs:875-895 | when hue is the unspanned channel, all six hue bitmaps are replaced |
| `Spectrum.DrawnIgnoresBase` | src/AvaloniaWinUI.ColorPicker/ColorSpectrum.cs:923-983 | a drawn map stays drawn whatever the current colour becomes |
| `Spectrum.DrawnIgnoresThirdBounds` | src/AvaloniaWinUI.ColorPicker/ColorSpectrum.cs:344-381 | a drawn map stays drawn when only the unspanned channel's range changes |
| `Spectrum.BoundChannel` | src/AvaloniaWinUI.ColorPicker/ColorSpectrum.cs:254-267 | an HSV channel |
| `Spectrum.BoundLimit` | src/AvaloniaWinUI.ColorPicker/ColorSpectrum.Properties.cs:162-203 | hue bounds accept up to 359 and the others up to 100 |
| `Spectrum.WithBound` | src/AvaloniaWinUI.ColorPicker/ColorSpectrum.cs:254-267 | the spanned channels' bounds are unchanged when the property limits the unspanned channel |
| `Spectrum.ColorSpectrum.constructor` | src/AvaloniaWinUI.ColorPicker/ColorSpectrum.cs:52-77 | white, `HsvColor` (0, 0, 1, 1), no updates in progress, no events, HueSaturation, default bounds and an empty map |
| `Spectrum.ColorSpectrum.StoreColor` | src/AvaloniaWinUI.ColorPicker/ColorSpectrum.cs:244-249 | the colour is stored; a different one is remembered as old and, unless the control is writing, sets `HsvColor` |
| `Spectrum.ColorSpectrum.OnColorChanged` | src/AvaloniaWinUI.ColorPicker/ColorSpectrum.cs:279-296 | unless the control is writing, `HsvColor` follows the colour; the previous colour is remembered |
| `Spectrum.ColorSpectrum.SetColorProperty` | src/AvaloniaWinUI.ColorPicker/ColorSpectrum.Properties.cs:108-112 | the state stays valid; a different colour sets `HsvColor` and is remembered |
| `Spectrum.ColorSpectrum.SetHsvColorProperty` | src/AvaloniaWinUI.ColorPicker/ColorSpectrum.Properties.cs:119-123 | corrected (see Findings): the state stays valid; the same value changes no colour state |
| `Spectrum.ColorSpectrum.OnHsvColorChanged` | src/AvaloniaWinUI.ColorPicker/ColorSpectrum.cs:298-305 | corrected (see Findings): runs `SetColor` unless the control is writing `HsvColor`; then nothing changes |
| `Spectrum.ColorSpectrum.SetColor` | src/AvaloniaWinUI.ColorPicker/ColorSpectrum.cs:307-322 | corrected (see Findings): `Color` becomes the colour `HsvColor` stands for, alpha from the fourth slot, and `ColorChanged` is raised iff it differs |
| `Spectrum.ColorSpectrum.RaiseColorChanged` | src/AvaloniaWinUI.ColorPicker/ColorSpectrum.cs:324-342 | one event iff the colour differs from the remembered one |
| `Spectrum.ColorSpectrum.UpdateColor` | src/AvaloniaWinUI.ColorPicker/ColorSpectrum.cs:405-423 | corrected (see Findings): the state stays valid, `HsvColor` is the new HSV with its alpha kept, and one event is raised iff the colour changed |
| `Spectrum.ColorSpectrum.OnKeyDown` | src/AvaloniaWinUI.ColorPicker/ColorSpectrum.cs:128-222 | corrected (see Findings): the state stays valid; an arrow key steps the channel `ArrowStep` names; other keys change nothing; alpha is kept |
| `Spectrum.ColorSpectrum.UpdateColorFromPoint` | src/AvaloniaWinUI.ColorPicker/ColorSpectrum.cs:425-497 | corrected (see Findings): the state stays valid; with no map nothing happens; otherwise the colour is the map entry under the clamped pointer; alpha is kept |
| `Spectrum.ColorSpectrum.PixelsPerSide` | src/AvaloniaWinUI.ColorPicker/ColorSpectrum.cs:449-451 | the rounded width of the last build: within 1/2 of it, and non-negative |
| `Spectrum.ColorSpectrum.CreateBitmapsAndColorMap` | src/AvaloniaWinUI.ColorPicker/ColorSpectrum.cs:727-912 | the state stays valid; size 0 changes nothing; otherwise the map and bitmaps are rebuilt and current |
| `Spectrum.ColorSpectrum.Install` | src/AvaloniaWinUI.ColorPicker/ColorSpectrum.cs:875-908 | records the map, bitmaps, size, components and bounds of a build |
| `Spectrum.ColorSpectrum.SetComponents` | src/AvaloniaWinUI.ColorPicker/ColorSpectrum.cs:273-276 | the pair is stored; a new pair with a positive size rebuilds a current map; otherwise the build is untouched |
| `Spectrum.ColorSpectrum.SetBoundProperty` | src/AvaloniaWinUI.ColorPicker/ColorSpectrum.cs:254-267 | the bound is stored; the map is rebuilt when the bound changed and its channel is spanned |
| `Spectrum.ColorSpectrum.SetBound` | src/AvaloniaWinUI.ColorPicker/ColorSpectrum.Properties.cs:162-203 | the bounds become `WithBound` of the old ones |
| `Spectrum.ColorSpectrum.OnMinMaxHueChanged` | src/AvaloniaWinUI.ColorPicker/ColorSpectrum.cs:344-355 | the state stays valid; the map is rebuilt and current unless hue is the unspanned channel or the size is 0 |
| `Spectrum.ColorSpectrum.OnMinMaxSaturationChanged` | src/AvaloniaWinUI.ColorPicker/ColorSpectrum.cs:357-368 | the state stays valid; the map is rebuilt and current unless saturation is the unspanned channel or the size is 0 |
| `Spectrum.ColorSpectrum.OnMinMaxValueChanged` | src/AvaloniaWinUI.ColorPicker/ColorSpectrum.cs:370-381 | the state stays valid; the map is rebuilt and current unless value is the unspanned channel or the size is 0 |
| `Spectrum.ConstructedValid` | src/AvaloniaWinUI.ColorPicker/ColorSpectrum.cs:65-77 | a spectrum with the default colours, no update in progress and no map is valid |
| `Spectrum.ConstructedColors` | src/AvaloniaWinUI.ColorPicker/ColorSpectrum.Properties.cs:131-139 | the default colour and `HsvColor` agree |
| `Spectrum.ConstructedMap` | src/AvaloniaWinUI.ColorPicker/ColorSpectrum.cs:56-63 | no map and zero size mean zero pixels per side, which matches the empty map |
| `Spectrum.Stored` | src/AvaloniaWinUI.ColorPicker/ColorSpectrum.cs:875-895 | exactly the bitmaps in `Rebuilt` are replaced, by the filled bytes |
| `Spectrum.HueBitmaps` | src/AvaloniaWinUI.ColorPicker/ColorSpectrum.cs:886-894 | the four middle bitmaps are replaced |
| `Spectrum.DrawMap` | src/AvaloniaWinUI.ColorPicker/ColorSpectrum.cs:794-895 | n² entries that form a drawn map, with exactly the `Rebuilt` bitmaps replaced |
| `Spectrum.BuildDrawn` | src/AvaloniaWinUI.ColorPicker/ColorSpectrum.cs:840-895 | a finished fill has n² entries, and once stored is a drawn map |
| `Slider.KeyDirection` | src/Avalonia.ColorPicker/ColorPickerSlider.cs:108-116 | left and up step down; right and down step up |
| `Slider.ChannelRange` | src/AvaloniaWinUI.ColorPicker/ColorPickerSlider.cs:67-98 | alpha is always [0, 100]; with valid bounds the range lies in [0, 359] or [0, 100] |
| `Slider.FromSlider` | src/Avalonia.ColorPicker/ColorPickerSlider.cs:75-106 | the channel scaled back to slider units is the slider value |
| `Slider.SteppedValue` | src/AvaloniaWinUI.ColorPicker/ColorPickerSlider.cs:112-128 | corrected (see Findings): only a large HSV step can fail, and only by running out of fuel; a small step lands in range and is exactly ±1 when that is in range |
| `Slider.ColorPickerSlider.constructor` | src/Avalonia.ColorPicker/ColorPickerSlider.cs:15-16 | a new slider shows the value channel, at 0 |
| `Slider.ColorPickerSlider.OnKeyDown` | src/Avalonia.ColorPicker/ColorPickerSlider.cs:51-152 | corrected (see Findings): other keys go to the base slider; with no parent nothing happens; otherwise the value becomes `SteppedValue` from the parent's `CurrentHsv` |
| `Slider.StepStaysInRange` | src/Avalonia.ColorPicker/ColorPickerSlider.cs:118-149 | corrected (see Findings): every finished step, small or large, lands within the picker's bounds |
| `Slider.SmallStepMovesWithKey` | src/Avalonia.ColorPicker/ColorPickerSlider.cs:108-127 | from a value in range, a small step goes in the key's direction and always finishes |
| `Slider.SmallStepIgnoresColor` | src/Avalonia.ColorPicker/ColorPickerSlider.cs:75-127 | a small step does not depend on the colour the slider reads from its parent |
| `Slider.SmallStepsCancel` | src/AvaloniaWinUI.ColorPicker/ColorPickerSlider.cs:100-128 | a small step down and one up give back the value |

## Left out

- Floating point: doubles and floats are reals. Rounding error, NaN and the `(float)` narrowing of `HsvColor` are not modelled.
- Bitmap objects: `CreateBitmapFromPixelData` and the `WriteableBitmap`s are left out. The model keeps the BGRA byte sequences they are built from.
- Asynchrony: the `Task` around `CreateCheckeredBackgroundAsync` is left out, and cancellation is a boolean read at the checks.
- Display names: `ColorHelpers.ToDisplayName` and its colour-name table are not part of this model. The search takes a namer parameter instead.
- Text parsing: `int.TryParse` and `Color.TryParse` are parameters. The hex parser `ParseHex` models only the "#aarrggbb" and "#rrggbb" forms.
- Spectrum shape: the ring shape and the selection ellipse are left out; only the box spectrum is modelled. The ring needs the polar maths, and the ellipse is drawing.
- User-interface plumbing: template parts, tooltips, focus, pointer capture, pseudo-classes, brushes and the preview rectangles have no colour logic.
- Property registration is left out. The validators appear as `requires` clauses on the setters.
- The deferred text-box refresh of `UpdateColorControls` is dead code behind a constant `false`, and is left out.
- Sizes in pixels: `CreateBitmapsAndColorMap` takes the minimum dimension as a parameter instead of reading the control's size.
- Pixel order: the byte order within a bitmap is modelled; the layout of the bitmap on screen is not.
- `SpectrumMap.Percent`: needs at least 2 pixels per side; a 1-pixel box would divide by zero in the source.
- `ChannelIncrement.FindNextNamedColor`: the search is bounded by fuel, so a search that never ends (`PinnedSearchNeverEnds`) is reported as unfinished rather than hanging. Such a search is reachable: the spectrum always wraps (src/AvaloniaWinUI.ColorPicker/ColorSpectrum.cs:219), so Ctrl+Left on a HueSaturation spectrum whose hue bounds are both the current hue never returns in the source.
- Slider range: the `RangeBase` coercion of a slider's value into its `Minimum`/`Maximum` is not modelled.
- Unsupported enum values: the branches that throw `NotSupportedException` for an unknown channel or component pair are unreachable over the modelled enums.
- `Picker.ColorPicker.OnColorChanged`: its frame does not state that `currentHsvProperty` is unchanged. No picker method assigns it.
- `Spectrum.ColorSpectrum.constructor`: its ensures list the defaults, and `Valid()` of the new object is stated by the lemma `ConstructedValid`.
- `Spectrum.ColorSpectrum.SetBoundProperty`: when the channel is not spanned, the map is not rebuilt. That it is still current follows from `DrawnIgnoresThirdBounds`, not from this method's ensures.
- `UpdateThirdDimensionSlider`: only its hue gradient is modelled. The saturation and value gradients and `UpdateAlphaSlider` are two-stop brushes with no further logic.
- `ChannelIncrement.NextNamedColor`: corrected: the grid snap runs while the remainder is at least one step, replacing the strict `>` loop at src/Avalonia.ColorPicker/ColorHelpers.cs:438, which yields 9 for a large step down from hue 11 under bounds [10, 359] (first Findings row).
- `ChannelIncrement.FindNextNamedColor`: corrected: the grid snap runs while the remainder is at least one step, replacing the strict `>` loop at src/Avalonia.ColorPicker/ColorHelpers.cs:438, which yields 9 for a large step down from hue 11 under bounds [10, 359] (first Findings row).
- `ChannelIncrement.SnapToMidpoint`: corrected: the grid snap runs while the remainder is at least one step, replacing the strict `>` loop at src/Avalonia.ColorPicker/ColorHelpers.cs:438, which yields 9 for a large step down from hue 11 under bounds [10, 359] (first Findings row).
- `ChannelIncrement.IncrementedColor`: corrected: the grid snap runs while the remainder is at least one step, replacing the strict `>` loop at src/Avalonia.ColorPicker/ColorHelpers.cs:438, which yields 9 for a large step down from hue 11 under bounds [10, 359] (first Findings row).
- `ChannelIncrement.IncrementColorChannel`: corrected: the grid snap runs while the remainder is at least one step, replacing the strict `>` loop at src/Avalonia.ColorPicker/ColorHelpers.cs:438, which yields 9 for a large step down from hue 11 under bounds [10, 359] (first Findings row).
- `Slider.SteppedValue`: corrected: the grid snap runs while the remainder is at least one step, replacing the strict `>` loop at src/Avalonia.ColorPicker/ColorHelpers.cs:438, which yields 9 for a large step down from hue 11 under bounds [10, 359] (first Findings row).
- `Slider.StepStaysInRange`: corrected: holds for the corrected snap only; `AsWrittenLargeStepLeavesBounds` shows the strict `>` loop at src/Avalonia.ColorPicker/ColorHelpers.cs:438 leaving the bounds (first Findings row).
- `Slider.ColorPickerSlider.OnKeyDown`: corrected: the grid snap runs while the remainder is at least one step, replacing the strict `>` loop at src/Avalonia.ColorPicker/ColorHelpers.cs:438, which yields 9 for a large step down from hue 11 under bounds [10, 359] (first Findings row).
- `Spectrum.ColorSpectrum.SetColor`: corrected: alpha comes from the fourth slot W, replacing the value slot Z read at src/AvaloniaWinUI.ColorPicker/ColorSpectrum.cs:315 and 411-414 (second Findings row).
- `Spectrum.ColorSpectrum.SetHsvColorProperty`: corrected: alpha comes from the fourth slot W, replacing the value slot Z read at src/AvaloniaWinUI.ColorPicker/ColorSpectrum.cs:315 and 411-414 (second Findings row).
- `Spectrum.ColorSpectrum.OnHsvColorChanged`: corrected: alpha comes from the fourth slot W, replacing the value slot Z read at src/AvaloniaWinUI.ColorPicker/ColorSpectrum.cs:315 and 411-414 (second Findings row).
- `Spectrum.ColorSpectrum.UpdateColor`: corrected: alpha comes from the fourth slot W, replacing the value slot Z read at src/AvaloniaWinUI.ColorPicker/ColorSpectrum.cs:315 and 411-414 (second Findings row).
- `Spectrum.ColorSpectrum.OnKeyDown`: corrected: alpha comes from the fourth slot W, replacing the value slot Z read at src/AvaloniaWinUI.ColorPicker/ColorSpectrum.cs:315 and 411-414 (second Findings row). A large step also uses the corrected grid snap (first Findings row).
- `Spectrum.ColorSpectrum.UpdateColorFromPoint`: corrected: the pixel is clamped to pixels − 1, replacing the comparison with the unrounded width at src/AvaloniaWinUI.ColorPicker/ColorSpectrum.cs:453-469, which indexes past the map for size 10.4 and point (10.2, 9.0) (third Findings row); alpha comes from the fourth slot W, replacing the value slot Z read at src/AvaloniaWinUI.ColorPicker/ColorSpectrum.cs:315 and 411-414 (second Findings row).
- `PickerText.ApplyConstraints`: on the grey axis (clamped saturation or value 0) the colour carries no hue, so converting back gives hue 0 and saturation 0 rather than the clamped hue and saturation; `ApplyConstraintsYieldsClampedHsv` states this split.
- `Picker.ColorPicker.UpdateColorControls`: the write of the current HSV into the child spectrum's `HsvColor` (src/Avalonia.ColorPicker/ColorPicker.cs:483-487) is not modelled; it is the template-part spectrum, and it puts alpha in the value slot Z, the picker-side twin of the second Findings row.

## Findings

| source | as written | input that shows it | evidently intended | confidence | as-written member | corrected member |
|---|---|---|---|---|---|---|
| src/Avalonia.ColorPicker/ColorHelpers.cs:436-443 | the loop that reduces the midpoint to the step grid runs while the remainder is strictly above one step, so an exact multiple keeps a whole step | hue channel, bounds [10, 359], no wrapping, a large step down from hue 11 where hue 10 has a different name: the midpoint is 9, below the minimum | run while the remainder is at least one step, so grid values stay put and the result stays in bounds | not executed | `ChannelIncrementProperties.AsWrittenLargeStepLeavesBounds` | `ChannelIncrementProperties.LargeStepStaysInBounds` |
| src/AvaloniaWinUI.ColorPicker/ColorSpectrum.cs:411-414 | `UpdateColor` (and `SetColor` at line 315) pass `HsvColor.Z`, the value slot, as the alpha | a spectrum holding opaque green (A 255, R 0, G 128, B 0) has `HsvColor` (120, 1, 128/255, 1); any arrow key then runs `UpdateColor`, which stores alpha 128, and setting `HsvColor` to (120, 1, 128/255, 1) makes `SetColor` store alpha 128 too | alpha from the fourth slot, W | not executed | `Spectrum.AlphaFromValueSlot` | `Spectrum.HsvColorRoundTrip` |
| src/AvaloniaWinUI.ColorPicker/ColorSpectrum.cs:453-469 | the clamp of the pointer's pixel compares against the unrounded image width, so it can yield the pixel count itself | image size 10.4 (ten pixels per side), point (10.2, 9.0): index 100 of a 100-entry map | clamp to pixels − 1 | not executed | `Spectrum.PointIndexAsWrittenOutOfRange` | `Spectrum.PickedIndex` |
