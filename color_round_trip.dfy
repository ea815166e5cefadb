/** The RGB -> HSV -> RGB round trip of the two conversions in
    src/Avalonia.ColorPicker/ColorHelpers.cs, over exact reals. */
module ColorRoundTrip {
  import opened ColorSpace

  /** Converting any colour of the unit cube to HSV and back gives it back. */
  lemma RgbHsvRoundTrip(c: Rgb)
    requires InUnitCube(c)
    ensures HsvToRgb(RgbToHsv(c)) == c
  {
    if IsGrey(c) {
      var hsv := RgbToHsv(c);
      assert Chroma(hsv) == 0.0;
      assert MaxChannel(HsvToRgb(hsv)) == c.r;
    } else {
      RowOfConverted(c);
      TableRow(RgbToHsv(c));
    }
  }

  lemma Cancel(x: real, d: real)
    requires d != 0.0
    ensures d * (x / d) == x
  {
  }

  lemma CancelProduct(x: real, d: real)
    requires d != 0.0
    ensures (d * x) / d == x
  {
  }

  lemma ChromaInUnitRange(hsv: Hsv)
    requires InUnitRange(hsv.s) && InUnitRange(hsv.v)
    ensures Clamp01(hsv.v) == hsv.v && Chroma(hsv) == hsv.s * hsv.v
  {
  }

  /** What `RgbToHsv` gives for a colour off the grey axis: a hue in
      [0, 360), the largest channel as value, and the spread of the
      channels as saturation times value. */
  predicate ConvertedFrom(hsv: Hsv, c: Rgb) {
    0.0 <= hsv.h < 360.0 && 0.0 < hsv.s <= 1.0 && 0.0 < hsv.v <= 1.0 &&
    hsv.v == MaxChannel(c) && hsv.s * hsv.v == MaxChannel(c) - MinChannel(c)
  }

  lemma Converted(c: Rgb)
    requires InUnitCube(c) && !IsGrey(c)
    ensures ConvertedFrom(RgbToHsv(c), c)
  {
  }

  /** The table row of a converted colour off the grey axis is the colour:
      each case of `RgbToHsv`'s hue lands in the sextant whose row puts the
      channels back. */
  lemma RowOfConverted(c: Rgb)
    requires InUnitCube(c) && !IsGrey(c)
    ensures ConvertedFrom(RgbToHsv(c), c) && Row(RgbToHsv(c)) == c
  {
    Converted(c);
    if c.r == MaxChannel(c) {
      RedHue(c);
      if c.g >= c.b {
        RowRedRising(c, RgbToHsv(c));
      } else {
        RowRedFalling(c, RgbToHsv(c));
      }
    } else if c.g == MaxChannel(c) {
      GreenHue(c);
      if c.b < c.r {
        RowGreenFalling(c, RgbToHsv(c));
      } else {
        RowGreenRising(c, RgbToHsv(c));
      }
    } else {
      BlueHue(c);
      if c.r < c.g {
        RowBlueFalling(c, RgbToHsv(c));
      } else {
        RowBlueRising(c, RgbToHsv(c));
      }
    }
  }

  /** Red largest: the hue is 60 times green less blue over the chroma,
      turned by 360 when negative. */
  lemma RedHue(c: Rgb)
    requires InUnitCube(c) && !IsGrey(c) && c.r == MaxChannel(c)
    ensures var q := (c.g - c.b) / (MaxChannel(c) - MinChannel(c));
      (c.g >= c.b ==> RgbToHsv(c).h == 60.0 * q) &&
      (c.g < c.b ==> RgbToHsv(c).h == 360.0 + 60.0 * q)
  {
    var chroma := MaxChannel(c) - MinChannel(c);
    HueBounds(c, c.r, chroma);
    var q := (c.g - c.b) / chroma;
    assert RgbToHsv(c).h == Hue(c, c.r, chroma);
    if c.g >= c.b {
      assert 0.0 <= q by { Cancel(c.g - c.b, chroma); }
    } else {
      assert q < 0.0 by { Cancel(c.g - c.b, chroma); }
    }
  }

  /** Green largest: 120 plus 60 times blue less red over the chroma. */
  lemma GreenHue(c: Rgb)
    requires InUnitCube(c) && !IsGrey(c) && c.g == MaxChannel(c) && c.r != MaxChannel(c)
    ensures RgbToHsv(c).h == 120.0 + 60.0 * ((c.b - c.r) / (MaxChannel(c) - MinChannel(c)))
  {
    HueBounds(c, MaxChannel(c), MaxChannel(c) - MinChannel(c));
  }

  /** Blue largest: 240 plus 60 times red less green over the chroma. */
  lemma BlueHue(c: Rgb)
    requires InUnitCube(c) && !IsGrey(c) && c.b == MaxChannel(c)
    requires c.r != MaxChannel(c) && c.g != MaxChannel(c)
    ensures RgbToHsv(c).h == 240.0 + 60.0 * ((c.r - c.g) / (MaxChannel(c) - MinChannel(c)))
  {
    HueBounds(c, MaxChannel(c), MaxChannel(c) - MinChannel(c));
  }

  /** Red largest, green at least blue: sextant 0, or 1 at exactly 60. */
  lemma RowRedRising(c: Rgb, hsv: Hsv)
    requires InUnitCube(c) && ConvertedFrom(hsv, c) && c.r == MaxChannel(c) && c.g >= c.b
    requires hsv.h == 60.0 * ((c.g - c.b) / (MaxChannel(c) - MinChannel(c)))
    ensures Row(hsv) == c
  {
    ChromaInUnitRange(hsv);
    RowTable(hsv);
    TableRedRising(c, Chroma(hsv), hsv.h);
  }

  lemma TableRedRising(c: Rgb, chroma: real, h: real)
    requires 0.0 <= c.b <= c.g <= c.r && chroma == c.r - c.b && 0.0 < chroma
    requires h == 60.0 * ((c.g - c.b) / chroma)
    ensures var k := Sextant(h); var f := h / 60.0 - k as real; var min := MinChannel(c);
      0 <= k <= 5 && 0.0 <= f < 1.0 &&
      SextantTable(k, min, chroma + min, Lerp(min, chroma, f), Lerp(min, chroma, 1.0 - f)) == c
  {
    var min := c.b;
    var q := (c.g - c.b) / chroma;
    Cancel(c.g - c.b, chroma);
    UnitQuotient(c.g - c.b, chroma);
    assert 0.0 <= q;
    if q < 1.0 {
      assert Sextant(h) == 0;
      assert Lerp(min, chroma, h / 60.0) == c.g;
    } else {
      assert Sextant(h) == 1;
      assert Lerp(min, chroma, 1.0 - (h / 60.0 - 1.0)) == c.r;
    }
  }

  /** Red largest, blue above green: sextant 5. */
  lemma RowRedFalling(c: Rgb, hsv: Hsv)
    requires InUnitCube(c) && ConvertedFrom(hsv, c) && c.r == MaxChannel(c) && c.g < c.b
    requires hsv.h == 360.0 + 60.0 * ((c.g - c.b) / (MaxChannel(c) - MinChannel(c)))
    ensures Row(hsv) == c
  {
    ChromaInUnitRange(hsv);
    RowTable(hsv);
    TableRedFalling(c, Chroma(hsv), hsv.h);
  }

  lemma TableRedFalling(c: Rgb, chroma: real, h: real)
    requires 0.0 <= c.g < c.b <= c.r && chroma == c.r - c.g
    requires h == 360.0 + 60.0 * ((c.g - c.b) / chroma)
    ensures var k := Sextant(h); var f := h / 60.0 - k as real; var min := MinChannel(c);
      0 <= k <= 5 && 0.0 <= f < 1.0 &&
      SextantTable(k, min, chroma + min, Lerp(min, chroma, f), Lerp(min, chroma, 1.0 - f)) == c
  {
    var min := c.g;
    var q := (c.g - c.b) / chroma;
    Cancel(c.g - c.b, chroma);
    UnitQuotient(c.g - c.b, chroma);
    assert q < 0.0;
    assert Sextant(h) == 5;
    var f := h / 60.0 - 5.0;
    assert chroma * (1.0 - f) == -(chroma * q);
    assert Lerp(min, chroma, 1.0 - f) == c.b;
  }

  /** Green largest, red above blue: sextant 1. */
  lemma RowGreenFalling(c: Rgb, hsv: Hsv)
    requires InUnitCube(c) && ConvertedFrom(hsv, c) && c.g == MaxChannel(c) && c.r != c.g && c.b < c.r
    requires hsv.h == 120.0 + 60.0 * ((c.b - c.r) / (MaxChannel(c) - MinChannel(c)))
    ensures Row(hsv) == c
  {
    ChromaInUnitRange(hsv);
    RowTable(hsv);
    TableGreenFalling(c, Chroma(hsv), hsv.h);
  }

  lemma TableGreenFalling(c: Rgb, chroma: real, h: real)
    requires 0.0 <= c.b < c.r < c.g && chroma == c.g - c.b
    requires h == 120.0 + 60.0 * ((c.b - c.r) / chroma)
    ensures var k := Sextant(h); var f := h / 60.0 - k as real; var min := MinChannel(c);
      0 <= k <= 5 && 0.0 <= f < 1.0 &&
      SextantTable(k, min, chroma + min, Lerp(min, chroma, f), Lerp(min, chroma, 1.0 - f)) == c
  {
    var min := c.b;
    var q := (c.b - c.r) / chroma;
    Cancel(c.b - c.r, chroma);
    UnitQuotient(c.b - c.r, chroma);
    assert q < 0.0;
    assert Sextant(h) == 1;
    var f := h / 60.0 - 1.0;
    assert chroma * (1.0 - f) == -(chroma * q);
    assert Lerp(min, chroma, 1.0 - f) == c.r;
  }

  /** Green largest, blue at least red: sextant 2, or 3 at exactly 180. */
  lemma RowGreenRising(c: Rgb, hsv: Hsv)
    requires InUnitCube(c) && ConvertedFrom(hsv, c) && c.g == MaxChannel(c) && c.r != c.g && c.b >= c.r
    requires hsv.h == 120.0 + 60.0 * ((c.b - c.r) / (MaxChannel(c) - MinChannel(c)))
    ensures Row(hsv) == c
  {
    ChromaInUnitRange(hsv);
    RowTable(hsv);
    TableGreenRising(c, Chroma(hsv), hsv.h);
  }

  lemma TableGreenRising(c: Rgb, chroma: real, h: real)
    requires 0.0 <= c.r <= c.b <= c.g && c.r < c.g && chroma == c.g - c.r
    requires h == 120.0 + 60.0 * ((c.b - c.r) / chroma)
    ensures var k := Sextant(h); var f := h / 60.0 - k as real; var min := MinChannel(c);
      0 <= k <= 5 && 0.0 <= f < 1.0 &&
      SextantTable(k, min, chroma + min, Lerp(min, chroma, f), Lerp(min, chroma, 1.0 - f)) == c
  {
    var min := c.r;
    var q := (c.b - c.r) / chroma;
    Cancel(c.b - c.r, chroma);
    UnitQuotient(c.b - c.r, chroma);
    assert 0.0 <= q;
    if q < 1.0 {
      assert Sextant(h) == 2;
      assert Lerp(min, chroma, h / 60.0 - 2.0) == c.b;
    } else {
      assert Sextant(h) == 3;
      assert Lerp(min, chroma, 1.0 - (h / 60.0 - 3.0)) == c.b;
    }
  }

  /** Blue largest, green above red: sextant 3. */
  lemma RowBlueFalling(c: Rgb, hsv: Hsv)
    requires InUnitCube(c) && ConvertedFrom(hsv, c) && c.b == MaxChannel(c)
    requires c.r != c.b && c.g != c.b && c.r < c.g
    requires hsv.h == 240.0 + 60.0 * ((c.r - c.g) / (MaxChannel(c) - MinChannel(c)))
    ensures Row(hsv) == c
  {
    ChromaInUnitRange(hsv);
    RowTable(hsv);
    TableBlueFalling(c, Chroma(hsv), hsv.h);
  }

  lemma TableBlueFalling(c: Rgb, chroma: real, h: real)
    requires 0.0 <= c.r < c.g < c.b && chroma == c.b - c.r
    requires h == 240.0 + 60.0 * ((c.r - c.g) / chroma)
    ensures var k := Sextant(h); var f := h / 60.0 - k as real; var min := MinChannel(c);
      0 <= k <= 5 && 0.0 <= f < 1.0 &&
      SextantTable(k, min, chroma + min, Lerp(min, chroma, f), Lerp(min, chroma, 1.0 - f)) == c
  {
    var min := c.r;
    var q := (c.r - c.g) / chroma;
    Cancel(c.r - c.g, chroma);
    UnitQuotient(c.r - c.g, chroma);
    assert q < 0.0;
    assert Sextant(h) == 3;
    var f := h / 60.0 - 3.0;
    assert chroma * (1.0 - f) == -(chroma * q);
    assert Lerp(min, chroma, 1.0 - f) == c.g;
  }

  /** Blue largest, red at least green: sextant 4. */
  lemma RowBlueRising(c: Rgb, hsv: Hsv)
    requires InUnitCube(c) && ConvertedFrom(hsv, c) && c.b == MaxChannel(c)
    requires c.r != c.b && c.g != c.b && c.r >= c.g
    requires hsv.h == 240.0 + 60.0 * ((c.r - c.g) / (MaxChannel(c) - MinChannel(c)))
    ensures Row(hsv) == c
  {
    ChromaInUnitRange(hsv);
    RowTable(hsv);
    TableBlueRising(c, Chroma(hsv), hsv.h);
  }

  lemma TableBlueRising(c: Rgb, chroma: real, h: real)
    requires 0.0 <= c.g <= c.r < c.b && chroma == c.b - c.g
    requires h == 240.0 + 60.0 * ((c.r - c.g) / chroma)
    ensures var k := Sextant(h); var f := h / 60.0 - k as real; var min := MinChannel(c);
      0 <= k <= 5 && 0.0 <= f < 1.0 &&
      SextantTable(k, min, chroma + min, Lerp(min, chroma, f), Lerp(min, chroma, 1.0 - f)) == c
  {
    var min := c.g;
    var q := (c.r - c.g) / chroma;
    Cancel(c.r - c.g, chroma);
    UnitQuotient(c.r - c.g, chroma);
    QuotientBelowOne(c.r - c.g, chroma);
    assert 0.0 <= q;
    assert Sextant(h) == 4;
    assert Lerp(min, chroma, h / 60.0 - 4.0) == c.r;
  }

  /** Converting an HSV colour off the grey axis (saturation and value
      above zero, hue in [0, 360)) to RGB and back gives it back. */
  lemma HsvRgbRoundTrip(hsv: Hsv)
    requires 0.0 <= hsv.h < 360.0 && 0.0 < hsv.s <= 1.0 && 0.0 < hsv.v <= 1.0
    ensures RgbToHsv(HsvToRgb(hsv)) == hsv
  {
    TableRow(hsv);
    RowBack(hsv);
    Compose(hsv, Row(hsv));
  }

  /** The table row `HsvToRgb` picks for a colour off the grey axis whose
      hue is already in [0, 360). */
  function Row(hsv: Hsv): Rgb
    requires 0.0 <= hsv.h < 360.0 && 0.0 < hsv.s <= 1.0 && 0.0 < hsv.v <= 1.0
  {
    var chroma := Chroma(hsv);
    var min := hsv.v - chroma;
    var k := Sextant(hsv.h);
    var f := hsv.h / 60.0 - k as real;
    SextantTable(k, min, chroma + min, Lerp(min, chroma, f), Lerp(min, chroma, 1.0 - f))
  }

  lemma Compose(hsv: Hsv, row: Rgb)
    requires HsvToRgb(hsv) == row && NonNegative(row) && RgbToHsv(row) == hsv
    ensures RgbToHsv(HsvToRgb(hsv)) == hsv
  {
  }

  /** Off the grey axis and with the hue already in [0, 360), `HsvToRgb` is
      the table row of the hue's sextant. */
  lemma TableRow(hsv: Hsv)
    requires 0.0 <= hsv.h < 360.0 && 0.0 < hsv.s <= 1.0 && 0.0 < hsv.v <= 1.0
    ensures HsvToRgb(hsv) == Row(hsv)
  {
    ChromaInUnitRange(hsv);
    assert 0.0 < hsv.s * hsv.v;
  }

  /** A table row converts back to the colour it was built from: its
      sextant's hue, its spread over its top as saturation, and its top as
      value. */
  lemma RowBack(hsv: Hsv)
    requires 0.0 <= hsv.h < 360.0 && 0.0 < hsv.s <= 1.0 && 0.0 < hsv.v <= 1.0
    ensures NonNegative(Row(hsv)) && RgbToHsv(Row(hsv)) == hsv
  {
    RowValueAndSaturation(hsv);
    RowHue(hsv);
  }

  lemma RowValueAndSaturation(hsv: Hsv)
    requires 0.0 <= hsv.h < 360.0 && 0.0 < hsv.s <= 1.0 && 0.0 < hsv.v <= 1.0
    ensures NonNegative(Row(hsv)) && RgbToHsv(Row(hsv)).v == hsv.v && RgbToHsv(Row(hsv)).s == hsv.s
  {
    RowChannels(hsv);
    ValueAndSaturationOf(Row(hsv), hsv.s, hsv.v, Chroma(hsv));
  }

  lemma RowHue(hsv: Hsv)
    requires 0.0 <= hsv.h < 360.0 && 0.0 < hsv.s <= 1.0 && 0.0 < hsv.v <= 1.0
    ensures NonNegative(Row(hsv)) && RgbToHsv(Row(hsv)).h == hsv.h
  {
    var chroma := Chroma(hsv);
    var min := hsv.v - chroma;
    var k := Sextant(hsv.h);
    var f := hsv.h / 60.0 - k as real;
    RowTable(hsv);
    SextantHue(k, min, chroma, f);
    SextantAndFraction(hsv.h, k);
  }

  /** `Row` spelled out, with the bounds `SextantHue` needs. */
  lemma RowTable(hsv: Hsv)
    requires 0.0 <= hsv.h < 360.0 && 0.0 < hsv.s <= 1.0 && 0.0 < hsv.v <= 1.0
    ensures var chroma := Chroma(hsv);
      var min := hsv.v - chroma;
      var k := Sextant(hsv.h);
      var f := hsv.h / 60.0 - k as real;
      0 <= k <= 5 && 0.0 <= f < 1.0 && 0.0 < chroma && 0.0 <= min &&
      Row(hsv) == SextantTable(k, min, chroma + min, Lerp(min, chroma, f), Lerp(min, chroma, 1.0 - f))
  {
    assert 0.0 < Chroma(hsv) by {
      ChromaInUnitRange(hsv);
    }
  }

  /** The extremes of a table row are the value and the value less the
      chroma, so the row is not grey. */
  lemma RowChannels(hsv: Hsv)
    requires 0.0 <= hsv.h < 360.0 && 0.0 < hsv.s <= 1.0 && 0.0 < hsv.v <= 1.0
    ensures Spread(Row(hsv), hsv.s, hsv.v, Chroma(hsv))
  {
    ChromaInUnitRange(hsv);
    assert 0.0 < Chroma(hsv);
  }

  /** `rgb` is off the grey axis, its largest channel is `v` and its spread
      is `chroma == s * v`. */
  predicate Spread(rgb: Rgb, s: real, v: real, chroma: real)
  {
    NonNegative(rgb) && !IsGrey(rgb) && 0.0 < v &&
    MaxChannel(rgb) == v && MinChannel(rgb) == v - chroma && chroma == s * v
  }

  /** A triple off the grey axis whose largest channel is `v` and whose
      spread is `chroma == s * v` converts to value `v` and saturation `s`. */
  lemma ValueAndSaturationOf(rgb: Rgb, s: real, v: real, chroma: real)
    requires Spread(rgb, s, v, chroma)
    ensures RgbToHsv(rgb).v == v && RgbToHsv(rgb).s == s
  {
    SpreadOfConverted(rgb);
    SaturationBack(RgbToHsv(rgb), rgb, s, v, chroma);
  }

  /** Off the grey axis, the converted saturation times value is the spread
      of the channels. */
  lemma SpreadOfConverted(c: Rgb)
    requires NonNegative(c) && !IsGrey(c)
    ensures RgbToHsv(c).v == MaxChannel(c)
    ensures RgbToHsv(c).s * RgbToHsv(c).v == MaxChannel(c) - MinChannel(c)
  {
  }

  /** A conversion result whose value is the largest channel `v` and whose
      saturation times value is the spread `chroma == s * v` has saturation
      `s`. */
  lemma SaturationBack(back: Hsv, rgb: Rgb, s: real, v: real, chroma: real)
    requires back.v == MaxChannel(rgb) && back.s * back.v == MaxChannel(rgb) - MinChannel(rgb)
    requires MaxChannel(rgb) == v && MinChannel(rgb) == v - chroma && chroma == s * v && 0.0 < v
    ensures back.v == v && back.s == s
  {
    CancelFactor(back.s, s, back.v, v);
  }

  lemma CancelFactor(a: real, b: real, w: real, v: real)
    requires v != 0.0 && w == v && a * w == b * v
    ensures a == b
  {
    assert (a - b) * v == 0.0;
  }

  lemma SextantAndFraction(h: real, k: int)
    ensures 60.0 * (k as real + (h / 60.0 - k as real)) == h
  {
  }

  /** The hue `RgbToHsv` reads off each row of the conversion table is
      60 degrees per sextant plus 60 times the fraction into it. */
  lemma SextantHue(k: int, min: real, chroma: real, f: real)
    requires 0 <= k <= 5 && 0.0 <= f < 1.0 && 0.0 < chroma && 0.0 <= min
    ensures var c := SextantTable(k, min, chroma + min, Lerp(min, chroma, f), Lerp(min, chroma, 1.0 - f));
      NonNegative(c) && RgbToHsv(c).h == 60.0 * (k as real + f)
  {
    var max := chroma + min;
    var c := SextantTable(k, min, max, Lerp(min, chroma, f), Lerp(min, chroma, 1.0 - f));
    HueOfTable(c, min, chroma);
    if k == 0 {
      RisingRedHue(min, chroma, f);
    } else if k == 1 {
      FallingRedHue(min, chroma, f);
    } else if k == 2 {
      RisingBlueHue(min, chroma, f);
    } else if k == 3 {
      FallingGreenHue(min, chroma, f);
    } else if k == 4 {
      RisingRedUnderBlueHue(min, chroma, f);
    } else {
      FallingBlueHue(min, chroma, f);
    }
  }

  /** `RgbToHsv`'s hue of a non-grey triple with known extremes is `Hue`. */
  lemma HueOfTable(c: Rgb, min: real, chroma: real)
    requires 0.0 < chroma && 0.0 <= min && MaxChannel(c) == chroma + min && MinChannel(c) == min
    ensures NonNegative(c) && RgbToHsv(c).h == Hue(c, chroma + min, chroma)
  {
    assert !IsGrey(c);
  }

  /** Sextant 0: red largest, green rising. */
  lemma RisingRedHue(min: real, chroma: real, f: real)
    requires 0.0 <= f < 1.0 && 0.0 < chroma
    ensures Hue(Rgb(chroma + min, Lerp(min, chroma, f), min), chroma + min, chroma) == 60.0 * f
  {
    var c := Rgb(chroma + min, Lerp(min, chroma, f), min);
    assert (c.g - c.b) / chroma == f by { CancelProduct(f, chroma); }
  }

  /** Sextant 1: green largest, red falling (red also largest at f = 0). */
  lemma FallingRedHue(min: real, chroma: real, f: real)
    requires 0.0 <= f < 1.0 && 0.0 < chroma
    ensures Hue(Rgb(Lerp(min, chroma, 1.0 - f), chroma + min, min), chroma + min, chroma) == 60.0 * (1.0 + f)
  {
    var falling := Lerp(min, chroma, 1.0 - f);
    var c := Rgb(falling, chroma + min, min);
    if f == 0.0 {
      assert falling == chroma + min;
      assert c.g - c.b == chroma;
      assert (c.g - c.b) / chroma == 1.0;
    } else {
      assert falling < chroma + min by { FallsShort(chroma, f); }
      assert c.b - c.r == chroma * (f - 1.0) by { Opposite(chroma, f); }
      assert (c.b - c.r) / chroma == f - 1.0 by { QuotientOf(c.b - c.r, chroma, f - 1.0); }
    }
  }

  /** Sextant 2: green largest, blue rising. */
  lemma RisingBlueHue(min: real, chroma: real, f: real)
    requires 0.0 <= f < 1.0 && 0.0 < chroma
    ensures Hue(Rgb(min, chroma + min, Lerp(min, chroma, f)), chroma + min, chroma) == 60.0 * (2.0 + f)
  {
    var c := Rgb(min, chroma + min, Lerp(min, chroma, f));
    assert (c.b - c.r) / chroma == f by { CancelProduct(f, chroma); }
  }

  /** Sextant 3: blue largest, green falling (green also largest at f = 0). */
  lemma FallingGreenHue(min: real, chroma: real, f: real)
    requires 0.0 <= f < 1.0 && 0.0 < chroma
    ensures Hue(Rgb(min, Lerp(min, chroma, 1.0 - f), chroma + min), chroma + min, chroma) == 60.0 * (3.0 + f)
  {
    var falling := Lerp(min, chroma, 1.0 - f);
    var c := Rgb(min, falling, chroma + min);
    if f == 0.0 {
      assert falling == chroma + min;
      assert c.b - c.r == chroma;
      assert (c.b - c.r) / chroma == 1.0;
    } else {
      assert falling < chroma + min by { FallsShort(chroma, f); }
      assert c.r - c.g == chroma * (f - 1.0) by { Opposite(chroma, f); }
      assert (c.r - c.g) / chroma == f - 1.0 by { QuotientOf(c.r - c.g, chroma, f - 1.0); }
    }
  }

  /** Sextant 4: blue largest, red rising. */
  lemma RisingRedUnderBlueHue(min: real, chroma: real, f: real)
    requires 0.0 <= f < 1.0 && 0.0 < chroma
    ensures Hue(Rgb(Lerp(min, chroma, f), min, chroma + min), chroma + min, chroma) == 60.0 * (4.0 + f)
  {
    var rising := Lerp(min, chroma, f);
    var c := Rgb(rising, min, chroma + min);
    assert rising < chroma + min by { FallsShort(chroma, 1.0 - f); }
    assert (c.r - c.g) / chroma == f by { CancelProduct(f, chroma); }
  }

  /** Sextant 5: red largest, blue falling; the raw hue is negative and
      wraps by 360. */
  lemma FallingBlueHue(min: real, chroma: real, f: real)
    requires 0.0 <= f < 1.0 && 0.0 < chroma
    ensures Hue(Rgb(chroma + min, min, Lerp(min, chroma, 1.0 - f)), chroma + min, chroma) == 60.0 * (5.0 + f)
  {
    var c := Rgb(chroma + min, min, Lerp(min, chroma, 1.0 - f));
    assert c.g - c.b == chroma * (f - 1.0) by { Opposite(chroma, f); }
    assert (c.g - c.b) / chroma == f - 1.0 by { QuotientOf(c.g - c.b, chroma, f - 1.0); }
    assert 60.0 * (f - 1.0) < 0.0;
  }

  lemma QuotientOf(x: real, d: real, q: real)
    requires d != 0.0 && x == d * q
    ensures x / d == q
  {
  }

  lemma QuotientBelowOne(x: real, d: real)
    requires 0.0 < d && x < d
    ensures x / d < 1.0
  {
    var q := x / d;
    assert x == q * d;
  }

  lemma Opposite(chroma: real, f: real)
    ensures -(chroma * (1.0 - f)) == chroma * (f - 1.0)
  {
    assert chroma * (1.0 - f) == chroma - chroma * f;
    assert chroma * (f - 1.0) == chroma * f - chroma;
  }

  lemma FallsShort(chroma: real, f: real)
    requires 0.0 < chroma && 0.0 < f <= 1.0
    ensures chroma * (1.0 - f) < chroma
  {
    assert chroma * (1.0 - f) == chroma - chroma * f;
  }

  /** A byte colour divided by 255 and truncated back gives the same bytes. */
  lemma QuantiseColorRoundTrip(c: Color)
    ensures ColorFromRgba(RgbOfColor(c), c.a as real / 255.0) == c
  {
    assert c.a as real / 255.0 * 255.0 == c.a as real;
    assert c.r as real / 255.0 * 255.0 == c.r as real;
    assert c.g as real / 255.0 * 255.0 == c.g as real;
    assert c.b as real / 255.0 * 255.0 == c.b as real;
  }
}
