/** The RGB to HSL arithmetic of `convertColor` in src/Triangles.ts.
    The host's colour probing (a hidden element and its computed style) is not
    modelled: the model starts from the three channel integers the regular
    expression extracts from the canonical `rgb(r, g, b)` text. */
module Color {

  /** `HSLColor`: hue in whole degrees (the result of `Math.round`), saturation and
      lightness as fractions. */
  datatype HSLColor = HSLColor(h: int, s: real, l: real)

  /** An 8-bit colour channel, as the host reports it. */
  predicate IsChannel(c: int) {
    0 <= c <= 255
  }

  /** `Math.max(a, b, c)`. */
  function Max3(a: real, b: real, c: real): (m: real)
    ensures m == a || m == b || m == c
    ensures a <= m && b <= m && c <= m
  {
    if a >= b && a >= c then a else if b >= c then b else c
  }

  /** `Math.min(a, b, c)`. */
  function Min3(a: real, b: real, c: real): (m: real)
    ensures m == a || m == b || m == c
    ensures m <= a && m <= b && m <= c
  {
    if a <= b && a <= c then a else if b <= c then b else c
  }

  /** `Math.round`: the nearest integer, halves rounded up. */
  function Round(x: real): (n: int)
    ensures n as real - 0.5 <= x < n as real + 0.5
  {
    (x + 0.5).Floor
  }

  /** The hue before rounding, in degrees: the `switch (max)` on the channel that is
      the largest (red first, then green, then blue), with `+ 6` when green is below
      blue, then `h *= 60`. Only taken when the colour is not grey. */
  function RawHue(r: real, g: real, b: real): real
    requires Max3(r, g, b) != Min3(r, g, b)
  {
    var max := Max3(r, g, b);
    var d := max - Min3(r, g, b);
    var sector :=
      if max == r then (g - b) / d + (if g < b then 6.0 else 0.0)
      else if max == g then (b - r) / d + 2.0
      else (r - g) / d + 4.0;
    sector * 60.0
  }

  /** `h`: 0 for a grey (`max == min`), the switch's value otherwise. */
  function Hue(r: real, g: real, b: real): real {
    if Max3(r, g, b) == Min3(r, g, b) then 0.0 else RawHue(r, g, b)
  }

  /** Three channels normalised to [0, 1]. */
  predicate InUnit(r: real, g: real, b: real) {
    0.0 <= r <= 1.0 && 0.0 <= g <= 1.0 && 0.0 <= b <= 1.0
  }

  /** Lightness and saturation, from the normalised channels. */
  function Lightness(r: real, g: real, b: real): real {
    (Max3(r, g, b) + Min3(r, g, b)) / 2.0
  }

  function Saturation(r: real, g: real, b: real): real
    requires InUnit(r, g, b)
  {
    var max, min := Max3(r, g, b), Min3(r, g, b);
    if max == min then 0.0
    else
      var d := max - min;
      if Lightness(r, g, b) > 0.5 then d / (2.0 - max - min) else d / (max + min)
  }

  /** `convertColor` after the match: normalise each channel to [0, 1], take the
      mid-range as lightness; a grey has hue and saturation 0, any other colour the
      saturation and the rounded hue of the standard formula. */
  function ConvertColor(red: int, green: int, blue: int): (c: HSLColor)
    requires IsChannel(red) && IsChannel(green) && IsChannel(blue)
    ensures 0.0 <= c.l <= 1.0
    ensures 0.0 <= c.s <= 1.0
    ensures 0 <= c.h <= 360
  {
    var r, g, b := red as real / 255.0, green as real / 255.0, blue as real / 255.0;
    NormalisedChannels(red, green, blue);
    LightnessBounds(red, green, blue);
    SaturationBounds(red, green, blue);
    HueBounds(r, g, b);
    HSLColor(Round(Hue(r, g, b)), Saturation(r, g, b), Lightness(r, g, b))
  }

  // ---------------------------------------------------------------------------
  // Arithmetic helpers

  lemma QuotientInUnit(x: real, d: real)
    requires 0.0 < d && -d <= x <= d
    ensures -1.0 <= x / d <= 1.0
    ensures x < 0.0 ==> x / d < 0.0
    ensures 0.0 <= x ==> 0.0 <= x / d
  {
    assert x / d * d == x;
  }

  lemma QuotientPositiveAtMostOne(x: real, y: real)
    requires 0.0 < x <= y
    ensures 0.0 < x / y <= 1.0
  {
    assert x / y * y == x;
  }

  // ---------------------------------------------------------------------------
  // Properties of the conversion

  /** The normalised channels of 8-bit inputs lie in [0, 1]. */
  lemma NormalisedChannels(red: int, green: int, blue: int)
    requires IsChannel(red) && IsChannel(green) && IsChannel(blue)
    ensures var r, g, b := red as real / 255.0, green as real / 255.0, blue as real / 255.0;
            InUnit(r, g, b) && 0.0 <= Min3(r, g, b) <= Max3(r, g, b) <= 1.0
  {
  }

  /** Lightness is the mid-range of the channels, and lies in [0, 1]. */
  lemma LightnessBounds(red: int, green: int, blue: int)
    requires IsChannel(red) && IsChannel(green) && IsChannel(blue)
    ensures var r, g, b := red as real / 255.0, green as real / 255.0, blue as real / 255.0;
            var l := Lightness(r, g, b);
            0.0 <= l <= 1.0 &&
            l == (Max3(red as real, green as real, blue as real) + Min3(red as real, green as real, blue as real)) / 510.0
  {
    NormalisedChannels(red, green, blue);
  }

  /** Saturation lies in [0, 1]; it is 0 exactly for a grey, and in (0, 1] for every
      other colour, under both the `l > 0.5` and the `l <= 0.5` formula. */
  lemma SaturationBounds(red: int, green: int, blue: int)
    requires IsChannel(red) && IsChannel(green) && IsChannel(blue)
    ensures var r, g, b := red as real / 255.0, green as real / 255.0, blue as real / 255.0;
            var s := Saturation(r, g, b);
            0.0 <= s <= 1.0 &&
            (s == 0.0 <==> red == green == blue)
  {
    var r, g, b := red as real / 255.0, green as real / 255.0, blue as real / 255.0;
    var max, min := Max3(r, g, b), Min3(r, g, b);
    NormalisedChannels(red, green, blue);
    if max != min {
      var d := max - min;
      if Lightness(r, g, b) > 0.5 {
        QuotientPositiveAtMostOne(d, 2.0 - max - min);
      } else {
        QuotientPositiveAtMostOne(d, max + min);
      }
    }
  }

  /** The hue before rounding lies in [0, 360), and its sector names the largest
      channel: red gives [0, 60] or [300, 360) (the `+ 6` branch), green [60, 180],
      blue [180, 300]. */
  lemma RawHueBounds(r: real, g: real, b: real)
    requires Max3(r, g, b) != Min3(r, g, b)
    ensures 0.0 <= RawHue(r, g, b) < 360.0
    ensures Max3(r, g, b) == r && g >= b ==> RawHue(r, g, b) <= 60.0
    ensures Max3(r, g, b) == r && g < b ==> 300.0 <= RawHue(r, g, b)
    ensures Max3(r, g, b) != r && Max3(r, g, b) == g ==> 60.0 <= RawHue(r, g, b) <= 180.0
    ensures Max3(r, g, b) != r && Max3(r, g, b) != g ==> 180.0 <= RawHue(r, g, b) <= 300.0
  {
    var max := Max3(r, g, b);
    var d := max - Min3(r, g, b);
    if max == r {
      QuotientInUnit(g - b, d);
    } else if max == g {
      QuotientInUnit(b - r, d);
    } else {
      QuotientInUnit(r - g, d);
    }
  }

  /** The hue before rounding lies in [0, 360), so the rounded hue is a whole
      number of degrees in [0, 360]: never negative. */
  lemma HueBounds(r: real, g: real, b: real)
    ensures 0.0 <= Hue(r, g, b) < 360.0
    ensures 0 <= Round(Hue(r, g, b)) <= 360
  {
    if Max3(r, g, b) != Min3(r, g, b) {
      RawHueBounds(r, g, b);
    }
  }

  /** A grey (all three channels equal) converts to hue 0 and saturation 0;
      saturation is 0 for no other colour. */
  lemma Achromatic(red: int, green: int, blue: int)
    requires IsChannel(red) && IsChannel(green) && IsChannel(blue)
    ensures red == green == blue ==> ConvertColor(red, green, blue).h == 0
    ensures ConvertColor(red, green, blue).s == 0.0 <==> red == green == blue
  {
    SaturationBounds(red, green, blue);
  }

  /** The standard cylindrical form: saturation is the chroma `max - min` over
      `1 - |2l - 1|`. */
  lemma SaturationIsChromaOverSpread(red: int, green: int, blue: int)
    requires IsChannel(red) && IsChannel(green) && IsChannel(blue)
    requires red != green || green != blue
    ensures var r, g, b := red as real / 255.0, green as real / 255.0, blue as real / 255.0;
            var l := Lightness(r, g, b);
            var spread := 1.0 - (if 2.0 * l - 1.0 < 0.0 then 1.0 - 2.0 * l else 2.0 * l - 1.0);
            spread > 0.0 && Saturation(r, g, b) == (Max3(r, g, b) - Min3(r, g, b)) / spread
  {
    NormalisedChannels(red, green, blue);
  }

  /** The rounded hue reaches 360 (not 0) just below pure red: rgb(255, 0, 1). */
  lemma HueCanBe360()
    ensures ConvertColor(255, 0, 1).h == 360
  {
    var r, g, b := 255.0 / 255.0, 0.0 / 255.0, 1.0 / 255.0;
    assert Max3(r, g, b) == r && Min3(r, g, b) == g;
    assert RawHue(r, g, b) == ((0.0 - 1.0 / 255.0) / (1.0 - 0.0) + 6.0) * 60.0;
  }

  /** rgb(100, 150, 200): hue 210, saturation 10/21, lightness 10/17. */
  lemma ConvertSteelBlue()
    ensures ConvertColor(100, 150, 200) == HSLColor(210, 10.0 / 21.0, 10.0 / 17.0)
  {
    var r, g, b := 100.0 / 255.0, 150.0 / 255.0, 200.0 / 255.0;
    assert Max3(r, g, b) == b && Min3(r, g, b) == r;
    assert Lightness(r, g, b) == 10.0 / 17.0;
    assert RawHue(r, g, b) == 210.0;
  }
}
