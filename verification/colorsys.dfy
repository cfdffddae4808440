/** The two conversions the core borrows from Python's `colorsys` module,
    transcribed on exact reals. Hue is a fraction of a turn in [0, 1). */
module ColorSys {
  import opened Numeric
  import opened Constants

  /** `rgb_to_hsv` divides by the largest channel unless all channels are
      equal; it raises ZeroDivisionError when that channel is 0 and another
      one is negative. */
  predicate HsvDefined(c: Rgb) {
    var mx := RealMax3(c.red, c.green, c.blue);
    RealMin3(c.red, c.green, c.blue) == mx || mx != 0.0
  }

  /** `colorsys.rgb_to_hsv`. */
  function RgbToHsv(c: Rgb): (r: Hsv)
    requires HsvDefined(c)
    ensures 0.0 <= r.hue < 1.0
    ensures r.value == RealMax3(c.red, c.green, c.blue)
    ensures c.red == c.green == c.blue ==> r.hue == 0.0 && r.saturation == 0.0
  {
    var maxc := RealMax3(c.red, c.green, c.blue);
    var minc := RealMin3(c.red, c.green, c.blue);
    if minc == maxc then Hsv(0.0, 0.0, maxc)
    else
      var rangec := maxc - minc;
      var s := rangec / maxc;
      var rc := (maxc - c.red) / rangec;
      var gc := (maxc - c.green) / rangec;
      var bc := (maxc - c.blue) / rangec;
      var h :=
        if c.red == maxc then bc - gc
        else if c.green == maxc then 2.0 + rc - bc
        else 4.0 + gc - rc;
      Hsv(FracPart(h / 6.0), s, maxc)
  }

  /** For channels in the usual non-negative range the saturation is a
      fraction: the spread of the channels never exceeds the largest one. */
  lemma SaturationInUnit(c: Rgb)
    requires 0.0 <= c.red && 0.0 <= c.green && 0.0 <= c.blue
    requires HsvDefined(c)
    ensures 0.0 <= RgbToHsv(c).saturation <= 1.0
  {
    var maxc := RealMax3(c.red, c.green, c.blue);
    var minc := RealMin3(c.red, c.green, c.blue);
    if minc != maxc {
      UnitQuotient(maxc - minc, maxc);
    }
  }

  /** `colorsys.hsv_to_rgb`: `i = int(h*6.0)` truncates toward zero. */
  function HsvToRgb(c: Hsv): (r: Rgb)
    ensures c.saturation == 0.0 ==> r == Rgb(c.value, c.value, c.value)
  {
    var h, s, v := c.hue, c.saturation, c.value;
    if s == 0.0 then Rgb(v, v, v)
    else
      var i := Truncate(h * 6.0);
      var f := h * 6.0 - i as real;
      var p := v * (1.0 - s);
      var q := v * (1.0 - s * f);
      var t := v * (1.0 - s * (1.0 - f));
      Sector(i % 6, v, p, q, t)
  }

  /** The channels of sector `k` of the hexcone, from the value `v`, the
      floor `p`, the falling `q` and the rising `t`. */
  function Sector(k: int, v: real, p: real, q: real, t: real): Rgb {
    match k
    case 0 => Rgb(v, t, p)
    case 1 => Rgb(q, v, p)
    case 2 => Rgb(p, v, t)
    case 3 => Rgb(p, q, v)
    case 4 => Rgb(t, p, v)
    case _ => Rgb(v, p, q)
  }

  /** Converting to HSV and back gives the original channels exactly. */
  lemma HsvRoundTrip(c: Rgb)
    requires HsvDefined(c)
    ensures HsvToRgb(RgbToHsv(c)) == c
  {
    var maxc := RealMax3(c.red, c.green, c.blue);
    var minc := RealMin3(c.red, c.green, c.blue);
    if minc != maxc {
      if c.red == maxc {
        RedPeakRoundTrip(c);
      } else if c.green == maxc {
        GreenPeakRoundTrip(c);
      } else {
        BluePeakRoundTrip(c);
      }
    }
  }

  /** The chroma facts shared by the three cases: `v*s` is the spread of
      the channels and `v(1-s)` the smallest one. */
  lemma ChromaFacts(c: Rgb)
    requires HsvDefined(c)
    requires RealMin3(c.red, c.green, c.blue) != RealMax3(c.red, c.green, c.blue)
    ensures var hsv := RgbToHsv(c);
      && hsv.saturation != 0.0
      && hsv.value == RealMax3(c.red, c.green, c.blue)
      && hsv.value * hsv.saturation == RealMax3(c.red, c.green, c.blue) - RealMin3(c.red, c.green, c.blue)
  {
    var maxc := RealMax3(c.red, c.green, c.blue);
    var minc := RealMin3(c.red, c.green, c.blue);
    var hsv := RgbToHsv(c);
    assert hsv.saturation == (maxc - minc) / maxc;
    assert hsv.saturation * maxc == maxc - minc;
  }

  /** `hsv_to_rgb` once the sector `i` and the offset `f` inside it are known,
      written with the chroma `m = v*s`. */
  lemma HsvToRgbInSector(h: real, s: real, v: real, m: real, i: int, f: real)
    requires s != 0.0 && 0 <= i < 6 && 0.0 <= f < 1.0
    requires h * 6.0 == i as real + f && v * s == m
    ensures var r := HsvToRgb(Hsv(h, s, v));
      && (i == 0 ==> r == Rgb(v, v - m + m * f, v - m))
      && (i == 1 ==> r == Rgb(v - m * f, v, v - m))
      && (i == 2 ==> r == Rgb(v - m, v, v - m + m * f))
      && (i == 3 ==> r == Rgb(v - m, v - m * f, v))
      && (i == 4 ==> r == Rgb(v - m + m * f, v - m, v))
      && (i == 5 ==> r == Rgb(v, v - m, v - m * f))
  {
    assert Truncate(h * 6.0) == i;
    assert h * 6.0 - i as real == f;
    assert i % 6 == i;
    ChromaProducts(s, v, m, f);
    assert HsvToRgb(Hsv(h, s, v)) == Sector(i, v, v - m, v - m * f, v - m + m * f);
  }

  /** The three products `hsv_to_rgb` forms, in terms of the chroma `m = v*s`. */
  lemma ChromaProducts(s: real, v: real, m: real, f: real)
    requires v * s == m
    ensures v * (1.0 - s) == v - m
    ensures v * (1.0 - s * f) == v - m * f
    ensures v * (1.0 - s * (1.0 - f)) == v - m + m * f
  {
    assert v * (s * f) == (v * s) * f;
  }

  /** A quotient `a/d` with `|a| <= d` lies in [-1, 1], strictly inside
      when `|a| < d`, and has the sign of `a`. */
  lemma UnitQuotient(a: real, d: real)
    requires 0.0 < d && -d <= a <= d
    ensures (a / d) * d == a
    ensures -1.0 <= a / d <= 1.0
    ensures a < d ==> a / d < 1.0
    ensures -d < a ==> -1.0 < a / d
    ensures a < 0.0 <==> a / d < 0.0
  {
    var q := a / d;
    assert q * d == a;
    assert (q + 1.0) * d == a + d;
    assert (1.0 - q) * d == d - a;
  }

  /** The hue `rgb_to_hsv` computes, per peak channel, with its two
      quotients combined into one. */
  lemma PeakHue(c: Rgb)
    requires HsvDefined(c)
    requires RealMin3(c.red, c.green, c.blue) != RealMax3(c.red, c.green, c.blue)
    ensures var rangec := RealMax3(c.red, c.green, c.blue) - RealMin3(c.red, c.green, c.blue);
      var h := RgbToHsv(c).hue;
      && (c.red == RealMax3(c.red, c.green, c.blue) ==>
            h == FracPart(((c.green - c.blue) / rangec) / 6.0))
      && (c.red != RealMax3(c.red, c.green, c.blue) && c.green == RealMax3(c.red, c.green, c.blue) ==>
            h == FracPart((2.0 + (c.blue - c.red) / rangec) / 6.0))
      && (c.red != RealMax3(c.red, c.green, c.blue) && c.green != RealMax3(c.red, c.green, c.blue) ==>
            h == FracPart((4.0 + (c.red - c.green) / rangec) / 6.0))
  {
    var maxc := RealMax3(c.red, c.green, c.blue);
    var rangec := maxc - RealMin3(c.red, c.green, c.blue);
    SubtractQuotients(maxc - c.blue, maxc - c.green, rangec);
    SubtractQuotients(maxc - c.red, maxc - c.blue, rangec);
    SubtractQuotients(maxc - c.green, maxc - c.red, rangec);
  }

  lemma SubtractQuotients(a: real, b: real, d: real)
    requires d != 0.0
    ensures a / d - b / d == (a - b) / d
  {
  }

  lemma RedPeakRoundTrip(c: Rgb)
    requires HsvDefined(c)
    requires RealMin3(c.red, c.green, c.blue) != RealMax3(c.red, c.green, c.blue)
    requires c.red == RealMax3(c.red, c.green, c.blue)
    ensures HsvToRgb(RgbToHsv(c)) == c
  {
    var hsv := RgbToHsv(c);
    ChromaFacts(c);
    PeakHue(c);
    RedPeak(c.red, c.green, c.blue, RealMin3(c.red, c.green, c.blue), hsv.hue, hsv.saturation);
  }

  lemma GreenPeakRoundTrip(c: Rgb)
    requires HsvDefined(c)
    requires RealMin3(c.red, c.green, c.blue) != RealMax3(c.red, c.green, c.blue)
    requires c.red != RealMax3(c.red, c.green, c.blue)
    requires c.green == RealMax3(c.red, c.green, c.blue)
    ensures HsvToRgb(RgbToHsv(c)) == c
  {
    var hsv := RgbToHsv(c);
    ChromaFacts(c);
    PeakHue(c);
    GreenPeak(c.red, c.green, c.blue, RealMin3(c.red, c.green, c.blue), hsv.hue, hsv.saturation);
  }

  lemma BluePeakRoundTrip(c: Rgb)
    requires HsvDefined(c)
    requires RealMin3(c.red, c.green, c.blue) != RealMax3(c.red, c.green, c.blue)
    requires c.red != RealMax3(c.red, c.green, c.blue)
    requires c.green != RealMax3(c.red, c.green, c.blue)
    ensures HsvToRgb(RgbToHsv(c)) == c
  {
    var hsv := RgbToHsv(c);
    ChromaFacts(c);
    PeakHue(c);
    BluePeak(c.red, c.green, c.blue, RealMin3(c.red, c.green, c.blue), hsv.hue, hsv.saturation);
  }

  /** Python's `x % 1.0` leaves a value in [0, 1) alone ... */
  lemma FracOfUnit(y: real)
    requires 0.0 <= y < 1.0
    ensures FracPart(y) == y
  {
  }

  /** ... and lifts a value in [-1, 0) by one turn. */
  lemma FracOfNegative(y: real)
    requires -1.0 <= y < 0.0
    ensures FracPart(y) == y + 1.0
  {
  }

  /** Red is the largest channel: hue and chroma lead back to (r, g, b). */
  lemma RedPeak(r: real, g: real, b: real, mn: real, h: real, s: real)
    requires mn < r && g <= r && b <= r && mn <= g && mn <= b && (mn == g || mn == b)
    requires s != 0.0 && r * s == r - mn
    requires h == FracPart(((g - b) / (r - mn)) / 6.0)
    ensures HsvToRgb(Hsv(h, s, r)) == Rgb(r, g, b)
  {
    var m := r - mn;
    var x := (g - b) / m;
    UnitQuotient(g - b, m);
    if x >= 0.0 {
      FracOfUnit(x / 6.0);
      RedRising(r, g, b, mn, h, s, m, x);
    } else {
      FracOfNegative(x / 6.0);
      RedFalling(r, g, b, mn, h, s, m, x);
    }
  }

  /** Red peak, green at least blue: sector 0, or the edge of sector 1. */
  lemma RedRising(r: real, g: real, b: real, mn: real, h: real, s: real, m: real, x: real)
    requires mn < r && g <= r && b <= r && mn <= g && mn <= b && (mn == g || mn == b)
    requires m == r - mn && s != 0.0 && r * s == m
    requires 0.0 <= x <= 1.0 && x * m == g - b && h * 6.0 == x
    ensures HsvToRgb(Hsv(h, s, r)) == Rgb(r, g, b)
  {
    if x < 1.0 {
      assert b == mn;
      HsvToRgbInSector(h, s, r, m, 0, x);
    } else {
      assert x == 1.0 && x * m == m;
      assert g == r && b == mn;
      HsvToRgbInSector(h, s, r, m, 1, 0.0);
    }
  }

  /** Red peak, blue above green: sector 5. */
  lemma RedFalling(r: real, g: real, b: real, mn: real, h: real, s: real, m: real, x: real)
    requires mn < r && g <= r && b <= r && mn <= g && mn <= b && (mn == g || mn == b)
    requires m == r - mn && s != 0.0 && r * s == m
    requires -1.0 <= x < 0.0 && x * m == g - b && h * 6.0 == 6.0 + x
    ensures HsvToRgb(Hsv(h, s, r)) == Rgb(r, g, b)
  {
    assert g == mn;
    assert (x + 1.0) * m == x * m + m;
    HsvToRgbInSector(h, s, r, m, 5, x + 1.0);
  }

  /** Green is the largest channel and red is not. */
  lemma GreenPeak(r: real, g: real, b: real, mn: real, h: real, s: real)
    requires mn < g && r < g && b <= g && mn <= r && mn <= b && (mn == r || mn == b)
    requires s != 0.0 && g * s == g - mn
    requires h == FracPart((2.0 + (b - r) / (g - mn)) / 6.0)
    ensures HsvToRgb(Hsv(h, s, g)) == Rgb(r, g, b)
  {
    var m := g - mn;
    var y := (b - r) / m;
    UnitQuotient(b - r, m);
    FracOfUnit((2.0 + y) / 6.0);
    GreenSectors(r, g, b, mn, h, s, m, y);
  }

  /** Green peak: sectors 1 to 3. */
  lemma GreenSectors(r: real, g: real, b: real, mn: real, h: real, s: real, m: real, y: real)
    requires mn < g && r < g && b <= g && mn <= r && mn <= b && (mn == r || mn == b)
    requires m == g - mn && s != 0.0 && g * s == m
    requires -1.0 < y <= 1.0 && y * m == b - r && h * 6.0 == 2.0 + y
    ensures HsvToRgb(Hsv(h, s, g)) == Rgb(r, g, b)
  {
    if y < 0.0 {
      assert b == mn;
      assert (1.0 + y) * m == m + y * m;
      HsvToRgbInSector(h, s, g, m, 1, 1.0 + y);
    } else if y < 1.0 {
      assert r == mn;
      HsvToRgbInSector(h, s, g, m, 2, y);
    } else {
      assert y == 1.0 && y * m == m;
      assert r == mn && b == g;
      HsvToRgbInSector(h, s, g, m, 3, 0.0);
    }
  }

  /** Blue is the largest channel and neither red nor green is. */
  lemma BluePeak(r: real, g: real, b: real, mn: real, h: real, s: real)
    requires mn < b && r < b && g < b && mn <= r && mn <= g && (mn == r || mn == g)
    requires s != 0.0 && b * s == b - mn
    requires h == FracPart((4.0 + (r - g) / (b - mn)) / 6.0)
    ensures HsvToRgb(Hsv(h, s, b)) == Rgb(r, g, b)
  {
    var m := b - mn;
    var y := (r - g) / m;
    UnitQuotient(r - g, m);
    FracOfUnit((4.0 + y) / 6.0);
    BlueSectors(r, g, b, mn, h, s, m, y);
  }

  /** Blue peak: sectors 3 and 4. */
  lemma BlueSectors(r: real, g: real, b: real, mn: real, h: real, s: real, m: real, y: real)
    requires mn < b && r < b && g < b && mn <= r && mn <= g && (mn == r || mn == g)
    requires m == b - mn && s != 0.0 && b * s == m
    requires -1.0 < y < 1.0 && y * m == r - g && h * 6.0 == 4.0 + y
    ensures HsvToRgb(Hsv(h, s, b)) == Rgb(r, g, b)
  {
    if y < 0.0 {
      assert r == mn;
      assert (1.0 + y) * m == m + y * m;
      HsvToRgbInSector(h, s, b, m, 3, 1.0 + y);
    } else {
      assert g == mn;
      HsvToRgbInSector(h, s, b, m, 4, y);
    }
  }

  /** Two spread colours with the same peak channel whose channel
      differences stand in the same ratios to the spread have the same hue. */
  lemma HueFromQuotients(c: Rgb, d: Rgb)
    requires HsvDefined(c) && HsvDefined(d)
    requires RealMin3(c.red, c.green, c.blue) != RealMax3(c.red, c.green, c.blue)
    requires RealMin3(d.red, d.green, d.blue) != RealMax3(d.red, d.green, d.blue)
    requires var mx, dx := RealMax3(c.red, c.green, c.blue), RealMax3(d.red, d.green, d.blue);
      && (d.red == dx <==> c.red == mx)
      && (d.green == dx <==> c.green == mx)
    requires var spread := RealMax3(c.red, c.green, c.blue) - RealMin3(c.red, c.green, c.blue);
      var dspread := RealMax3(d.red, d.green, d.blue) - RealMin3(d.red, d.green, d.blue);
      && (d.green - d.blue) / dspread == (c.green - c.blue) / spread
      && (d.blue - d.red) / dspread == (c.blue - c.red) / spread
      && (d.red - d.green) / dspread == (c.red - c.green) / spread
    ensures RgbToHsv(d).hue == RgbToHsv(c).hue
  {
    PeakHue(c);
    PeakHue(d);
  }

  lemma ScaledQuotient(x: real, y: real, k: real)
    requires y != 0.0 && k != 0.0
    ensures (k * x) / (k * y) == x / y
  {
  }
}
