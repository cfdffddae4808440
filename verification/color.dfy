/** color_scheme_generator/color_scheme_generator.py: the `Color` container,
    the expansion of a color by a scheme and by a preset, and the palette
    that nests the two. Python's lazy generators are finite sequences here. */
module ColorScheme {
  import opened Numeric
  import opened Outcomes
  import opened Constants
  import opened ColorSys
  import opened HexCodec

  // ---------------------------------------------------------------- Color

  /** A `Color` keeps only its HSV triple; RGB and hex are derived from it. */
  datatype Color = Color(hsv: Hsv)

  /** The `rgb` property: `hsv_to_rgb` of the stored triple. */
  function ColorRgb(c: Color): (r: Rgb)
    ensures c.hsv.saturation == 0.0 ==> r == Rgb(c.hsv.value, c.hsv.value, c.hsv.value)
  {
    HsvToRgb(c.hsv)
  }

  /** The `hex` property: `rgb_to_hex` of the `rgb` property. */
  function ColorHex(c: Color): (r: string)
    ensures 7 <= |r| && r[0] == '#'
  {
    RgbToHex(ColorRgb(c))
  }

  /** The keyword arguments of `Color(**kwargs)`; `None` is an absent key. */
  datatype ColorArgs = ColorArgs(hsv: Option<Hsv>, rgb: Option<Rgb>, hex: Option<string>)

  /** The default color, pure red. */
  const DefaultHsv: Hsv := Hsv(0.0, 1.0, 1.0)

  /** `from_rgb`: the HSV triple `rgb_to_hsv` computes; ZeroDivisionError
      when the conversion divides by a zero largest channel. The triple
      converts back to the very channels it came from. */
  function FromRgb(x: Rgb): (r: Result<Color>)
    ensures r.Ok? <==> HsvDefined(x)
    ensures r.Err? ==> r.error == DivisionByZero
    ensures r.Ok? ==> ColorRgb(r.value) == x
    ensures r.Ok? ==> r.value.hsv.value == RealMax3(x.red, x.green, x.blue)
  {
    if HsvDefined(x) then
      HsvRoundTrip(x);
      Ok(Color(RgbToHsv(x)))
    else Err(DivisionByZero)
  }

  /** `from_hex`: parse, then `from_rgb`. Parsed channels are never negative,
      so the only failure left is the parse error of `int(s, 16)`. */
  function FromHex(h: string): (r: Result<Color>)
    requires HexInput(h)
    ensures r.Ok? <==> HexToRgb(h).Ok?
    ensures r.Err? ==> r.error == InvalidLiteral
    ensures r.Ok? ==> ColorRgb(r.value) == HexToRgb(h).value
  {
    var x :- HexToRgb(h);
    ParsedNonNegative(h);
    ParseErrors(h);
    FromRgb(x)
  }

  /** `hex_to_rgb` only ever fails with the ValueError of `int(s, 16)`. */
  lemma ParseErrors(h: string)
    requires HexInput(h)
    ensures HexToRgb(h).Err? ==> HexToRgb(h).error == InvalidLiteral
  {
  }

  /** A hex string is only required to be hex text when it is the argument
      that is actually used. */
  predicate ArgsWellFormed(args: ColorArgs) {
    args.hsv.None? && args.rgb.None? && args.hex.Some? ==> HexInput(args.hex.value)
  }

  /** `Color.__init__`: the first of `hsv`, `rgb`, `hex` that is present
      decides; with none of them the color is red. */
  function NewColor(args: ColorArgs): (r: Result<Color>)
    requires ArgsWellFormed(args)
    ensures args.hsv.Some? ==> r == Ok(Color(args.hsv.value))
    ensures args.hsv.None? && args.rgb.None? && args.hex.None? ==> r == Ok(Color(DefaultHsv))
    ensures r.Err? ==> args.hsv.None? && (args.rgb.Some? || args.hex.Some?)
  {
    match args
    case ColorArgs(Some(hsv), _, _) => Ok(Color(hsv))
    case ColorArgs(None, Some(rgb), _) => FromRgb(rgb)
    case ColorArgs(None, None, Some(hex)) => FromHex(hex)
    case ColorArgs(None, None, None) => Ok(Color(DefaultHsv))
  }

  /** `hsv` wins over `rgb` and `hex`, and `rgb` wins over `hex`: the
      arguments of lower rank can be dropped without changing the color. */
  lemma ConstructorPrecedence(args: ColorArgs)
    requires ArgsWellFormed(args)
    ensures args.hsv.Some? ==> NewColor(args) == NewColor(ColorArgs(args.hsv, None, None))
    ensures args.hsv.None? && args.rgb.Some? ==>
      NewColor(args) == NewColor(ColorArgs(None, args.rgb, None))
  {
  }

  /** `from_hsv` stores the triple verbatim and the `hsv` property hands it
      back unchanged, whatever else was passed. */
  lemma HsvStoredVerbatim(x: Hsv, rgb: Option<Rgb>, hex: Option<string>)
    ensures var r := NewColor(ColorArgs(Some(x), rgb, hex));
      r.Ok? && r.value.hsv == x
  {
  }

  /** The `rgb` path gives back the channels it was given, and fails exactly
      when `rgb_to_hsv` divides by zero. */
  lemma RgbArgumentRoundTrip(x: Rgb, hex: Option<string>)
    ensures var r := NewColor(ColorArgs(None, Some(x), hex));
      && (r.Ok? <==> HsvDefined(x))
      && (r.Ok? ==> ColorRgb(r.value) == x)
  {
  }

  /** The `hex` path: six hex digits come back as their upper-case form. */
  lemma HexArgumentRoundTrip(h: string)
    requires HexInput(h)
    requires |StripHash(h)| == 6 && AllHexDigits(StripHash(h))
    ensures var r := NewColor(ColorArgs(None, None, Some(h)));
      r.Ok? && ColorHex(r.value) == "#" + Upper(StripHash(h))
  {
    HexRoundTrip(h);
    var r := NewColor(ColorArgs(None, None, Some(h)));
    assert r == FromHex(h);
    var x := HexToRgb(h).value;
    assert ColorRgb(r.value) == x;
    assert ColorHex(r.value) == RgbToHex(x);
  }

  // ---------------------------------------------------------------- documented colors

  /** `Color()` stores HSV (0, 1, 1) and reads back as "#FF0000". */
  lemma DefaultIsRed()
    ensures NewColor(ColorArgs(None, None, None)) == Ok(Color(DefaultHsv))
    ensures ColorRgb(Color(DefaultHsv)) == Rgb(1.0, 0.0, 0.0)
    ensures ColorHex(Color(DefaultHsv)) == "#FF0000"
  {
    RedRgb(Color(DefaultHsv));
    RgbToHexRed();
  }

  lemma RedRgb(c: Color)
    requires c.hsv == Hsv(0.0, 1.0, 1.0)
    ensures ColorRgb(c) == Rgb(1.0, 0.0, 0.0)
  {
    HsvToRgbInSector(0.0, 1.0, 1.0, 1.0, 0, 0.0);
  }

  /** `Color(rgb=(1.0, 1.0, 1.0)).hex` is "#FFFFFF". */
  lemma WhiteHex()
    ensures var r := NewColor(ColorArgs(None, Some(Rgb(1.0, 1.0, 1.0)), None));
      r.Ok? && ColorHex(r.value) == "#FFFFFF"
  {
    var x := Rgb(1.0, 1.0, 1.0);
    assert HsvDefined(x);
    RgbArgumentRoundTrip(x, None);
    var r := NewColor(ColorArgs(None, Some(x), None));
    assert ColorHex(r.value) == RgbToHex(x);
    WhiteText(x);
  }

  lemma WhiteText(c: Rgb)
    requires c == Rgb(1.0, 1.0, 1.0)
    ensures RgbToHex(c) == "#FFFFFF"
  {
    assert "#" + "FF" + "FF" + "FF" == "#FFFFFF";
    ByteTexts();
    RgbToHexOnGrid(c, 255, 255, 255);
  }

  /** `Color(hex="#FF5858")` reads back as "#FF5858"; its green channel is
      88/255 and its saturation 167/255. */
  lemma Salmon()
    ensures var r := NewColor(ColorArgs(None, None, Some("#FF5858")));
      && r.Ok?
      && ColorHex(r.value) == "#FF5858"
      && ColorRgb(r.value).green == 88.0 / 255.0
      && r.value.hsv.saturation == 167.0 / 255.0
  {
    SalmonFrom("#FF5858");
  }

  lemma SalmonFrom(h: string)
    requires h == "#FF5858"
    ensures HexInput(h)
    ensures var r := NewColor(ColorArgs(None, None, Some(h)));
      && r.Ok?
      && ColorHex(r.value) == "#FF5858"
      && ColorRgb(r.value).green == 88.0 / 255.0
      && r.value.hsv.saturation == 167.0 / 255.0
  {
    var x := Rgb(1.0, 88.0 / 255.0, 88.0 / 255.0);
    SalmonParse(h, x);
    ParsedColor(h, x);
    SalmonHsv(x);
    SalmonText(x);
  }

  /** The color built from hex text is the one built from its parsed channels. */
  lemma ParsedColor(h: string, x: Rgb)
    requires HexInput(h) && HexToRgb(h) == Ok(x)
    ensures var r := NewColor(ColorArgs(None, None, Some(h)));
      && HsvDefined(x) && r == Ok(Color(RgbToHsv(x)))
      && ColorRgb(r.value) == x && ColorHex(r.value) == RgbToHex(x)
  {
    assert NewColor(ColorArgs(None, None, Some(h))) == FromHex(h);
  }

  lemma SalmonParse(h: string, x: Rgb)
    requires h == "#FF5858" && x == Rgb(1.0, 88.0 / 255.0, 88.0 / 255.0)
    ensures HexInput(h) && HexToRgb(h) == Ok(x)
  {
    var t := ByteText(255) + ByteText(88) + ByteText(88);
    ParseBytes(t, 255, 88, 88);
    SalmonBytes();
    assert "#" + t == h;
  }

  lemma SalmonBytes()
    ensures ByteText(255) == "FF" && ByteText(88) == "58"
    ensures "#" + "FF" + "58" + "58" == "#FF5858"
  {
  }

  lemma SalmonHsv(x: Rgb)
    requires x == Rgb(1.0, 88.0 / 255.0, 88.0 / 255.0)
    ensures HsvDefined(x) && RgbToHsv(x).saturation == 167.0 / 255.0
  {
  }

  lemma SalmonText(x: Rgb)
    requires x == Rgb(1.0, 88.0 / 255.0, 88.0 / 255.0)
    ensures RgbToHex(x) == "#FF5858"
  {
    RgbToHexOnGrid(x, 255, 88, 88);
    SalmonBytes();
  }

  // ---------------------------------------------------------------- schemes and presets

  /** `generate_from_scheme`: the scheme name is looked up (KeyError when it
      is unknown) and the color itself is the only one yielded. */
  function GenerateFromScheme(color: Color, scheme: string): (r: Result<seq<Color>>)
    ensures r.Ok? <==> scheme in Schemes
    ensures r.Err? ==> r.error == MissingKey
    ensures r.Ok? ==> |r.value| == 1 && r.value[0] == color
  {
    if scheme in Schemes then Ok([color]) else Err(MissingKey)
  }

  /** One step of `generate_from_preset`: hue kept, saturation and value
      multiplied by the pair's ratios, no clamping. */
  function Scaled(color: Color, ratio: RatioPair): (r: Color)
    ensures r.hsv.hue == color.hsv.hue
    ensures ratio.0 == 1.0 ==> r.hsv.saturation == color.hsv.saturation
    ensures ratio.1 == 1.0 ==> r.hsv.value == color.hsv.value
  {
    Color(Hsv(color.hsv.hue, color.hsv.saturation * ratio.0, color.hsv.value * ratio.1))
  }

  /** The colors `generate_from_preset` yields for a list of ratio pairs,
      one per pair, in the order of the pairs. */
  function ScaleByRatios(color: Color, ratios: seq<RatioPair>): (r: seq<Color>)
    ensures |r| == |ratios|
    ensures forall i :: 0 <= i < |r| ==>
      && r[i].hsv.hue == color.hsv.hue
      && r[i].hsv.saturation == color.hsv.saturation * ratios[i].0
      && r[i].hsv.value == color.hsv.value * ratios[i].1
  {
    if ratios == [] then [] else [Scaled(color, ratios[0])] + ScaleByRatios(color, ratios[1..])
  }

  /** Scaling by a list of pairs is scaling by each part in turn. */
  lemma {:induction false} ScaleByRatiosAppend(color: Color, a: seq<RatioPair>, b: seq<RatioPair>)
    ensures ScaleByRatios(color, a + b) == ScaleByRatios(color, a) + ScaleByRatios(color, b)
  {
    if a == [] {
      assert a + b == b;
    } else {
      assert (a + b)[1..] == a[1..] + b;
      ScaleByRatiosAppend(color, a[1..], b);
    }
  }

  /** The pair (1, 1) yields the input color itself. */
  lemma UnitRatioKeepsColor(color: Color, ratios: seq<RatioPair>, i: nat)
    requires i < |ratios| && ratios[i] == (1.0, 1.0)
    ensures ScaleByRatios(color, ratios)[i] == color
  {
  }

  /** Scaling twice multiplies the ratios. */
  lemma ScaledTwice(color: Color, a: RatioPair, b: RatioPair)
    ensures Scaled(Scaled(color, a), b) == Scaled(color, (a.0 * b.0, a.1 * b.1))
  {
    var h := color.hsv;
    assert (h.saturation * a.0) * b.0 == h.saturation * (a.0 * b.0);
    assert (h.value * a.1) * b.1 == h.value * (a.1 * b.1);
  }

  /** `generate_from_preset`: KeyError for an unknown preset, otherwise one
      scaled color per pair of the preset. */
  function GenerateFromPreset(color: Color, preset: string): (r: Result<seq<Color>>)
    ensures r.Ok? <==> preset in Presets
    ensures r.Err? ==> r.error == MissingKey
    ensures r.Ok? ==> |r.value| == |Presets[preset]|
  {
    if preset in Presets then Ok(ScaleByRatios(color, Presets[preset])) else Err(MissingKey)
  }

  // ---------------------------------------------------------------- palette

  /** `Palette`: one sequence of tones per color of the scheme. */
  datatype Palette = Palette(tones: seq<seq<Color>>)

  /** The tones of every base color, in the order of the bases. */
  function TonesOf(bases: seq<Color>, preset: string): (r: Result<seq<seq<Color>>>)
    ensures r.Err? <==> bases != [] && preset !in Presets
    ensures r.Ok? ==> |r.value| == |bases|
    ensures r.Ok? ==> forall i :: 0 <= i < |bases| ==>
      r.value[i] == ScaleByRatios(bases[i], Presets[preset])
  {
    if bases == [] then Ok([])
    else match GenerateFromPreset(bases[0], preset)
      case Err(e) => Err(e)
      case Ok(first) =>
        match TonesOf(bases[1..], preset)
        case Err(e) => Err(e)
        case Ok(rest) => Ok([first] + rest)
  }

  /** `generate_palette`: the scheme's colors, each expanded by the preset. */
  function GeneratePalette(color: Color, scheme: string, preset: string): (r: Result<Palette>)
    ensures r.Ok? <==> scheme in Schemes && preset in Presets
    ensures r.Err? ==> r.error == MissingKey
    ensures r.Ok? ==> forall i :: 0 <= i < |r.value.tones| ==> |r.value.tones[i]| == |Presets[preset]|
  {
    var bases :- GenerateFromScheme(color, scheme);
    var tones :- TonesOf(bases, preset);
    Ok(Palette(tones))
  }

  /** A palette exists exactly when both names are registered; it then holds
      one tone sequence, as long as the preset, made of the scaled color. */
  lemma PaletteShape(color: Color, scheme: string, preset: string)
    ensures GeneratePalette(color, scheme, preset).Ok? <==> scheme in Schemes && preset in Presets
    ensures GeneratePalette(color, scheme, preset).Err? ==>
      GeneratePalette(color, scheme, preset).error == MissingKey
    ensures GeneratePalette(color, scheme, preset).Ok? ==>
      var tones := GeneratePalette(color, scheme, preset).value.tones;
      && |tones| == 1
      && |tones[0]| == |Presets[preset]|
      && tones[0] == ScaleByRatios(color, Presets[preset])
  {
  }

  // ---------------------------------------------------------------- the pastel palette of red

  /** The palette of the default red with scheme "mono" and preset "pastel":
      light to dark, in preset order, "#FF6363", "#FF3A3A", "#FF0000",
      "#BA0000", "#990000". */
  lemma PastelFromRed()
    ensures var p := GeneratePalette(Color(DefaultHsv), "mono", "pastel");
      && p.Ok? && |p.value.tones| == 1 && |p.value.tones[0]| == 5
      && ColorHex(p.value.tones[0][0]) == "#FF6363"
      && ColorHex(p.value.tones[0][1]) == "#FF3A3A"
      && ColorHex(p.value.tones[0][2]) == "#FF0000"
      && ColorHex(p.value.tones[0][3]) == "#BA0000"
      && ColorHex(p.value.tones[0][4]) == "#990000"
  {
    PaletteShape(Color(DefaultHsv), "mono", "pastel");
    var tones := GeneratePalette(Color(DefaultHsv), "mono", "pastel").value.tones[0];
    assert tones == ScaleByRatios(Color(DefaultHsv), Pastel);
    PastelTone(tones[0], 0.61, 1.0, "#FF6363");
    PastelTone(tones[1], 0.77, 1.0, "#FF3A3A");
    PastelTone(tones[2], 1.0, 1.0, "#FF0000");
    PastelTone(tones[3], 1.0, 0.73, "#BA0000");
    PastelTone(tones[4], 1.0, 0.6, "#990000");
  }

  /** The hex text of one pastel tone of red. */
  lemma PastelTone(c: Color, s: real, v: real, text: string)
    requires c.hsv.hue == 0.0 && c.hsv.saturation == s && c.hsv.value == v
    requires (s, v, text) in {(0.61, 1.0, "#FF6363"), (0.77, 1.0, "#FF3A3A"), (1.0, 1.0, "#FF0000"),
                              (1.0, 0.73, "#BA0000"), (1.0, 0.6, "#990000")}
    ensures ColorHex(c) == text
  {
    PastelBytes();
    if v == 1.0 && s != 1.0 {
      var k := if s == 0.61 then 99 else 58;
      LightTone(c, s, k, text);
    } else {
      var k := if v == 1.0 then 255 else if v == 0.73 then 186 else 153;
      DarkTone(c, v, k, text);
    }
  }

  lemma PastelBytes()
    ensures ByteText(255) == "FF" && ByteText(0) == "00"
    ensures ByteText(99) == "63" && ByteText(58) == "3A"
    ensures ByteText(186) == "BA" && ByteText(153) == "99"
    ensures "#" + "FF" + "63" + "63" == "#FF6363"
    ensures "#" + "FF" + "3A" + "3A" == "#FF3A3A"
    ensures "#" + "FF" + "00" + "00" == "#FF0000"
    ensures "#" + "BA" + "00" + "00" == "#BA0000"
    ensures "#" + "99" + "00" + "00" == "#990000"
  {
  }

  /** Red at full value and saturation `s` in (0, 1]: the other two channels
      are `1 - s`, written as the byte `k = int(255 * (1 - s))`. */
  lemma LightTone(c: Color, s: real, k: nat, text: string)
    requires c.hsv == Hsv(0.0, s, 1.0) && 0.0 < s <= 1.0
    requires k as real <= (1.0 - s) * 255.0 < k as real + 1.0
    requires k <= 255 && "#" + ByteText(255) + ByteText(k) + ByteText(k) == text
    ensures ColorHex(c) == text
  {
    HsvToRgbInSector(0.0, s, 1.0, s, 0, 0.0);
    assert ColorRgb(c) == Rgb(1.0, 1.0 - s, 1.0 - s);
    RgbToHexInUnitCube(ColorRgb(c), 255, k, k);
  }

  /** Red at full saturation and value `v` in [0, 1]: only the red channel
      is lit, written as the byte `k = int(255 * v)`. */
  lemma DarkTone(c: Color, v: real, k: nat, text: string)
    requires c.hsv == Hsv(0.0, 1.0, v) && 0.0 <= v <= 1.0
    requires k as real <= v * 255.0 < k as real + 1.0
    requires k <= 255 && "#" + ByteText(k) + ByteText(0) + ByteText(0) == text
    ensures ColorHex(c) == text
  {
    HsvToRgbInSector(0.0, 1.0, v, v, 0, 0.0);
    assert ColorRgb(c) == Rgb(v, 0.0, 0.0);
    RgbToHexInUnitCube(ColorRgb(c), k, 0, 0);
  }
}
