/** `Paletton.__init__`: a wheel of anchor colours keyed by degree and a
    table of presets, from which the expanded wheel and the hue offsets are
    derived once, and the round trips between the two lookups that use
    them. */
module Paletton {
  import opened Outcomes
  import opened Constants
  import opened ColorSys
  import opened Wheel
  import opened HueLookup

  /** A configured paletton: the anchor wheel and presets it was given and
      the two tables derived from the wheel. */
  datatype Paletton = Paletton(
    colorWheel: map<int, Triple>,
    presets: map<string, seq<RatioPair>>,
    expandedColorWheel: map<int, Triple>,
    hueOffsets: map<int, int>)

  /** `Paletton(COLOR_WHEEL=wheel, PRESETS=presets)`: expand the wheel,
      then file its first 360 degrees under their hues. An empty wheel
      cannot be unpacked into three channels. */
  function NewPaletton(wheel: map<int, Triple>, presets: map<string, seq<RatioPair>>): (r: Result<Paletton>)
    ensures |wheel| == 0 ==> r == Err(NotEnoughValues)
    ensures r.Err? ==> r.error == NotEnoughValues || r.error == DivisionByZero
    ensures r.Ok? ==> r.value.colorWheel == wheel && r.value.presets == presets
    ensures r.Ok? ==> forall p :: p in r.value.expandedColorWheel <==> 0 <= p < Rate * |wheel|
    ensures r.Ok? ==> forall h :: h in r.value.hueOffsets ==>
      r.value.hueOffsets[h] in r.value.expandedColorWheel && 0 <= r.value.hueOffsets[h] < Turn
  {
    var expanded :- ExpandColorWheel(wheel);
    var offsets :- CalculateHueOffsets(expanded);
    OffsetsInWheel(expanded, offsets);
    Ok(Paletton(wheel, presets, expanded, offsets))
  }

  /** Every degree the hue offsets name is a degree of the wheel below 360. */
  lemma OffsetsInWheel(expanded: map<int, Triple>, offsets: map<int, int>)
    requires CalculateHueOffsets(expanded) == Ok(offsets)
    ensures forall h :: h in offsets ==> offsets[h] in expanded && 0 <= offsets[h] < Turn
  {
    assert Offsets(expanded, Turn) == Ok(offsets);
  }

  /** The tables a configured paletton holds are those its wheel derives. */
  lemma Configured(wheel: map<int, Triple>, presets: map<string, seq<RatioPair>>)
    requires NewPaletton(wheel, presets).Ok?
    ensures var p := NewPaletton(wheel, presets).value;
      && ExpandColorWheel(wheel) == Ok(p.expandedColorWheel)
      && CalculateHueOffsets(p.expandedColorWheel) == Ok(p.hueOffsets)
  {
    var expanded := ExpandColorWheel(wheel);
    assert expanded.Ok?;
    var offsets := CalculateHueOffsets(expanded.value);
    assert offsets.Ok?;
    assert NewPaletton(wheel, presets) == Ok(Paletton(wheel, presets, expanded.value, offsets.value));
  }

  /** A non-empty wheel of byte colours always configures, and its hue
      offsets are never empty: degree 0 is filed under its own hue. */
  lemma ByteWheelConfigures(wheel: map<int, Triple>, presets: map<string, seq<RatioPair>>)
    requires |wheel| > 0 && forall k :: k in wheel ==> IsByteTriple(wheel[k])
    ensures NewPaletton(wheel, presets).Ok?
    ensures var p := NewPaletton(wheel, presets).value;
      && p.hueOffsets.Keys != {}
      && forall d :: d in p.expandedColorWheel ==> IsByteTriple(p.expandedColorWheel[d])
  {
    var expanded := ExpandColorWheel(wheel).value;
    ExpandedBytes(wheel);
    forall k | 0 <= k < Turn && k in expanded
      ensures HueKey(expanded[k]).Ok?
    {
      BytesHaveHsv(expanded[k]);
    }
    var offsets := CalculateHueOffsets(expanded).value;
    assert 0 in expanded;
    assert HueKey(expanded[0]).value in offsets;
  }

  /** `from_rgb_to_paletton_hue` then `from_paletton_hue_to_rgb` on a
      configured paletton: the hue of a byte colour is always defined, so
      the lookup succeeds, the degree it returns reads back a wheel colour,
      and that colour's hue is the circular floor of the input's hue among
      the offsets' keys — the input's own hue whenever that is a key. */
  lemma HueRoundTrip(wheel: map<int, Triple>, presets: map<string, seq<RatioPair>>, rgb: Triple)
    requires |wheel| > 0 && forall k :: k in wheel ==> IsByteTriple(wheel[k])
    requires IsByteTriple(rgb)
    ensures NewPaletton(wheel, presets).Ok?
    ensures var p := NewPaletton(wheel, presets).value;
      var hue := FromRgbToPalettonHue(rgb, p.hueOffsets);
      && hue.Ok? && 0 <= hue.value < Turn && hue.value in p.expandedColorWheel
      && FromPalettonHueToRgb(hue.value as real, p.expandedColorWheel) == Ok(p.expandedColorWheel[hue.value])
      && (exists k :: CircularFloor(p.hueOffsets.Keys, HueDegrees(Raw(rgb)).value, k)
            && HueKey(p.expandedColorWheel[hue.value]) == Ok(k))
  {
    ByteWheelConfigures(wheel, presets);
    Configured(wheel, presets);
    var p := NewPaletton(wheel, presets).value;
    BytesHaveHsv(rgb);
    PalettonHueLookup(rgb, p.hueOffsets);
    var hue := FromRgbToPalettonHue(rgb, p.hueOffsets);
    var k :| CircularFloor(p.hueOffsets.Keys, HueDegrees(Raw(rgb)).value, k) && hue == Ok(p.hueOffsets[k]);
    assert HueKey(p.expandedColorWheel[hue.value]) == Ok(k);
    DegreeReadsItsEntry(hue.value, p.expandedColorWheel);
  }

  /** A colour of the expanded wheel itself finds its way back: its hue is
      a key of the offsets, so it maps to the last degree below 360 that
      shares that hue, at or after its own degree. */
  lemma WheelColourRoundTrip(wheel: map<int, Triple>, presets: map<string, seq<RatioPair>>, d: int)
    requires |wheel| > 0 && forall k :: k in wheel ==> IsByteTriple(wheel[k])
    requires 0 <= d < Turn && d < Rate * |wheel|
    ensures NewPaletton(wheel, presets).Ok?
    ensures var p := NewPaletton(wheel, presets).value;
      && d in p.expandedColorWheel
      && var back := FromRgbToPalettonHue(p.expandedColorWheel[d], p.hueOffsets);
      && back.Ok? && back.value in p.expandedColorWheel && d <= back.value < Turn
      && HueKey(p.expandedColorWheel[back.value]) == HueKey(p.expandedColorWheel[d])
  {
    assert NewPaletton(wheel, presets).Ok?
      && var p := NewPaletton(wheel, presets).value;
      && CalculateHueOffsets(p.expandedColorWheel) == Ok(p.hueOffsets)
      && d in p.expandedColorWheel && IsByteTriple(p.expandedColorWheel[d]) by {
      ByteWheelConfigures(wheel, presets);
      Configured(wheel, presets);
    }
    var p := NewPaletton(wheel, presets).value;
    OffsetsRoundTrip(p.expandedColorWheel, p.hueOffsets, d);
  }

  lemma OffsetsRoundTrip(expanded: map<int, Triple>, offsets: map<int, int>, d: int)
    requires CalculateHueOffsets(expanded) == Ok(offsets)
    requires 0 <= d < Turn && d in expanded && IsByteTriple(expanded[d])
    ensures var back := FromRgbToPalettonHue(expanded[d], offsets);
      && back.Ok? && back.value in expanded && d <= back.value < Turn
      && HueKey(expanded[back.value]) == HueKey(expanded[d])
  {
    var c := expanded[d];
    BytesHaveHsv(c);
    SameHueKey(c);
    var h := HueKey(c).value;
    KeyHit(c, offsets, h);
  }

  /** The lookup divides nothing by 255, the offsets do: for a byte
      colour the two hues agree. */
  lemma SameHueKey(c: Triple)
    requires IsByteTriple(c)
    ensures HueKey(c).Ok? && HueDegrees(Raw(c)) == HueKey(c)
  {
    BytesHaveHsv(c);
    RawHue(c);
  }

  /** A hue that is itself a key reads its own entry. */
  lemma KeyHit(rgb: Triple, offsets: map<int, int>, h: int)
    requires HueDegrees(Raw(rgb)) == Ok(h) && h in offsets
    ensures FromRgbToPalettonHue(rgb, offsets) == Ok(offsets[h])
  {
  }
}
