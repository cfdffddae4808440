/** The tone machinery of paletton.py: `make_sv_variations` turns a preset
    of ratio pairs into absolute (saturation, value) targets for one
    colour, and `variations_generator` blends the colour's byte channels
    towards each target. */
module Variations {
  import opened Numeric
  import opened Outcomes
  import opened Constants
  import opened ColorSys
  import opened Wheel
  import opened HueLookup

  /** `calc` inside `make_sv_variations`: a negative ratio `x` asks for
      `-x` times the base component, any other ratio is the target itself,
      and the outcome is clamped to [0, 1]. */
  function Calc(x: real, base: real): (r: real)
    ensures 0.0 <= r <= 1.0
    ensures 0.0 <= x <= 1.0 ==> r == x
    ensures 1.0 < x ==> r == 1.0
    ensures x < 0.0 && 0.0 <= -x * base <= 1.0 ==> r == -x * base
    ensures x < 0.0 && 1.0 < -x * base ==> r == 1.0
    ensures x < 0.0 && -x * base < 0.0 ==> r == 0.0
  {
    var y := if x < 0.0 then -x * base else x;
    if y > 1.0 then 1.0 else if y < 0.0 then 0.0 else y
  }

  /** `make_sv_variations(rgb, preset)`: the base saturation and value are
      those of `rgb / 255`, computed once, before any pair is produced. */
  function MakeSvVariations(rgb: Triple, preset: seq<RatioPair>): (r: Result<seq<RatioPair>>)
    ensures r.Ok? <==> HsvDefined(Normalized(rgb))
    ensures r.Err? ==> r.error == DivisionByZero
    ensures r.Ok? ==> |r.value| == |preset|
    ensures r.Ok? ==> forall i :: 0 <= i < |r.value| ==>
      0.0 <= r.value[i].0 <= 1.0 && 0.0 <= r.value[i].1 <= 1.0
    ensures r.Ok? ==> forall i :: 0 <= i < |r.value| ==>
      && (0.0 <= preset[i].0 <= 1.0 ==> r.value[i].0 == preset[i].0)
      && (0.0 <= preset[i].1 <= 1.0 ==> r.value[i].1 == preset[i].1)
  {
    var base := Normalized(rgb);
    if !HsvDefined(base) then Err(DivisionByZero)
    else
      var hsv := RgbToHsv(base);
      Ok(seq(|preset|, i requires 0 <= i < |preset| =>
        (Calc(preset[i].0, hsv.saturation), Calc(preset[i].1, hsv.value))))
  }

  /** For a colour of byte channels every pair is defined, and a ratio in
      [-1, 0) becomes that fraction of the colour's own saturation or value. */
  lemma RelativeRatios(rgb: Triple, preset: seq<RatioPair>, i: nat)
    requires IsByteTriple(rgb) && i < |preset|
    ensures MakeSvVariations(rgb, preset).Ok?
    ensures var base := RgbToHsv(Normalized(rgb)); var sv := MakeSvVariations(rgb, preset).value[i];
      && (-1.0 <= preset[i].0 < 0.0 ==> sv.0 == Share(preset[i].0, base.saturation))
      && (-1.0 <= preset[i].1 < 0.0 ==> sv.1 == Share(preset[i].1, base.value))
  {
    BaseInUnit(rgb);
    var base := RgbToHsv(Normalized(rgb));
    PairAt(rgb, preset, i);
    RelativePair(preset[i], base.saturation, base.value);
  }

  /** The share a negative ratio `x` asks for of a base component `b`. */
  function Share(x: real, b: real): real { -x * b }

  /** The base saturation and value of a byte colour are fractions. */
  lemma BaseInUnit(rgb: Triple)
    requires IsByteTriple(rgb)
    ensures HsvDefined(Normalized(rgb))
    ensures var base := RgbToHsv(Normalized(rgb));
      0.0 <= base.saturation <= 1.0 && 0.0 <= base.value <= 1.0
  {
    BytesHaveHsv(rgb);
    SaturationInUnit(Normalized(rgb));
  }

  lemma PairAt(rgb: Triple, preset: seq<RatioPair>, i: nat)
    requires HsvDefined(Normalized(rgb)) && i < |preset|
    ensures var base := RgbToHsv(Normalized(rgb));
      MakeSvVariations(rgb, preset).value[i] == (Calc(preset[i].0, base.saturation), Calc(preset[i].1, base.value))
  {
  }

  lemma RelativePair(pair: RatioPair, saturation: real, value: real)
    requires 0.0 <= saturation <= 1.0 && 0.0 <= value <= 1.0
    ensures -1.0 <= pair.0 < 0.0 ==> Calc(pair.0, saturation) == Share(pair.0, saturation)
    ensures -1.0 <= pair.1 < 0.0 ==> Calc(pair.1, value) == Share(pair.1, value)
  {
    if -1.0 <= pair.0 < 0.0 {
      CalcOfFraction(pair.0, saturation);
    }
    if -1.0 <= pair.1 < 0.0 {
      CalcOfFraction(pair.1, value);
    }
  }

  /** A ratio in [-1, 0) of a base in [0, 1] needs no clamping. */
  lemma CalcOfFraction(x: real, base: real)
    requires -1.0 <= x < 0.0 && 0.0 <= base <= 1.0
    ensures Calc(x, base) == Share(x, base)
  {
    assert -x * base <= 1.0 * base;
  }

  /** `max(rgb)`. */
  function MaxChannel(c: Triple): (m: int)
    ensures m == c.0 || m == c.1 || m == c.2
    ensures c.0 <= m && c.1 <= m && c.2 <= m
  {
    if c.0 >= c.1 && c.0 >= c.2 then c.0 else if c.1 >= c.2 then c.1 else c.2
  }

  /** The unrounded channel `variations_generator` makes of channel `c`
      of a colour whose largest channel is `mx`, for the target pair
      (s, v): with `v' = 255 v` and `k = v'/mx` (0 when `mx <= 0`), it is
      `v' - (v' - c k) s`. */
  function Blend(c: int, mx: int, s: real, v: real): (x: real)
    ensures c == mx && mx > 0 ==> x == v * 255.0
    ensures s == 0.0 ==> x == v * 255.0
    ensures mx <= 0 ==> x == v * 255.0 * (1.0 - s)
  {
    var target := v * 255.0;
    var k := if mx > 0 then target / mx as real else 0.0;
    BlendCases(c, mx, s, target, k);
    target - (target - c as real * k) * s
  }

  lemma BlendCases(c: int, mx: int, s: real, target: real, k: real)
    requires k == if mx > 0 then target / mx as real else 0.0
    ensures c == mx && mx > 0 ==> target - (target - c as real * k) * s == target
    ensures s == 0.0 ==> target - (target - c as real * k) * s == target
    ensures mx <= 0 ==> target - (target - c as real * k) * s == target * (1.0 - s)
  {
    if c == mx && mx > 0 {
      assert c as real * k == target;
    }
  }

  /** One channel of a yielded triple: the blend rounded, at most 255. */
  function Tone(c: int, mx: int, s: real, v: real): (r: int)
    ensures r <= 255
    ensures c == mx && mx > 0 ==> r == Min(255, RoundHalfEven(v * 255.0))
    ensures s == 0.0 ==> r == Min(255, RoundHalfEven(v * 255.0))
    ensures mx <= 0 ==> r == Min(255, RoundHalfEven(v * 255.0 * (1.0 - s)))
  {
    Min(255, RoundHalfEven(Blend(c, mx, s, v)))
  }

  /** One yielded triple: every channel blended with the same `k` and `s`. */
  function Variation(rgb: Triple, sv: RatioPair): (r: Triple)
    ensures r.0 <= 255 && r.1 <= 255 && r.2 <= 255
  {
    var mx := MaxChannel(rgb);
    (Tone(rgb.0, mx, sv.0, sv.1), Tone(rgb.1, mx, sv.0, sv.1), Tone(rgb.2, mx, sv.0, sv.1))
  }

  /** No channel of a yielded triple exceeds 255; the largest input channel
      lands on the target value; a zero saturation target gives the grey of
      the target value, and a black colour the grey of `255 v (1 - s)`. */
  lemma VariationCases(rgb: Triple, sv: RatioPair)
    ensures var r := Variation(rgb, sv); r.0 <= 255 && r.1 <= 255 && r.2 <= 255
    ensures var r, mx, peak := Variation(rgb, sv), MaxChannel(rgb), Min(255, RoundHalfEven(sv.1 * 255.0));
      && (mx > 0 && rgb.0 == mx ==> r.0 == peak)
      && (mx > 0 && rgb.1 == mx ==> r.1 == peak)
      && (mx > 0 && rgb.2 == mx ==> r.2 == peak)
    ensures sv.0 == 0.0 ==>
      var g := Min(255, RoundHalfEven(sv.1 * 255.0)); Variation(rgb, sv) == (g, g, g)
    ensures MaxChannel(rgb) <= 0 ==>
      var g := Min(255, RoundHalfEven(sv.1 * 255.0 * (1.0 - sv.0))); Variation(rgb, sv) == (g, g, g)
  {
    var mx, s, v := MaxChannel(rgb), sv.0, sv.1;
    if mx <= 0 {
      var g := Min(255, RoundHalfEven(v * 255.0 * (1.0 - s)));
      ToneOfBlack(rgb.0, mx, s, v);
      ToneOfBlack(rgb.1, mx, s, v);
      ToneOfBlack(rgb.2, mx, s, v);
    }
  }

  lemma ToneOfBlack(c: int, mx: int, s: real, v: real)
    requires mx <= 0
    ensures Tone(c, mx, s, v) == Min(255, RoundHalfEven(v * 255.0 * (1.0 - s)))
  {
  }

  /** `variations_generator(rgb, sv_variations)`: one triple per pair, in
      the order of the pairs. */
  function VariationsGenerator(rgb: Triple, svs: seq<RatioPair>): (r: seq<Triple>)
    ensures |r| == |svs|
    ensures forall i :: 0 <= i < |r| ==> r[i] == Variation(rgb, svs[i])
  {
    seq(|svs|, i requires 0 <= i < |svs| => Variation(rgb, svs[i]))
  }

  /** A channel no larger than the largest, blended towards a target pair
      in the unit square, lands between 0 and `255 v`. */
  lemma BlendInRange(c: int, mx: int, s: real, v: real)
    requires 0 <= c <= mx && 0.0 <= s <= 1.0 && 0.0 <= v <= 1.0
    ensures 0.0 <= Blend(c, mx, s, v) <= v * 255.0
  {
    var target := v * 255.0;
    var k := if mx > 0 then target / mx as real else 0.0;
    BlendBounds(c, mx, s, target, k, c as real * k, Blend(c, mx, s, v));
  }

  lemma BlendBounds(c: int, mx: int, s: real, target: real, k: real, d: real, x: real)
    requires 0 <= c <= mx && 0.0 <= s <= 1.0 && 0.0 <= target
    requires k == if mx > 0 then target / mx as real else 0.0
    requires d == c as real * k && x == target - (target - d) * s
    ensures 0.0 <= x <= target
  {
    if mx > 0 {
      ScaledBelow(c, mx, target, k);
    } else {
      assert d == 0.0;
    }
    assert 0.0 <= d <= target;
    var g := target - d;
    PulledTowards(g, s);
    assert x == target - g * s;
  }

  /** So the `min(255, ...)` of the source never cuts, no channel goes
      negative, and none exceeds the rounded target value. */
  lemma ToneInRange(c: int, mx: int, s: real, v: real)
    requires 0 <= c <= mx && 0.0 <= s <= 1.0 && 0.0 <= v <= 1.0
    ensures var r := Tone(c, mx, s, v);
      && 0 <= r <= RoundHalfEven(v * 255.0) <= 255
      && r == RoundHalfEven(Blend(c, mx, s, v))
  {
    var x := Blend(c, mx, s, v);
    BlendInRange(c, mx, s, v);
    RoundWithin(x, 0, 255);
    RoundWithin(v * 255.0, 0, 255);
    RoundMonotone(x, v * 255.0);
  }

  /** `c * (t / mx)` lies in [0, t] when `0 <= c <= mx`. */
  lemma ScaledBelow(c: int, mx: int, target: real, k: real)
    requires 0 <= c <= mx && 0 < mx && 0.0 <= target && k == target / mx as real
    ensures 0.0 <= c as real * k <= target
  {
    assert mx as real * k == target;
    ScaleMonotone(c as real, mx as real, k);
  }

  /** A fraction `s` of a gap `g` is at most the gap. */
  lemma PulledTowards(g: real, s: real)
    requires 0.0 <= g && 0.0 <= s <= 1.0
    ensures 0.0 <= g * s <= g
  {
    ScaleMonotone(s, 1.0, g);
  }

  lemma ScaleMonotone(a: real, b: real, k: real)
    requires a <= b && 0.0 <= k
    ensures a * k <= b * k
  {
    assert (b - a) * k >= 0.0;
  }

  /** The blend keeps the order of the channels: a brighter input channel
      never yields a darker output one. */
  lemma ToneMonotone(c1: int, c2: int, mx: int, s: real, v: real)
    requires c1 <= c2 && 0.0 <= s && 0.0 <= v
    ensures Tone(c1, mx, s, v) <= Tone(c2, mx, s, v)
  {
    var target := v * 255.0;
    var k := if mx > 0 then target / mx as real else 0.0;
    assert 0.0 <= k;
    ScaleMonotone(c1 as real, c2 as real, k);
    ScaleMonotone(target - c2 as real * k, target - c1 as real * k, s);
    RoundMonotone(Blend(c1, mx, s, v), Blend(c2, mx, s, v));
  }

  /** A yielded triple orders its channels as the input colour does. */
  lemma VariationKeepsOrder(rgb: Triple, sv: RatioPair)
    requires 0.0 <= sv.0 && 0.0 <= sv.1
    ensures var r := Variation(rgb, sv);
      && (rgb.0 <= rgb.1 ==> r.0 <= r.1) && (rgb.1 <= rgb.0 ==> r.1 <= r.0)
      && (rgb.1 <= rgb.2 ==> r.1 <= r.2) && (rgb.2 <= rgb.1 ==> r.2 <= r.1)
      && (rgb.0 <= rgb.2 ==> r.0 <= r.2) && (rgb.2 <= rgb.0 ==> r.2 <= r.0)
  {
    var mx := MaxChannel(rgb);
    if rgb.0 <= rgb.1 { ToneMonotone(rgb.0, rgb.1, mx, sv.0, sv.1); }
    if rgb.1 <= rgb.0 { ToneMonotone(rgb.1, rgb.0, mx, sv.0, sv.1); }
    if rgb.1 <= rgb.2 { ToneMonotone(rgb.1, rgb.2, mx, sv.0, sv.1); }
    if rgb.2 <= rgb.1 { ToneMonotone(rgb.2, rgb.1, mx, sv.0, sv.1); }
    if rgb.0 <= rgb.2 { ToneMonotone(rgb.0, rgb.2, mx, sv.0, sv.1); }
    if rgb.2 <= rgb.0 { ToneMonotone(rgb.2, rgb.0, mx, sv.0, sv.1); }
  }

  /** A byte colour blended towards a pair in the unit square gives a byte
      colour whose largest channel lands on the target value `255 v`, and a
      black colour gives a grey of `255 v (1 - s)`. */
  lemma VariationOfBytes(rgb: Triple, sv: RatioPair)
    requires IsByteTriple(rgb) && 0.0 <= sv.0 <= 1.0 && 0.0 <= sv.1 <= 1.0
    ensures IsByteTriple(Variation(rgb, sv))
    ensures var r := Variation(rgb, sv); var mx := MaxChannel(rgb); var peak := RoundHalfEven(sv.1 * 255.0);
      && (mx > 0 && rgb.0 == mx ==> r.0 == peak)
      && (mx > 0 && rgb.1 == mx ==> r.1 == peak)
      && (mx > 0 && rgb.2 == mx ==> r.2 == peak)
    ensures MaxChannel(rgb) == 0 ==> var grey := RoundHalfEven(sv.1 * 255.0 * (1.0 - sv.0));
      Variation(rgb, sv) == (grey, grey, grey)
  {
    var mx := MaxChannel(rgb);
    ToneOfByte(rgb.0, mx, sv.0, sv.1);
    ToneOfByte(rgb.1, mx, sv.0, sv.1);
    ToneOfByte(rgb.2, mx, sv.0, sv.1);
  }

  lemma ToneOfByte(c: int, mx: int, s: real, v: real)
    requires 0 <= c <= mx <= 255 && 0.0 <= s <= 1.0 && 0.0 <= v <= 1.0
    ensures var r := Tone(c, mx, s, v);
      && 0 <= r <= 255
      && (mx > 0 && c == mx ==> r == RoundHalfEven(v * 255.0))
      && (mx == 0 ==> r == RoundHalfEven(v * 255.0 * (1.0 - s)))
  {
    ToneInRange(c, mx, s, v);
  }

  /** The whole pipeline of a byte colour: one byte triple per preset pair,
      with the largest channel at `255 v` of that pair's target. */
  lemma GeneratedVariations(rgb: Triple, preset: seq<RatioPair>)
    requires IsByteTriple(rgb)
    ensures MakeSvVariations(rgb, preset).Ok?
    ensures var svs := MakeSvVariations(rgb, preset).value; var out := VariationsGenerator(rgb, svs);
      && |out| == |preset|
      && (forall i :: 0 <= i < |out| ==> IsByteTriple(out[i]))
      && (forall i :: 0 <= i < |out| && MaxChannel(rgb) > 0 && rgb.0 == MaxChannel(rgb) ==>
            out[i].0 == RoundHalfEven(svs[i].1 * 255.0))
  {
    BaseInUnit(rgb);
    var svs := MakeSvVariations(rgb, preset).value;
    var out := VariationsGenerator(rgb, svs);
    forall i | 0 <= i < |out|
      ensures IsByteTriple(out[i])
      ensures MaxChannel(rgb) > 0 && rgb.0 == MaxChannel(rgb) ==> out[i].0 == RoundHalfEven(svs[i].1 * 255.0)
    {
      VariationOfBytes(rgb, svs[i]);
    }
  }
}
