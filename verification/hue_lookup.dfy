/** The two directions between RGB triples and paletton degrees:
    `calculate_hue_offsets` files every wheel degree under the rounded HSV
    hue of its colour, `from_rgb_to_paletton_hue` looks a colour's hue up
    in that map and `from_paletton_hue_to_rgb` reads the expanded wheel. */
module HueLookup {
  import opened Numeric
  import opened Outcomes
  import opened Constants
  import opened ColorSys
  import opened OrderedKeys
  import opened Wheel

  /** The degrees `calculate_hue_offsets` scans: `range(360)`. */
  const Turn: nat := 360

  /** `[rgb/255 for rgb in c]`: a byte triple as fractions of full scale. */
  function Normalized(c: Triple): Rgb {
    Rgb(c.0 as real / 255.0, c.1 as real / 255.0, c.2 as real / 255.0)
  }

  /** The triple passed to `rgb_to_hsv` unscaled, as `rgb_to_hsv(*rgb)` does. */
  function Raw(c: Triple): Rgb {
    Rgb(c.0 as real, c.1 as real, c.2 as real)
  }

  /** Scaling by 1/255 changes neither whether `rgb_to_hsv` is defined
      nor the hue it computes: a byte triple has the same hue key whether
      or not it is first divided by 255. */
  lemma RawHue(t: Triple)
    ensures HsvDefined(Raw(t)) <==> HsvDefined(Normalized(t))
    ensures HsvDefined(Raw(t)) ==> RgbToHsv(Raw(t)).hue == RgbToHsv(Normalized(t)).hue
  {
    var c, d := Normalized(t), Raw(t);
    RawExtremes(t);
    if HsvDefined(d) && RealMin3(c.red, c.green, c.blue) != RealMax3(c.red, c.green, c.blue) {
      var spread := RealMax3(c.red, c.green, c.blue) - RealMin3(c.red, c.green, c.blue);
      var dspread := RealMax3(d.red, d.green, d.blue) - RealMin3(d.red, d.green, d.blue);
      assert dspread == 255.0 * spread;
      assert d.green - d.blue == 255.0 * (c.green - c.blue);
      assert d.blue - d.red == 255.0 * (c.blue - c.red);
      assert d.red - d.green == 255.0 * (c.red - c.green);
      ScaledQuotient(c.green - c.blue, spread, 255.0);
      ScaledQuotient(c.blue - c.red, spread, 255.0);
      ScaledQuotient(c.red - c.green, spread, 255.0);
      HueFromQuotients(c, d);
    }
  }

  /** The unscaled channels are the scaled ones times 255, extremes included. */
  lemma RawExtremes(t: Triple)
    ensures var c, d := Normalized(t), Raw(t);
      && d.red == 255.0 * c.red && d.green == 255.0 * c.green && d.blue == 255.0 * c.blue
      && RealMax3(d.red, d.green, d.blue) == 255.0 * RealMax3(c.red, c.green, c.blue)
      && RealMin3(d.red, d.green, d.blue) == 255.0 * RealMin3(c.red, c.green, c.blue)
  {
  }

  /** A triple of non-negative channels always has an HSV reading: its
      largest channel is 0 only when all of them are. */
  lemma BytesHaveHsv(t: Triple)
    requires IsByteTriple(t)
    ensures HsvDefined(Normalized(t)) && HsvDefined(Raw(t))
  {
  }

  /** `round(rgb_to_hsv(*c)[0] * 360)`: the HSV hue in whole degrees. */
  function HueDegrees(c: Rgb): (r: Result<int>)
    ensures r.Ok? <==> HsvDefined(c)
    ensures r.Err? ==> r.error == DivisionByZero
    ensures r.Ok? ==> 0 <= r.value <= Turn
  {
    if HsvDefined(c) then
      var h := RgbToHsv(c).hue * 360.0;
      RoundWithin(h, 0, 360);
      Ok(RoundHalfEven(h))
    else Err(DivisionByZero)
  }

  /** The key under which `calculate_hue_offsets` files a wheel colour. */
  function HueKey(c: Triple): Result<int> {
    HueDegrees(Normalized(c))
  }

  /** The dictionary comprehension of `calculate_hue_offsets` after its
      first `n` degrees: each degree present in the wheel is stored under
      its hue key, a later degree overwriting an earlier one. */
  function Offsets(wheel: map<int, Triple>, n: nat): (r: Result<map<int, int>>)
    ensures r.Ok? <==> forall k :: 0 <= k < n && k in wheel ==> HueKey(wheel[k]).Ok?
    ensures r.Err? ==> r.error == DivisionByZero
    ensures r.Ok? ==> forall h :: h in r.value ==>
      && r.value[h] in wheel && 0 <= r.value[h] < n
      && HueKey(wheel[r.value[h]]) == Ok(h)
    ensures r.Ok? ==> forall k :: 0 <= k < n && k in wheel ==>
      && HueKey(wheel[k]).value in r.value
      && k <= r.value[HueKey(wheel[k]).value]
  {
    if n == 0 then Ok(map[])
    else
      var k := n - 1;
      match Offsets(wheel, k)
      case Err(e) => Err(e)
      case Ok(prev) =>
        if k !in wheel then Ok(prev)
        else
          match HueKey(wheel[k])
          case Err(e) => Err(e)
          case Ok(h) => Ok(prev[h := k])
  }

  /** `calculate_hue_offsets`. */
  function CalculateHueOffsets(wheel: map<int, Triple>): (r: Result<map<int, int>>)
    ensures r.Ok? <==> forall k :: 0 <= k < Turn && k in wheel ==> HueKey(wheel[k]).Ok?
    ensures r.Err? ==> r.error == DivisionByZero
    ensures r.Ok? ==> forall h :: h in r.value ==>
      && r.value[h] in wheel && 0 <= r.value[h] < Turn
      && HueKey(wheel[r.value[h]]) == Ok(h)
    ensures r.Ok? ==> forall k :: 0 <= k < Turn && k in wheel ==>
      && HueKey(wheel[k]).value in r.value
      && k <= r.value[HueKey(wheel[k]).value]
  {
    Offsets(wheel, Turn)
  }

  /** The documented example: a lone degree 300 of colour (120, 0, 106)
      is filed under hue 307. */
  lemma HueOffsetsExample(wheel: map<int, Triple>)
    requires wheel == map[300 := (120, 0, 106)]
    ensures CalculateHueOffsets(wheel) == Ok(map[307 := 300])
  {
    assert HueKey(wheel[300]) == Ok(307) by {
      PurpleHue(Normalized((120, 0, 106)));
      RoundOfInteger(307);
    }
    var r := CalculateHueOffsets(wheel);
    assert r.Ok?;
    assert 307 in r.value && r.value[307] == 300;
    forall h | h in r.value
      ensures h == 307
    {
      assert r.value[h] in wheel;
    }
    assert r.value == map[307 := 300];
  }

  /** The HSV hue of (120, 0, 106)/255 is 307/360 of a turn: red leads,
      blue trails it by 14/120 of the spread, so the hue sits 106/720 of a
      turn below red. */
  lemma PurpleHue(c: Rgb)
    requires c == Rgb(120.0 / 255.0, 0.0 / 255.0, 106.0 / 255.0)
    ensures HsvDefined(c) && RgbToHsv(c).hue * 360.0 == 307.0
  {
    assert RealMax3(c.red, c.green, c.blue) == c.red;
    assert RealMin3(c.red, c.green, c.blue) == 0.0;
    var bc := (c.red - c.blue) / (c.red - 0.0);
    var gc := (c.red - c.green) / (c.red - 0.0);
    assert gc == 1.0;
    assert c.red - c.blue == 14.0 / 255.0;
    assert bc == 14.0 / 120.0 by {
      assert bc * (120.0 / 255.0) == 14.0 / 255.0;
    }
    var h := bc - gc;
    assert h == -106.0 / 120.0;
    assert (h / 6.0).Floor == -1;
  }

  /** The key nearest to `hue` going down around the circle: the largest
      key at or below `hue`, or the largest key of all when every key lies
      above `hue`. */
  predicate CircularFloor(keys: set<int>, hue: int, k: int) {
    && k in keys
    && if exists j :: j in keys && j <= hue
       then k <= hue && forall j :: j in keys && j <= hue ==> j <= k
       else forall j :: j in keys ==> j <= k
  }

  /** At most one key is the circular floor of a hue. */
  lemma CircularFloorUnique(keys: set<int>, hue: int, k1: int, k2: int)
    requires CircularFloor(keys, hue, k1) && CircularFloor(keys, hue, k2)
    ensures k1 == k2
  {
  }

  /** How `from_rgb_to_paletton_hue` picks a key of the offsets for `hue`:
      `hue` itself when it is a key; otherwise, with `index` the position
      of `hue` in `sorted(keys + [hue])`, the sorted key at `index - 1`,
      which for `index == 0` is position -1, the largest key, and does not
      exist when there are no keys. */
  function ClosestKey(keys: set<int>, hue: int): (r: Result<int>)
    ensures r.Ok? <==> keys != {}
    ensures r.Err? ==> r.error == IndexOutOfRange
    ensures r.Ok? ==> r.value in keys
  {
    if hue in keys then Ok(hue)
    else
      var sorted := SortedKeys(keys);
      var index := IndexOf(SortedKeys(keys + {hue}), hue);
      if index > 0 then Ok(sorted[index - 1])
      else if |sorted| == 0 then Err(IndexOutOfRange)
      else Ok(sorted[|sorted| - 1])
  }

  /** The key picked is the circular floor of the hue. */
  lemma ClosestKeyIsCircularFloor(keys: set<int>, hue: int)
    requires keys != {}
    ensures ClosestKey(keys, hue).Ok? && CircularFloor(keys, hue, ClosestKey(keys, hue).value)
  {
    if hue !in keys {
      var sorted := SortedKeys(keys);
      var c := CountBelow(sorted, hue);
      ClosestKeyMiss(keys, hue, sorted, c);
      if c > 0 {
        FloorBelow(sorted, keys, hue, c);
      } else {
        FloorWraps(sorted, keys, hue);
      }
    }
  }

  /** On a miss the pick is the sorted key before the insertion point. */
  lemma ClosestKeyMiss(keys: set<int>, hue: int, sorted: seq<int>, c: nat)
    requires keys != {} && hue !in keys
    requires sorted == SortedKeys(keys) && c == CountBelow(sorted, hue)
    ensures 0 < |sorted| && c <= |sorted|
    ensures ClosestKey(keys, hue) == Ok(if c > 0 then sorted[c - 1] else sorted[|sorted| - 1])
  {
    InsertionPoint(keys, hue);
  }

  lemma FloorBelow(sorted: seq<int>, keys: set<int>, hue: int, c: nat)
    requires StrictlyIncreasing(sorted) && forall k :: k in sorted <==> k in keys
    requires 0 < c <= |sorted| && c == CountBelow(sorted, hue) && hue !in keys
    ensures CircularFloor(keys, hue, sorted[c - 1])
  {
    var k := sorted[c - 1];
    assert k in sorted && k <= hue;
    forall j | j in keys && j <= hue
      ensures j <= k
    {
      assert j in sorted;
      var i :| 0 <= i < |sorted| && sorted[i] == j;
      assert i < c;
    }
  }

  lemma FloorWraps(sorted: seq<int>, keys: set<int>, hue: int)
    requires StrictlyIncreasing(sorted) && forall k :: k in sorted <==> k in keys
    requires 0 < |sorted| && CountBelow(sorted, hue) == 0 && hue !in keys
    ensures CircularFloor(keys, hue, sorted[|sorted| - 1])
  {
    var k := sorted[|sorted| - 1];
    assert k in sorted;
    forall j | j in keys
      ensures hue < j && j <= k
    {
      assert j in sorted;
      var i :| 0 <= i < |sorted| && sorted[i] == j;
      assert sorted[0] <= j;
    }
  }

  /** `from_rgb_to_paletton_hue`: the wheel degree filed under the hue of
      `rgb`, or under the key nearest below that hue around the circle.
      The hue is taken of the triple as given, not divided by 255. */
  function FromRgbToPalettonHue(rgb: Triple, offsets: map<int, int>): (r: Result<int>)
    ensures r.Ok? <==> HsvDefined(Raw(rgb)) && offsets.Keys != {}
    ensures r.Err? ==> r.error == if HsvDefined(Raw(rgb)) then IndexOutOfRange else DivisionByZero
    ensures r.Ok? ==> r.value in offsets.Values
  {
    match HueDegrees(Raw(rgb))
    case Err(e) => Err(e)
    case Ok(hue) =>
      match ClosestKey(offsets.Keys, hue)
      case Err(e) => Err(e)
      case Ok(k) => Ok(offsets[k])
  }

  /** The lookup rules: a hue that is a key reads its own entry; any other
      hue reads the entry of its circular floor among the keys. */
  lemma PalettonHueLookup(rgb: Triple, offsets: map<int, int>)
    requires HsvDefined(Raw(rgb)) && offsets.Keys != {}
    ensures var hue := HueDegrees(Raw(rgb)).value;
      && (hue in offsets ==> FromRgbToPalettonHue(rgb, offsets) == Ok(offsets[hue]))
      && exists k :: CircularFloor(offsets.Keys, hue, k) && FromRgbToPalettonHue(rgb, offsets) == Ok(offsets[k])
  {
    var hue := HueDegrees(Raw(rgb)).value;
    ClosestKeyIsCircularFloor(offsets.Keys, hue);
    var k := ClosestKey(offsets.Keys, hue).value;
    assert FromRgbToPalettonHue(rgb, offsets) == Ok(offsets[k]);
  }

  /** `from_paletton_hue_to_rgb`: the expanded wheel's entry at the
      rounded hue; a hue that rounds to a missing degree raises KeyError. */
  function FromPalettonHueToRgb(hue: real, expanded: map<int, Triple>): (r: Result<Triple>)
    ensures r.Err? ==> r.error == MissingKey
    ensures forall k :: NearestDegree(hue, k) ==> r == if k in expanded then Ok(expanded[k]) else Err(MissingKey)
  {
    var degree := RoundHalfEven(hue);
    NearestDegreeIsRound(hue);
    if degree in expanded then Ok(expanded[degree]) else Err(MissingKey)
  }

  /** `k` is the whole degree Python's `round` picks for `hue`. */
  predicate NearestDegree(hue: real, k: int) {
    && -0.5 <= hue - k as real <= 0.5
    && (hue - k as real == 0.5 || k as real - hue == 0.5 ==> k % 2 == 0)
  }

  lemma NearestDegreeIsRound(hue: real)
    ensures NearestDegree(hue, RoundHalfEven(hue))
    ensures forall k :: NearestDegree(hue, k) ==> k == RoundHalfEven(hue)
  {
    forall k | NearestDegree(hue, k)
      ensures k == RoundHalfEven(hue)
    {
      RoundIsUnique(hue, k);
    }
  }

  /** A whole degree of the expanded wheel reads its own entry. */
  lemma DegreeReadsItsEntry(k: int, expanded: map<int, Triple>)
    requires k in expanded
    ensures FromPalettonHueToRgb(k as real, expanded) == Ok(expanded[k])
  {
    assert NearestDegree(k as real, k);
  }

  /** On a full wheel of 24 anchors every hue from 0 up to, not including,
      359.5 degrees reads an entry, but a hue from 359.5 up to 360 rounds
      to degree 360, which the wheel lacks, although the documented range
      of the hue is 0 <= hue < 360. */
  lemma TopOfTurnMissing(wheel: map<int, Triple>, hue: real)
    requires |wheel| == 24 && 0.0 <= hue < 360.0
    ensures var expanded := ExpandColorWheel(wheel).value;
      FromPalettonHueToRgb(hue, expanded).Ok? <==> hue < 359.5
  {
    FullWheel(wheel);
    TopOfTurn(ExpandColorWheel(wheel).value, hue);
  }

  lemma TopOfTurn(expanded: map<int, Triple>, hue: real)
    requires forall p :: p in expanded <==> 0 <= p < Turn
    requires 0.0 <= hue < 360.0
    ensures FromPalettonHueToRgb(hue, expanded).Ok? <==> hue < 359.5
    ensures FromPalettonHueToRgbWrapped(hue, expanded).Ok?
    ensures FromPalettonHueToRgb(hue, expanded).Ok? ==>
      FromPalettonHueToRgbWrapped(hue, expanded) == FromPalettonHueToRgb(hue, expanded)
  {
    var degree := RoundHalfEven(hue);
    NearestDegreeIsRound(hue);
    assert NearestDegree(hue, degree);
    if hue < 359.5 {
      assert 0 <= degree < 360;
      assert degree in expanded && degree % Turn == degree;
      assert FromPalettonHueToRgb(hue, expanded) == Ok(expanded[degree]);
    } else {
      RoundIsUnique(hue, 360);
      assert degree == 360 && degree !in expanded && degree % Turn == 0;
      assert FromPalettonHueToRgb(hue, expanded) == Err(MissingKey);
    }
  }

  /** The documented range read as a turn: the rounded hue taken modulo
      360, so that a hue just below 360 reads degree 0. */
  function FromPalettonHueToRgbWrapped(hue: real, expanded: map<int, Triple>): (r: Result<Triple>)
    ensures r.Err? ==> r.error == MissingKey
    ensures r.Ok? <==> RoundHalfEven(hue) % Turn in expanded
  {
    var degree := RoundHalfEven(hue) % Turn;
    if degree in expanded then Ok(expanded[degree]) else Err(MissingKey)
  }

  /** On a full wheel the wrapped lookup reads an entry for every hue of
      the documented range, and agrees with the lookup as written wherever
      that one succeeds. */
  lemma WrappedCoversTurn(wheel: map<int, Triple>, hue: real)
    requires |wheel| == 24 && 0.0 <= hue < 360.0
    ensures var expanded := ExpandColorWheel(wheel).value;
      && FromPalettonHueToRgbWrapped(hue, expanded).Ok?
      && (FromPalettonHueToRgb(hue, expanded).Ok? ==>
            FromPalettonHueToRgbWrapped(hue, expanded) == FromPalettonHueToRgb(hue, expanded))
  {
    FullWheel(wheel);
    TopOfTurn(ExpandColorWheel(wheel).value, hue);
  }
}
