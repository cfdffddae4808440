/** color_scheme_generator/paletton.py, the wheel half: `linspace` and
    `expand_color_wheel`, which turns a sparse wheel of anchor colors into
    one color per degree by sampling each channel linearly between
    neighbouring anchors, wrapping from the last anchor back to the first. */
module Wheel {
  import opened Numeric
  import opened Outcomes
  import opened OrderedKeys

  /** An RGB color with integer channels, normally bytes 0..255. */
  type Triple = (int, int, int)

  /** Samples taken per gap between neighbouring anchors (`rate=15`). */
  const Rate: nat := 15

  // ---------------------------------------------------------------- linspace

  /** `linspace(start, stop, num, endpoint)`: `num` samples starting at
      `start`, spaced by `(stop - start) / (num - 1)` with the endpoint and
      by `(stop - start) / num` without it. The step is computed up front,
      so a zero divisor raises ZeroDivisionError even for an empty range. */
  function Linspace(start: real, stop: real, num: int, endpoint: bool): (r: Result<seq<real>>)
    ensures r.Err? <==> num == (if endpoint then 1 else 0)
    ensures r.Err? ==> r.error == DivisionByZero
    ensures r.Ok? ==> |r.value| == (if num < 0 then 0 else num)
    ensures r.Ok? && num > 0 ==> r.value[0] == start
    ensures r.Ok? ==> forall k :: 0 < k < |r.value| ==> r.value[k] - r.value[k - 1] == r.value[1] - r.value[0]
    ensures r.Ok? && endpoint && num > 1 ==> r.value[num - 1] == stop
    ensures r.Ok? && !endpoint && num > 1 ==> r.value[num - 1] + (r.value[1] - r.value[0]) == stop
  {
    var d := if endpoint then 1 else 0;
    if num - d == 0 then Err(DivisionByZero)
    else
      var step := (stop - start) / (num - d) as real;
      var s := seq(if num < 0 then 0 else num, k => k as real * step + start);
      LinspaceShape(start, stop, num, d, step, s);
      Ok(s)
  }

  /** The facts behind `Linspace`'s contract: samples are evenly spaced and
      `num - d` steps of `(stop - start) / (num - d)` lead from `start` to `stop`. */
  lemma LinspaceShape(start: real, stop: real, num: int, d: int, step: real, s: seq<real>)
    requires (d == 0 || d == 1) && num - d != 0
    requires step == (stop - start) / (num - d) as real
    requires |s| == if num < 0 then 0 else num
    requires forall k :: 0 <= k < |s| ==> s[k] == k as real * step + start
    ensures |s| > 0 ==> s[0] == start
    ensures forall k :: 0 < k < |s| ==> s[k] - s[k - 1] == s[1] - s[0]
    ensures d == 1 && num > 1 ==> s[num - 1] == stop
    ensures d == 0 && num > 1 ==> s[num - 1] + (s[1] - s[0]) == stop
  {
    forall k | 0 < k < |s|
      ensures s[k] - s[k - 1] == step
    {
      assert k as real * step - (k - 1) as real * step == step;
    }
    if num > 1 {
      var m := (num - d) as real;
      assert m * step == stop - start;
      if d == 1 {
        assert s[num - 1] == (num - 1) as real * step + start;
      } else {
        assert s[num - 1] + step == num as real * step + start;
      }
    }
  }

  // ---------------------------------------------------------------- one channel

  /** The `t`-th of the samples from `a` towards `b`: `t` fifteenths of
      the way. */
  function Lerp(a: real, b: real, t: nat): real {
    t as real * ((b - a) / Rate as real) + a
  }

  /** `linspace(a, b, 15, endpoint=False)`: the samples from `a` up to, but
      not including, `b`. */
  function Segment(a: real, b: real): (r: seq<real>)
    ensures |r| == Rate
    ensures forall t :: 0 <= t < Rate ==> r[t] == Lerp(a, b, t)
  {
    var s := Linspace(a, b, Rate, false);
    assert s.Ok?;
    SegmentSamples(a, b, s.value);
    s.value
  }

  lemma SegmentSamples(a: real, b: real, s: seq<real>)
    requires |s| == Rate && s[0] == a
    requires forall k :: 0 < k < |s| ==> s[k] - s[k - 1] == s[1] - s[0]
    requires s[Rate - 1] + (s[1] - s[0]) == b
    ensures forall t :: 0 <= t < Rate ==> s[t] == Lerp(a, b, t)
  {
    var step := s[1] - s[0];
    StepsFrom(s, a, step, Rate - 1);
    assert step == (b - a) / Rate as real;
    forall t | 0 <= t < Rate
      ensures s[t] == Lerp(a, b, t)
    {
      StepsFrom(s, a, step, t);
    }
  }

  /** Evenly spaced samples: the `t`-th is `t` steps past the first. */
  lemma {:induction false} StepsFrom(s: seq<real>, a: real, step: real, t: nat)
    requires 0 < |s| && s[0] == a && t < |s|
    requires forall k :: 0 < k < |s| ==> s[k] - s[k - 1] == step
    ensures s[t] == t as real * step + a
  {
    if t > 0 {
      StepsFrom(s, a, step, t - 1);
    }
  }

  /** Sample `Rate * q + t` is sample `t` of gap `q`. */
  lemma CombineIndex(q: nat, t: nat)
    requires t < Rate
    ensures (Rate * q + t) / Rate == q && (Rate * q + t) % Rate == t
  {
  }

  /** The segments between the anchors `i, i+1, …` up to the last one, chained. */
  function Segments(l: seq<real>, i: nat): (r: seq<real>)
    requires i < |l|
    ensures |r| == Rate * (|l| - 1 - i)
    ensures forall p :: 0 <= p < |r| ==>
      r[p] == Lerp(l[i + p / Rate], l[i + p / Rate + 1], p % Rate)
    decreases |l| - i
  {
    if i == |l| - 1 then []
    else
      var head := Segment(l[i], l[i + 1]);
      var tail := Segments(l, i + 1);
      ChainedSegments(l, i, head, tail);
      head + tail
  }

  lemma ChainedSegments(l: seq<real>, i: nat, head: seq<real>, tail: seq<real>)
    requires i + 1 < |l|
    requires |head| == Rate && forall t :: 0 <= t < Rate ==> head[t] == Lerp(l[i], l[i + 1], t)
    requires |tail| == Rate * (|l| - 2 - i)
    requires forall p :: 0 <= p < |tail| ==>
      tail[p] == Lerp(l[i + 1 + p / Rate], l[i + 1 + p / Rate + 1], p % Rate)
    ensures forall p :: 0 <= p < |head + tail| ==>
      (head + tail)[p] == Lerp(l[i + p / Rate], l[i + p / Rate + 1], p % Rate)
  {
    forall p | 0 <= p < |head + tail|
      ensures (head + tail)[p] == Lerp(l[i + p / Rate], l[i + p / Rate + 1], p % Rate)
    {
      if p >= Rate {
        var q := p - Rate;
        CombineIndex(q / Rate, q % Rate);
        CombineIndex(q / Rate + 1, q % Rate);
        assert p == Rate * (q / Rate + 1) + q % Rate;
        assert (head + tail)[p] == tail[q];
      } else {
        CombineIndex(0, p);
      }
    }
  }

  /** `expand_color(l, 15)`: the segments between neighbouring anchors and
      then the one from the last anchor back to the first (`l[-1]` to
      `l[0]`). Sample `p` lies `p % 15` steps after anchor `p / 15`, on the
      way to the next anchor, the last one wrapping to the first. */
  function ExpandChannel(l: seq<real>): (r: seq<real>)
    requires |l| >= 1
    ensures |r| == Rate * |l|
    ensures forall p :: 0 <= p < |r| ==>
      r[p] == Lerp(l[p / Rate], l[(p / Rate + 1) % |l|], p % Rate)
  {
    var inner := Segments(l, 0);
    var wrap := Segment(l[|l| - 1], l[0]);
    WrappedSegments(l, inner, wrap);
    inner + wrap
  }

  lemma WrappedSegments(l: seq<real>, inner: seq<real>, wrap: seq<real>)
    requires |l| >= 1
    requires |inner| == Rate * (|l| - 1)
    requires forall p :: 0 <= p < |inner| ==>
      inner[p] == Lerp(l[p / Rate], l[p / Rate + 1], p % Rate)
    requires |wrap| == Rate && forall t :: 0 <= t < Rate ==> wrap[t] == Lerp(l[|l| - 1], l[0], t)
    ensures forall p :: 0 <= p < |inner + wrap| ==>
      (inner + wrap)[p] == Lerp(l[p / Rate], l[(p / Rate + 1) % |l|], p % Rate)
  {
    forall p | 0 <= p < |inner + wrap|
      ensures (inner + wrap)[p] == Lerp(l[p / Rate], l[(p / Rate + 1) % |l|], p % Rate)
    {
      if p < |inner| {
        InnerIndex(|l|, p);
        assert (inner + wrap)[p] == inner[p];
      } else {
        WrapIndex(|l|, p);
        assert (inner + wrap)[p] == wrap[p % Rate];
      }
    }
  }

  /** A sample before the last segment lies between anchor `p / 15` and the next. */
  lemma InnerIndex(n: nat, p: int)
    requires 0 <= p < Rate * (n - 1)
    ensures p / Rate + 1 < n && (p / Rate + 1) % n == p / Rate + 1
  {
  }

  /** A sample of the last segment lies after the last anchor, whose
      successor is the first. */
  lemma WrapIndex(n: nat, p: int)
    requires n >= 1 && Rate * (n - 1) <= p < Rate * n
    ensures p / Rate == n - 1 && (p / Rate + 1) % n == 0
    ensures p - Rate * (n - 1) == p % Rate
  {
  }

  // ---------------------------------------------------------------- the wheel

  /** The anchors of a wheel in ascending order of their degree. */
  function Anchors(wheel: map<int, Triple>): (r: seq<Triple>)
    ensures |r| == |wheel|
    ensures forall i :: 0 <= i < |r| ==> r[i] == wheel[SortedKeys(wheel.Keys)[i]]
  {
    var keys := SortedKeys(wheel.Keys);
    assert |wheel.Keys| == |wheel|;
    Pick(wheel, keys)
  }

  /** `[wheel[k] for k in keys]`. */
  function Pick(wheel: map<int, Triple>, keys: seq<int>): (r: seq<Triple>)
    requires forall i :: 0 <= i < |keys| ==> keys[i] in wheel
    ensures |r| == |keys| && forall i :: 0 <= i < |keys| ==> r[i] == wheel[keys[i]]
  {
    seq(|keys|, i requires 0 <= i < |keys| => wheel[keys[i]])
  }

  function Red(c: Triple): real { c.0 as real }
  function Green(c: Triple): real { c.1 as real }
  function Blue(c: Triple): real { c.2 as real }

  /** `zip(*anchors)`: one channel of every anchor. */
  function Reds(a: seq<Triple>): (r: seq<real>)
    ensures |r| == |a| && forall i :: 0 <= i < |a| ==> r[i] == Red(a[i])
  {
    seq(|a|, i requires 0 <= i < |a| => Red(a[i]))
  }

  function Greens(a: seq<Triple>): (r: seq<real>)
    ensures |r| == |a| && forall i :: 0 <= i < |a| ==> r[i] == Green(a[i])
  {
    seq(|a|, i requires 0 <= i < |a| => Green(a[i]))
  }

  function Blues(a: seq<Triple>): (r: seq<real>)
    ensures |r| == |a| && forall i :: 0 <= i < |a| ==> r[i] == Blue(a[i])
  {
    seq(|a|, i requires 0 <= i < |a| => Blue(a[i]))
  }

  /** The rounded color between anchors `a` and `b`, `t` steps after `a`. */
  function Between(a: Triple, b: Triple, t: nat): Triple {
    (RoundHalfEven(Lerp(Red(a), Red(b), t)),
     RoundHalfEven(Lerp(Green(a), Green(b), t)),
     RoundHalfEven(Lerp(Blue(a), Blue(b), t)))
  }

  /** `expand_color_wheel`: degree `p` of the result is sample `p` of every
      channel, rounded. An empty wheel has no channels to unpack into
      `r, g, b` and raises ValueError. */
  function ExpandColorWheel(wheel: map<int, Triple>): (r: Result<map<int, Triple>>)
    ensures r.Ok? <==> |wheel| > 0
    ensures r.Err? ==> r.error == NotEnoughValues
    ensures r.Ok? ==> forall p :: p in r.value <==> 0 <= p < Rate * |wheel|
  {
    if |wheel| == 0 then Err(NotEnoughValues)
    else
      var a := Anchors(wheel);
      Ok(Expanded(ExpandChannel(Reds(a)), ExpandChannel(Greens(a)), ExpandChannel(Blues(a))))
  }

  /** `{k: v for k, v in enumerate(tuple(round(k) for k in rgb) for rgb in zip(r, g, b))}`. */
  function Expanded(red: seq<real>, green: seq<real>, blue: seq<real>): (m: map<int, Triple>)
    requires |red| == |green| == |blue|
    ensures forall p :: p in m <==> 0 <= p < |red|
    ensures forall p :: 0 <= p < |red| ==>
      m[p] == (RoundHalfEven(red[p]), RoundHalfEven(green[p]), RoundHalfEven(blue[p]))
  {
    map p | 0 <= p < |red| :: (RoundHalfEven(red[p]), RoundHalfEven(green[p]), RoundHalfEven(blue[p]))
  }

  /** Degree `15 * i + t` is `t` steps from anchor `i` towards the next
      one, the last anchor wrapping to the first, channel by channel,
      rounded half to even. */
  lemma ExpandedAt(wheel: map<int, Triple>, i: nat, t: nat, p: int)
    requires i < |wheel| && t < Rate && p == Rate * i + t
    ensures ExpandColorWheel(wheel).Ok? && p in ExpandColorWheel(wheel).value
    ensures var a := Anchors(wheel);
      ExpandColorWheel(wheel).value[p] == Between(a[i], a[if i + 1 == |a| then 0 else i + 1], t)
  {
    var a := Anchors(wheel);
    NextAnchor(i, |a|);
    AnchorsAt(a, i, t, p);
    assert ExpandColorWheel(wheel) ==
      Ok(Expanded(ExpandChannel(Reds(a)), ExpandChannel(Greens(a)), ExpandChannel(Blues(a))));
  }

  /** The same on the anchors as a sequence: sample `15 * i + t` of every
      channel, rounded, is the colour `t` steps from anchor `i` on. */
  lemma AnchorsAt(a: seq<Triple>, i: nat, t: nat, p: int)
    requires i < |a| && t < Rate && p == Rate * i + t
    ensures var m := Expanded(ExpandChannel(Reds(a)), ExpandChannel(Greens(a)), ExpandChannel(Blues(a)));
      p in m && m[p] == Between(a[i], a[(i + 1) % |a|], t)
  {
    var j := (i + 1) % |a|;
    var red, green, blue := ExpandChannel(Reds(a)), ExpandChannel(Greens(a)), ExpandChannel(Blues(a));
    ChannelAt(Reds(a), i, t, p);
    ChannelAt(Greens(a), i, t, p);
    ChannelAt(Blues(a), i, t, p);
    assert red[p] == Lerp(Red(a[i]), Red(a[j]), t);
    assert green[p] == Lerp(Green(a[i]), Green(a[j]), t);
    assert blue[p] == Lerp(Blue(a[i]), Blue(a[j]), t);
  }

  /** Sample `15 * i + t` of a channel lies `t` steps from anchor `i`
      towards the next one. */
  lemma ChannelAt(l: seq<real>, i: nat, t: nat, p: int)
    requires i < |l| && t < Rate && p == Rate * i + t
    ensures 0 <= p < |ExpandChannel(l)|
    ensures ExpandChannel(l)[p] == Lerp(l[i], l[(i + 1) % |l|], t)
  {
    CombineIndex(i, t);
  }

  /** Anchor fidelity: degree `15 * i` is the `i`-th anchor in ascending
      order of degree, unchanged by the rounding. */
  lemma AnchorsKept(wheel: map<int, Triple>, i: nat)
    requires i < |wheel|
    ensures ExpandColorWheel(wheel).Ok?
    ensures Rate * i in ExpandColorWheel(wheel).value
    ensures ExpandColorWheel(wheel).value[Rate * i] == wheel[SortedKeys(wheel.Keys)[i]]
  {
    var a := Anchors(wheel);
    ExpandedAt(wheel, i, 0, Rate * i);
    BetweenStart(a[i], a[if i + 1 == |a| then 0 else i + 1]);
  }

  /** The anchor after anchor `i`: the next one, or the first after the last. */
  lemma NextAnchor(i: nat, n: nat)
    requires i < n
    ensures (i + 1) % n == if i + 1 == n then 0 else i + 1
  {
  }

  /** Zero steps from an anchor is the anchor. */
  lemma BetweenStart(a: Triple, b: Triple)
    ensures Between(a, b, 0) == a
  {
    RoundOfInteger(a.0);
    RoundOfInteger(a.1);
    RoundOfInteger(a.2);
  }

  /** The last 15 degrees lead from the last anchor back to the first. */
  lemma WrapsAround(wheel: map<int, Triple>, t: nat)
    requires |wheel| > 0 && t < Rate
    ensures var n := |wheel|; var keys := SortedKeys(wheel.Keys);
      && ExpandColorWheel(wheel).Ok?
      && Rate * (n - 1) + t in ExpandColorWheel(wheel).value
      && ExpandColorWheel(wheel).value[Rate * (n - 1) + t] == Between(wheel[keys[n - 1]], wheel[keys[0]], t)
  {
    var n := |wheel|;
    ExpandedAt(wheel, n - 1, t, Rate * (n - 1) + t);
  }

  /** The 24 anchors of a full wheel, one every 15 degrees, expand to
      exactly the degrees 0..359. */
  lemma FullWheel(wheel: map<int, Triple>)
    requires |wheel| == 24
    ensures ExpandColorWheel(wheel).Ok?
    ensures forall p :: p in ExpandColorWheel(wheel).value <==> 0 <= p < 360
  {
  }

  /** Interpolation and rounding stay between the smallest and the largest
      channel of the anchors: bytes in, bytes out. */
  lemma ExpandedBytes(wheel: map<int, Triple>)
    requires |wheel| > 0
    requires forall k :: k in wheel ==> IsByteTriple(wheel[k])
    ensures forall p :: p in ExpandColorWheel(wheel).value ==> IsByteTriple(ExpandColorWheel(wheel).value[p])
  {
    var e := ExpandColorWheel(wheel).value;
    var a := Anchors(wheel);
    AnchorBytes(wheel);
    forall p | p in e
      ensures IsByteTriple(e[p])
    {
      var i, t := p / Rate, p % Rate;
      ExpandedAt(wheel, i, t, p);
      BetweenBytes(a[i], a[if i + 1 == |a| then 0 else i + 1], t);
    }
  }

  lemma AnchorBytes(wheel: map<int, Triple>)
    requires forall k :: k in wheel ==> IsByteTriple(wheel[k])
    ensures forall i :: 0 <= i < |Anchors(wheel)| ==> IsByteTriple(Anchors(wheel)[i])
  {
    var keys := SortedKeys(wheel.Keys);
    assert forall i :: 0 <= i < |keys| ==> keys[i] in wheel;
  }

  predicate IsByteTriple(c: Triple) {
    0 <= c.0 <= 255 && 0 <= c.1 <= 255 && 0 <= c.2 <= 255
  }

  lemma BetweenBytes(a: Triple, b: Triple, t: nat)
    requires IsByteTriple(a) && IsByteTriple(b) && t < Rate
    ensures IsByteTriple(Between(a, b, t))
  {
    LerpBetween(Red(a), Red(b), t);
    LerpBetween(Green(a), Green(b), t);
    LerpBetween(Blue(a), Blue(b), t);
    RoundWithin(Lerp(Red(a), Red(b), t), 0, 255);
    RoundWithin(Lerp(Green(a), Green(b), t), 0, 255);
    RoundWithin(Lerp(Blue(a), Blue(b), t), 0, 255);
  }

  /** A sample between two byte values is itself in 0..255. */
  lemma LerpBetween(a: real, b: real, t: nat)
    requires 0.0 <= a <= 255.0 && 0.0 <= b <= 255.0 && t < Rate
    ensures 0.0 <= Lerp(a, b, t) <= 255.0
  {
    var w := t as real / Rate as real;
    assert 0.0 <= w < 1.0;
    assert Lerp(a, b, t) == a * (1.0 - w) + b * w;
    assert 0.0 <= a * (1.0 - w) && 0.0 <= b * w;
    assert a * (1.0 - w) <= 255.0 * (1.0 - w) && b * w <= 255.0 * w;
  }
}
