# Colour scheme generator — a Dafny model

This project models the colour arithmetic of the `color_scheme_generator`
package and proves properties about it:

- **The hexadecimal codec** of `utils.py`.
  - `hex_to_rgb` strips `#` and cuts the text into three slices. A 3-digit shorthand has each digit doubled. Each channel is divided by 255.
  - `rgb_to_hex` scales by 255, truncates, zero-pads and upper-cases.
- **The `Color` container** of `color_scheme_generator.py`.
  - The constructor dispatches on `hsv`, then `rgb`, then `hex`, and defaults to red.
  - The `rgb`, `hex` and `hsv` accessors.
  - The expansion of a colour by a scheme (`generate_from_scheme`) and by a preset of ratio pairs (`generate_from_preset`), and the palette that nests the two (`generate_palette`).
- **The paletton machinery** of `paletton.py`.
  - `linspace`, and `expand_color_wheel`, which turns a sparse wheel of anchor colours into one colour per degree.
  - `calculate_hue_offsets`, the reverse map from rounded HSV hue to wheel degree.
  - The two lookups `from_rgb_to_paletton_hue` and `from_paletton_hue_to_rgb`.
  - The tone machinery: `make_sv_variations` and `variations_generator`.
  - The wiring of `Paletton.__init__`.

The model follows Python's semantics closely:

- Every exception of the Python code is an `Err` of a `Result`:
  - the ValueError of `int(s, 16)` and of unpacking an empty wheel;
  - the ZeroDivisionError of `colorsys` and of `linspace`;
  - the KeyError of a dictionary lookup;
  - the IndexError of `keys[-1]` on an empty map.
- Channels are exact reals.
- Python's `round` is round-half-to-even, and `int()` of a float truncates toward zero.
- `colorsys.rgb_to_hsv` and `colorsys.hsv_to_rgb` are transcribed from the Python standard library (module `ColorSys`).
- Dictionaries are maps. The lazy generators are finite sequences.

Modules, one per concern:

- `Outcomes`: errors and results.
- `Numeric`: rounding, truncation, extremes.
- `Constants`: `constants.py`.
- `ColorSys`.
- `HexCodec`: `utils.py`.
- `ColorScheme`: `color_scheme_generator.py`.
- `OrderedKeys`: `sorted` of dictionary keys and `list.index`.
- `Wheel`: `linspace` and `expand_color_wheel`.
- `HueLookup`: hue offsets and the two lookups.
- `Variations`: the tone machinery.
- `Paletton`: the class wiring.

`rgb_to_hex` truncates each scaled channel with `int()`. It does not round, so 254.9 gives `FE`.

Where the package's documentation and its code disagree, the model follows the code. The documented palette of the default red lists `#550000 … #FFAAAA`. The code gives `#FF6363 #FF3A3A #FF0000 #BA0000 #990000`, light to dark in preset order (`ColorScheme.PastelFromRed`).

## Model

| member | source | states |
|---|---|---|
| HexCodec.StripHash | color_scheme_generator/utils.py:21 | the stripped text neither starts nor ends with '#', is no longer than the input, and text of hex digits and '#' stays so |
| HexCodec.StripSurrounded | color_scheme_generator/utils.py:21 | any run of '#' on either side of a text that does not start or end with '#' is removed, and nothing else |
| HexCodec.HashPrefixIgnored | color_scheme_generator/utils.py:21 | "#" + t and t parse to the same result, so "#FF0000" and "FF0000" agree |
| HexCodec.HexToRgb | color_scheme_generator/utils.py:21-31 | `hex_to_rgb`: fails only with the ValueError of `int(..., 16)`; a result needs at least three characters after stripping, and its channels are never negative. Its partners: HexToRgbAccepts gives exactly when it succeeds, ShorthandChannels and SlicedChannels give the channels, and HexRoundTrip and GridRoundTrip relate it to RgbToHex |
| HexCodec.HexToRgbAccepts | color_scheme_generator/utils.py:21-30 | parsing succeeds exactly when at least three characters remain after stripping and the first 3·(len/3) of them are hex digits; shorter input fails |
| HexCodec.ShorthandChannels | color_scheme_generator/utils.py:23-26 | a 3-digit shorthand gives each channel 17·d/255 for its digit d |
| HexCodec.ShorthandParsesAsDoubled | color_scheme_generator/utils.py:23-26 | a 3-digit text parses exactly like its doubled 6-digit form |
| HexCodec.HexToRgbShorthandRed | color_scheme_generator/utils.py:23-26 | "F00" parses to (1, 0, 0) |
| HexCodec.SlicedChannels | color_scheme_generator/utils.py:27-31 | any other length is cut into three slices of width len/3, each channel being the slice's value / 255 |
| HexCodec.TrailingIgnored | color_scheme_generator/utils.py:22-30 | for six or more hex digits, characters past 3·(len/3) never change the result |
| HexCodec.HexChannelsOnByteGrid | color_scheme_generator/utils.py:31 | for 3- and 6-digit input every channel is n/255 for a whole n in 0..255, so it lies in [0, 1] |
| HexCodec.ParsedNonNegative | color_scheme_generator/utils.py:24-31 | parsed channels are never negative |
| HexCodec.HexToRgbRed | color_scheme_generator/utils.py:16-17 | "#FF0000" parses to (1, 0, 0) |
| HexCodec.HexToRgbBlack | color_scheme_generator/utils.py:18-19 | "#000000" parses to (0, 0, 0) |
| HexCodec.LowerHexValue | color_scheme_generator/utils.py:49 | the digits `hex()` writes denote the number written |
| HexCodec.HexText | color_scheme_generator/utils.py:49 | `hex(n)[2:]` of a negative n keeps a stray 'x' in front |
| HexCodec.ZFill | color_scheme_generator/utils.py:49 | `zfill` pads with '0' up to the width and keeps longer text whole, the original text ending the result |
| HexCodec.RgbToHex | color_scheme_generator/utils.py:47-50 | `rgb_to_hex`: '#' and at least two characters per channel. Its partners: RgbToHexInUnitCube gives the exact seven-character text on [0, 1], and GridRoundTrip makes HexToRgb its inverse on the byte grid |
| HexCodec.RgbToHexInUnitCube | color_scheme_generator/utils.py:47-50 | with channels in [0, 1] the output is '#' plus the two upper-case digits of each truncated byte int(255·x), seven characters in all |
| HexCodec.RgbToHexOnGrid | color_scheme_generator/utils.py:47-50 | a colour (i, j, k)/255 is written as the bytes i, j, k |
| HexCodec.RgbToHexRed | color_scheme_generator/utils.py:44-45 | (1, 0, 0) is written "#FF0000" |
| HexCodec.RgbToHexBlack | color_scheme_generator/utils.py:47-50 | (0, 0, 0) is written "#000000" |
| HexCodec.RgbToHexAboveOne | color_scheme_generator/utils.py:47-50 | a channel above 1 gives more than two digits: (2, 0, 0) is "#1FE0000" |
| HexCodec.RgbToHexNegative | color_scheme_generator/utils.py:49 | a negative channel leaks the 'x' of "-0x": (-1, 0, 0) is "#XFF0000" |
| HexCodec.HexRoundTrip | color_scheme_generator/utils.py:21-50 | rgb_to_hex(hex_to_rgb(h)) is "#" + upper(h) for six hex digits, whatever '#' run surrounds them |
| HexCodec.ShorthandRoundTrip | color_scheme_generator/utils.py:21-50 | a 3-digit shorthand comes back as "#" + its upper-cased doubled form |
| HexCodec.GridRoundTrip | color_scheme_generator/utils.py:21-50 | every colour of three bytes / 255 survives hex_to_rgb(rgb_to_hex(c)) exactly |
| ColorSys.RgbToHsv | color_scheme_generator/color_scheme_generator.py:48-49 | the hue is a fraction of a turn in [0, 1), the value is the largest channel, and a grey has hue and saturation 0 |
| ColorSys.HsvToRgb | color_scheme_generator/color_scheme_generator.py:54-56 | a saturation of 0 gives the grey of the value |
| ColorSys.HsvRoundTrip | color_scheme_generator/color_scheme_generator.py:48-56 | converting to HSV and back gives the original channels exactly |
| ColorSys.SaturationInUnit | color_scheme_generator/paletton.py:82-83 | non-negative channels have a saturation in [0, 1] |
| ColorScheme.FromRgb | color_scheme_generator/color_scheme_generator.py:48-49 | `from_rgb` fails exactly when `rgb_to_hsv` divides by zero; otherwise the stored triple converts back to the given channels and its value is their maximum |
| ColorScheme.FromHex | color_scheme_generator/color_scheme_generator.py:51-52 | `from_hex` succeeds exactly when the text parses, fails only with the parse error, and the colour's rgb is the parsed channels |
| ColorScheme.NewColor | color_scheme_generator/color_scheme_generator.py:34-43 | `hsv` is stored as given, no argument gives the default red, and only the rgb or hex paths can fail |
| ColorScheme.ConstructorPrecedence | color_scheme_generator/color_scheme_generator.py:35-43 | hsv wins over rgb and hex, and rgb wins over hex: the lower-ranked arguments can be dropped |
| ColorScheme.HsvStoredVerbatim | color_scheme_generator/color_scheme_generator.py:45-46 | the hsv accessor returns the given triple unchanged, whatever else is passed |
| ColorScheme.RgbArgumentRoundTrip | color_scheme_generator/color_scheme_generator.py:48-56 | `Color(rgb=x).rgb` is x whenever the colour can be built, which is exactly when `rgb_to_hsv` is defined |
| ColorScheme.HexArgumentRoundTrip | color_scheme_generator/color_scheme_generator.py:51-60 | `Color(hex=h).hex` is "#" + upper(h) for six hex digits |
| ColorScheme.ColorRgb | color_scheme_generator/color_scheme_generator.py:54-56 | a colour of saturation 0 reads back as the grey of its value |
| ColorScheme.ColorHex | color_scheme_generator/color_scheme_generator.py:58-60 | the hex accessor starts with '#' and has at least seven characters |
| ColorScheme.DefaultIsRed | color_scheme_generator/color_scheme_generator.py:18-43 | `Color()` stores HSV (0, 1, 1), reads back as rgb (1, 0, 0) and hex "#FF0000" |
| ColorScheme.WhiteHex | color_scheme_generator/color_scheme_generator.py:22-24 | `Color(rgb=(1, 1, 1)).hex` is "#FFFFFF" |
| ColorScheme.Salmon | color_scheme_generator/color_scheme_generator.py:26-32 | `Color(hex="#FF5858")` reads back as "#FF5858", with green 88/255 and saturation 167/255 |
| ColorScheme.GenerateFromScheme | color_scheme_generator/color_scheme_generator.py:67-69 | an unknown scheme fails at the lookup; a known one yields exactly the input colour |
| ColorScheme.Scaled | color_scheme_generator/color_scheme_generator.py:74-79 | the hue is kept, and a ratio of 1 keeps its component |
| ColorScheme.ScaleByRatios | color_scheme_generator/color_scheme_generator.py:72-79 | one colour per pair, in pair order, the i-th being (hue, s·sᵢ, v·vᵢ) with no clamping |
| ColorScheme.ScaleByRatiosAppend | color_scheme_generator/color_scheme_generator.py:72-79 | scaling by a concatenation is the concatenation of the scalings |
| ColorScheme.UnitRatioKeepsColor | color_scheme_generator/color_scheme_generator.py:72-79 | the pair (1, 1) yields the input colour itself |
| ColorScheme.ScaledTwice | color_scheme_generator/color_scheme_generator.py:74-79 | scaling twice is scaling once by the products of the ratios |
| ColorScheme.GenerateFromPreset | color_scheme_generator/color_scheme_generator.py:72-79 | an unknown preset fails at the lookup; a known one yields as many colours as it has pairs |
| ColorScheme.TonesOf | color_scheme_generator/color_scheme_generator.py:104-107 | one tone sequence per base colour, in base order, each the preset scaling of its base; fails only for an unknown preset with at least one base |
| ColorScheme.GeneratePalette | color_scheme_generator/color_scheme_generator.py:104-108 | `generate_palette`: a palette exists exactly when both the scheme and the preset are registered, and otherwise the error is a KeyError; each tone sequence is as long as the preset. Its partners: PaletteShape gives the tones themselves, and PastelFromRed the texts of the default red |
| ColorScheme.PaletteShape | color_scheme_generator/color_scheme_generator.py:92-108 | a palette exists exactly when both names are registered; it then holds one tone sequence, as long as the preset, made of the scaled colour |
| ColorScheme.PastelFromRed | color_scheme_generator/color_scheme_generator.py:92-108 | the "mono"/"pastel" palette of the default red is "#FF6363", "#FF3A3A", "#FF0000", "#BA0000", "#990000" |
| Numeric.RoundHalfEven | color_scheme_generator/paletton.py:57 | `round` gives the whole number within 1/2, ties going to the even neighbour |
| Numeric.RoundIsUnique | color_scheme_generator/paletton.py:57 | only one whole number satisfies those rules |
| Numeric.RoundIsNearest | color_scheme_generator/paletton.py:57 | no whole number is closer to x than `round(x)` |
| Numeric.RoundMonotone | color_scheme_generator/paletton.py:105 | `round` never reverses the order of two reals |
| Numeric.Truncate | color_scheme_generator/utils.py:49 | `int()` gives the whole number toward zero that is within 1 of x |
| Wheel.Linspace | color_scheme_generator/paletton.py:146-148 | `num` samples; the first is `start`, consecutive ones differ by a constant step, the last is `stop` with the endpoint (one step short of it without); a zero divisor fails |
| Wheel.Segment | color_scheme_generator/paletton.py:48 | 15 samples from a towards b, the t-th being t/15 of the way |
| Wheel.Segments | color_scheme_generator/paletton.py:45-50 | the chained segments between neighbouring anchors: sample p lies p mod 15 steps after anchor p/15 |
| Wheel.ExpandChannel | color_scheme_generator/paletton.py:43-52 | 15 samples per anchor, sample p lying p mod 15 steps from anchor p/15 towards the next, the last anchor wrapping to the first |
| Wheel.Anchors | color_scheme_generator/paletton.py:54-55 | the anchor colours in ascending order of their degree |
| Wheel.ExpandColorWheel | color_scheme_generator/paletton.py:42-58 | an empty wheel fails to unpack; n anchors give exactly the degrees 0..15n-1 |
| Wheel.Expanded | color_scheme_generator/paletton.py:56-58 | degree p holds the rounded p-th sample of each channel |
| Wheel.ExpandedAt | color_scheme_generator/paletton.py:42-58 | degree 15i+t is the rounded colour t steps from anchor i towards the next one |
| Wheel.AnchorsKept | color_scheme_generator/paletton.py:54-57 | degree 15i is the i-th anchor in ascending degree order, unchanged |
| Wheel.WrapsAround | color_scheme_generator/paletton.py:51 | the last 15 degrees lead from the last anchor back to the first |
| Wheel.FullWheel | color_scheme_generator/paletton.py:42-58 | 24 anchors expand to exactly the degrees 0..359 |
| Wheel.ExpandedBytes | color_scheme_generator/paletton.py:56-58 | a wheel of byte colours expands to byte colours |
| Wheel.BetweenBytes | color_scheme_generator/paletton.py:57 | a rounded sample between two byte colours is a byte colour |
| OrderedKeys.SortedKeys | color_scheme_generator/paletton.py:55 | `sorted(keys)`: each key once, strictly ascending, nothing else |
| OrderedKeys.AscendingIsSorted | color_scheme_generator/paletton.py:139 | any strictly ascending listing of a set is its sorted listing |
| OrderedKeys.IndexOf | color_scheme_generator/paletton.py:140 | `list.index` gives the first position holding the value |
| OrderedKeys.InsertionPoint | color_scheme_generator/paletton.py:140 | the index of a new value in `sorted(keys + [x])` is the number of keys below it |
| HueLookup.HueDegrees | color_scheme_generator/paletton.py:137 | the rounded hue in whole degrees, in 0..360, defined exactly when `rgb_to_hsv` is |
| HueLookup.RawHue | color_scheme_generator/paletton.py:137 | dividing a triple by 255 changes neither whether its hue is defined nor the hue |
| HueLookup.CalculateHueOffsets | color_scheme_generator/paletton.py:36-39 | `calculate_hue_offsets` scans degrees 0..359. Every value is a wheel degree below 360 whose colour's hue is its key. The hue of every scanned degree is a key whose value is at least that degree, so the last degree wins. It fails with ZeroDivisionError exactly when some scanned colour has no hue. Its partners are HueOffsetsExample and OffsetsRoundTrip |
| HueLookup.Offsets | color_scheme_generator/paletton.py:36-39 | every value is a wheel degree in 0..359 whose colour's hue is its key; every such degree's hue is a key whose value is at least that degree, so the last degree wins; fails exactly when some scanned colour has no hue |
| HueLookup.HueOffsetsExample | color_scheme_generator/paletton.py:30-32 | the wheel {300: (120, 0, 106)} gives {307: 300} |
| HueLookup.ClosestKey | color_scheme_generator/paletton.py:138-141 | a key is found exactly when there are keys, and it is one of them; otherwise IndexError |
| HueLookup.ClosestKeyIsCircularFloor | color_scheme_generator/paletton.py:138-141 | the key picked is the largest key at or below the hue, or the largest key of all when every key is above it |
| HueLookup.FromRgbToPalettonHue | color_scheme_generator/paletton.py:130-143 | succeeds exactly when the hue is defined and the map is non-empty, with the matching error otherwise; the result is always a value of the map |
| HueLookup.PalettonHueLookup | color_scheme_generator/paletton.py:137-143 | a hue that is a key reads its own entry; any other hue reads the entry of its circular floor |
| HueLookup.FromPalettonHueToRgb | color_scheme_generator/paletton.py:115-127 | the entry at the whole degree Python's `round` picks for the hue, or KeyError when the wheel lacks it |
| HueLookup.NearestDegreeIsRound | color_scheme_generator/paletton.py:126 | the rounding rules single out exactly `round(hue)` |
| HueLookup.DegreeReadsItsEntry | color_scheme_generator/paletton.py:126-127 | a whole degree of the wheel reads its own entry |
| HueLookup.TopOfTurnMissing | color_scheme_generator/paletton.py:118-127 | on a full 24-anchor wheel a hue in [0, 360) reads an entry exactly when it is below 359.5 |
| HueLookup.TopOfTurn | color_scheme_generator/paletton.py:118-127 | on any wheel of degrees 0..359 the lookup as written fails from 359.5 on, the wrapped one never fails, and they agree where the first succeeds |
| HueLookup.FromPalettonHueToRgbWrapped | color_scheme_generator/paletton.py:118-127 | the lookup at round(hue) mod 360, failing exactly when that degree is missing |
| HueLookup.WrappedCoversTurn | color_scheme_generator/paletton.py:118-127 | on a full wheel the wrapped lookup reads an entry for every hue of the documented range and agrees with the lookup as written wherever that succeeds |
| Variations.Calc | color_scheme_generator/paletton.py:78-80 | the result is in [0, 1]: a ratio in [0, 1] is kept, one above 1 is 1, and a negative ratio x gives -x·base, clamped |
| Variations.CalcOfFraction | color_scheme_generator/paletton.py:78-80 | a ratio in [-1, 0) of a base in [0, 1] needs no clamping |
| Variations.MakeSvVariations | color_scheme_generator/paletton.py:82-87 | fails exactly when the colour has no HSV reading; otherwise one pair per preset entry, in the unit square, ratios in [0, 1] passed through |
| Variations.BaseInUnit | color_scheme_generator/paletton.py:82-83 | a byte colour has an HSV reading with saturation and value in [0, 1] |
| Variations.RelativeRatios | color_scheme_generator/paletton.py:78-86 | for a byte colour every pair is defined, and a ratio in [-1, 0) becomes that share of the colour's own saturation or value |
| Variations.Blend | color_scheme_generator/paletton.py:102-105 | the largest channel and a zero saturation both land on 255·v; a black colour lands on 255·v·(1-s) |
| Variations.Tone | color_scheme_generator/paletton.py:105 | at most 255; the largest channel and a zero saturation give min(255, round(255·v)); a black colour gives min(255, round(255·v·(1-s))) |
| Variations.VariationsGenerator | color_scheme_generator/paletton.py:100-107 | one triple per pair, in pair order, each blended from the colour with that pair |
| Variations.Variation | color_scheme_generator/paletton.py:102-107 | one yielded triple: no channel exceeds 255. Its partners: VariationCases gives the peak, grey and black cases, VariationKeepsOrder the channel order, and VariationOfBytes the byte range |
| Variations.VariationCases | color_scheme_generator/paletton.py:100-107 | every channel is at most 255, the largest channel becomes min(255, round(255·v)), s = 0 gives a grey, and a black colour gives round(255·v·(1-s)) in every channel |
| Variations.BlendInRange | color_scheme_generator/paletton.py:102-105 | for channels at most the largest and a target in the unit square the blend lies in [0, 255·v] |
| Variations.ToneInRange | color_scheme_generator/paletton.py:102-105 | so the clamp to 255 never cuts and no channel goes below 0 or above round(255·v) |
| Variations.ToneMonotone | color_scheme_generator/paletton.py:102-105 | a brighter input channel never gives a darker output channel |
| Variations.VariationKeepsOrder | color_scheme_generator/paletton.py:100-107 | a yielded triple orders its channels as the input colour does |
| Variations.VariationOfBytes | color_scheme_generator/paletton.py:100-107 | a byte colour and a target in the unit square give a byte colour; its largest channels become round(255·v), and black gives the grey round(255·v·(1-s)) |
| Variations.GeneratedVariations | color_scheme_generator/paletton.py:82-107 | the whole pipeline of a byte colour yields one byte triple per preset pair; when red is the largest channel it lands on round(255·v) of that pair |
| Paletton.NewPaletton | color_scheme_generator/paletton.py:18-24 | keeps the given wheel and presets; an empty wheel fails; the expanded wheel covers 0..15n-1; every hue offset is a degree of it below 360 |
| Paletton.ByteWheelConfigures | color_scheme_generator/paletton.py:18-24 | a non-empty wheel of byte colours always configures, with byte colours throughout and a non-empty offset map |
| Paletton.HueRoundTrip | color_scheme_generator/paletton.py:115-143 | on such a paletton every byte colour gets a paletton hue below 360 that `from_paletton_hue_to_rgb` reads back. The hue of the colour read back is the circular floor of the input's hue among the offsets' keys: the largest key at or below it, or else the largest key |
| Paletton.WheelColourRoundTrip | color_scheme_generator/paletton.py:130-143 | a colour of the expanded wheel maps back to a degree at or after its own that has the same hue |
| Paletton.OffsetsRoundTrip | color_scheme_generator/paletton.py:137-143 | the same for any expanded wheel and its offsets: a byte colour at a degree below 360 finds its hue among the keys |

## Left out

- Logging configured at import time, `print_hex_variations` and `Palette.print_hex_values`: these only write to the process's logger or to stdout. The palette is modelled as its nested sequence of colours.
- The module-level defaults `COLOR_WHEEL_V3`, `PRESETS_V3` and `PRESETS['default']`.
  - `constants.py` does not define them, so the model is parameterised over an arbitrary wheel and preset list.
  - For the same reason, the examples that depend on them are not modelled: `variations_generator` (paletton.py:93-98), both lookups (paletton.py:119-123, 132-134) and `make_sv_variations` (paletton.py:66-73).
- The documented `generate_palette` example (color_scheme_generator.py:95-101) contradicts the code. `ColorScheme.PastelFromRed` states what the code produces instead.
- `setup.py` and the test module, which exercises a command-line module that is not part of this model.
- IEEE-754 floating point: channels are exact reals. Results that sit exactly on a rounding or truncation boundary (`int(87.99999)`) can differ from the floating-point program.
- HexCodec.HexToRgb: requires the text to consist of hex digits and '#'. The leniency of Python's `int(s, 16)` (signs, '_', surrounding blanks, a "0x" prefix) is not modelled.
- Lazy generators are finite sequences. A failure inside a generator body is reported when the sequence is built, not when it is first iterated. Examples are the `SCHEMES[scheme]` lookup of `generate_from_scheme` (color_scheme_generator.py:68) and the `PRESETS[preset]` lookup of `generate_from_preset` (color_scheme_generator.py:73). `make_sv_variations` calls `rgb_to_hsv` before it builds its generator, so its ZeroDivisionError is eager in Python too.
- `Color` accepts any object for its keyword arguments. The model accepts an optional HSV triple, RGB triple or hex string.
- Wheel colours are integer triples. The Python code would also accept fractional channels in a wheel.
- Paletton.WheelColourRoundTrip: stated for byte wheels and for degrees below both 360 and 15·n. Degrees at or above 360 are not scanned by `calculate_hue_offsets`, so no round trip exists for them.
- Variations.VariationOfBytes: states the byte range and the largest channel, not the exact value of the other channels. Those are given by `Variations.Blend` and are not summarised further.
- The hue of a colour is not preserved by `variations_generator` in general. Beyond channel order (`Variations.VariationKeepsOrder`), nothing is stated about it.

## Findings

| source | as written | input that shows it | evidently intended | confidence | as-written member | corrected member |
|---|---|---|---|---|---|---|
| color_scheme_generator/paletton.py:118-127 | `from_paletton_hue_to_rgb` indexes the expanded wheel with `round(hue)`, although its documented range is 0 <= hue < 360 | hue = 359.7 on a 24-anchor wheel: `round` gives 360, which is not a degree of the wheel (degrees 0..359), so the lookup raises KeyError | take the rounded hue modulo 360, so that hues just below a full turn read degree 0 | not executed | HueLookup.TopOfTurnMissing | HueLookup.WrappedCoversTurn |
