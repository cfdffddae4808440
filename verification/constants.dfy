/** The named tuples and the built-in configuration of
    color_scheme_generator/constants.py. */
module Constants {

  /** `RGB_tuple`: channels normally in [0, 1]. */
  datatype Rgb = Rgb(red: real, green: real, blue: real)

  /** `HSV_tuple`: hue as a fraction of a turn, saturation and value normally in [0, 1]. */
  datatype Hsv = Hsv(hue: real, saturation: real, value: real)

  /** A (saturation ratio, value ratio) pair of a preset. */
  type RatioPair = (real, real)

  const Pastel: seq<RatioPair> := [(0.61, 1.0), (0.77, 1.0), (1.0, 1.0), (1.0, 0.73), (1.0, 0.6)]

  /** `PRESETS`: the only built-in preset is "pastel". */
  const Presets: map<string, seq<RatioPair>> := map["pastel" := Pastel]

  /** The names registered in `SCHEMES`; their values are empty and unused. */
  const Schemes: set<string> := {"mono", "complimentary"}
}
