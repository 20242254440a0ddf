/**
 * Floating-point fields. Neither the Go package nor the C++ library is
 * modelled down to IEEE arithmetic: a float is its bit pattern, and the
 * library calls that read and write float text are parameters.
 */
module Floats {
  import opened Results

  /** A Go `float64`, as its 64-bit pattern. */
  datatype Float = Float(bits: bv64)

  /**
   * `strconv.ParseFloat(_, 64)`, `fmt.Sprintf("%f", _)` (six decimals) and
   * `fmt.Sprintf("%v", _)` (the shortest text that reads back, `3` for 3.0)
   * are library calls and parameters here.
   */
  datatype FloatText = FloatText(parse: string -> Option<Float>, format: Float -> string, general: Float -> string)

  /** `ParseFloat` of some text. */
  function Parse(ft: FloatText, t: string): Option<Float> {
    ft.parse(t)
  }

  /** `%f` of a float. */
  function Format(ft: FloatText, x: Float): string {
    ft.format(x)
  }

  /** `%v` of a float. */
  function General(ft: FloatText, x: Float): string {
    ft.general(x)
  }

  /**
   * What the packet relies on: `%f` writes non-empty text without `;` that
   * `ParseFloat` accepts. It need not give back the same float: `%f` keeps six
   * decimals.
   */
  ghost predicate Lawful(ft: FloatText) {
    forall x: Float :: Format(ft, x) != "" && ';' !in Format(ft, x) && Parse(ft, Format(ft, x)).Some?
  }

  /** A C++ `float`, as its 32-bit pattern. */
  datatype Float32 = Float32(bits: bv32)

  /**
   * `std::stof` and `std::to_string(float)`, parameters too. `stof` throws
   * `std::invalid_argument` when nothing converts and `std::out_of_range`
   * when the value does not fit.
   */
  datatype CFloatText = CFloatText(stof: string -> Result<Float32, CppError>, toString: Float32 -> string)

  /** `std::to_string` writes non-empty text without `;` that `std::stof` accepts. */
  ghost predicate CLawful(ct: CFloatText) {
    forall x: Float32 :: ct.toString(x) != "" && ';' !in ct.toString(x) && ct.stof(ct.toString(x)).Ok?
  }
}
