/**
 * The JavaScript number machinery the calculator calls into. Arithmetic on
 * IEEE 754 doubles is not modelled: a double is its 64-bit pattern, and
 * `parseFloat`, `isNaN`, the four operators and `Number.prototype.toString`
 * are supplied by the host as the fields of a `Numerics` record.
 */
module JsNumber {

  /** An IEEE 754 binary64 value, as its bit pattern. */
  datatype Double = Double(bits: bv64)

  /** +0.0, the initial value of `computation` in `evaluate`. */
  const Zero: Double := Double(0x0000_0000_0000_0000)
  /** -1.0, the factor used by the sign toggle. */
  const MinusOne: Double := Double(0xBFF0_0000_0000_0000)
  /** 100.0, the divisor used by the percentage key. */
  const Hundred: Double := Double(0x4059_0000_0000_0000)

  /** The host's number operations, left uninterpreted. */
  datatype Numerics = Numerics(
    parseFloat: string -> Double,
    isNaN: Double -> bool,
    plus: (Double, Double) -> Double,
    minus: (Double, Double) -> Double,
    times: (Double, Double) -> Double,
    divide: (Double, Double) -> Double,
    toString: Double -> string)

  /**
   * The few facts about JavaScript numbers the model relies on:
   * `parseFloat("")` and `parseFloat(".")` are NaN, `(0).toString()` is
   * "0", and `toString` never yields the empty string.
   */
  ghost predicate Conforms(num: Numerics)
  {
    && num.isNaN(num.parseFloat(""))
    && num.isNaN(num.parseFloat("."))
    && num.toString(Zero) == "0"
    && forall x: Double :: num.toString(x) != ""
  }
}
