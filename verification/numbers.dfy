/** The floating-point side of the calculator, kept abstract: the
    calculator only ever parses a substring into a number, formats a number
    back into text, and applies one of four arithmetic operations. */
module Numbers {
  import opened Results

  /** A number backend over the value type `V`. `parse` answers what
      float.TryParse answers (float.Parse fails exactly when it answers
      None), `format` is the conversion of a number to a string used when a
      bracket group is replaced by its value, and the four operations are
      the single-precision sum, difference, product and quotient. */
  datatype Arith<!V> = Arith(
    parse: string -> Option<V>,
    format: V -> string,
    add: (V, V) -> V,
    sub: (V, V) -> V,
    mul: (V, V) -> V,
    div: (V, V) -> V)
}
