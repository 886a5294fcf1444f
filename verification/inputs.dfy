/** Values read from the splitter's numeric input fields. */
module Inputs {

  /** The outcome of `parseInt` on a field: `None` stands for NaN. */
  datatype Option<T> = None | Some(value: T)

  /** `parseInt(field.value) || fallback`: NaN and 0 are falsy in JavaScript,
      so both give way to the fallback; every other parsed value is kept,
      negative ones included. */
  function ParsedOr(parsed: Option<int>, fallback: int): (n: int)
    ensures parsed.Some? && parsed.value != 0 ==> n == parsed.value
    ensures (parsed.None? || parsed.value == 0) ==> n == fallback
    ensures fallback != 0 ==> n != 0
  {
    if parsed.None? || parsed.value == 0 then fallback else parsed.value
  }
}
