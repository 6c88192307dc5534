/** Small value types shared by the whole model: optional values, the outcome
    of a JavaScript call that may throw, and integer helpers. */
module Common {

  /** A value that may be absent (`undefined` / `null` in the source). */
  datatype Option<+T> = None | Some(value: T) {
    function GetOr(default: T): T {
      match this
      case Some(v) => v
      case None => default
    }
  }

  /** How a JavaScript call ends: it returns a value, or an exception escapes. */
  datatype Completion<+T> = Normal(value: T) | Thrown

  function Abs(x: int): nat {
    if x < 0 then -x else x
  }

  function Min(a: int, b: int): int {
    if a <= b then a else b
  }

  function Max(a: int, b: int): int {
    if a >= b then a else b
  }
}
