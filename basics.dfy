/** Small shared vocabulary: an Option type for SQL NULL / JavaScript null, and integer max/min. */
module Basics {

  /** `None` stands for SQL NULL, JavaScript `null` or `undefined`. */
  datatype Option<+T> = None | Some(value: T) {
    /** The `coalesce(x, d)` / `x ?? d` of the source. */
    function GetOr(default: T): T {
      match this
      case Some(v) => v
      case None => default
    }
  }

  function Max(a: int, b: int): int { if a < b then b else a }

  function Min(a: int, b: int): int { if a < b then a else b }
}
