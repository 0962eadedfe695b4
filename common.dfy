/** Small shared vocabulary: optional values and JavaScript truthiness of request fields. */
module Common {

  datatype Option<+T> = None | Some(value: T) {
    function GetOr(default: T): T {
      match this
      case Some(v) => v
      case None => default
    }
  }

  /** A numeric request field passes `if (!x)` only when present and non-zero
      (`undefined`, `null`, `NaN` and `0` are all modelled as failing). */
  predicate Truthy(x: Option<int>) {
    x.Some? && x.value != 0
  }

  /** A string request field passes `if (!x)` only when present and non-empty. */
  predicate TruthyText(x: Option<string>) {
    x.Some? && x.value != ""
  }

  function Min(a: int, b: int): int {
    if a <= b then a else b
  }
}
