/** Keys the keyboard handlers react to, and JavaScript's remainder operator used in
    their index arithmetic. */
module Keyboard {

  /** `KeyboardEvent.key` values; `Space` is the key `" "`. */
  datatype Key =
    | Enter | Space | Escape | Tab
    | ArrowUp | ArrowDown | ArrowLeft | ArrowRight
    | Home | End
    | Other(name: string)

  /** JavaScript's `%`: truncating division, so the remainder has the sign of the
      dividend (unlike Dafny's `%`, whose remainder is never negative). */
  function JsRem(a: int, b: int): (r: int)
    requires b > 0
    ensures a >= 0 ==> 0 <= r < b
    ensures a < 0 ==> -b < r <= 0
    ensures a == JsQuot(a, b) * b + r
  {
    if a >= 0 then a % b
    else
      var q := (-a) / b;
      assert -a == q * b + (-a) % b;
      -((-a) % b)
  }

  /** The quotient of JavaScript's truncating division. */
  function JsQuot(a: int, b: int): int
    requires b > 0
  {
    if a >= 0 then a / b else -((-a) / b)
  }
}
