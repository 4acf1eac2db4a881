/** Small definitions the page's logic shares: an optional value, the decimal digit
    class, the larger of two numbers, and the joining of strings. */
module Basics {

  datatype Option<T> = None | Some(value: T)

  /** One ASCII decimal digit: the regular-expression class `\d`, and what
      `String(n)` writes for a non-negative integer. */
  predicate IsDigit(c: char) {
    '0' <= c <= '9'
  }

  /** `Math.max(a, b)`: one of the two, and at least both. */
  function Max(a: int, b: int): (r: int)
    ensures r >= a && r >= b
    ensures r == a || r == b
  {
    if a < b then b else a
  }

  /** `xs.join('')`: the strings one after the other, with no separator. The result
      is empty exactly when every string is, and it begins with the first one. */
  function Concat(xs: seq<string>): (r: string)
    ensures r == [] <==> forall i :: 0 <= i < |xs| ==> xs[i] == []
    ensures xs != [] ==> xs[0] <= r
  {
    if xs == [] then [] else xs[0] + Concat(xs[1..])
  }
}
