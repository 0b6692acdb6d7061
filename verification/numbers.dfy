/** JavaScript numbers as far as the sorted set's comparator and `ifEmpty`
    see them. */
module Numbers {

  /** A number: `NaN`, or an ordered value. */
  datatype JsNumber = NaN | Finite(x: real)

  /** The relational `<`: false whenever either side is `NaN`. */
  predicate LessThan(a: JsNumber, b: JsNumber) {
    a.Finite? && b.Finite? && a.x < b.x
  }

  /** `===` on numbers: `NaN` equals nothing, itself included. */
  predicate StrictEquals(a: JsNumber, b: JsNumber) {
    a.Finite? && b.Finite? && a.x == b.x
  }

  /** The numeric branch of the sorted set's comparator: -1 when `a < b`,
      1 when `a > b`, and 0 otherwise. */
  function NumberCompare(a: JsNumber, b: JsNumber): (r: int)
    ensures -1 <= r <= 1
    ensures a.Finite? && b.Finite? ==> (r < 0 <==> a.x - b.x < 0.0) && (r > 0 <==> a.x - b.x > 0.0)
    ensures a.NaN? || b.NaN? ==> r == 0
  {
    if LessThan(a, b) then -1
    else if LessThan(b, a) then 1
    else 0
  }
}
