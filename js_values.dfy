/** The JavaScript values that the chart code inspects in a loaded CSV row,
    and the two JavaScript tests it applies to them: truthiness (used by
    `&&`, `||` and `filter`) and the global `isNaN`. */
module JsValues {

  /** A JavaScript number. Only finite values and NaN occur in the data. */
  datatype Number = NaN | Finite(v: real)

  /** One cell of a row read with `d3.autoType`: an empty cell becomes `null`,
      a cell that reads as a number becomes that number (possibly NaN, from
      the text "NaN"), and every other cell stays text. A `Str` therefore
      holds text that does NOT read as a number. */
  datatype Cell = Null | Num(n: Number) | Str(s: string)

  /** JavaScript truthiness: null, NaN, 0 and "" are falsy. */
  predicate Truthy(c: Cell)
  {
    match c
    case Null => false
    case Num(NaN) => false
    case Num(Finite(v)) => v != 0.0
    case Str(s) => s != ""
  }

  /** The global `isNaN`, which first converts its argument to a number:
      null converts to 0, and text that autoType left as text converts to NaN. */
  predicate IsNaN(c: Cell)
  {
    match c
    case Null => false
    case Num(n) => n.NaN?
    case Str(_) => true
  }

  /** `a || b` on cells: the first operand when it is truthy, else the second. */
  function Or(a: Cell, b: Cell): (r: Cell)
    ensures r == a || r == b
    ensures Truthy(r) <==> Truthy(a) || Truthy(b)
    ensures Truthy(a) ==> r == a
    ensures !Truthy(a) ==> r == b
  {
    if Truthy(a) then a else b
  }
}
