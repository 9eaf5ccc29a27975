/** Integers extended with the `float('inf')` sentinel the algorithms start
    their minimum searches and their distance tables with. */
module Extended {

  datatype ExtInt = Finite(value: int) | Infinity

  /** `min(a, b)` where `a` may be infinite and `b` is an integer. */
  function MinWith(a: ExtInt, b: int): (r: ExtInt)
    ensures r.Finite? && r.value <= b
    ensures a.Finite? ==> r.value <= a.value
    ensures r == a || r == Finite(b)
  {
    if a.Finite? && a.value <= b then a else Finite(b)
  }

  /** Python's `min(a, b)` on numbers where either side may be `inf`: the
      second argument only when it is strictly smaller. */
  function Min(a: ExtInt, b: ExtInt): (r: ExtInt)
    ensures AtMost(r, a) && AtMost(r, b)
    ensures r == a || r == b
  {
    if Less(b, a) then b else a
  }

  /** `a + c`, where infinity absorbs any integer. */
  function Plus(a: ExtInt, c: int): (r: ExtInt)
    ensures r.Finite? <==> a.Finite?
    ensures r.Finite? ==> r.value - c == a.value
  {
    match a
    case Finite(x) => Finite(x + c)
    case Infinity => Infinity
  }

  /** Python's `a < b` on numbers where either side may be `inf`. */
  predicate Less(a: ExtInt, b: ExtInt)
  {
    a.Finite? && (b.Infinity? || a.value < b.value)
  }

  /** Python's `a <= b` on numbers where either side may be `inf`. */
  predicate AtMost(a: ExtInt, b: ExtInt)
  {
    b.Infinity? || (a.Finite? && a.value <= b.value)
  }
}
