/** Integers extended with the two infinities the game-search code takes
    from `float("inf")`; only comparisons and `max`/`min` are used. */
module ExtInt {
  datatype EInt = NegInf | Fin(n: int) | PosInf

  /** `a <= b`. */
  predicate Le(a: EInt, b: EInt) {
    a == NegInf || b == PosInf || (a.Fin? && b.Fin? && a.n <= b.n)
  }

  /** `a < b`. */
  predicate Lt(a: EInt, b: EInt) {
    Le(a, b) && a != b
  }

  /** Python's `max(a, b)`: `a` unless `b` is strictly greater. */
  function Max(a: EInt, b: EInt): (r: EInt)
    ensures Le(a, r) && Le(b, r)
    ensures r == a || r == b
  {
    if Lt(a, b) then b else a
  }

  /** Python's `min(a, b)`: `a` unless `b` is strictly smaller. */
  function Min(a: EInt, b: EInt): (r: EInt)
    ensures Le(r, a) && Le(r, b)
    ensures r == a || r == b
  {
    if Lt(b, a) then b else a
  }

  /** Python's `max` with a key over a non-empty list, on the keys: the
      index of the first key that no other key exceeds. */
  function FirstMax(vs: seq<EInt>): (r: nat)
    requires vs != []
    ensures r < |vs|
    ensures forall j :: 0 <= j < |vs| ==> Le(vs[j], vs[r])
    ensures forall j :: 0 <= j < r ==> Lt(vs[j], vs[r])
  {
    if |vs| == 1 then 0
    else
      var r := FirstMax(vs[..|vs| - 1]);
      if Lt(vs[r], vs[|vs| - 1]) then |vs| - 1 else r
  }

  lemma LeTotal(a: EInt, b: EInt)
    ensures Le(a, b) || Le(b, a)
  {
  }

  lemma LeTrans(a: EInt, b: EInt, c: EInt)
    requires Le(a, b) && Le(b, c)
    ensures Le(a, c)
  {
  }
}
