/** Fixed-point minutes: the selector works on whole tenths of a minute ("units"). */
module Units {

  /** Units per minute: one decimal place of precision. */
  const Scale: real := 10.0

  /** Rounding to the nearest integer with ties going to the even neighbour, the rule
      of the built-in `round`. The two ensures determine the result uniquely. */
  function RoundHalfEven(x: real): (r: int)
    ensures -0.5 <= r as real - x <= 0.5
    ensures (r as real - x == 0.5 || x - r as real == 0.5) ==> r % 2 == 0
  {
    var f := x.Floor;
    var d := x - f as real;
    if d < 0.5 then f
    else if d > 0.5 then f + 1
    else if f % 2 == 0 then f
    else f + 1
  }

  /** Conversion of a real to an integer by dropping the fraction (toward zero), the
      rule of the built-in `int`. */
  function Truncate(x: real): (r: int)
    ensures 0.0 <= x ==> 0 <= r && r as real <= x < r as real + 1.0
    ensures x < 0.0 ==> r <= 0 && r as real - 1.0 < x <= r as real
  {
    if x >= 0.0 then x.Floor else -((-x).Floor)
  }

  /** Dropping the fraction preserves order. */
  lemma TruncateMonotone(x: real, y: real)
    requires 0.0 <= x <= y
    ensures Truncate(x) <= Truncate(y)
  {
  }

  /** Minutes to units: scale, round half to even, never below zero. */
  function ToUnits(mins: real): (u: nat)
    ensures mins <= 0.0 ==> u == 0
    ensures 0.0 <= mins ==> -0.05 <= FromUnits(u) - mins <= 0.05
  {
    var n := RoundHalfEven(mins * Scale);
    if n < 0 then 0 else n
  }

  /** Units back to minutes. */
  function FromUnits(u: int): (mins: real)
    ensures mins * Scale == u as real
    ensures 0 <= u <==> 0.0 <= mins
  {
    u as real / Scale
  }

  /** Converting units to minutes and back is the identity: a minute value with at most
      one decimal is represented exactly. */
  lemma ToUnitsFromUnits(u: nat)
    ensures ToUnits(FromUnits(u)) == u
  {
    assert FromUnits(u) * Scale == u as real;
    assert (u as real).Floor == u;
  }

  /** Rounding preserves order, so longer segments never weigh fewer units. */
  lemma ToUnitsMonotone(a: real, b: real)
    requires a <= b
    ensures ToUnits(a) <= ToUnits(b)
  {
    assert a * Scale <= b * Scale;
  }
}
