/** The daily budget window in units, derated by fatigue. */
module Budget {
  import opened Units

  /** Share of the daily target that forms the low and high edge of the window. */
  const LowShare: real := 0.7
  const HighShare: real := 1.3

  /** Fatigue above `TiredAbove` derates the window once; above `ExhaustedAbove`, again. */
  const TiredAbove: real := 0.6
  const ExhaustedAbove: real := 0.8

  /** A unit window `[low, high]` for the selector. */
  datatype Window = Window(low: nat, high: nat)

  /** Scaling by a non-negative factor preserves order. */
  lemma ScalePreservesOrder(a: real, b: real, factor: real)
    requires a <= b && 0.0 <= factor
    ensures a * factor <= b * factor
  {
    var d := b - a;
    assert d * factor >= 0.0;
    assert b * factor == a * factor + d * factor;
  }

  /** `int(u * factor)`: scaling a unit count down and dropping the fraction. */
  function Derate(u: nat, factor: real): (r: nat)
    requires 0.0 <= factor <= 1.0
    ensures r <= u
    ensures r as real <= u as real * factor < r as real + 1.0
  {
    var x := u as real * factor;
    assert 0.0 <= x <= u as real by {
      ScalePreservesOrder(0.0, u as real, factor);
      ScalePreservesOrder(factor, 1.0, u as real);
    }
    Truncate(x)
  }

  /** The window before fatigue is applied. */
  function BaseWindow(dailyMins: real): Window
  {
    Window(ToUnits(dailyMins * LowShare), ToUnits(dailyMins * HighShare))
  }

  /** The window for a daily target and a fatigue score. The derates chain: above 0.8
      both the 0.6 and the 0.8 multipliers apply, each truncating. Derating never
      widens the window. */
  function BudgetWindow(dailyMins: real, fatigue: real): (w: Window)
    ensures w.low <= BaseWindow(dailyMins).low && w.high <= BaseWindow(dailyMins).high
    ensures fatigue <= TiredAbove ==> w == BaseWindow(dailyMins)
  {
    var base := BaseWindow(dailyMins);
    var tired := if fatigue > TiredAbove then Window(Derate(base.low, 0.9), Derate(base.high, 0.85)) else base;
    if fatigue > ExhaustedAbove then Window(Derate(tired.low, 0.9), Derate(tired.high, 0.7)) else tired
  }

  /** Derating by the same factor preserves order. */
  lemma DerateMonotone(a: nat, b: nat, factor: real)
    requires a <= b && 0.0 <= factor <= 1.0
    ensures Derate(a, factor) <= Derate(b, factor)
  {
    ScalePreservesOrder(a as real, b as real, factor);
    ScalePreservesOrder(0.0, a as real, factor);
    TruncateMonotone(a as real * factor, b as real * factor);
  }

  /** More fatigue never widens the window: both edges shrink or hold as the score grows.
      It follows from each derate never raising a count. */
  lemma BudgetMonotone(dailyMins: real, f1: real, f2: real)
    requires f1 <= f2
    ensures BudgetWindow(dailyMins, f2).low <= BudgetWindow(dailyMins, f1).low
    ensures BudgetWindow(dailyMins, f2).high <= BudgetWindow(dailyMins, f1).high
  {
  }
}
