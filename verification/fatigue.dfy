/** The fatigue increment earned by one finished study batch. */
module FatigueModel {

  const PerMinute: real := 0.007
  const PerDifficulty: real := 0.02
  const Cap: real := 1.0

  /** The uncapped linear score. */
  function Score(minutesDone: real, avgDifficulty: real): real
  {
    PerMinute * minutesDone + PerDifficulty * avgDifficulty
  }

  /** The increment: the linear score, capped at 1.0. */
  function ComputeFatigue(minutesDone: real, avgDifficulty: real): (r: real)
    ensures r <= Cap
    ensures r <= Score(minutesDone, avgDifficulty)
    ensures r == Cap || r == Score(minutesDone, avgDifficulty)
  {
    var score := Score(minutesDone, avgDifficulty);
    if score <= Cap then score else Cap
  }

  /** For non-negative inputs the increment lies in [0, 1]. */
  lemma FatigueInUnitRange(minutesDone: real, avgDifficulty: real)
    requires 0.0 <= minutesDone && 0.0 <= avgDifficulty
    ensures 0.0 <= ComputeFatigue(minutesDone, avgDifficulty) <= 1.0
  {
  }

  /** More minutes or harder material never lowers the increment. */
  lemma FatigueMonotone(m1: real, d1: real, m2: real, d2: real)
    requires m1 <= m2 && d1 <= d2
    ensures ComputeFatigue(m1, d1) <= ComputeFatigue(m2, d2)
  {
  }
}
