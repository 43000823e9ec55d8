/** The day-streak bookkeeping. The current date is a parameter. */
module Streak {
  import opened Results

  /** A calendar day, as an ordinal. */
  type Day = int

  /** The stored streak record. `lastFatigue` is carried along untouched. */
  datatype StreakState = StreakState(current: int, lastDate: Option<Day>, minutesToday: real, lastFatigue: real)

  /** Records `minutesDone` more minutes on day `today` against the daily target. The
      first update of a new day restarts the day's minutes and either extends the
      streak (target met at once) or resets it to 0; later updates that day extend it
      by one exactly when the running total crosses the target. */
  function UpdateStreak(st: StreakState, minutesDone: real, dailyTarget: real, today: Day): (r: StreakState)
    ensures r.lastDate == Some(today) && r.lastFatigue == st.lastFatigue
    ensures st.lastDate != Some(today) ==>
      && r.minutesToday == minutesDone
      && r.current == (if minutesDone >= dailyTarget then st.current + 1 else 0)
    ensures st.lastDate == Some(today) ==>
      && r.minutesToday == st.minutesToday + minutesDone
      && (r.current == st.current || r.current == st.current + 1)
      && (r.current == st.current + 1 <==> st.minutesToday < dailyTarget <= r.minutesToday)
  {
    if st.lastDate != Some(today) then
      st.(minutesToday := minutesDone,
          current := if minutesDone >= dailyTarget then st.current + 1 else 0,
          lastDate := Some(today))
    else
      var total := st.minutesToday + minutesDone;
      st.(minutesToday := total,
          current := if total >= dailyTarget && total - minutesDone < dailyTarget then st.current + 1 else st.current)
  }

  /** Applies a series of updates, all on day `today`. */
  function UpdateAll(st: StreakState, increments: seq<real>, dailyTarget: real, today: Day): StreakState
    decreases |increments|
  {
    if |increments| == 0 then st
    else UpdateAll(UpdateStreak(st, increments[0], dailyTarget, today), increments[1..], dailyTarget, today)
  }

  function Total(xs: seq<real>): real
  {
    if |xs| == 0 then 0.0 else xs[0] + Total(xs[1..])
  }

  predicate NonNegative(xs: seq<real>)
  {
    forall i :: 0 <= i < |xs| ==> 0.0 <= xs[i]
  }

  /** With non-negative increments the streak rises at most once per day: over any run of
      same-day updates it grows by exactly one when the day's total crosses the target
      during the run, and otherwise stays put. */
  lemma {:induction false} SameDayRisesAtMostOnce(st: StreakState, increments: seq<real>, dailyTarget: real, today: Day)
    requires st.lastDate == Some(today)
    requires NonNegative(increments)
    ensures var r := UpdateAll(st, increments, dailyTarget, today);
      && r.lastDate == Some(today)
      && r.minutesToday == st.minutesToday + Total(increments)
      && r.current == if st.minutesToday < dailyTarget <= st.minutesToday + Total(increments) then st.current + 1 else st.current
    decreases |increments|
  {
    if |increments| > 0 {
      var next := UpdateStreak(st, increments[0], dailyTarget, today);
      var rest := increments[1..];
      assert NonNegative(rest) by {
        forall i | 0 <= i < |rest| ensures 0.0 <= rest[i] {
          assert rest[i] == increments[i + 1];
        }
      }
      SameDayRisesAtMostOnce(next, rest, dailyTarget, today);
      TotalNonNegative(rest);
    }
  }

  lemma {:induction false} TotalNonNegative(xs: seq<real>)
    requires NonNegative(xs)
    ensures 0.0 <= Total(xs)
  {
    if |xs| > 0 {
      assert NonNegative(xs[1..]) by {
        forall i | 0 <= i < |xs[1..]| ensures 0.0 <= xs[1..][i] {
          assert xs[1..][i] == xs[i + 1];
        }
      }
      TotalNonNegative(xs[1..]);
    }
  }

  /** A day's streak outcome is decided by its first session: a first session that meets
      the target extends the streak, while a shorter one resets it to 0, so that reaching
      the target later that day yields a streak of 1 rather than the old count plus one. */
  lemma FirstSessionDecidesDay(st: StreakState, increments: seq<real>, dailyTarget: real, today: Day)
    requires st.lastDate != Some(today)
    requires |increments| > 0 && NonNegative(increments)
    ensures UpdateAll(st, increments, dailyTarget, today).current ==
      if increments[0] >= dailyTarget then st.current + 1
      else if Total(increments) >= dailyTarget then 1
      else 0
  {
    var next := UpdateStreak(st, increments[0], dailyTarget, today);
    var rest := increments[1..];
    assert NonNegative(rest) by {
      forall i | 0 <= i < |rest| ensures 0.0 <= rest[i] {
        assert rest[i] == increments[i + 1];
      }
    }
    SameDayRisesAtMostOnce(next, rest, dailyTarget, today);
  }

  /** Two same-day sessions that each meet the target on their own add one day, not two.
      A zero target is never crossed from below, so then no day is added. */
  lemma TwoCrossingSessionsCountOnce(st: StreakState, a: real, b: real, dailyTarget: real, today: Day)
    requires st.lastDate == Some(today) && st.minutesToday == 0.0
    requires 0.0 <= dailyTarget <= a && dailyTarget <= b
    ensures UpdateAll(st, [a, b], dailyTarget, today).current ==
      if 0.0 < dailyTarget then st.current + 1 else st.current
  {
    SameDayRisesAtMostOnce(st, [a, b], dailyTarget, today);
    assert Total([b]) == b + Total([]);
    assert Total([a, b]) == a + Total([b]);
  }
}
