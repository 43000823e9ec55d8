/** The bounded 0/1 subset-sum selector over unit weights: the reachability table, the
    choice of target total and the backtrack that reconstructs the chosen items. */
module Knapsack {
  import opened Results

  /** Table entry of a total that is not reachable. */
  const Unreached: int := -1
  /** Table entry of total 0, reachable with no item. */
  const Start: int := -2

  function Sum(w: seq<nat>): nat
  {
    if |w| == 0 then 0 else w[0] + Sum(w[1..])
  }

  /** The table's capacity: the total weight, but no more than the window's high edge. */
  function Capacity(w: seq<nat>, high: nat): nat
  {
    if Sum(w) < high then Sum(w) else high
  }

  /** Whether the unit total `s` is the weight of a subset of the first `n` items that
      uses only items of positive weight. */
  ghost predicate Reachable(w: seq<nat>, n: nat, s: int)
    requires n <= |w|
    decreases n
  {
    if n == 0 then s == 0
    else Reachable(w, n - 1, s) || (w[n - 1] > 0 && s >= w[n - 1] && Reachable(w, n - 1, s - w[n - 1]))
  }

  /** The total weight of the items of `picked` among the first `n`. */
  function SubsetUnits(w: seq<nat>, picked: set<nat>, n: nat): nat
    requires n <= |w|
  {
    if n == 0 then 0 else SubsetUnits(w, picked, n - 1) + (if n - 1 in picked then w[n - 1] else 0)
  }

  lemma {:induction false} ReachableZero(w: seq<nat>, n: nat)
    requires n <= |w|
    ensures Reachable(w, n, 0)
  {
    if n > 0 {
      ReachableZero(w, n - 1);
    }
  }

  /** Totals reachable with fewer items stay reachable with more. */
  lemma {:induction false} ReachableMonotone(w: seq<nat>, m: nat, n: nat, s: int)
    requires m <= n <= |w| && Reachable(w, m, s)
    ensures Reachable(w, n, s)
    decreases n
  {
    if m < n {
      ReachableMonotone(w, m, n - 1, s);
    }
  }

  lemma {:induction false} SubsetUnitsAgree(w: seq<nat>, a: set<nat>, b: set<nat>, n: nat)
    requires n <= |w|
    requires forall i :: 0 <= i < n ==> (i in a <==> i in b)
    ensures SubsetUnits(w, a, n) == SubsetUnits(w, b, n)
  {
    if n > 0 {
      SubsetUnitsAgree(w, a, b, n - 1);
    }
  }

  lemma {:induction false} SubsetUnitsNone(w: seq<nat>, n: nat)
    requires n <= |w|
    ensures SubsetUnits(w, {}, n) == 0
  {
    if n > 0 {
      SubsetUnitsNone(w, n - 1);
    }
  }

  lemma {:induction false} SubsetUnitsAdd(w: seq<nat>, picked: set<nat>, i: nat, n: nat)
    requires n <= |w| && i < n && i !in picked
    ensures SubsetUnits(w, picked + {i}, n) == SubsetUnits(w, picked, n) + w[i]
  {
    if i < n - 1 {
      SubsetUnitsAdd(w, picked, i, n - 1);
    } else {
      SubsetUnitsAgree(w, picked + {i}, picked, n - 1);
    }
  }

  /** Every subset's total is reachable: `Reachable` covers all subset sums. */
  lemma {:induction false} SubsetIsReachable(w: seq<nat>, picked: set<nat>, n: nat)
    requires n <= |w|
    ensures Reachable(w, n, SubsetUnits(w, picked, n))
  {
    if n > 0 {
      SubsetIsReachable(w, picked, n - 1);
    }
  }

  /** Every reachable total is the total of some subset of positive-weight items:
      `Reachable` holds of subset sums and nothing else. */
  lemma {:induction false} ReachableIsSubset(w: seq<nat>, n: nat, s: int) returns (picked: set<nat>)
    requires n <= |w| && Reachable(w, n, s)
    ensures forall i :: i in picked ==> i < n && w[i] > 0
    ensures SubsetUnits(w, picked, n) == s
  {
    if n == 0 {
      picked := {};
    } else if Reachable(w, n - 1, s) {
      picked := ReachableIsSubset(w, n - 1, s);
      assert n - 1 !in picked;
    } else {
      var p := ReachableIsSubset(w, n - 1, s - w[n - 1]);
      picked := p + {n - 1};
      SubsetUnitsAgree(w, picked, p, n - 1);
    }
  }

  /** Item `i` is the one whose pass first made total `s` reachable. */
  ghost predicate FirstReached(w: seq<nat>, i: nat, s: int)
    requires i < |w|
  {
    !Reachable(w, i, s) && Reachable(w, i + 1, s)
  }

  /** What the table holds for total `s` once the first `n` items have been processed. */
  ghost predicate Entry(w: seq<nat>, n: nat, s: int, e: int)
    requires n <= |w|
  {
    if Reachable(w, n, s) then 0 <= e < n && FirstReached(w, e, s) else e == Unreached
  }

  /** The finished table for capacity `cap`. */
  ghost predicate IsTable(w: seq<nat>, cap: nat, dp: seq<int>)
  {
    && |dp| == cap + 1
    && dp[0] == Start
    && forall s :: 1 <= s <= cap ==> Entry(w, |w|, s, dp[s])
  }

  /** The reachability pass. Each item of positive weight is tried against every total
      from `cap` down to its weight; a total that is still unreached and whose remainder
      is reached records the item. Entries are never overwritten, and the descending
      sweep means the remainder was reached by an earlier item. */
  method BuildTable(w: seq<nat>, cap: nat) returns (dp: seq<int>)
    ensures IsTable(w, cap, dp)
  {
    dp := seq(cap + 1, s => if s == 0 then Start else Unreached);
    var i := 0;
    while i < |w|
      invariant 0 <= i <= |w|
      invariant |dp| == cap + 1 && dp[0] == Start
      invariant forall s :: 1 <= s <= cap ==> Entry(w, i, s, dp[s])
    {
      var wi := w[i];
      ReachableZero(w, i);
      if wi > 0 {
        var s: int := cap;
        while s >= wi
          invariant 0 <= s <= cap
          invariant |dp| == cap + 1 && dp[0] == Start
          invariant forall x :: s < x <= cap ==> Entry(w, i + 1, x, dp[x])
          invariant forall x :: 1 <= x <= s ==> Entry(w, i, x, dp[x])
        {
          if dp[s] == Unreached && dp[s - wi] != Unreached {
            dp := dp[s := i];
          }
          s := s - 1;
        }
      }
      i := i + 1;
    }
  }

  /** The upward scan `s = lo .. hi` that remembers the last reached total, starting from
      `none`. */
  function LastReached(dp: seq<int>, lo: nat, hi: int, none: int): (r: int)
    requires hi < |dp|
    ensures (lo <= r <= hi && dp[r] != Unreached && forall s :: r < s <= hi ==> dp[s] == Unreached)
         || (r == none && forall s :: lo <= s <= hi ==> dp[s] == Unreached)
    decreases hi - lo + 1
  {
    if lo > hi then none
    else LastReached(dp, lo + 1, hi, if dp[lo] != Unreached then lo else none)
  }

  /** The downward scan `s = from, from - 1, .., 0` that stops at the first reached total,
      or gives -1. */
  function FirstReachedDown(dp: seq<int>, from: int): (r: int)
    requires from < |dp|
    ensures (0 <= r <= from && dp[r] != Unreached && forall s :: r < s <= from ==> dp[s] == Unreached)
         || (r == -1 && forall s :: 0 <= s <= from ==> dp[s] == Unreached)
    decreases from + 1
  {
    if from < 0 then -1
    else if dp[from] != Unreached then from
    else FirstReachedDown(dp, from - 1)
  }

  /** The upward scan `s = lo .. hi` that stops at the first reached total, or gives -1. */
  function FirstReachedUp(dp: seq<int>, lo: nat, hi: int): (r: int)
    requires hi < |dp|
    ensures (lo <= r <= hi && dp[r] != Unreached && forall s :: lo <= s < r ==> dp[s] == Unreached)
         || (r == -1 && forall s :: lo <= s <= hi ==> dp[s] == Unreached)
    decreases hi - lo + 1
  {
    if lo > hi then -1
    else if dp[lo] != Unreached then lo
    else FirstReachedUp(dp, lo + 1, hi)
  }

  /** The target choice as written: the last reached total in `[low, cap]`; failing that,
      a downward scan from `low - 1`, which reads past the end of the table when
      `low - 1 > cap`; failing that, a second upward scan from `low + 1`. */
  function ChooseBestAsWritten(dp: seq<int>, low: nat): (r: Result<int, Fault>)
    requires |dp| > 0
    ensures r.Failure? <==> low > |dp|
    ensures r.Failure? ==> r.error == IndexOutOfRange(low - 1, |dp|)
    ensures r.Success? ==> -1 <= r.value < |dp| && (r.value >= 0 ==> dp[r.value] != Unreached)
  {
    var cap := |dp| - 1;
    var best := LastReached(dp, low, cap, -1);
    if best != -1 then Success(best)
    else if low - 1 > cap then Failure(IndexOutOfRange(low - 1, |dp|))
    else
      var down := FirstReachedDown(dp, low - 1);
      if down != -1 then Success(down)
      else Success(FirstReachedUp(dp, low + 1, cap))
  }

  /** The target choice with the downward scan starting inside the table. The result is
      the largest reached total in `[low, cap]` when there is one, and otherwise the
      largest reached total below `low`. */
  function ChooseBest(dp: seq<int>, low: nat): (best: int)
    requires |dp| > 0 && dp[0] != Unreached
    ensures 0 <= best < |dp| && dp[best] != Unreached
    ensures (exists s :: low <= s < |dp| && dp[s] != Unreached) ==>
      low <= best && forall s :: best < s < |dp| ==> dp[s] == Unreached
    ensures (forall s :: low <= s < |dp| ==> dp[s] == Unreached) ==>
      best < low && forall s :: best < s < |dp| ==> dp[s] == Unreached
  {
    var cap := |dp| - 1;
    var best := LastReached(dp, low, cap, -1);
    if best != -1 then best
    else
      var from := if low - 1 < cap then low - 1 else cap;
      var down := FirstReachedDown(dp, from);
      if down != -1 then down
      else
        // The downward scan always reaches entry 0.
        assert false;
        0
  }

  /** The as-written choice fails exactly when `low` lies more than one past the table,
      and otherwise agrees with the corrected choice. */
  lemma AsWrittenFaultsOnlyPastTable(dp: seq<int>, low: nat)
    requires |dp| > 0 && dp[0] != Unreached
    ensures ChooseBestAsWritten(dp, low).Failure? <==> low > |dp|
    ensures ChooseBestAsWritten(dp, low).Success? ==> ChooseBestAsWritten(dp, low).value == ChooseBest(dp, low)
  {
  }

  /** The last fallback scan is dead code: when the primary scan finds nothing in
      `[low, cap]`, the downward scan succeeds (entry 0 is always reached), and the
      fallback's range `[low + 1, cap]` holds no reached total anyway. */
  lemma FallbackScanIsDead(dp: seq<int>, low: nat)
    requires |dp| > 0 && dp[0] != Unreached
    requires low <= |dp|
    requires LastReached(dp, low, |dp| - 1, -1) == -1
    ensures FirstReachedDown(dp, low - 1) != -1 || low == 0
    ensures FirstReachedUp(dp, low + 1, |dp| - 1) == -1
  {
  }

  /** The window's low edge does not change the target: in both branches the choice is
      the largest reached total in the table. */
  lemma TargetIgnoresLowEdge(dp: seq<int>, low1: nat, low2: nat)
    requires |dp| > 0 && dp[0] != Unreached
    ensures ChooseBest(dp, low1) == ChooseBest(dp, low2)
  {
    var b1, b2 := ChooseBest(dp, low1), ChooseBest(dp, low2);
    assert forall s :: b1 < s < |dp| ==> dp[s] == Unreached;
    assert forall s :: b2 < s < |dp| ==> dp[s] == Unreached;
  }

  /** Items of weight zero add nothing to the total. */
  lemma {:induction false} SumOfZeros(w: seq<nat>)
    requires forall i :: 0 <= i < |w| ==> w[i] == 0
    ensures Sum(w) == 0
  {
    if |w| > 0 {
      assert forall i :: 0 <= i < |w[1..]| ==> w[1..][i] == w[i + 1];
      SumOfZeros(w[1..]);
    }
  }

  /** The fault of the as-written choice is reachable: when every item weighs zero units
      the table has the single entry for total 0, and any window edge `low >= 2` sends
      the downward scan past its end. */
  lemma AsWrittenFaultsOnZeroWeights(w: seq<nat>, high: nat, dp: seq<int>, low: nat)
    requires forall i :: 0 <= i < |w| ==> w[i] == 0
    requires IsTable(w, Capacity(w, high), dp)
    requires low >= 2
    ensures dp == [Start]
    ensures ChooseBestAsWritten(dp, low) == Failure(IndexOutOfRange(low - 1, 1))
  {
    SumOfZeros(w);
    assert Capacity(w, high) == 0;
  }

  /** The backtrack: from `best`, repeatedly take the item recorded for the current total
      and subtract its weight. The recorded items strictly decrease, so the loop's
      repeat guard never fires, and the taken items weigh exactly `best`. */
  method Reconstruct(w: seq<nat>, cap: nat, dp: seq<int>, best: nat) returns (picked: set<nat>)
    requires IsTable(w, cap, dp)
    requires best <= cap && Reachable(w, |w|, best)
    ensures forall i :: i in picked ==> i < |w| && w[i] > 0
    ensures SubsetUnits(w, picked, |w|) == best
  {
    picked := {};
    SubsetUnitsNone(w, |w|);
    var cur := best;
    ghost var bound: nat := |w|;
    while cur > 0
      invariant 0 <= cur <= best && bound <= |w|
      invariant forall i :: i in picked ==> bound <= i < |w| && w[i] > 0
      invariant Reachable(w, bound, cur)
      invariant SubsetUnits(w, picked, |w|) + cur == best
      decreases cur
    {
      ReachableMonotone(w, bound, |w|, cur);
      var i := dp[cur];
      assert 0 <= i < |w| && FirstReached(w, i, cur);
      if bound <= i {
        ReachableMonotone(w, bound, i, cur);
      }
      if i in picked {
        assert false;
        break;
      }
      SubsetUnitsAdd(w, picked, i, |w|);
      picked := picked + {i};
      cur := cur - w[i];
      bound := i;
    }
  }

  /** Whether `best` is the selector's target for window edge `low` and capacity `cap`:
      the largest reachable total in `[low, cap]` if any, else the largest reachable total
      below `low` that fits the table. */
  ghost predicate BestTarget(w: seq<nat>, low: nat, cap: nat, best: nat)
  {
    && best <= cap
    && Reachable(w, |w|, best)
    && (forall s :: best < s <= cap ==> !Reachable(w, |w|, s))
    && ((exists s :: low <= s <= cap && Reachable(w, |w|, s)) <==> low <= best)
  }

  /** No subset of the items beats the target: every subset total that fits the capacity
      is at most `best`. */
  lemma NoSubsetBeatsTarget(w: seq<nat>, low: nat, cap: nat, best: nat, picked: set<nat>)
    requires BestTarget(w, low, cap, best)
    requires SubsetUnits(w, picked, |w|) <= cap
    ensures SubsetUnits(w, picked, |w|) <= best
  {
    SubsetIsReachable(w, picked, |w|);
  }

  /** The selector's result: the target total and the indices of the chosen items. */
  datatype Selection = Selection(best: nat, picked: set<nat>)

  /** The selector as written: build the table, choose the target with the as-written
      scans, and reconstruct a subset when the target is positive. It fails with the
      out-of-range read exactly when `low` lies more than one past the capacity, and
      otherwise agrees with `Select`. */
  method SelectAsWritten(w: seq<nat>, low: nat, high: nat) returns (r: Result<Selection, Fault>)
    ensures r.Failure? <==> low > Capacity(w, high) + 1
    ensures r.Failure? ==> r.error == IndexOutOfRange(low - 1, Capacity(w, high) + 1)
    ensures r.Success? ==>
      && r.value.best <= Capacity(w, high) && BestTarget(w, low, Capacity(w, high), r.value.best)
      && (forall i :: i in r.value.picked ==> i < |w| && w[i] > 0)
      && SubsetUnits(w, r.value.picked, |w|) == r.value.best
  {
    var cap := Capacity(w, high);
    var dp := BuildTable(w, cap);
    ReachableZero(w, |w|);
    AsWrittenFaultsOnlyPastTable(dp, low);
    var choice := ChooseBestAsWritten(dp, low);
    if choice.Failure? {
      return Failure(choice.error);
    }
    var best := choice.value;
    assert forall s :: 0 <= s <= cap ==> (dp[s] != Unreached <==> Reachable(w, |w|, s));
    var picked: set<nat>;
    if best <= 0 {
      picked := {};
      SubsetUnitsNone(w, |w|);
    } else {
      picked := Reconstruct(w, cap, dp, best);
    }
    return Success(Selection(best, picked));
  }

  /** The whole selector with the corrected target choice: build the table up to the
      capacity, choose the target total, and reconstruct a subset when the target is
      positive. */
  method Select(w: seq<nat>, low: nat, high: nat) returns (best: nat, picked: set<nat>)
    ensures best <= Capacity(w, high) && BestTarget(w, low, Capacity(w, high), best)
    ensures forall i :: i in picked ==> i < |w| && w[i] > 0
    ensures SubsetUnits(w, picked, |w|) == best
  {
    var cap := Capacity(w, high);
    var dp := BuildTable(w, cap);
    ReachableZero(w, |w|);
    best := ChooseBest(dp, low);
    assert forall s :: 0 <= s <= cap ==> (dp[s] != Unreached <==> Reachable(w, |w|, s));
    if best <= 0 {
      picked := {};
      SubsetUnitsNone(w, |w|);
    } else {
      picked := Reconstruct(w, cap, dp, best);
    }
  }
}
