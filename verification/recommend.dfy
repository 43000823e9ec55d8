/** The recommendation pipeline: flatten, filter, gate, budget, select. */
module Recommend {
  import opened Results
  import opened Units
  import opened Segments
  import opened Eligibility
  import opened Budget
  import opened Knapsack

  /** A segment as listed in a selected recommendation: the record without its lecture
      index and identifier. */
  datatype Pick = Pick(lectureTitle: string, topic: string, mins: real, difficulty: int, order: int)

  function Summary(s: Segment): Pick
  {
    Pick(s.lectureTitle, s.topic, s.mins, s.difficulty, s.order)
  }

  function Summaries(items: seq<Segment>): (r: seq<Pick>)
    ensures |r| == |items| && forall i :: 0 <= i < |items| ==> r[i] == Summary(items[i])
  {
    seq(|items|, i requires 0 <= i < |items| => Summary(items[i]))
  }

  /** The outcome of one recommendation call. `Nothing` is the empty list with total 0;
      `TakeAll` returns every eligible record when the budget exceeds what is
      available; `Chosen` lists the selected segments in index order. */
  datatype Recommendation =
    | Nothing
    | TakeAll(items: seq<Segment>, total: real)
    | Chosen(picks: seq<Pick>, total: real)

  /** The (lecture title, topic) pairs a recommendation names. */
  function RecommendedKeys(r: Recommendation): set<Key>
  {
    match r
    case Nothing => {}
    case TakeAll(items, _) => set s | s in items :: KeyOf(s)
    case Chosen(picks, _) => set p | p in picks :: Key(p.lectureTitle, p.topic)
  }

  function SumMins(items: seq<Segment>): real
  {
    if |items| == 0 then 0.0 else items[0].mins + SumMins(items[1..])
  }

  /** The unit weight of every item. */
  function Weights(items: seq<Segment>): (w: seq<nat>)
    ensures |w| == |items| && forall i :: 0 <= i < |items| ==> w[i] == ToUnits(items[i].mins)
  {
    seq(|items|, i requires 0 <= i < |items| => ToUnits(items[i].mins))
  }

  /** The summaries of the items with index in `picked`, among the first `n`, in index
      order. */
  function PicksOf(items: seq<Segment>, picked: set<nat>, n: nat): seq<Pick>
    requires n <= |items|
  {
    if n == 0 then []
    else PicksOf(items, picked, n - 1) + (if n - 1 in picked then [Summary(items[n - 1])] else [])
  }

  /** When every picked index weighs some units, so does every pick. */
  lemma {:induction false} PicksOfWeigh(items: seq<Segment>, picked: set<nat>, n: nat)
    requires n <= |items|
    requires forall i :: i in picked && i < n ==> 0 < ToUnits(items[i].mins)
    ensures forall p :: p in PicksOf(items, picked, n) ==> 0 < ToUnits(p.mins)
  {
    if n > 0 {
      PicksOfWeigh(items, picked, n - 1);
    }
  }

  /** The true minutes of the items with index in `picked`, among the first `n`. */
  function PickedMinutes(items: seq<Segment>, picked: set<nat>, n: nat): real
    requires n <= |items|
  {
    if n == 0 then 0.0
    else PickedMinutes(items, picked, n - 1) + (if n - 1 in picked then items[n - 1].mins else 0.0)
  }

  /** The summed minutes of a list of picks. */
  function MinutesOf(ps: seq<Pick>): real
  {
    if |ps| == 0 then 0.0 else MinutesOf(ps[..|ps| - 1]) + ps[|ps| - 1].mins
  }

  /** The summed unit weights of a list of picks. */
  function UnitsOf(ps: seq<Pick>): nat
  {
    if |ps| == 0 then 0 else UnitsOf(ps[..|ps| - 1]) + ToUnits(ps[|ps| - 1].mins)
  }

  lemma AppendPick(ps: seq<Pick>, x: Pick)
    ensures MinutesOf(ps + [x]) == MinutesOf(ps) + x.mins
    ensures UnitsOf(ps + [x]) == UnitsOf(ps) + ToUnits(x.mins)
  {
    assert (ps + [x])[..|ps|] == ps;
  }

  /** The picks of an index set are summaries of distinct items among the first `n`. */
  lemma {:induction false} PicksOfSub(items: seq<Segment>, picked: set<nat>, n: nat)
    requires n <= |items|
    ensures multiset(PicksOf(items, picked, n)) <= multiset(Summaries(items)[..n])
  {
    if n > 0 {
      PicksOfSub(items, picked, n - 1);
      var x := Summary(items[n - 1]);
      assert Summaries(items)[..n] == Summaries(items)[..n - 1] + [x];
    }
  }

  /** The minutes and units of the picks are the index set's totals. */
  lemma {:induction false} PicksOfTotals(items: seq<Segment>, picked: set<nat>, n: nat)
    requires n <= |items|
    ensures MinutesOf(PicksOf(items, picked, n)) == PickedMinutes(items, picked, n)
    ensures UnitsOf(PicksOf(items, picked, n)) == SubsetUnits(Weights(items), picked, n)
  {
    if n > 0 {
      PicksOfTotals(items, picked, n - 1);
      var prev := PicksOf(items, picked, n - 1);
      if n - 1 in picked {
        AppendPick(prev, Summary(items[n - 1]));
      } else {
        assert prev + [] == prev;
        assert PicksOf(items, picked, n) == prev;
        assert PickedMinutes(items, picked, n) == PickedMinutes(items, picked, n - 1);
      }
    }
  }

  /** Every pick names an item of `items`. */
  lemma PicksAreItems(items: seq<Segment>, picks: seq<Pick>, p: Pick)
    requires multiset(picks) <= multiset(Summaries(items)) && p in picks
    ensures exists i :: 0 <= i < |items| && p == Summary(items[i])
  {
    assert multiset(picks)[p] > 0;
    assert multiset(Summaries(items))[p] > 0;
    assert p in Summaries(items);
  }

  /** The segments the completion and scope filters let through. */
  function Candidates(items: seq<Segment>, completed: set<Key>, scope: seq<string>): seq<Segment>
  {
    RestrictToScope(ExcludeCompleted(items, completed), scope)
  }

  /** The eligible segments: the flattened document minus completed segments, restricted
      to the scope when one is given, then passed through the soft-order gate. Every
      eligible segment is uncompleted, in scope, and unlocked in its lecture; every such
      candidate is eligible. */
  function Eligible(lectures: seq<Lecture>, completed: set<Key>, scope: seq<string>): (r: Result<seq<Segment>, Fault>)
    ensures r.Failure? <==> MissingSomeMinutes(lectures)
    ensures r.Success? ==> forall s :: s in r.value ==>
      && KeyOf(s) !in completed
      && (|scope| > 0 ==> s.lectureTitle in scope)
      && s in Flatten(lectures).value
    ensures r.Success? ==> forall s :: s in r.value <==>
      && s in Candidates(Flatten(lectures).value, completed, scope)
      && Unlocked(TitleOrders(Candidates(Flatten(lectures).value, completed, scope), s.lectureTitle), s.order)
  {
    match Flatten(lectures)
    case Failure(e) => Failure(e)
    case Success(items) =>
      var cands := Candidates(items, completed, scope);
      var gated := Gate(cands);
      GateMembers(cands);
      assert forall s :: s in cands ==> KeyOf(s) !in completed && (|scope| > 0 ==> s.lectureTitle in scope) && s in items by {
        forall s | s in cands
          ensures KeyOf(s) !in completed && (|scope| > 0 ==> s.lectureTitle in scope) && s in items
        {
          var kept := ExcludeCompleted(items, completed);
          assert multiset(cands)[s] > 0;
          assert multiset(kept)[s] > 0;
        }
      }
      Success(gated)
  }

  /** A segment of at most 0.05 minutes weighs zero units (0.5 rounds to the even 0). */
  lemma TinySegmentWeighsNothing(mins: real)
    requires mins <= 0.05
    ensures ToUnits(mins) == 0
  {
    if mins > 0.0 {
      assert mins * Scale <= 0.5;
    }
  }

  /** When every eligible segment is at most 0.05 minutes long and the window's low edge
      is at least 2 units, the as-written target choice reads past the end of the
      table. */
  lemma AsWrittenFaultsOnTinySegments(items: seq<Segment>, window: Window, dp: seq<int>)
    requires forall i :: 0 <= i < |items| ==> items[i].mins <= 0.05
    requires window.low >= 2
    requires IsTable(Weights(items), Capacity(Weights(items), window.high), dp)
    ensures ChooseBestAsWritten(dp, window.low) == Failure(IndexOutOfRange(window.low - 1, 1))
  {
    var w := Weights(items);
    forall i | 0 <= i < |w|
      ensures w[i] == 0
    {
      TinySegmentWeighsNothing(items[i].mins);
    }
    AsWrittenFaultsOnZeroWeights(w, window.high, dp, window.low);
  }

  /** Every segment of a list of equally long segments adds the same minutes. */
  lemma {:induction false} EqualMinutes(items: seq<Segment>, c: real)
    requires forall i :: 0 <= i < |items| ==> items[i].mins == c
    ensures SumMins(items) == c * |items| as real
  {
    if |items| > 0 {
      EqualMinutes(items[1..], c);
    }
  }

  /** A daily target of 0.3 minutes with no fatigue gives the unit window [2, 4]. */
  lemma ShortTargetWindow()
    ensures BudgetWindow(0.3, 0.0) == Window(2, 4)
  {
    assert RoundHalfEven(0.3 * LowShare * Scale) == 2;
    assert RoundHalfEven(0.3 * HighShare * Scale) == 4;
  }

  /** Whether `doc` is one lecture of six 0.04-minute segments with default difficulty
      and order. */
  predicate TinyDocument(doc: seq<Lecture>)
  {
    && |doc| == 1 && |doc[0].segments| == 6
    && forall si :: 0 <= si < 6 ==> doc[0].segments[si].mins == Some(0.04) && doc[0].segments[si].order.None?
  }

  /** When every segment has order 1 the gate keeps everything. */
  lemma OpenGateKeepsAll(items: seq<Segment>)
    requires forall i :: 0 <= i < |items| ==> items[i].order == 1
    ensures multiset(Gate(items)) == multiset(items)
  {
    forall x
      ensures multiset(Gate(items))[x] == multiset(items)[x]
    {
      GateCount(items, x);
    }
  }

  /** A tiny document flattens without fault into six 0.04-minute records of order 1. */
  lemma TinyDocumentFlattens(doc: seq<Lecture>)
    requires TinyDocument(doc)
    ensures !MissingSomeMinutes(doc)
    ensures var flat := Flatten(doc).value;
      |flat| == 6 && forall i :: 0 <= i < |flat| ==> flat[i].mins == 0.04 && flat[i].order == 1
  {
    assert Complete(doc, |doc|);
    var flat := Flatten(doc).value;
    assert |flat| == 6 by {
      assert Offset(doc, 1) == Offset(doc, 0) + 6;
    }
    forall i | 0 <= i < 6
      ensures flat[i].mins == 0.04 && flat[i].order == 1
    {
      assert Position(doc, 0, i) == i;
      assert flat[Position(doc, 0, i)] == Record(doc[0], 0, i);
    }
  }

  /** The six segments of a tiny document are all eligible when nothing is completed and
      no scope is given. */
  lemma TinyDocumentEligible(doc: seq<Lecture>)
    requires TinyDocument(doc)
    ensures !MissingSomeMinutes(doc)
    ensures Eligible(doc, {}, []).Success?
    ensures var items := Eligible(doc, {}, []).value;
      |items| == 6 && forall i :: 0 <= i < |items| ==> items[i].mins == 0.04
  {
    TinyDocumentFlattens(doc);
    var flat := Flatten(doc).value;
    var cands := Candidates(flat, {}, []);
    assert multiset(cands) == multiset(flat);
    forall i | 0 <= i < |cands|
      ensures cands[i].order == 1
    {
      assert cands[i] in multiset(flat);
    }
    OpenGateKeepsAll(cands);
    var items := Gate(cands);
    assert |items| == |multiset(items)| == |multiset(flat)| == 6;
    forall i | 0 <= i < |items|
      ensures items[i].mins == 0.04
    {
      assert items[i] in multiset(flat);
    }
  }

  /** Six 0.04-minute segments hold 0.24 minutes, which passes the take-everything guard
      of the window [2, 4] (0.2 minutes), yet each weighs zero units, so the table has
      capacity 0 and the low edge 2 lies two past it. */
  lemma TinySegmentsFault(items: seq<Segment>)
    requires |items| == 6 && forall i :: 0 <= i < |items| ==> items[i].mins == 0.04
    ensures SelectorFaults(items, Window(2, 4))
  {
    EqualMinutes(items, 0.04);
    TinySegmentWeighsNothing(0.04);
    var w := Weights(items);
    SumOfZeros(w);
    assert Capacity(w, 4) == 0;
    assert FromUnits(2) == 0.2;
  }

  /** A document that shows the out-of-range read: with a 0.3-minute target, no fatigue,
      nothing completed and no scope, the six segments are all eligible and the selector
      reads past its table. By the contract of `Recommend`, the call on such a document
      fails with an `IndexOutOfRange` fault. */
  lemma TinyDocumentFaults(doc: seq<Lecture>)
    requires TinyDocument(doc)
    ensures !MissingSomeMinutes(doc)
    ensures Eligible(doc, KeySet([]), []).Success?
    ensures SelectorFaults(Eligible(doc, KeySet([]), []).value, BudgetWindow(0.3, 0.0))
  {
    assert KeySet([]) == {};
    TinyDocumentEligible(doc);
    ShortTargetWindow();
    TinySegmentsFault(Eligible(doc, {}, []).value);
  }

  /** What a recommendation over the eligible `items` and budget `window` may be: `Nothing`
      when no segment is eligible or no positive unit total fits the capacity, `TakeAll`
      when the low edge of the window exceeds the eligible minutes, and otherwise a
      non-empty `Chosen` list of distinct eligible segments, each weighing some units,
      whose positive unit total is the selector's target and whose reported total is
      their true minutes. */
  ghost predicate Outcome(items: seq<Segment>, window: Window, rec: Recommendation)
  {
    var w := Weights(items);
    var cap := Capacity(w, window.high);
    match rec
    case Nothing =>
      |items| == 0 || (FromUnits(window.low) <= SumMins(items) && forall s :: 0 < s <= cap ==> !Reachable(w, |w|, s))
    case TakeAll(all, total) =>
      |items| > 0 && all == items && total == SumMins(items) && FromUnits(window.low) > total
    case Chosen(picks, total) =>
      && |items| > 0 && FromUnits(window.low) <= SumMins(items)
      && |picks| > 0 && multiset(picks) <= multiset(Summaries(items))
      && total == MinutesOf(picks)
      && 0 < UnitsOf(picks) && (forall p :: p in picks ==> 0 < ToUnits(p.mins))
      && BestTarget(w, window.low, cap, UnitsOf(picks))
  }

  /** Once the take-everything guard has not fired, the outcome is `Nothing` exactly when
      no positive unit total is reachable within the capacity: the `best <= 0` return. */
  lemma OutcomeNothingExactly(items: seq<Segment>, window: Window, rec: Recommendation)
    requires Outcome(items, window, rec)
    requires |items| > 0 && FromUnits(window.low) <= SumMins(items)
    ensures rec.Nothing? ==> forall s :: 0 < s <= Capacity(Weights(items), window.high) ==> !Reachable(Weights(items), |items|, s)
    ensures (forall s :: 0 < s <= Capacity(Weights(items), window.high) ==> !Reachable(Weights(items), |items|, s)) ==> rec.Nothing?
  {
  }

  /** Every key a recommendation names belongs to one of `items`. */
  ghost predicate KeysFrom(items: seq<Segment>, rec: Recommendation)
  {
    forall k :: k in RecommendedKeys(rec) ==> exists s :: s in items && KeyOf(s) == k
  }

  /** Whether the as-written selector reads past its table: some segment is eligible, the
      take-everything guard does not fire, and the window's low edge lies more than one
      past the capacity. */
  ghost predicate SelectorFaults(items: seq<Segment>, window: Window)
  {
    && |items| > 0
    && FromUnits(window.low) <= SumMins(items)
    && window.low > Capacity(Weights(items), window.high) + 1
  }

  /** The chosen list for the index set `picked`: the summaries of those items, in index
      order, with their summed minutes. It names only keys of `items`. */
  method Collect(items: seq<Segment>, picked: set<nat>) returns (picks: seq<Pick>, total: real)
    requires forall i :: i in picked ==> i < |items| && 0 < ToUnits(items[i].mins)
    ensures multiset(picks) <= multiset(Summaries(items))
    ensures forall p :: p in picks ==> 0 < ToUnits(p.mins)
    ensures total == MinutesOf(picks)
    ensures UnitsOf(picks) == SubsetUnits(Weights(items), picked, |items|)
    ensures KeysFrom(items, Chosen(picks, total))
  {
    picks := PicksOf(items, picked, |items|);
    total := PickedMinutes(items, picked, |items|);
    PicksOfSub(items, picked, |items|);
    PicksOfTotals(items, picked, |items|);
    PicksOfWeigh(items, picked, |items|);
    assert Summaries(items)[..|items|] == Summaries(items);
    forall k | k in RecommendedKeys(Chosen(picks, total))
      ensures exists s :: s in items && KeyOf(s) == k
    {
      var p :| p in picks && k == Key(p.lectureTitle, p.topic);
      PicksAreItems(items, picks, p);
      var i :| 0 <= i < |items| && p == Summary(items[i]);
      assert items[i] in items && KeyOf(items[i]) == k;
    }
  }

  /** The budget step as written: take everything when the window's low edge exceeds what
      is available, otherwise run the as-written selector. It fails exactly when the
      selector reads past its table, and otherwise yields a recommendation as `Outcome`
      describes. */
  method Choose(items: seq<Segment>, window: Window) returns (r: Result<Recommendation, Fault>)
    ensures r.Failure? <==> SelectorFaults(items, window)
    ensures r.Failure? ==> r.error == IndexOutOfRange(window.low - 1, Capacity(Weights(items), window.high) + 1)
    ensures r.Success? ==> Outcome(items, window, r.value) && KeysFrom(items, r.value)
  {
    if |items| == 0 {
      return Success(Nothing);
    }
    var total := SumMins(items);
    if FromUnits(window.low) > total {
      return Success(TakeAll(items, total));
    }
    var w := Weights(items);
    var selection := SelectAsWritten(w, window.low, window.high);
    if selection.Failure? {
      return Failure(selection.error);
    }
    if selection.value.best <= 0 {
      return Success(Nothing);
    }
    var picks, sum := Collect(items, selection.value.picked);
    return Success(Chosen(picks, sum));
  }

  /** The budget step with the corrected target choice: never fails, and yields a
      recommendation as `Outcome` describes. */
  method ChooseCorrected(items: seq<Segment>, window: Window) returns (rec: Recommendation)
    ensures Outcome(items, window, rec)
    ensures KeysFrom(items, rec)
  {
    if |items| == 0 {
      return Nothing;
    }
    var total := SumMins(items);
    if FromUnits(window.low) > total {
      return TakeAll(items, total);
    }
    var w := Weights(items);
    var best, picked := Select(w, window.low, window.high);
    if best <= 0 {
      return Nothing;
    }
    var picks, sum := Collect(items, picked);
    return Chosen(picks, sum);
  }

  /** One recommendation call as written. It fails when some segment has no minutes, and
      otherwise exactly when the selector reads past its table; on success the outcome is
      over the eligible segments and the fatigue-derated budget window, naming only
      uncompleted, in-scope segments. */
  method Recommend(lectures: seq<Lecture>, dailyMins: real, fatigue: real, completed: seq<Key>, scope: seq<string>)
    returns (r: Result<Recommendation, Fault>)
    ensures MissingSomeMinutes(lectures) ==> r.Failure? && r.error.MissingMinutes?
    ensures !MissingSomeMinutes(lectures) ==>
      && Eligible(lectures, KeySet(completed), scope).Success?
      && (r.Failure? <==> SelectorFaults(Eligible(lectures, KeySet(completed), scope).value, BudgetWindow(dailyMins, fatigue)))
      && (r.Failure? ==> r.error.IndexOutOfRange?)
    ensures r.Success? ==>
      Outcome(Eligible(lectures, KeySet(completed), scope).value, BudgetWindow(dailyMins, fatigue), r.value)
    ensures r.Success? ==> forall k :: k in RecommendedKeys(r.value) ==>
      k !in KeySet(completed) && (|scope| > 0 ==> k.lectureTitle in scope)
  {
    var eligible := Eligible(lectures, KeySet(completed), scope);
    if eligible.Failure? {
      return Failure(eligible.error);
    }
    r := Choose(eligible.value, BudgetWindow(dailyMins, fatigue));
  }

  /** One recommendation call with the corrected target choice: fails exactly when some
      segment has no minutes; otherwise the outcome over the eligible segments and the
      fatigue-derated budget window, naming only uncompleted, in-scope segments. */
  method RecommendCorrected(lectures: seq<Lecture>, dailyMins: real, fatigue: real, completed: seq<Key>, scope: seq<string>)
    returns (r: Result<Recommendation, Fault>)
    ensures r.Failure? <==> MissingSomeMinutes(lectures)
    ensures r.Success? ==> Eligible(lectures, KeySet(completed), scope).Success?
    ensures r.Success? ==>
      Outcome(Eligible(lectures, KeySet(completed), scope).value, BudgetWindow(dailyMins, fatigue), r.value)
    ensures r.Success? ==> forall k :: k in RecommendedKeys(r.value) ==>
      k !in KeySet(completed) && (|scope| > 0 ==> k.lectureTitle in scope)
  {
    var eligible := Eligible(lectures, KeySet(completed), scope);
    if eligible.Failure? {
      return Failure(eligible.error);
    }
    var rec := ChooseCorrected(eligible.value, BudgetWindow(dailyMins, fatigue));
    return Success(rec);
  }
}
