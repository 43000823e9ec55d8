/** The eligibility passes of the recommender: completion exclusion, lecture scoping and
    the soft-order gate. */
module Eligibility {
  import opened Segments
  import opened Sequences

  /** The keys of the completed-courses ledger, as a set. */
  function KeySet(completed: seq<Key>): set<Key>
  {
    set k | k in completed
  }

  /** Drops every segment whose (lecture title, topic) has been completed; every other
      segment keeps its multiplicity. */
  function ExcludeCompleted(items: seq<Segment>, completed: set<Key>): (r: seq<Segment>)
    ensures forall s :: multiset(r)[s] == if KeyOf(s) in completed then 0 else multiset(items)[s]
  {
    var keep := (s: Segment) => KeyOf(s) !in completed;
    assert forall s :: multiset(Filter(items, keep))[s] == if keep(s) then multiset(items)[s] else 0 by {
      forall s ensures multiset(Filter(items, keep))[s] == if keep(s) then multiset(items)[s] else 0 {
        FilterCount(items, keep, s);
      }
    }
    Filter(items, keep)
  }

  /** With a non-empty scope, keeps exactly the segments of the scoped lectures; an empty
      scope means no scoping. */
  function RestrictToScope(items: seq<Segment>, scope: seq<string>): (r: seq<Segment>)
    ensures |scope| > 0 ==> forall s :: multiset(r)[s] == if s.lectureTitle in scope then multiset(items)[s] else 0
    ensures |scope| == 0 ==> r == items
  {
    var keep := (s: Segment) => s.lectureTitle in scope;
    assert forall s :: multiset(Filter(items, keep))[s] == if keep(s) then multiset(items)[s] else 0 by {
      forall s ensures multiset(Filter(items, keep))[s] == if keep(s) then multiset(items)[s] else 0 {
        FilterCount(items, keep, s);
      }
    }
    if |scope| == 0 then items else Filter(items, keep)
  }

  /** The index of the first segment of lecture `t`, or `|items|` when there is none. */
  function FirstAppearance(items: seq<Segment>, t: string): (k: nat)
    ensures k <= |items|
    ensures k < |items| ==> items[k].lectureTitle == t
    ensures forall m :: 0 <= m < k ==> items[m].lectureTitle != t
  {
    if |items| == 0 then 0
    else if items[0].lectureTitle == t then 0
    else 1 + FirstAppearance(items[1..], t)
  }

  /** Appending a segment does not move the first appearance of a title that already
      occurs, and puts a new title's first appearance at the appended position. */
  lemma FirstAppearanceAppend(items: seq<Segment>, t: string)
    requires |items| > 0
    ensures var init := items[..|items| - 1];
      && ((exists i :: 0 <= i < |init| && init[i].lectureTitle == t) ==>
            FirstAppearance(items, t) == FirstAppearance(init, t) < |init|)
      && ((forall i :: 0 <= i < |init| ==> init[i].lectureTitle != t) && items[|init|].lectureTitle == t ==>
            FirstAppearance(items, t) == |init|)
  {
    var init := items[..|items| - 1];
    var k, k0 := FirstAppearance(items, t), FirstAppearance(init, t);
    if i :| 0 <= i < |init| && init[i].lectureTitle == t {
      assert items[i] == init[i];
      assert k0 <= i && k <= i;
      assert items[k0] == init[k0] && items[k] == init[k];
    }
  }

  /** The distinct lecture titles of `items`, in order of first appearance: the key order
      of the grouping dictionary. */
  function Titles(items: seq<Segment>): (r: seq<string>)
    ensures forall i :: 0 <= i < |items| ==> items[i].lectureTitle in r
    ensures forall t :: t in r ==> exists i :: 0 <= i < |items| && items[i].lectureTitle == t
    ensures forall i, j :: 0 <= i < j < |r| ==> r[i] != r[j]
  {
    if |items| == 0 then []
    else
      var init := items[..|items| - 1];
      var prev := Titles(init);
      var t := items[|items| - 1].lectureTitle;
      assert forall i :: 0 <= i < |init| ==> init[i] == items[i];
      if t in prev then prev else prev + [t]
  }

  /** `r` lists titles in strictly increasing order of first appearance in `items`. */
  predicate InFirstAppearanceOrder(items: seq<Segment>, r: seq<string>)
  {
    forall i, j :: 0 <= i < j < |r| ==> FirstAppearance(items, r[i]) < FirstAppearance(items, r[j])
  }

  /** An ordering carries over to a longer document when no first appearance moves. */
  lemma OrderCarriesOver(init: seq<Segment>, items: seq<Segment>, r: seq<string>)
    requires InFirstAppearanceOrder(init, r)
    requires forall x :: x in r ==> FirstAppearance(items, x) == FirstAppearance(init, x)
    ensures InFirstAppearanceOrder(items, r)
  {
    forall i, j | 0 <= i < j < |r|
      ensures FirstAppearance(items, r[i]) < FirstAppearance(items, r[j])
    {
      assert r[i] in r && r[j] in r;
    }
  }

  /** A title first seen after every listed one may be appended to an ordering. */
  lemma OrderExtends(items: seq<Segment>, r: seq<string>, t: string)
    requires InFirstAppearanceOrder(items, r)
    requires forall x :: x in r ==> FirstAppearance(items, x) < FirstAppearance(items, t)
    ensures InFirstAppearanceOrder(items, r + [t])
  {
    var r' := r + [t];
    forall i, j | 0 <= i < j < |r'|
      ensures FirstAppearance(items, r'[i]) < FirstAppearance(items, r'[j])
    {
      assert r'[i] == r[i] && r[i] in r;
      if j < |r| {
        assert r'[j] == r[j];
      }
    }
  }

  /** The titles are listed in order of their first appearance in `items`. */
  lemma {:induction false} TitlesInFirstAppearanceOrder(items: seq<Segment>)
    ensures InFirstAppearanceOrder(items, Titles(items))
  {
    if |items| > 0 {
      var init := items[..|items| - 1];
      var prev := Titles(init);
      var t := items[|items| - 1].lectureTitle;
      TitlesInFirstAppearanceOrder(init);
      forall x | x in prev
        ensures FirstAppearance(items, x) == FirstAppearance(init, x) < |init|
      {
        FirstAppearanceAppend(items, x);
      }
      OrderCarriesOver(init, items, prev);
      if t !in prev {
        FirstAppearanceAppend(items, t);
        OrderExtends(items, prev, t);
      }
    }
  }

  /** The segments of one lecture title, in their original order. */
  function WithTitle(items: seq<Segment>, t: string): seq<Segment>
  {
    Filter(items, (s: Segment) => s.lectureTitle == t)
  }

  /** The segments of one order value, in their original order. */
  function WithOrder(items: seq<Segment>, k: int): seq<Segment>
  {
    Filter(items, (s: Segment) => s.order == k)
  }

  /** The order values present among `segs`. */
  function OrdersOf(segs: seq<Segment>): set<int>
  {
    set s | s in segs :: s.order
  }

  /** The order values present in lecture `t` among `items`. */
  function TitleOrders(items: seq<Segment>, t: string): set<int>
  {
    OrdersOf(WithTitle(items, t))
  }

  predicate SortedByOrder(s: seq<Segment>)
  {
    forall i, j :: 0 <= i < j < |s| ==> s[i].order <= s[j].order
  }

  /** Inserts `x` ahead of the first element of equal or higher order. */
  function Insert(x: Segment, s: seq<Segment>): seq<Segment>
  {
    if |s| == 0 || x.order <= s[0].order then [x] + s
    else [s[0]] + Insert(x, s[1..])
  }

  /** Sorting by order: the list method's `sort(key=order)`, as an insertion sort. */
  function SortByOrder(s: seq<Segment>): seq<Segment>
  {
    if |s| == 0 then [] else Insert(s[0], SortByOrder(s[1..]))
  }

  /** Inserting adds exactly `x`. */
  lemma {:induction false} InsertPermutes(x: Segment, s: seq<Segment>)
    ensures multiset(Insert(x, s)) == multiset(s) + multiset{x}
  {
    if |s| > 0 && x.order > s[0].order {
      InsertPermutes(x, s[1..]);
      assert s == [s[0]] + s[1..];
    }
  }

  /** A head no higher than every element of a sorted list keeps it sorted. */
  lemma SortedCons(h: Segment, r: seq<Segment>)
    requires SortedByOrder(r)
    requires forall i :: 0 <= i < |r| ==> h.order <= r[i].order
    ensures SortedByOrder([h] + r)
  {
    forall i, j | 0 <= i < j < |[h] + r|
      ensures ([h] + r)[i].order <= ([h] + r)[j].order
    {
      if i > 0 {
        assert ([h] + r)[i] == r[i - 1] && ([h] + r)[j] == r[j - 1];
      }
    }
  }

  /** Inserting into an order-sorted list keeps it sorted. */
  lemma {:induction false} InsertSorted(x: Segment, s: seq<Segment>)
    requires SortedByOrder(s)
    ensures SortedByOrder(Insert(x, s))
  {
    if |s| == 0 || x.order <= s[0].order {
      SortedCons(x, s);
    } else {
      var h, tail := s[0], s[1..];
      assert SortedByOrder(tail);
      InsertSorted(x, tail);
      var r := Insert(x, tail);
      InsertPermutes(x, tail);
      forall i | 0 <= i < |r|
        ensures h.order <= r[i].order
      {
        assert r[i] in multiset(r);
        if r[i] != x {
          assert r[i] in multiset(tail);
          var j :| 0 <= j < |tail| && tail[j] == r[i];
          assert s[j + 1] == tail[j];
        }
      }
      SortedCons(h, r);
    }
  }

  /** The sort yields an order-sorted permutation of its input. */
  lemma {:induction false} SortByOrderSorted(s: seq<Segment>)
    ensures SortedByOrder(SortByOrder(s))
    ensures multiset(SortByOrder(s)) == multiset(s)
  {
    if |s| > 0 {
      SortByOrderSorted(s[1..]);
      InsertSorted(s[0], SortByOrder(s[1..]));
      InsertPermutes(s[0], SortByOrder(s[1..]));
      assert s == [s[0]] + s[1..];
    }
  }

  lemma WithOrderConcat(a: seq<Segment>, b: seq<Segment>, k: int)
    ensures WithOrder(a + b, k) == WithOrder(a, k) + WithOrder(b, k)
  {
    FilterConcat(a, b, (s: Segment) => s.order == k);
  }

  lemma WithOrderSingle(x: Segment, k: int)
    ensures WithOrder([x], k) == if x.order == k then [x] else []
  {
    assert [x][1..] == [];
  }

  /** Inserting `x` adds it in front of the segments of its own order and nowhere else. */
  lemma {:induction false} InsertWithOrder(x: Segment, s: seq<Segment>, k: int)
    ensures WithOrder(Insert(x, s), k) == WithOrder([x], k) + WithOrder(s, k)
  {
    if |s| == 0 || x.order <= s[0].order {
      WithOrderConcat([x], s, k);
    } else {
      var head, tail := s[0], s[1..];
      var rest := Insert(x, tail);
      assert Insert(x, s) == [head] + rest;
      assert s == [head] + tail;
      WithOrderConcat([head], rest, k);
      WithOrderConcat([head], tail, k);
      InsertWithOrder(x, tail, k);
      WithOrderSingle(x, k);
      WithOrderSingle(head, k);
    }
  }

  /** The sort is stable: for every order value, the segments carrying it keep their
      relative order. */
  lemma {:induction false} SortByOrderStable(s: seq<Segment>, k: int)
    ensures WithOrder(SortByOrder(s), k) == WithOrder(s, k)
  {
    if |s| > 0 {
      SortByOrderStable(s[1..], k);
      InsertWithOrder(s[0], SortByOrder(s[1..]), k);
      assert s == [s[0]] + s[1..];
      WithOrderConcat([s[0]], s[1..], k);
    }
  }

  /** The frontier pass over one lecture's sorted segments: a segment is kept when its
      order is 1 or has been unlocked, and keeping it unlocks the next order. */
  function GateFrom(sorted: seq<Segment>, avail: set<int>): seq<Segment>
  {
    if |sorted| == 0 then []
    else
      var s := sorted[0];
      if s.order == 1 || s.order in avail then [s] + GateFrom(sorted[1..], avail + {s.order + 1})
      else GateFrom(sorted[1..], avail)
  }

  /** The soft-order gate for lecture `t`: stable sort by order, then the frontier pass
      seeded with order 1. */
  function GateLecture(items: seq<Segment>, t: string): seq<Segment>
  {
    GateFrom(SortByOrder(WithTitle(items, t)), {1})
  }

  /** The gate over the titles `ts`, one lecture after another. */
  function GateTitles(items: seq<Segment>, ts: seq<string>): seq<Segment>
  {
    if |ts| == 0 then [] else GateLecture(items, ts[0]) + GateTitles(items, ts[1..])
  }

  /** The soft-order gate: lectures in order of first appearance, each lecture's kept
      segments sorted by order. */
  function Gate(items: seq<Segment>): seq<Segment>
  {
    GateTitles(items, Titles(items))
  }

  /** Whether order `k` becomes available in a lecture whose segments carry the order
      values `orders`: 1 always is, and `k` is once `k - 1` is present and available. */
  predicate Unlocked(orders: set<int>, k: int)
    decreases if k < 1 then 0 else k
  {
    k == 1 || (k > 1 && k - 1 in orders && Unlocked(orders, k - 1))
  }

  /** The independent reading of availability: order `k` is reachable exactly when it is
      at least 1 and every order from 1 up to `k - 1` is present. */
  lemma {:induction false} UnlockedContiguous(orders: set<int>, k: int)
    ensures Unlocked(orders, k) <==> 1 <= k && forall j :: 1 <= j < k ==> j in orders
    decreases if k < 1 then 0 else k
  {
    if k > 1 {
      UnlockedContiguous(orders, k - 1);
    }
  }

  /** The segments of `segs` whose order is available given `orders`. */
  function KeepUnlocked(segs: seq<Segment>, orders: set<int>): seq<Segment>
  {
    Filter(segs, (s: Segment) => Unlocked(orders, s.order))
  }

  /** The frontier `avail` is exact for every order up to `m`, given that the orders in
      `done` have been processed: an order is available (or is 1) exactly when it is
      unlocked by `done`, and every non-1 member of the frontier was unlocked by a
      processed segment one order lower. */
  ghost predicate FrontierExact(avail: set<int>, done: set<int>, m: int)
  {
    && (forall k :: k <= m ==> ((k == 1 || k in avail) <==> Unlocked(done, k)))
    && (forall k :: k in avail ==> k == 1 || (k - 1 in done && Unlocked(done, k - 1)))
  }

  /** Adding orders at or above `m` does not change which orders up to `m` are unlocked. */
  lemma UnlockedIgnoresHigher(lo: set<int>, hi: set<int>, k: int, m: int)
    requires k <= m
    requires forall o :: o in hi ==> o >= m || o in lo
    requires lo <= hi
    ensures Unlocked(hi, k) == Unlocked(lo, k)
  {
    UnlockedContiguous(lo, k);
    UnlockedContiguous(hi, k);
  }

  /** One step of the frontier pass keeps the frontier exact. */
  lemma FrontierStep(avail: set<int>, done: set<int>, m: int, next: int)
    requires forall o :: o in done ==> o <= m
    requires m <= next
    requires FrontierExact(avail, done, m)
    ensures var kept := m == 1 || m in avail;
      FrontierExact(if kept then avail + {m + 1} else avail, done + {m}, next)
  {
    var kept := m == 1 || m in avail;
    var avail' := if kept then avail + {m + 1} else avail;
    var done' := done + {m};
    assert kept <==> Unlocked(done, m);
    forall k | k <= next
      ensures (k == 1 || k in avail') <==> Unlocked(done', k)
    {
      if k <= m {
        UnlockedIgnoresHigher(done, done', k, m);
      } else if k == m + 1 {
        UnlockedIgnoresHigher(done, done', m, m);
        if !kept && k in avail {
          assert k == 1 || (m in done && Unlocked(done, m));
        }
      } else {
        assert k - 1 !in done';
        if k in avail' {
          assert k in avail;
        }
      }
    }
    forall k | k in avail'
      ensures k == 1 || (k - 1 in done' && Unlocked(done', k - 1))
    {
      if k == m + 1 && kept {
        UnlockedIgnoresHigher(done, done', m, m);
      } else if k != 1 {
        assert k in avail;
        UnlockedIgnoresHigher(done, done', k - 1, m);
      }
    }
  }

  lemma OrdersOfCons(s: Segment, rest: seq<Segment>)
    ensures OrdersOf([s] + rest) == {s.order} + OrdersOf(rest)
  {
    assert forall x :: x in [s] + rest <==> x == s || x in rest;
  }

  lemma SortedOrdersFrom(sorted: seq<Segment>)
    requires SortedByOrder(sorted) && |sorted| > 0
    ensures forall o :: o in OrdersOf(sorted) ==> sorted[0].order <= o
  {
    forall o | o in OrdersOf(sorted) ensures sorted[0].order <= o {
      var x :| x in sorted && x.order == o;
      var i :| 0 <= i < |sorted| && sorted[i] == x;
    }
  }

  lemma KeepUnlockedCons(s: Segment, rest: seq<Segment>, orders: set<int>)
    ensures KeepUnlocked([s] + rest, orders) == (if Unlocked(orders, s.order) then [s] else []) + KeepUnlocked(rest, orders)
  {
    assert ([s] + rest)[0] == s;
    assert ([s] + rest)[1..] == rest;
  }

  lemma KeepUnlockedCount(segs: seq<Segment>, orders: set<int>, x: Segment)
    ensures multiset(KeepUnlocked(segs, orders))[x] == if Unlocked(orders, x.order) then multiset(segs)[x] else 0
  {
    FilterCount(segs, (s: Segment) => Unlocked(orders, s.order), x);
  }

  lemma WithTitleCount(items: seq<Segment>, t: string, x: Segment)
    ensures multiset(WithTitle(items, t))[x] == if x.lectureTitle == t then multiset(items)[x] else 0
  {
    FilterCount(items, (s: Segment) => s.lectureTitle == t, x);
  }

  lemma WithTitleMember(items: seq<Segment>, t: string, x: Segment)
    ensures x in WithTitle(items, t) <==> x in items && x.lectureTitle == t
  {
    FilterMember(items, (s: Segment) => s.lectureTitle == t, x);
  }

  /** The head of a sorted lecture is kept exactly when it is unlocked by all orders of
      the list. */
  lemma GateHeadKept(sorted: seq<Segment>, avail: set<int>, done: set<int>)
    requires SortedByOrder(sorted) && |sorted| > 0
    requires forall o :: o in done ==> o <= sorted[0].order
    requires FrontierExact(avail, done, sorted[0].order)
    ensures (sorted[0].order == 1 || sorted[0].order in avail) <==> Unlocked(done + OrdersOf(sorted), sorted[0].order)
    ensures done + {sorted[0].order} + OrdersOf(sorted[1..]) == done + OrdersOf(sorted)
  {
    assert sorted == [sorted[0]] + sorted[1..];
    OrdersOfCons(sorted[0], sorted[1..]);
    SortedOrdersFrom(sorted);
    UnlockedIgnoresHigher(done, done + OrdersOf(sorted), sorted[0].order, sorted[0].order);
  }

  /** After the head, the frontier is exact for the next segment's order. */
  lemma GateFromStep(sorted: seq<Segment>, avail: set<int>, done: set<int>)
    requires SortedByOrder(sorted) && |sorted| > 1
    requires forall o :: o in done ==> o <= sorted[0].order
    requires FrontierExact(avail, done, sorted[0].order)
    ensures var m := sorted[0].order;
      && (forall o :: o in done + {m} ==> o <= sorted[1].order)
      && FrontierExact(if m == 1 || m in avail then avail + {m + 1} else avail, done + {m}, sorted[1].order)
  {
    assert sorted[0].order <= sorted[1].order;
    FrontierStep(avail, done, sorted[0].order, sorted[1].order);
  }

  lemma SortedTail(sorted: seq<Segment>)
    requires SortedByOrder(sorted) && |sorted| > 0
    ensures SortedByOrder(sorted[1..])
  {
    forall i, j | 0 <= i < j < |sorted| - 1
      ensures sorted[1..][i].order <= sorted[1..][j].order
    {
      assert sorted[1..][i] == sorted[i + 1] && sorted[1..][j] == sorted[j + 1];
    }
  }

  /** The frontier pass keeps exactly the unlocked segments, given an exact frontier. */
  lemma {:induction false} GateFromKeepsUnlocked(sorted: seq<Segment>, avail: set<int>, done: set<int>)
    requires SortedByOrder(sorted)
    requires |sorted| > 0 ==> (forall o :: o in done ==> o <= sorted[0].order) && FrontierExact(avail, done, sorted[0].order)
    ensures GateFrom(sorted, avail) == KeepUnlocked(sorted, done + OrdersOf(sorted))
    decreases |sorted|
  {
    if |sorted| > 0 {
      var s, rest := sorted[0], sorted[1..];
      var m := s.order;
      var kept := m == 1 || m in avail;
      GateHeadKept(sorted, avail, done);
      SortedTail(sorted);
      if |rest| > 0 {
        GateFromStep(sorted, avail, done);
      }
      GateFromKeepsUnlocked(rest, if kept then avail + {m + 1} else avail, done + {m});
      assert sorted == [s] + rest;
      KeepUnlockedCons(s, rest, done + OrdersOf(sorted));
    }
  }

  /** One lecture's gate keeps exactly its unlocked segments, in stable order. */
  lemma GateLectureKeepsUnlocked(items: seq<Segment>, t: string)
    ensures GateLecture(items, t) == KeepUnlocked(SortByOrder(WithTitle(items, t)), TitleOrders(items, t))
  {
    var segs := WithTitle(items, t);
    var sorted := SortByOrder(segs);
    SortByOrderSorted(segs);
    assert OrdersOf(sorted) == OrdersOf(segs) by {
      forall o ensures o in OrdersOf(sorted) <==> o in OrdersOf(segs) {
        if o in OrdersOf(sorted) {
          var x :| x in sorted && x.order == o;
          assert multiset(sorted)[x] > 0;
        }
        if o in OrdersOf(segs) {
          var x :| x in segs && x.order == o;
          assert multiset(segs)[x] > 0;
        }
      }
    }
    if |sorted| > 0 {
      forall k | k <= sorted[0].order
        ensures (k == 1 || k in {1}) <==> Unlocked({}, k)
      {
      }
    }
    GateFromKeepsUnlocked(sorted, {1}, {});
    assert {} + OrdersOf(sorted) == OrdersOf(segs);
  }

  /** How many copies of `s` one lecture's gate emits. */
  lemma GateLectureCount(items: seq<Segment>, t: string, s: Segment)
    ensures multiset(GateLecture(items, t))[s] ==
      if s.lectureTitle == t && Unlocked(TitleOrders(items, t), s.order) then multiset(items)[s] else 0
  {
    var segs := WithTitle(items, t);
    var sorted := SortByOrder(segs);
    SortByOrderSorted(segs);
    GateLectureKeepsUnlocked(items, t);
    KeepUnlockedCount(sorted, TitleOrders(items, t), s);
    WithTitleCount(items, t, s);
  }

  /** How many copies of `s` the gate over distinct titles `ts` emits. */
  lemma {:induction false} GateTitlesCount(items: seq<Segment>, ts: seq<string>, s: Segment)
    requires forall i, j :: 0 <= i < j < |ts| ==> ts[i] != ts[j]
    ensures multiset(GateTitles(items, ts))[s] ==
      if s.lectureTitle in ts && Unlocked(TitleOrders(items, s.lectureTitle), s.order) then multiset(items)[s] else 0
  {
    if |ts| > 0 {
      var t := ts[0];
      GateTitlesCount(items, ts[1..], s);
      GateLectureCount(items, t, s);
      assert GateTitles(items, ts) == GateLecture(items, t) + GateTitles(items, ts[1..]);
      assert multiset(GateTitles(items, ts)) == multiset(GateLecture(items, t)) + multiset(GateTitles(items, ts[1..]));
      assert ts == [t] + ts[1..];
      assert t !in ts[1..];
    }
  }

  /** The gate neither loses, duplicates nor invents segments: it emits each segment as
      often as the input holds it when the segment's order is unlocked in its lecture,
      and never otherwise. */
  lemma GateCount(items: seq<Segment>, s: Segment)
    ensures multiset(Gate(items))[s] ==
      if Unlocked(TitleOrders(items, s.lectureTitle), s.order) then multiset(items)[s] else 0
  {
    GateTitlesCount(items, Titles(items), s);
    if s in items {
      var i :| 0 <= i < |items| && items[i] == s;
    }
  }

  /** The gate keeps a segment exactly when it is in the input and its order is unlocked
      among the orders of its own lecture. */
  lemma GateMembers(items: seq<Segment>)
    ensures forall s :: s in Gate(items) <==> s in items && Unlocked(TitleOrders(items, s.lectureTitle), s.order)
  {
    forall s ensures s in Gate(items) <==> s in items && Unlocked(TitleOrders(items, s.lectureTitle), s.order) {
      GateCount(items, s);
      assert s in Gate(items) <==> multiset(Gate(items))[s] > 0;
      assert s in items <==> multiset(items)[s] > 0;
    }
  }

  /** Every segment the gate keeps has order 1 or has a kept segment one order lower in
      the same lecture. */
  lemma GateKeepsPredecessor(items: seq<Segment>, s: Segment)
    requires s in Gate(items)
    ensures s.order >= 1
    ensures s.order != 1 ==> exists u :: u in Gate(items) && u.lectureTitle == s.lectureTitle && u.order == s.order - 1
  {
    var t := s.lectureTitle;
    var orders := TitleOrders(items, t);
    GateCount(items, s);
    assert multiset(Gate(items))[s] > 0;
    assert Unlocked(orders, s.order);
    UnlockedContiguous(orders, s.order);
    if s.order != 1 {
      assert s.order - 1 in orders;
      var u :| u in WithTitle(items, t) && u.order == s.order - 1;
      WithTitleMember(items, t, u);
      assert u in items && u.lectureTitle == t;
      UnlockedContiguous(orders, u.order);
      GateCount(items, u);
      assert multiset(items)[u] > 0;
      assert u in Gate(items);
    }
  }

  /** A missing order blocks every higher order of the same lecture: with orders {1, 3}
      the order-3 segment is never kept. */
  lemma GapBlocksHigherOrders(items: seq<Segment>, s: Segment, j: int)
    requires 1 <= j < s.order
    requires forall u :: u in items && u.lectureTitle == s.lectureTitle ==> u.order != j
    ensures s !in Gate(items)
  {
    var t := s.lectureTitle;
    var orders := TitleOrders(items, t);
    if j in orders {
      var u :| u in WithTitle(items, t) && u.order == j;
      WithTitleMember(items, t, u);
    }
    UnlockedContiguous(orders, s.order);
    GateCount(items, s);
  }
}
