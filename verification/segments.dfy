/** The lecture document and its flattening into one record per segment. */
module Segments {
  import opened Results

  /** A segment as stored inside a lecture. `mins` is required by the flattener;
      `difficulty` and `order` fall back to defaults when absent. */
  datatype RawSegment = RawSegment(topic: string, mins: Option<real>, difficulty: Option<int>, order: Option<int>)

  /** A lecture owns an ordered list of segments. */
  datatype Lecture = Lecture(title: string, segments: seq<RawSegment>)

  /** A flattened, fully populated segment record. The pair (`lectureIndex`,
      `segmentIndex`) is the record's `li-si` identifier. */
  datatype Segment = Segment(
    lectureIndex: nat,
    segmentIndex: nat,
    lectureTitle: string,
    topic: string,
    mins: real,
    difficulty: int,
    order: int)

  /** A segment's identity for completion matching. */
  datatype Key = Key(lectureTitle: string, topic: string)

  function KeyOf(s: Segment): Key
  {
    Key(s.lectureTitle, s.topic)
  }

  const DefaultDifficulty: int := 3
  const DefaultOrder: int := 1

  /** The record flattening produces for segment `si` of lecture `lec`, at position `li`. */
  function Record(lec: Lecture, li: nat, si: nat): Segment
    requires si < |lec.segments| && lec.segments[si].mins.Some?
  {
    var raw := lec.segments[si];
    Segment(li, si, lec.title, raw.topic, raw.mins.value,
            raw.difficulty.GetOr(DefaultDifficulty), raw.order.GetOr(DefaultOrder))
  }

  /** Number of segments in the first `n` lectures: where lecture `n`'s records start. */
  function Offset(lectures: seq<Lecture>, n: nat): nat
    requires n <= |lectures|
  {
    if n == 0 then 0 else Offset(lectures, n - 1) + |lectures[n - 1].segments|
  }

  /** Where the record of segment `si` of lecture `li` lands in the flattened view. */
  function Position(lectures: seq<Lecture>, li: nat, si: nat): nat
    requires li <= |lectures|
  {
    Offset(lectures, li) + si
  }

  lemma {:induction false} OffsetMonotone(lectures: seq<Lecture>, m: nat, n: nat)
    requires m <= n <= |lectures|
    ensures Offset(lectures, m) <= Offset(lectures, n)
    decreases n
  {
    if m < n {
      OffsetMonotone(lectures, m, n - 1);
    }
  }

  /** Whether some segment of the document lacks its `mins` field. */
  predicate MissingSomeMinutes(lectures: seq<Lecture>)
  {
    !Complete(lectures, |lectures|)
  }

  /** Whether every segment of the first `n` lectures has its `mins` field. */
  predicate Complete(lectures: seq<Lecture>, n: nat)
    requires n <= |lectures|
  {
    forall li, si :: 0 <= li < n && 0 <= si < |lectures[li].segments| ==> lectures[li].segments[si].mins.Some?
  }

  /** Records for the first `n` segments of lecture `lec` (at position `li`), failing at
      the first segment without minutes. */
  function LectureRecords(lec: Lecture, li: nat, n: nat): (r: Result<seq<Segment>, Fault>)
    requires n <= |lec.segments|
    ensures r.Failure? <==> exists si :: 0 <= si < n && lec.segments[si].mins.None?
    ensures r.Failure? ==>
      && r.error.MissingMinutes? && r.error.lecture == li && r.error.segment < n
      && lec.segments[r.error.segment].mins.None?
      && forall si :: 0 <= si < r.error.segment ==> lec.segments[si].mins.Some?
    ensures r.Success? ==>
      && |r.value| == n
      && forall si :: 0 <= si < n ==> r.value[si] == Record(lec, li, si)
  {
    if n == 0 then Success([])
    else
      match LectureRecords(lec, li, n - 1)
      case Failure(e) => Failure(e)
      case Success(prev) =>
        if lec.segments[n - 1].mins.None? then Failure(MissingMinutes(li, n - 1))
        else Success(prev + [Record(lec, li, n - 1)])
  }

  /** Records for the first `n` lectures, in lecture-then-segment order. */
  function FlattenPrefix(lectures: seq<Lecture>, n: nat): (r: Result<seq<Segment>, Fault>)
    requires n <= |lectures|
    ensures r.Failure? <==> !Complete(lectures, n)
    ensures r.Failure? ==>
      && r.error.MissingMinutes?
      && r.error.lecture < n && r.error.segment < |lectures[r.error.lecture].segments|
      && lectures[r.error.lecture].segments[r.error.segment].mins.None?
      && (forall li, si :: 0 <= li < r.error.lecture && 0 <= si < |lectures[li].segments| ==> lectures[li].segments[si].mins.Some?)
      && (forall si :: 0 <= si < r.error.segment ==> lectures[r.error.lecture].segments[si].mins.Some?)
    ensures r.Success? ==>
      && |r.value| == Offset(lectures, n)
      && forall li, si :: 0 <= li < n && 0 <= si < |lectures[li].segments| ==>
           Position(lectures, li, si) < |r.value| && r.value[Position(lectures, li, si)] == Record(lectures[li], li, si)
  {
    if n == 0 then Success([])
    else
      match FlattenPrefix(lectures, n - 1)
      case Failure(e) => Failure(e)
      case Success(prev) =>
        var lec := lectures[n - 1];
        match LectureRecords(lec, n - 1, |lec.segments|)
        case Failure(e) => Failure(e)
        case Success(recs) =>
          FlattenStep(lectures, n, lec, prev, recs);
          Success(prev + recs)
  }

  /** Appending lecture `n - 1`'s records keeps every earlier record at its place and
      puts the new ones right after them. */
  lemma FlattenStep(lectures: seq<Lecture>, n: nat, lec: Lecture, prev: seq<Segment>, recs: seq<Segment>)
    requires 0 < n <= |lectures| && lec == lectures[n - 1]
    requires Complete(lectures, n)
    requires |prev| == Offset(lectures, n - 1)
    requires forall li, si :: 0 <= li < n - 1 && 0 <= si < |lectures[li].segments| ==>
      Position(lectures, li, si) < |prev| && prev[Position(lectures, li, si)] == Record(lectures[li], li, si)
    requires |recs| == |lec.segments|
    requires forall si :: 0 <= si < |recs| ==> recs[si] == Record(lec, n - 1, si)
    ensures |prev + recs| == Offset(lectures, n)
    ensures forall li, si :: 0 <= li < n && 0 <= si < |lectures[li].segments| ==>
      Position(lectures, li, si) < |prev + recs| && (prev + recs)[Position(lectures, li, si)] == Record(lectures[li], li, si)
  {
    forall li, si | 0 <= li < n && 0 <= si < |lectures[li].segments|
      ensures Position(lectures, li, si) < |prev + recs|
      ensures (prev + recs)[Position(lectures, li, si)] == Record(lectures[li], li, si)
    {
      if li < n - 1 {
        OffsetMonotone(lectures, li, n - 1);
        assert Position(lectures, li, si) < |prev|;
        assert prev[Position(lectures, li, si)] == Record(lectures[li], li, si);
      } else {
        assert Offset(lectures, li) == |prev|;
        assert si < |recs|;
        assert recs[si] == Record(lec, n - 1, si);
      }
    }
  }

  /** The flattened view of the whole document: one record per segment, lectures in
      order and segments in order within each lecture, each tagged with its lecture's
      index and title and with defaults filled in. A segment without minutes aborts the
      flattening at the first such segment. */
  function Flatten(lectures: seq<Lecture>): (r: Result<seq<Segment>, Fault>)
    ensures r.Failure? <==> MissingSomeMinutes(lectures)
    ensures r.Failure? ==>
      && r.error.MissingMinutes?
      && r.error.lecture < |lectures| && r.error.segment < |lectures[r.error.lecture].segments|
      && lectures[r.error.lecture].segments[r.error.segment].mins.None?
    ensures r.Success? ==>
      && |r.value| == Offset(lectures, |lectures|)
      && forall li, si :: 0 <= li < |lectures| && 0 <= si < |lectures[li].segments| ==>
           Position(lectures, li, si) < |r.value| && r.value[Position(lectures, li, si)] == Record(lectures[li], li, si)
  {
    FlattenPrefix(lectures, |lectures|)
  }

  /** Every flattened record sits at the position of the segment it names, so the view
      holds each segment exactly once and nothing else. */
  lemma FlattenRecordsAreSegments(lectures: seq<Lecture>, k: nat)
    requires Flatten(lectures).Success? && k < |Flatten(lectures).value|
    ensures var s := Flatten(lectures).value[k];
      && s.lectureIndex < |lectures| && s.segmentIndex < |lectures[s.lectureIndex].segments|
      && k == Position(lectures, s.lectureIndex, s.segmentIndex)
      && s == Record(lectures[s.lectureIndex], s.lectureIndex, s.segmentIndex)
  {
    var li, si := Locate(lectures, |lectures|, k);
    assert Flatten(lectures).value[Position(lectures, li, si)] == Record(lectures[li], li, si);
  }

  /** The lecture and segment whose record lands at position `k < Offset(lectures, n)`. */
  lemma {:induction false} Locate(lectures: seq<Lecture>, n: nat, k: nat) returns (li: nat, si: nat)
    requires n <= |lectures| && k < Offset(lectures, n)
    ensures li < n && si < |lectures[li].segments| && k == Position(lectures, li, si)
  {
    if k >= Offset(lectures, n - 1) {
      li, si := n - 1, k - Offset(lectures, n - 1);
    } else {
      li, si := Locate(lectures, n - 1, k);
    }
  }
}
