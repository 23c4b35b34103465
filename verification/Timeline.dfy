/** One device's timeline: events clipped to a range and six running totals. */
module Timeline {
  import opened Common
  import opened ActivityBatches

  // The states the activity_events table admits.
  datatype StoredState = Productive | Neutral | Unproductive | Idle | Locked | Break

  datatype StoredEvent = StoredEvent(eventUuid: nat, tsStart: int, tsEnd: int, state: StoredState)

  datatype Segment = Segment(eventUuid: nat, tsStart: int, tsEnd: int, durationSec: int, state: StoredState)

  datatype Totals = Totals(productive: int, neutral: int, unproductive: int, idle: int, locked: int, breakTime: int) {
    function Of(state: StoredState): int {
      match state
      case Productive => productive
      case Neutral => neutral
      case Unproductive => unproductive
      case Idle => idle
      case Locked => locked
      case Break => breakTime
    }

    function Sum(): int {
      productive + neutral + unproductive + idle + locked + breakTime
    }
  }

  // Seconds of the segments in one state.
  function SecondsIn(segments: seq<Segment>, state: StoredState): int {
    if segments == [] then 0
    else
      var n := |segments| - 1;
      SecondsIn(segments[..n], state) + (if segments[n].state == state then segments[n].durationSec else 0)
  }

  function Seconds(segments: seq<Segment>): int {
    if segments == [] then 0 else Seconds(segments[..|segments| - 1]) + segments[|segments| - 1].durationSec
  }

  ghost predicate Clips(segment: Segment, event: StoredEvent, rangeStart: int, rangeEnd: int) {
    && segment.eventUuid == event.eventUuid && segment.state == event.state
    && segment.tsStart == Max(event.tsStart, rangeStart) && segment.tsEnd == Min(event.tsEnd, rangeEnd)
    && 0 <= segment.durationSec
    && (segment.tsStart <= segment.tsEnd ==>
          segment.durationSec * MICROS_PER_SECOND
          <= segment.tsEnd - segment.tsStart < (segment.durationSec + 1) * MICROS_PER_SECOND)
    && (segment.tsEnd < segment.tsStart ==> segment.durationSec == 0)
  }

  // totals[key] += duration
  function AddTo(totals: Totals, state: StoredState, duration: int): Totals {
    match state
    case Productive => totals.(productive := totals.productive + duration)
    case Neutral => totals.(neutral := totals.neutral + duration)
    case Unproductive => totals.(unproductive := totals.unproductive + duration)
    case Idle => totals.(idle := totals.idle + duration)
    case Locked => totals.(locked := totals.locked + duration)
    case Break => totals.(breakTime := totals.breakTime + duration)
  }

  lemma AddToIsExact(totals: Totals, state: StoredState, duration: int, other: StoredState)
    ensures AddTo(totals, state, duration).Of(other) == totals.Of(other) + if other == state then duration else 0
    ensures AddTo(totals, state, duration).Sum() == totals.Sum() + duration
  {
  }

  function SegmentOf(event: StoredEvent, rangeStart: int, rangeEnd: int): Segment {
    Segment(event.eventUuid, Max(event.tsStart, rangeStart), Min(event.tsEnd, rangeEnd),
            ClippedDuration(event.tsStart, event.tsEnd, rangeStart, rangeEnd), event.state)
  }

  lemma SegmentClips(event: StoredEvent, rangeStart: int, rangeEnd: int)
    ensures Clips(SegmentOf(event, rangeStart, rangeEnd), event, rangeStart, rangeEnd)
  {
  }

  function SegmentsOf(events: seq<StoredEvent>, rangeStart: int, rangeEnd: int): seq<Segment> {
    seq(|events|, i requires 0 <= i < |events| => SegmentOf(events[i], rangeStart, rangeEnd))
  }

  function TotalsOf(segments: seq<Segment>): Totals {
    if segments == [] then Totals(0, 0, 0, 0, 0, 0)
    else
      var last := segments[|segments| - 1];
      AddTo(TotalsOf(segments[..|segments| - 1]), last.state, last.durationSec)
  }

  lemma TotalsSnoc(segments: seq<Segment>, segment: Segment)
    ensures TotalsOf(segments + [segment]) == AddTo(TotalsOf(segments), segment.state, segment.durationSec)
  {
    assert (segments + [segment])[..|segments|] == segments;
  }

  lemma {:induction false} TotalsCount(segments: seq<Segment>, state: StoredState)
    ensures TotalsOf(segments).Of(state) == SecondsIn(segments, state)
    ensures TotalsOf(segments).Sum() == Seconds(segments)
  {
    if segments != [] {
      var n := |segments| - 1;
      TotalsCount(segments[..n], state);
      AddToIsExact(TotalsOf(segments[..n]), segments[n].state, segments[n].durationSec, state);
    }
  }

  // Every event yields its clipped segment, in order, and each total is the time
  // spent in its state; together they make up the time of all segments.
  method DeviceTimeline(events: seq<StoredEvent>, rangeStart: int, rangeEnd: int)
    returns (segments: seq<Segment>, totals: Totals)
    ensures |segments| == |events|
    ensures forall i :: 0 <= i < |events| ==> Clips(segments[i], events[i], rangeStart, rangeEnd)
    ensures forall state :: totals.Of(state) == SecondsIn(segments, state)
    ensures totals.Sum() == Seconds(segments)
  {
    segments, totals := [], Totals(0, 0, 0, 0, 0, 0);
    for i := 0 to |events|
      invariant segments == SegmentsOf(events[..i], rangeStart, rangeEnd)
      invariant totals == TotalsOf(segments)
    {
      var segment := SegmentOf(events[i], rangeStart, rangeEnd);
      TotalsSnoc(segments, segment);
      totals := AddTo(totals, segment.state, segment.durationSec);
      segments := segments + [segment];
    }
    assert events[..|events|] == events;
    forall i | 0 <= i < |events|
      ensures Clips(segments[i], events[i], rangeStart, rangeEnd)
    {
      SegmentClips(events[i], rangeStart, rangeEnd);
    }
    forall state {
      TotalsCount(segments, state);
    }
    TotalsCount(segments, Idle);
  }

  ghost predicate OrderedDisjoint(events: seq<StoredEvent>) {
    && (forall i :: 0 <= i < |events| ==> events[i].tsStart < events[i].tsEnd)
    && (forall i :: 0 <= i < |events| - 1 ==> events[i].tsEnd <= events[i + 1].tsStart)
  }

  // Read in start order, events that do not overlap add up to at most the range.
  lemma {:induction false} TimelineFits(events: seq<StoredEvent>, segments: seq<Segment>, rangeStart: int,
                                        rangeEnd: int)
    requires |segments| == |events| && OrderedDisjoint(events)
    requires forall i :: 0 <= i < |events| ==> Clips(segments[i], events[i], rangeStart, rangeEnd)
    ensures var to := if events == [] then rangeStart else Min(rangeEnd, events[|events| - 1].tsEnd);
            Seconds(segments) * MICROS_PER_SECOND <= Max(0, to - rangeStart)
    ensures Seconds(segments) * MICROS_PER_SECOND <= Max(0, rangeEnd - rangeStart)
  {
    if events != [] {
      var n := |events| - 1;
      TimelineFits(events[..n], segments[..n], rangeStart, rangeEnd);
      assert Clips(segments[n], events[n], rangeStart, rangeEnd);
      assert n > 0 ==> events[n - 1].tsEnd <= events[n].tsStart && events[..n][n - 1] == events[n - 1];
    }
  }
}
