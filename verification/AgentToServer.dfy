/** The agent's output meets the server's validation. */
module AgentToServer {
  import opened Common
  import opened Aggregation
  import opened AggregationProperties
  import opened InputAccounting
  import opened ActivityBatches
  import opened ActivityDelivery
  import opened ActivityUpload
  import opened UploadProgress

  const TICKS_PER_MICRO: int := 10

  // The server's datetime drops the seventh digit of the agent's 100 ns time stamps.
  function WireTime(ticks: int): Stamp {
    Stamp(ticks / TICKS_PER_MICRO, true)
  }

  function Wire(e: LocalActivityEvent): EventInput {
    EventInput(e.eventUuid, WireTime(e.startedAt), WireTime(e.endedAt), e.activity.state,
               SessionKey(e.activity.windowsSid, Some(e.activity.windowsSessionId)),
               e.inputs.keystrokes, e.inputs.clicks, e.inputs.mouseDistance)
  }

  function WireAll(batch: seq<LocalActivityEvent>): seq<EventInput> {
    seq(|batch|, i requires 0 <= i < |batch| => Wire(batch[i]))
  }

  // The wire keeps everything but the seventh digit.
  lemma WireIsFaithful(e: LocalActivityEvent)
    ensures var w := Wire(e);
            && w.tsStart.hasZone && 0 <= e.startedAt - w.tsStart.at * 10 < 10
            && w.tsEnd.hasZone && 0 <= e.endedAt - w.tsEnd.at * 10 < 10
            && w.eventUuid == e.eventUuid && w.state == e.activity.state && w.keystrokes == e.inputs.keystrokes
            && w.clicks == e.inputs.clicks && w.mouseDistance == e.inputs.mouseDistance
            && w.session == SessionKey(e.activity.windowsSid, Some(e.activity.windowsSessionId))
  {
  }

  lemma AllowedStatesNormalize(state: string)
    requires state in ALLOWED_STATES
    ensures NormalizeState(state) == Some(state)
  {
    assert state != [] && !IsBlank(state[0]) && !IsBlank(state[|state| - 1]);
    assert Upper(state) == state;
  }

  // An event between one second and one day long is valid on its own exactly if none of its
  // counters is negative.
  lemma EventIsValidExactly(e: LocalActivityEvent)
    requires 10_000_000 <= e.endedAt - e.startedAt <= 864_000_000_000
    requires e.activity.state in ALLOWED_STATES
    ensures ValidEvent(Wire(e)) <==> forall which: Counter :: e.inputs.Get(which) >= 0
  {
    AllowedStatesNormalize(e.activity.state);
    if ValidEvent(Wire(e)) {
      forall which: Counter
        ensures e.inputs.Get(which) >= 0
      {
        match which
        case Keystrokes =>
        case Clicks =>
        case MouseDistance =>
      }
    } else {
      assert e.inputs.Get(Keystrokes) < 0 || e.inputs.Get(Clicks) < 0 || e.inputs.Get(MouseDistance) < 0;
    }
  }

  lemma {:induction false} TilesAreOrdered(events: seq<LocalActivityEvent>, from: int, to: int, i: nat, j: nat)
    requires Tiles(events, from, to) && i < j < |events|
    ensures events[i].endedAt <= events[j].startedAt
    decreases j - i
  {
    if i + 1 < j {
      TilesAreOrdered(events, from, to, i + 1, j);
    }
  }

  lemma TilesAreDisjoint(events: seq<LocalActivityEvent>, from: int, to: int, x: LocalActivityEvent,
                         y: LocalActivityEvent)
    requires Tiles(events, from, to) && x in events && y in events && x != y
    ensures Disjoint(Wire(x), Wire(y))
  {
    var i :| 0 <= i < |events| && events[i] == x;
    var j :| 0 <= j < |events| && events[j] == y;
    if i < j {
      TilesAreOrdered(events, from, to, i, j);
    } else {
      TilesAreOrdered(events, from, to, j, i);
    }
  }

  ghost predicate SaneSamples(ops: seq<Op>) {
    forall i :: 0 <= i < |ops| && ops[i].Sample? ==>
      ops[i].sample.activity.state in ALLOWED_STATES && forall which: Counter :: ops[i].sample.inputs.Get(which) >= 0
  }

  // A credit of up to 2^31 - 1 modulo 2^32 is no negative counter.
  predicate Shows(credit: int) {
    credit % 0x1_0000_0000 <= INT_MAX
  }

  lemma {:induction false} WrapShowsExactly(credit: int)
    requires credit >= 0
    ensures Wrap32(credit) >= 0 <==> Shows(credit)
    decreases credit
  {
    if credit >= 0x1_0000_0000 {
      WrapShowsExactly(credit - 0x1_0000_0000);
      assert credit % 0x1_0000_0000 == (credit - 0x1_0000_0000) % 0x1_0000_0000;
    } else if credit > INT_MAX {
      assert Wrap32(credit) == credit - 0x1_0000_0000;
    }
  }

  // What was credited to the k-th event comes out as no negative counter.
  ghost predicate CreditsShow(init: AggregatorState, minDuration: int, ops: seq<Op>, k: nat) {
    forall which: Counter ::
      var credits := Accounts(init, minDuration, ops, which).emitted;
      k < |credits| ==> Shows(credits[k])
  }

  ghost predicate SaneRun(init: AggregatorState, minDuration: int, ops: seq<Op>, l: Limits) {
    && Fresh(init) && init.maxDuration <= l.maxDuration && 0 <= l.gap
    && 10_000_000 <= minDuration
    && Max(l.maxDuration, l.idle) + l.gap + minDuration <= 864_000_000_000
    && (forall i :: 0 <= i < |ops| ==> WithinLimits(ops[i], l))
    && Paced(ops, l.gap)
    && SaneSamples(ops)
  }

  lemma CounterShowsExactly(init: AggregatorState, minDuration: int, ops: seq<Op>, k: nat, which: Counter)
    requires Fresh(init) && SaneSamples(ops) && k < |Run(init, minDuration, ops).emitted|
    ensures var credits := Accounts(init, minDuration, ops, which).emitted;
            k < |credits|
            && (Run(init, minDuration, ops).emitted[k].inputs.Get(which) >= 0 <==> Shows(credits[k]))
  {
    assert InputsNonnegative(ops, which);
    EventCountersExactly(init, minDuration, ops, which);
    WrapShowsExactly(Accounts(init, minDuration, ops, which).emitted[k]);
  }

  // An event from Add is valid exactly if its credits show.
  lemma EmittedEventIsValidExactly(init: AggregatorState, minDuration: int, ops: seq<Op>, l: Limits, k: nat)
    requires SaneRun(init, minDuration, ops, l) && k < |Run(init, minDuration, ops).emitted|
    ensures ValidEvent(Wire(Run(init, minDuration, ops).emitted[k])) <==> CreditsShow(init, minDuration, ops, k)
  {
    EmittedLengthsAreBounded(init, minDuration, ops, l);
    LabelsComeFromSamples(init, minDuration, ops, (a: Activity) => a.state in ALLOWED_STATES);
    forall which: Counter {
      CounterShowsExactly(init, minDuration, ops, k, which);
    }
    EventIsValidExactly(Run(init, minDuration, ops).emitted[k]);
  }

  lemma EmittedEventsAreDisjoint(init: AggregatorState, minDuration: int, ops: seq<Op>, x: LocalActivityEvent,
                                 y: LocalActivityEvent)
    requires Fresh(init) && IdleNonnegative(ops)
    requires x in Run(init, minDuration, ops).emitted && y in Run(init, minDuration, ops).emitted
    requires x.eventUuid != y.eventUuid
    ensures Disjoint(Wire(x), Wire(y))
  {
    var h := Run(init, minDuration, ops);
    EmittedEventsTile(init, minDuration, ops);
    TilesAreDisjoint(h.emitted + Listed(h.state.pending), EpochStart(ops).value, h.state.open.value.startedAt, x, y);
  }

  lemma SaneIdle(init: AggregatorState, minDuration: int, ops: seq<Op>, l: Limits)
    requires SaneRun(init, minDuration, ops, l)
    ensures IdleNonnegative(ops)
  {
    forall i | 0 <= i < |ops| && ops[i].Sample?
      ensures ops[i].sample.idleDuration >= 0
    {
      assert WithinLimits(ops[i], l);
    }
  }

  // The credits of every event in the batch show.
  ghost predicate BatchShows(init: AggregatorState, minDuration: int, ops: seq<Op>, batch: seq<LocalActivityEvent>) {
    var emitted := Run(init, minDuration, ops).emitted;
    forall k :: 0 <= k < |emitted| && emitted[k] in batch ==> CreditsShow(init, minDuration, ops, k)
  }

  lemma BatchShowsExactly(init: AggregatorState, minDuration: int, ops: seq<Op>, l: Limits,
                          batch: seq<LocalActivityEvent>)
    requires SaneRun(init, minDuration, ops, l)
    requires forall i :: 0 <= i < |batch| ==> batch[i] in Run(init, minDuration, ops).emitted
    ensures BatchShows(init, minDuration, ops, batch) <==> forall i :: 0 <= i < |batch| ==> ValidEvent(Wire(batch[i]))
  {
    var emitted := Run(init, minDuration, ops).emitted;
    forall k | 0 <= k < |emitted|
      ensures ValidEvent(Wire(emitted[k])) <==> CreditsShow(init, minDuration, ops, k)
    {
      EmittedEventIsValidExactly(init, minDuration, ops, l, k);
    }
    if BatchShows(init, minDuration, ops, batch) {
      forall i | 0 <= i < |batch|
        ensures ValidEvent(Wire(batch[i]))
      {
        assert batch[i] in emitted;
        var k :| 0 <= k < |emitted| && emitted[k] == batch[i];
      }
    }
  }

  // Any batch drawn from the output of one epoch, in any order and with repetitions,
  // passes the server's validation exactly if no counter in it overflowed to a negative one.
  lemma EpochBatchIsAcceptedExactly(init: AggregatorState, minDuration: int, ops: seq<Op>, l: Limits,
                                    batch: seq<LocalActivityEvent>, sentAt: int)
    requires SaneRun(init, minDuration, ops, l)
    requires 1 <= |batch| <= 5000
    requires forall i :: 0 <= i < |batch| ==> batch[i] in Run(init, minDuration, ops).emitted
    ensures AcceptableBatch(Stamp(sentAt, true), WireAll(batch)) <==> BatchShows(init, minDuration, ops, batch)
  {
    var wired := WireAll(batch);
    BatchShowsExactly(init, minDuration, ops, l, batch);
    assert (forall i :: 0 <= i < |wired| ==> ValidEvent(wired[i])) <==>
           forall i :: 0 <= i < |batch| ==> ValidEvent(Wire(batch[i])) by {
      assert forall i :: 0 <= i < |wired| ==> wired[i] == Wire(batch[i]);
    }
    SaneIdle(init, minDuration, ops, l);
    forall i, j | 0 <= i < j < |wired| && IsFirst(wired, i) && IsFirst(wired, j) && wired[i].session == wired[j].session
      ensures Disjoint(wired[i], wired[j])
    {
      assert wired[i].eventUuid != wired[j].eventUuid;
      EmittedEventsAreDisjoint(init, minDuration, ops, batch[i], batch[j]);
    }
  }

  ghost predicate WiredFrom(event: EventInput, emitted: seq<LocalActivityEvent>) {
    exists k :: 0 <= k < |emitted| && event == Wire(emitted[k])
  }

  ghost predicate QueuedFrom(rows: seq<QueueRow>, emitted: seq<LocalActivityEvent>) {
    forall r :: r in rows ==> WiredFrom(r.event, emitted)
  }

  ghost predicate AllValid(rows: seq<QueueRow>) {
    forall i :: 0 <= i < |rows| ==> ValidEvent(rows[i].event)
  }

  lemma QueuedRunsAreAcceptable(init: AggregatorState, minDuration: int, ops: seq<Op>, l: Limits, rows: seq<QueueRow>)
    requires SaneRun(init, minDuration, ops, l) && QueuedFrom(rows, Run(init, minDuration, ops).emitted)
    requires AllValid(rows)
    ensures AllRunsAcceptable(rows, AcceptableContent)
  {
    var emitted := Run(init, minDuration, ops).emitted;
    forall lo, hi | 0 <= lo < hi <= |rows| && hi - lo <= MAX_BATCH
      ensures AcceptableContent(Events(rows[lo..hi]))
    {
      var batch := Sources(rows[lo..hi], emitted);
      assert forall i :: 0 <= i < |batch| ==> Wire(batch[i]) == rows[lo + i].event;
      BatchShowsExactly(init, minDuration, ops, l, batch);
      EpochBatchIsAcceptedExactly(init, minDuration, ops, l, batch, 0);
      assert WireAll(batch) == Events(rows[lo..hi]);
    }
  }

  lemma {:induction false} Sources(rows: seq<QueueRow>, emitted: seq<LocalActivityEvent>)
    returns (batch: seq<LocalActivityEvent>)
    requires QueuedFrom(rows, emitted)
    ensures |batch| == |rows|
    ensures forall i :: 0 <= i < |rows| ==> batch[i] in emitted && rows[i].event == Wire(batch[i])
  {
    if rows == [] {
      batch := [];
    } else {
      var n := |rows| - 1;
      var earlier := Sources(rows[..n], emitted);
      assert rows[n] in rows;
      var k :| 0 <= k < |emitted| && rows[n].event == Wire(emitted[k]);
      batch := earlier + [emitted[k]];
    }
  }

  lemma {:induction false} DeliverableAreValid(rows: seq<QueueRow>, k: nat, limit: nat)
    requires k <= |rows|
    ensures forall i :: k <= i < Front(rows, k, limit, AcceptableContent) ==> ValidEvent(rows[i].event)
    decreases |rows| - k
  {
    var batch := Batch(rows, k, limit);
    if Passes(batch, AcceptableContent) {
      DeliverableAreValid(rows, k + |batch|, limit);
      forall i | k <= i < k + |batch|
        ensures ValidEvent(rows[i].event)
      {
        assert ValidEvent(Events(batch)[i - k]);
      }
    }
  }

  // From samples to the server's table: once enough attempts, at whatever times and however
  // many fail in between, are answered, the queue is empty exactly if no queued counter had
  // overflowed to a negative one; then every event is stored, once.
  lemma EpochIsDelivered(init: AggregatorState, minDuration: int, ops: seq<Op>, limits: Limits,
                         link: Link, limit: nat, outcomes: seq<Outcome>)
    requires SaneRun(init, minDuration, ops, limits)
    requires ValidQueue(link.queue) && UniqueUuids(link.table) && link.accepts == AcceptableBatch
    requires QueuedFrom(link.queue.rows, Run(init, minDuration, ops).emitted)
    requires limit <= MAX_BATCH && Answered(outcomes) * limit >= |link.queue.rows|
    ensures var link' := Attempted(link, limit, outcomes);
            && (link'.queue.rows == [] <==> AllValid(link.queue.rows))
            && UniqueUuids(link'.table)
            && (AllValid(link.queue.rows) ==>
                  StoredUuids(link'.table) == StoredUuids(link.table) + QueuedUuids(link.queue.rows))
  {
    var rows := link.queue.rows;
    ServerJudges();
    QueueDrains(link, limit, outcomes, AcceptableContent);
    DeliverableAreValid(rows, 0, limit);
    if AllValid(rows) && rows != [] {
      QueuedRunsAreAcceptable(init, minDuration, ops, limits, rows);
      RunsAreDeliverable(rows, 0, limit, AcceptableContent);
    }
    assert rows[..|rows|] == rows && rows[|rows|..] == [];
  }

  // The server refuses every batch that contains an event of less than a second on the wire.
  lemma ShortEventIsRefused(e: LocalActivityEvent, events: seq<EventInput>, sentAt: Stamp)
    requires WireTime(e.endedAt).at - WireTime(e.startedAt).at < 1_000_000
    requires Wire(e) in events
    ensures !AcceptableBatch(sentAt, events)
  {
    assert !ValidEvent(Wire(e));
  }

  lemma ThreeSamples(init: AggregatorState, minDuration: int, a: Op, b: Op, c: Op)
    ensures Run(init, minDuration, [a, b, c])
         == Advance(Advance(Advance(History(init, []), minDuration, a), minDuration, b), minDuration, c)
  {
    assert [a] == [] + [a] && [a, b] == [a] + [b] && [a, b, c] == [a, b] + [c];
    RunSnoc(init, minDuration, [], a);
    RunSnoc(init, minDuration, [a], b);
    RunSnoc(init, minDuration, [a, b], c);
  }

  lemma ThreePaced(a: ActivitySample, b: ActivitySample, c: ActivitySample, gap: int)
    requires a.capturedAt <= b.capturedAt <= c.capturedAt <= a.capturedAt + gap
    ensures Paced([Sample(a), Sample(b), Sample(c)], gap)
  {
    var one, two, three := [Sample(a)], [Sample(a), Sample(b)], [Sample(a), Sample(b), Sample(c)];
    assert one[..0] == [] && two[..1] == one && three[..2] == two;
    assert LatestCapture([]) == None && LatestCapture(one) == Some(a.capturedAt);
    assert LatestCapture(two) == Some(b.capturedAt);
    assert Paced([], gap) && Paced(one, gap) && Paced(two, gap);
  }

  // For example: INT_MAX keystrokes and then one more within the same event.
  lemma OverflowIsRefused(sentAt: Stamp)
    returns (init: AggregatorState, ops: seq<Op>, l: Limits, e: LocalActivityEvent)
    ensures SaneRun(init, 5 * TICKS_PER_SECOND, ops, l) && Run(init, 5 * TICKS_PER_SECOND, ops).emitted == [e]
    ensures e.inputs.keystrokes < 0 && !AcceptableBatch(sentAt, WireAll([e]))
  {
    var minDuration := 5 * TICKS_PER_SECOND;
    var window := Activity("NEUTRAL", None, None, None, None, None, 1, false, None, None);
    var a := ActivitySample(0, 0, window, Inputs(INT_MAX, 0, 0));
    var b := ActivitySample(minDuration, 0, window, Inputs(1, 0, 0));
    var c := ActivitySample(2 * minDuration, 0, window.(state := "LOCKED"), Inputs(0, 0, 0));
    init, l := AggregatorState(60 * TICKS_PER_SECOND, None, None, 0), Limits(60 * TICKS_PER_SECOND, 0, 432_000_000_000);
    ops := [Sample(a), Sample(b), Sample(c)];
    ThreeSamples(init, minDuration, Sample(a), Sample(b), Sample(c));
    ThreePaced(a, b, c, l.gap);
    e := OverflowingRun(init, minDuration, a, b, c);
    assert WireAll([e])[0] == Wire(e) && !ValidEvent(Wire(e));
  }

  lemma OverflowingRun(init: AggregatorState, minDuration: int, a: ActivitySample, b: ActivitySample,
                       c: ActivitySample)
    returns (e: LocalActivityEvent)
    requires Fresh(init) && a.capturedAt < b.capturedAt < c.capturedAt && minDuration <= c.capturedAt - a.capturedAt
    requires a.activity.state != IDLE && SameActivity(a.activity, b.activity) && c.activity.state != b.activity.state
    requires c.activity.state != IDLE && b.capturedAt - a.capturedAt < init.maxDuration
    requires a.inputs.keystrokes == INT_MAX && b.inputs.keystrokes == 1
    ensures var h := Advance(Advance(Advance(History(init, []), minDuration, Sample(a)), minDuration, Sample(b)),
                             minDuration, Sample(c));
            h.emitted == [e] && e.inputs.keystrokes < 0
  {
    var first := Begin(a, a.capturedAt);
    var h1 := Advance(History(init, []), minDuration, Sample(a));
    assert h1 == History(init.(open := Some(first)), []);
    var second := first.(lastCapturedAt := b.capturedAt, inputs := Plus(a.inputs, Positive(b.inputs)));
    assert NextCut(h1.state, b) == CutResult(second, None);
    assert Wrap32(INT_MAX + 1) == -INT_MAX - 1;
    var h2 := Advance(h1, minDuration, Sample(b));
    assert h2 == History(init.(open := Some(second)), []);
    e := Close(second, c.capturedAt, init.nextUuid);
    assert NextCut(h2.state, c) == CutResult(Begin(c, c.capturedAt), Some(e));
    assert Absorb(None, e, minDuration) == Absorbed(None, [e]);
  }
}
