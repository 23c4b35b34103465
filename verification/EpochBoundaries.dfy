/**
 What happens at the end of an epoch: whether the server accepts what Flush hands out, and
 whether it accepts the output of two consecutive epochs in one batch.
 */
module EpochBoundaries {
  import opened Common
  import opened Aggregation
  import opened AggregationProperties
  import opened InputAccounting
  import opened ActivityBatches
  import opened ActivityDelivery
  import opened ActivityUpload
  import opened UploadProgress
  import opened AgentToServer

  // --- What Flush hands out ----------------------------------------------------------------

  function FlushedStart(st: AggregatorState): int
    requires st.open.Some?
  {
    if st.pending.Some? then st.pending.value.startedAt else st.open.value.startedAt
  }

  function FlushedEnd(st: AggregatorState, endedAt: int): int
    requires st.open.Some?
  {
    Max(st.open.value.startedAt, endedAt)
  }

  // Seen before the call: there is nothing to hand out, or it lasts from a second to a day
  // on the wire.
  predicate FlushFits(st: AggregatorState, endedAt: int) {
    st.open.None? ||
    (var length := WireTime(FlushedEnd(st, endedAt)).at - WireTime(FlushedStart(st)).at;
     FlushedStart(st) == FlushedEnd(st, endedAt)
     || 1_000_000 <= length < 86_401_000_000)
  }

  function FlushAccount(a: Account, st: AggregatorState, endedAt: int): int {
    a.pending + if st.open.Some? && endedAt > st.open.value.startedAt then a.open else 0
  }

  ghost predicate FlushShows(init: AggregatorState, minDuration: int, ops: seq<Op>, endedAt: int) {
    forall which: Counter ::
      Shows(FlushAccount(Accounts(init, minDuration, ops, which), Run(init, minDuration, ops).state, endedAt))
  }

  lemma FlushedSpan(h: History, ops: seq<Op>, minDuration: int, endedAt: int)
    requires Tiled(h, ops) && h.state.open.Some?
    ensures var f := FlushStep(h.state, minDuration, endedAt).emitted;
            && FlushedStart(h.state) <= FlushedEnd(h.state, endedAt)
            && (f == [] <==> FlushedStart(h.state) == FlushedEnd(h.state, endedAt))
            && (f != [] ==>
                  && |f| == 1 && f[0].startedAt == FlushedStart(h.state)
                  && f[0].endedAt == FlushedEnd(h.state, endedAt))
  {
    var o := h.state.open.value;
    if h.state.pending.Some? {
      var events := h.emitted + Listed(h.state.pending);
      assert events[|events| - 1] == h.state.pending.value;
    }
  }

  lemma FlushedLabel(init: AggregatorState, minDuration: int, ops: seq<Op>, endedAt: int, e: LocalActivityEvent,
                     good: Activity -> bool)
    requires Fresh(init) && e in FlushStep(Run(init, minDuration, ops).state, minDuration, endedAt).emitted
    requires forall i :: 0 <= i < |ops| && ops[i].Sample? ==> good(ops[i].sample.activity)
    ensures good(e.activity)
  {
    LabelsComeFromSamples(init, minDuration, ops, good);
  }

  lemma FlushIsAccounted(h: History, a: Account, minDuration: int, endedAt: int, e: LocalActivityEvent, which: Counter)
    requires Accounted(h, a, which) && e in FlushStep(h.state, minDuration, endedAt).emitted
    ensures FlushAccount(a, h.state, endedAt) >= 0
    ensures e.inputs.Get(which) == Wrap32(FlushAccount(a, h.state, endedAt))
  {
    if h.state.open.Some? {
      var raw := Close(h.state.open.value, endedAt, h.state.nextUuid);
      if Nonempty(raw) {
        AbsorbIsAccounted(h.state.pending, raw, minDuration, a.pending, a.open, which);
      }
    }
  }

  lemma FlushedCounter(init: AggregatorState, minDuration: int, ops: seq<Op>, endedAt: int, e: LocalActivityEvent,
                       which: Counter)
    requires Fresh(init) && InputsNonnegative(ops, which)
    requires e in FlushStep(Run(init, minDuration, ops).state, minDuration, endedAt).emitted
    ensures e.inputs.Get(which)
         == Wrap32(FlushAccount(Accounts(init, minDuration, ops, which), Run(init, minDuration, ops).state, endedAt))
    ensures FlushAccount(Accounts(init, minDuration, ops, which), Run(init, minDuration, ops).state, endedAt) >= 0
  {
    EventCountersExactly(init, minDuration, ops, which);
    FlushIsAccounted(Run(init, minDuration, ops), Accounts(init, minDuration, ops, which), minDuration, endedAt, e,
                     which);
  }

  // --- The end of one epoch --------------------------------------------------------------------

  lemma FlushedShowsExactly(init: AggregatorState, minDuration: int, ops: seq<Op>, endedAt: int, e: LocalActivityEvent)
    requires Fresh(init) && SaneSamples(ops)
    requires e in FlushStep(Run(init, minDuration, ops).state, minDuration, endedAt).emitted
    ensures (forall which: Counter :: e.inputs.Get(which) >= 0) <==> FlushShows(init, minDuration, ops, endedAt)
  {
    forall which: Counter
      ensures e.inputs.Get(which) >= 0 <==>
              Shows(FlushAccount(Accounts(init, minDuration, ops, which), Run(init, minDuration, ops).state, endedAt))
    {
      assert InputsNonnegative(ops, which);
      FlushedCounter(init, minDuration, ops, endedAt, e, which);
      WrapShowsExactly(FlushAccount(Accounts(init, minDuration, ops, which), Run(init, minDuration, ops).state,
                                    endedAt));
    }
    assert FlushShows(init, minDuration, ops, endedAt) ==> forall which: Counter ::
        Shows(FlushAccount(Accounts(init, minDuration, ops, which), Run(init, minDuration, ops).state, endedAt));
  }

  lemma CountersAreListed(e: LocalActivityEvent)
    ensures (forall which: Counter :: e.inputs.Get(which) >= 0) <==>
              e.inputs.keystrokes >= 0 && e.inputs.clicks >= 0 && e.inputs.mouseDistance >= 0
  {
    assert e.inputs.Get(Keystrokes) == e.inputs.keystrokes && e.inputs.Get(Clicks) == e.inputs.clicks;
    assert e.inputs.Get(MouseDistance) == e.inputs.mouseDistance;
  }

  lemma FlushedEventIsValidExactly(init: AggregatorState, minDuration: int, ops: seq<Op>, l: Limits, endedAt: int,
                                   e: LocalActivityEvent)
    requires SaneRun(init, minDuration, ops, l)
    requires e in FlushStep(Run(init, minDuration, ops).state, minDuration, endedAt).emitted
    ensures ValidEvent(Wire(e)) <==>
              FlushFits(Run(init, minDuration, ops).state, endedAt) && FlushShows(init, minDuration, ops, endedAt)
  {
    var h := Run(init, minDuration, ops);
    SaneIdle(init, minDuration, ops, l);
    EmittedEventsTile(init, minDuration, ops);
    FlushedSpan(h, ops, minDuration, endedAt);
    FlushedLabel(init, minDuration, ops, endedAt, e, (a: Activity) => a.state in ALLOWED_STATES);
    AllowedStatesNormalize(e.activity.state);
    FlushedShowsExactly(init, minDuration, ops, endedAt, e);
    CountersAreListed(e);
    ValidIntervalExactly(WireTime(e.startedAt), WireTime(e.endedAt), e.activity.state);
  }

  // Everything one epoch hands out, the flushed event included.
  function EpochOutput(init: AggregatorState, minDuration: int, ops: seq<Op>, endedAt: int): seq<LocalActivityEvent> {
    var h := Run(init, minDuration, ops);
    h.emitted + FlushStep(h.state, minDuration, endedAt).emitted
  }

  lemma OutputTiles(init: AggregatorState, minDuration: int, ops: seq<Op>, l: Limits, endedAt: int)
    requires SaneRun(init, minDuration, ops, l) && EpochStart(ops).Some?
    ensures Run(init, minDuration, ops).state.open.Some?
    ensures Tiles(EpochOutput(init, minDuration, ops, endedAt), EpochStart(ops).value,
                  FlushedEnd(Run(init, minDuration, ops).state, endedAt))
  {
    SaneIdle(init, minDuration, ops, l);
    FlushCompletesTiling(init, minDuration, ops, endedAt);
  }

  lemma NoSamplesNoOutput(init: AggregatorState, minDuration: int, ops: seq<Op>, l: Limits, endedAt: int)
    requires SaneRun(init, minDuration, ops, l) && EpochStart(ops).None?
    ensures EpochOutput(init, minDuration, ops, endedAt) == [] && Run(init, minDuration, ops).state.open.None?
  {
    SaneIdle(init, minDuration, ops, l);
    EmittedEventsTile(init, minDuration, ops);
  }

  lemma OutputIsDisjoint(init: AggregatorState, minDuration: int, ops: seq<Op>, l: Limits, endedAt: int,
                         x: LocalActivityEvent, y: LocalActivityEvent)
    requires SaneRun(init, minDuration, ops, l)
    requires x in EpochOutput(init, minDuration, ops, endedAt) && y in EpochOutput(init, minDuration, ops, endedAt)
    requires x.eventUuid != y.eventUuid
    ensures Disjoint(Wire(x), Wire(y))
  {
    if EpochStart(ops).None? {
      NoSamplesNoOutput(init, minDuration, ops, l, endedAt);
    } else {
      OutputTiles(init, minDuration, ops, l, endedAt);
      TilesAreDisjoint(EpochOutput(init, minDuration, ops, endedAt), EpochStart(ops).value,
                       FlushedEnd(Run(init, minDuration, ops).state, endedAt), x, y);
    }
  }

  // Any batch drawn from the whole output of an epoch is accepted exactly if no counter in
  // it overflowed to a negative one, and the flushed event fits or is not in it.
  lemma FlushBatchIsAcceptedExactly(init: AggregatorState, minDuration: int, ops: seq<Op>, l: Limits, endedAt: int,
                                    batch: seq<LocalActivityEvent>, sentAt: int)
    requires SaneRun(init, minDuration, ops, l)
    requires 1 <= |batch| <= MAX_BATCH
    requires forall i :: 0 <= i < |batch| ==> batch[i] in EpochOutput(init, minDuration, ops, endedAt)
    ensures var h := Run(init, minDuration, ops);
            AcceptableBatch(Stamp(sentAt, true), WireAll(batch)) <==>
              BatchShows(init, minDuration, ops, batch) &&
              ((FlushFits(h.state, endedAt) && FlushShows(init, minDuration, ops, endedAt))
               || forall e :: e in FlushStep(h.state, minDuration, endedAt).emitted ==> e !in batch)
  {
    var wired := WireAll(batch);
    BatchIsValidExactly(init, minDuration, ops, l, endedAt, batch);
    assert (forall i :: 0 <= i < |wired| ==> ValidEvent(wired[i])) <==> AllWireValid(batch) by {
      assert forall i :: 0 <= i < |wired| ==> wired[i] == Wire(batch[i]);
    }
    forall i, j | 0 <= i < j < |wired| && IsFirst(wired, i) && IsFirst(wired, j) && wired[i].session == wired[j].session
      ensures Disjoint(wired[i], wired[j])
    {
      assert wired[i].eventUuid != wired[j].eventUuid;
      OutputIsDisjoint(init, minDuration, ops, l, endedAt, batch[i], batch[j]);
    }
  }

  ghost predicate AllWireValid(batch: seq<LocalActivityEvent>) {
    forall i :: 0 <= i < |batch| ==> ValidEvent(Wire(batch[i]))
  }

  lemma BatchIsValidExactly(init: AggregatorState, minDuration: int, ops: seq<Op>, l: Limits, endedAt: int,
                            batch: seq<LocalActivityEvent>)
    requires SaneRun(init, minDuration, ops, l)
    requires forall i :: 0 <= i < |batch| ==> batch[i] in EpochOutput(init, minDuration, ops, endedAt)
    ensures var h := Run(init, minDuration, ops);
            AllWireValid(batch) <==>
              BatchShows(init, minDuration, ops, batch) &&
              ((FlushFits(h.state, endedAt) && FlushShows(init, minDuration, ops, endedAt))
               || forall e :: e in FlushStep(h.state, minDuration, endedAt).emitted ==> e !in batch)
  {
    var h := Run(init, minDuration, ops);
    var flushed := FlushStep(h.state, minDuration, endedAt).emitted;
    var flushValid := FlushFits(h.state, endedAt) && FlushShows(init, minDuration, ops, endedAt);
    forall e | e in flushed
      ensures ValidEvent(Wire(e)) <==> flushValid
    {
      FlushedEventIsValidExactly(init, minDuration, ops, l, endedAt, e);
    }
    forall k | 0 <= k < |h.emitted|
      ensures ValidEvent(Wire(h.emitted[k])) <==> CreditsShow(init, minDuration, ops, k)
    {
      EmittedEventIsValidExactly(init, minDuration, ops, l, k);
    }
    PartsAreValidExactly(batch, h.emitted, flushed, (k: nat) => CreditsShow(init, minDuration, ops, k), flushValid);
  }

  lemma PartsAreValidExactly(batch: seq<LocalActivityEvent>, emitted: seq<LocalActivityEvent>,
                             flushed: seq<LocalActivityEvent>, shows: nat -> bool, flushValid: bool)
    requires forall i :: 0 <= i < |batch| ==> batch[i] in emitted + flushed
    requires forall e :: e in flushed ==> (ValidEvent(Wire(e)) <==> flushValid)
    requires forall k :: 0 <= k < |emitted| ==> (ValidEvent(Wire(emitted[k])) <==> shows(k))
    ensures AllWireValid(batch) <==>
              (forall k :: 0 <= k < |emitted| && emitted[k] in batch ==> shows(k))
              && (flushValid || forall e :: e in flushed ==> e !in batch)
  {
    if (forall k :: 0 <= k < |emitted| && emitted[k] in batch ==> shows(k))
       && (flushValid || forall e :: e in flushed ==> e !in batch) {
      forall i | 0 <= i < |batch|
        ensures ValidEvent(Wire(batch[i]))
      {
        assert batch[i] in emitted || batch[i] in flushed;
        if batch[i] in emitted {
          var k :| 0 <= k < |emitted| && emitted[k] == batch[i];
        }
      }
    }
  }

  // For example: one sample, and a Flush half a second later.
  lemma FlushCanBeRefused(sentAt: int)
    returns (init: AggregatorState, ops: seq<Op>, l: Limits, endedAt: int)
    ensures SaneRun(init, 5 * TICKS_PER_SECOND, ops, l) && EpochOutput(init, 5 * TICKS_PER_SECOND, ops, endedAt) != []
    ensures !AcceptableBatch(Stamp(sentAt, true), WireAll(EpochOutput(init, 5 * TICKS_PER_SECOND, ops, endedAt)))
  {
    var minDuration := 5 * TICKS_PER_SECOND;
    var window := Activity("NEUTRAL", None, None, None, None, None, 1, false, None, None);
    var sample := ActivitySample(0, 0, window, Inputs(0, 0, 0));
    init, l, endedAt := AggregatorState(60 * TICKS_PER_SECOND, None, None, 0), Limits(60 * TICKS_PER_SECOND, 0,
                                                                                      0), 5_000_000;
    ops := [Sample(sample)];
    OneSampleIsSane(init, minDuration, sample, l);
    assert |window.state| == 7 && EffectiveStart(sample) == 0;
    var batch := EpochOutput(init, minDuration, ops, endedAt);
    assert batch == [Close(Begin(sample, 0), endedAt, 0)];
    assert WireAll(batch)[0] == Wire(batch[0]);
    ShortEventIsRefused(batch[0], WireAll(batch), Stamp(sentAt, true));
  }

  lemma OneSampleIsSane(init: AggregatorState, minDuration: int, sample: ActivitySample, l: Limits)
    requires Fresh(init) && init.maxDuration <= l.maxDuration && 0 <= l.gap && TICKS_PER_SECOND <= minDuration
    requires Max(l.maxDuration, l.idle) + l.gap + minDuration <= 864_000_000_000 && 0 <= sample.idleDuration <= l.idle
    requires sample.activity.state in ALLOWED_STATES && forall which: Counter :: sample.inputs.Get(which) >= 0
    ensures SaneRun(init, minDuration, [Sample(sample)], l)
    ensures var h := Run(init, minDuration, [Sample(sample)]);
            h == History(init.(open := Some(Begin(sample, EffectiveStart(sample)))), [])
  {
    OneSample(init, minDuration, sample);
    var ops := [Sample(sample)];
    assert ops[..0] == [] && Paced(ops[..0], l.gap) && LatestCapture(ops[..0]).None?;
  }

  lemma OneSample(init: AggregatorState, minDuration: int, sample: ActivitySample)
    requires Fresh(init)
    ensures var h := Run(init, minDuration, [Sample(sample)]);
            h == History(init.(open := Some(Begin(sample, EffectiveStart(sample)))), [])
  {
    assert [] + [Sample(sample)] == [Sample(sample)];
    RunSnoc(init, minDuration, [], Sample(sample));
  }

  // --- Two epochs in one batch --------------------------------------------------------------------

  ghost predicate UuidsFrom(events: seq<LocalActivityEvent>, from: nat) {
    forall i :: 0 <= i < |events| ==> events[i].eventUuid >= from
  }

  lemma {:induction false} UuidsStartAfresh(init: AggregatorState, minDuration: int, ops: seq<Op>)
    requires Fresh(init)
    ensures var h := Run(init, minDuration, ops);
            UuidsFrom(h.emitted + Listed(h.state.pending), init.nextUuid) && h.state.nextUuid >= init.nextUuid
  {
    if ops != [] {
      UuidsStartAfresh(init, minDuration, ops[..|ops| - 1]);
      var h := Run(init, minDuration, ops[..|ops| - 1]);
      if h.state.pending.Some? {
        assert (h.emitted + Listed(h.state.pending))[|h.emitted|] == h.state.pending.value;
      }
      assert forall i :: 0 <= i < |h.emitted| ==> (h.emitted + Listed(h.state.pending))[i] == h.emitted[i];
    }
  }

  lemma FlushKeepsUuids(h: History, minDuration: int, endedAt: int)
    requires UuidsIncrease(h.emitted + Listed(h.state.pending), h.state.nextUuid)
    ensures var r := FlushStep(h.state, minDuration, endedAt); UuidsIncrease(h.emitted + r.emitted, r.state.nextUuid)
  {
    if h.state.open.Some? {
      var o := h.state.open.value;
      var cut := CutResult(o, Some(Close(o, endedAt, h.state.nextUuid)));
      var r, f := Feed(h.state, minDuration, cut), FlushStep(h.state, minDuration, endedAt);
      FeedKeepsUuids(h, minDuration, cut);
      assert h.emitted + f.emitted == h.emitted + r.emitted + Listed(r.state.pending);
    }
  }

  // The whole output of an epoch has increasing UUIDs below the next epoch's.
  lemma OutputUuids(init: AggregatorState, minDuration: int, ops: seq<Op>, endedAt: int)
    requires Fresh(init)
    ensures var st := Run(init, minDuration, ops).state;
            UuidsIncrease(EpochOutput(init, minDuration, ops, endedAt),
                          FlushStep(st, minDuration, endedAt).state.nextUuid)
  {
    EmittedUuidsAreDistinct(init, minDuration, ops);
    FlushKeepsUuids(Run(init, minDuration, ops), minDuration, endedAt);
  }

  ghost predicate OneSession(ops: seq<Op>, key: SessionKey) {
    forall i :: 0 <= i < |ops| && ops[i].Sample? ==>
      SessionKey(ops[i].sample.activity.windowsSid, Some(ops[i].sample.activity.windowsSessionId)) == key
  }

  lemma OutputSession(init: AggregatorState, minDuration: int, ops: seq<Op>, endedAt: int, key: SessionKey,
                      e: LocalActivityEvent)
    requires Fresh(init) && OneSession(ops, key) && e in EpochOutput(init, minDuration, ops, endedAt)
    ensures Wire(e).session == key
  {
    var good := (a: Activity) => SessionKey(a.windowsSid, Some(a.windowsSessionId)) == key;
    LabelsComeFromSamples(init, minDuration, ops, good);
    var h := Run(init, minDuration, ops);
    if e in h.emitted {
      var i :| 0 <= i < |h.emitted| && h.emitted[i] == e;
    } else {
      FlushedLabel(init, minDuration, ops, endedAt, e, good);
    }
  }

  // Two epochs of one aggregator, the second begun when the first was flushed.
  datatype Epochs = Epochs(
    init: AggregatorState, minDuration: int, first: seq<Op>, endedAt: int, second: seq<Op>)
  {
    function Flushed(): AggregatorState {
      FlushStep(Run(init, minDuration, first).state, minDuration, endedAt).state
    }

    function FirstOutput(): seq<LocalActivityEvent> {
      EpochOutput(init, minDuration, first, endedAt)
    }

    function SecondOutput(): seq<LocalActivityEvent> {
      Run(Flushed(), minDuration, second).emitted
    }
  }

  // Both epochs are sane, belong to one Windows session and hand something out.
  ghost predicate SaneEpochs(p: Epochs, l: Limits, key: SessionKey) {
    && SaneRun(p.init, p.minDuration, p.first, l) && SaneRun(p.Flushed(), p.minDuration, p.second, l)
    && OneSession(p.first, key) && OneSession(p.second, key)
    && p.FirstOutput() != [] && p.SecondOutput() != []
    && |p.FirstOutput()| + |p.SecondOutput()| <= MAX_BATCH
  }

  lemma FirstEpochSpan(p: Epochs, l: Limits, key: SessionKey)
    requires SaneEpochs(p, l, key)
    ensures EpochStart(p.first).Some? && Run(p.init, p.minDuration, p.first).state.open.Some?
    ensures Tiles(p.FirstOutput(), EpochStart(p.first).value,
                  FlushedEnd(Run(p.init, p.minDuration, p.first).state, p.endedAt))
  {
    if EpochStart(p.first).None? {
      NoSamplesNoOutput(p.init, p.minDuration, p.first, l, p.endedAt);
    } else {
      OutputTiles(p.init, p.minDuration, p.first, l, p.endedAt);
    }
  }

  // The end of the last event.
  function EndOf(events: seq<LocalActivityEvent>): int
    requires events != []
  {
    events[|events| - 1].endedAt
  }

  lemma SecondEpochSpan(p: Epochs, l: Limits, key: SessionKey)
    requires SaneEpochs(p, l, key)
    ensures EpochStart(p.second).Some?
    ensures Tiles(p.SecondOutput(), EpochStart(p.second).value, EndOf(p.SecondOutput()))
  {
    var h := Run(p.Flushed(), p.minDuration, p.second);
    SaneIdle(p.Flushed(), p.minDuration, p.second, l);
    EmittedEventsTile(p.Flushed(), p.minDuration, p.second);
    var all := h.emitted + Listed(h.state.pending);
    assert forall i :: 0 <= i < |h.emitted| ==> all[i] == h.emitted[i];
  }

  lemma BothSession(p: Epochs, l: Limits, key: SessionKey, e: LocalActivityEvent)
    requires SaneEpochs(p, l, key) && (e in p.FirstOutput() || e in p.SecondOutput())
    ensures Wire(e).session == key
  {
    if e in p.FirstOutput() {
      OutputSession(p.init, p.minDuration, p.first, p.endedAt, key, e);
    } else {
      OutputSession(p.Flushed(), p.minDuration, p.second, p.endedAt, key, e);
    }
  }

  lemma BothUuids(p: Epochs, l: Limits, key: SessionKey)
    requires SaneEpochs(p, l, key)
    ensures var both := p.FirstOutput() + p.SecondOutput();
            forall i, j :: 0 <= i < j < |both| ==> both[i].eventUuid < both[j].eventUuid
  {
    OutputUuids(p.init, p.minDuration, p.first, p.endedAt);
    UuidsStartAfresh(p.Flushed(), p.minDuration, p.second);
    EmittedUuidsAreDistinct(p.Flushed(), p.minDuration, p.second);
    var h := Run(p.Flushed(), p.minDuration, p.second);
    assert forall i :: 0 <= i < |h.emitted| ==> (h.emitted + Listed(h.state.pending))[i] == h.emitted[i];
  }

  // In one batch the valid events of two epochs are accepted exactly if on the wire one
  // epoch starts no earlier than the other ends. The second may start before the first
  // ends: with an Idle sample that reaches back over the Flush, or one that was captured
  // before it and added after it.
  lemma TwoEpochsAreAcceptedExactly(p: Epochs, l: Limits, key: SessionKey, sentAt: int)
    requires SaneEpochs(p, l, key)
    ensures EpochStart(p.first).Some? && EpochStart(p.second).Some?
    ensures Run(p.init, p.minDuration, p.first).state.open.Some?
    ensures var (a, b) := (EpochStart(p.first).value,
                           FlushedEnd(Run(p.init, p.minDuration, p.first).state, p.endedAt));
            var (c, d) := (EpochStart(p.second).value, EndOf(p.SecondOutput()));
            var both := p.FirstOutput() + p.SecondOutput();
            AcceptableBatch(Stamp(sentAt, true), WireAll(both)) <==>
              AllWireValid(both) && (WireTime(b).at <= WireTime(c).at || WireTime(d).at <= WireTime(a).at)
  {
    var x, y := p.FirstOutput(), p.SecondOutput();
    FirstEpochSpan(p, l, key);
    SecondEpochSpan(p, l, key);
    BothUuids(p, l, key);
    forall e | e in x || e in y
      ensures Wire(e).session == key
    {
      BothSession(p, l, key, e);
    }
    JoinIsAcceptedExactly(x, EpochStart(p.first).value,
                          FlushedEnd(Run(p.init, p.minDuration, p.first).state, p.endedAt),
                          y, EpochStart(p.second).value, EndOf(y), key, Stamp(sentAt, true));
  }

  lemma TilesWithin(events: seq<LocalActivityEvent>, from: int, to: int, i: nat)
    requires Tiles(events, from, to) && i < |events|
    ensures from <= events[i].startedAt && events[i].endedAt <= to
  {
    if i > 0 {
      TilesAreOrdered(events, from, to, 0, i);
    }
    if i < |events| - 1 {
      TilesAreOrdered(events, from, to, i, |events| - 1);
    }
  }

  // Each moment between the ends of a tiling falls into one of its events.
  lemma {:induction false} MomentIsCovered(events: seq<LocalActivityEvent>, from: int, to: int, at: int)
    returns (i: nat)
    requires Tiles(events, from, to) && WireTime(from).at <= at < WireTime(to).at
    ensures i < |events| && WireTime(events[i].startedAt).at <= at < WireTime(events[i].endedAt).at
  {
    var n := |events| - 1;
    if WireTime(events[n].startedAt).at <= at {
      i := n;
    } else {
      i := MomentIsCovered(events[..n], from, events[n].startedAt, at);
    }
  }

  lemma ApartIsDisjoint(x: seq<LocalActivityEvent>, a: int, b: int, y: seq<LocalActivityEvent>, c: int, d: int, i: nat,
                        j: nat)
    requires Tiles(x, a, b) && Tiles(y, c, d) && i < j < |x| + |y|
    requires WireTime(b).at <= WireTime(c).at || WireTime(d).at <= WireTime(a).at
    ensures Disjoint(Wire((x + y)[i]), Wire((x + y)[j]))
  {
    if j < |x| {
      TilesAreOrdered(x, a, b, i, j);
    } else if i >= |x| {
      TilesAreOrdered(y, c, d, i - |x|, j - |x|);
    } else {
      TilesWithin(x, a, b, i);
      TilesWithin(y, c, d, j - |x|);
    }
  }

  lemma {:induction false} ValidTilesLast(events: seq<LocalActivityEvent>, from: int, to: int)
    requires Tiles(events, from, to) && events != [] && AllWireValid(events)
    ensures WireTime(from).at < WireTime(to).at
  {
    assert ValidEvent(Wire(events[0]));
    ValidIntervalExactly(WireTime(events[0].startedAt), WireTime(events[0].endedAt), events[0].activity.state);
    TilesWithin(events, from, to, 0);
  }

  // Two tilings of one session that overlap on the wire share a moment, and so two of
  // their events do.
  lemma SharedMoment(x: seq<LocalActivityEvent>, a: int, b: int, y: seq<LocalActivityEvent>, c: int, d: int)
    returns (i: nat, j: nat)
    requires Tiles(x, a, b) && Tiles(y, c, d) && x != [] && y != [] && AllWireValid(x) && AllWireValid(y)
    requires WireTime(b).at > WireTime(c).at && WireTime(d).at > WireTime(a).at
    ensures i < |x| && j < |y| && !Disjoint(Wire(x[i]), Wire(y[j]))
  {
    var at := Max(WireTime(a).at, WireTime(c).at);
    ValidTilesLast(x, a, b);
    ValidTilesLast(y, c, d);
    i := MomentIsCovered(x, a, b, at);
    j := MomentIsCovered(y, c, d, at);
  }

  lemma ApartIsAccepted(x: seq<LocalActivityEvent>, a: int, b: int, y: seq<LocalActivityEvent>, c: int, d: int,
                        sentAt: Stamp)
    requires Tiles(x, a, b) && Tiles(y, c, d) && 1 <= |x + y| <= MAX_BATCH && sentAt.hasZone && AllWireValid(x + y)
    requires WireTime(b).at <= WireTime(c).at || WireTime(d).at <= WireTime(a).at
    ensures AcceptableBatch(sentAt, WireAll(x + y))
  {
    var wired := WireAll(x + y);
    forall i, j | 0 <= i < j < |wired|
      ensures Disjoint(wired[i], wired[j])
    {
      ApartIsDisjoint(x, a, b, y, c, d, i, j);
    }
  }

  lemma PairIsDisjoint(events: seq<LocalActivityEvent>, i: nat, j: nat, sentAt: Stamp)
    requires i < j < |events| && AcceptableBatch(sentAt, WireAll(events))
    requires forall i, j :: 0 <= i < j < |events| ==> events[i].eventUuid < events[j].eventUuid
    requires Wire(events[i]).session == Wire(events[j]).session
    ensures Disjoint(Wire(events[i]), Wire(events[j]))
  {
    var wired := WireAll(events);
    assert wired[i] == Wire(events[i]) && wired[j] == Wire(events[j]);
    assert IsFirst(wired, i) && IsFirst(wired, j);
  }

  lemma AcceptedAreValid(events: seq<LocalActivityEvent>, sentAt: Stamp)
    requires AcceptableBatch(sentAt, WireAll(events))
    ensures AllWireValid(events)
  {
    assert forall i :: 0 <= i < |events| ==> WireAll(events)[i] == Wire(events[i]);
  }

  lemma JoinIsAcceptedExactly(x: seq<LocalActivityEvent>, a: int, b: int, y: seq<LocalActivityEvent>, c: int, d: int,
                              key: SessionKey, sentAt: Stamp)
    requires Tiles(x, a, b) && Tiles(y, c, d) && x != [] && y != [] && |x| + |y| <= MAX_BATCH && sentAt.hasZone
    requires forall e :: e in x || e in y ==> Wire(e).session == key
    requires var both := x + y; forall i, j :: 0 <= i < j < |both| ==> both[i].eventUuid < both[j].eventUuid
    ensures AcceptableBatch(sentAt, WireAll(x + y)) <==>
              AllWireValid(x + y) && (WireTime(b).at <= WireTime(c).at || WireTime(d).at <= WireTime(a).at)
  {
    if AcceptableBatch(sentAt, WireAll(x + y)) {
      AcceptedAreValid(x + y, sentAt);
      PartsAreWireValid(x, y);
      if WireTime(b).at > WireTime(c).at && WireTime(d).at > WireTime(a).at {
        var i, j := SharedMoment(x, a, b, y, c, d);
        PairIsDisjoint(x + y, i, |x| + j, sentAt);
      }
    } else if AllWireValid(x + y) && (WireTime(b).at <= WireTime(c).at || WireTime(d).at <= WireTime(a).at) {
      ApartIsAccepted(x, a, b, y, c, d, sentAt);
    }
  }

  lemma PartsAreWireValid(x: seq<LocalActivityEvent>, y: seq<LocalActivityEvent>)
    requires AllWireValid(x + y)
    ensures AllWireValid(x) && AllWireValid(y)
  {
    assert forall i :: 0 <= i < |x| ==> (x + y)[i] == x[i];
    assert forall i :: 0 <= i < |y| ==> (x + y)[|x| + i] == y[i];
  }

  // --- Two epochs that are refused together -----------------------------------------------------

  const WINDOW: Activity := Activity("NEUTRAL", None, None, None, None, None, 1, false, None, None)
  const NO_INPUT: Inputs := Inputs(0, 0, 0)
  const SECOND: int := TICKS_PER_SECOND
  const FIRST: ActivitySample := ActivitySample(0, 0, WINDOW, NO_INPUT)

  // A Flush after 20 s, and then a sample whose effective start is 11 s: it has been idle
  // for 10 s already, or it was captured before the Flush and added after it.
  const LONG_IDLE: ActivitySample := ActivitySample(21 * SECOND, 10 * SECOND, WINDOW.(state := IDLE), NO_INPUT)
  const ADDED_LATE: ActivitySample := ActivitySample(11 * SECOND, 0, WINDOW, NO_INPUT)
  const LAST: ActivitySample := ActivitySample(31 * SECOND, 0, WINDOW.(state := "PRODUCTIVE"), NO_INPUT)

  function Overlapping(next: ActivitySample): Epochs {
    Epochs(AggregatorState(60 * SECOND, None, None, 0), 5 * SECOND, [Sample(FIRST)], 20 * SECOND,
           [Sample(next), Sample(LAST)])
  }

  lemma OverlappingOutputs(next: ActivitySample)
    requires next in {LONG_IDLE, ADDED_LATE}
    ensures var p := Overlapping(next);
            && p.Flushed() == AggregatorState(60 * SECOND, None, None, 1)
            && p.FirstOutput() == [Close(Begin(FIRST, 0), 20 * SECOND, 0)]
            && p.SecondOutput() == [Close(Begin(next, 11 * SECOND), 31 * SECOND, 1)]
  {
    var p := Overlapping(next);
    assert |WINDOW.state| == 7 && |LAST.activity.state| == 10 && EffectiveStart(FIRST) == 0;
    assert EffectiveStart(next) == 11 * SECOND;
    OneSample(p.init, p.minDuration, FIRST);
    var flushed := p.Flushed();
    assert flushed == AggregatorState(60 * SECOND, None, None, 1);
    OneSample(flushed, p.minDuration, next);
    RunSnoc(flushed, p.minDuration, [Sample(next)], Sample(LAST));
    assert [Sample(next)] + [Sample(LAST)] == p.second;
    var middle := Run(flushed, p.minDuration, [Sample(next)]);
    var raw := Close(Begin(next, 11 * SECOND), 31 * SECOND, 1);
    assert NextCut(middle.state, LAST) == CutResult(Begin(LAST, 31 * SECOND), Some(raw));
    assert Absorb(None, raw, p.minDuration) == Absorbed(None, [raw]);
  }

  lemma TwoPaced(a: ActivitySample, b: ActivitySample, gap: int)
    requires b.capturedAt <= a.capturedAt + gap
    ensures Paced([Sample(a), Sample(b)], gap)
  {
    assert [Sample(a), Sample(b)][..1] == [Sample(a)] && [Sample(a)][..0] == [];
    assert LatestCapture([]) == None && LatestCapture([Sample(a)]) == Some(a.capturedAt);
    assert Paced([], gap) && Paced([Sample(a)], gap);
  }

  lemma OverlappingAreSane(next: ActivitySample)
    requires next in {LONG_IDLE, ADDED_LATE}
    ensures SaneEpochs(Overlapping(next), Limits(60 * SECOND, 10 * SECOND, 20 * SECOND), SessionKey(None, Some(1)))
  {
    var p, l := Overlapping(next), Limits(60 * SECOND, 10 * SECOND, 20 * SECOND);
    OverlappingOutputs(next);
    OneSampleIsSane(p.init, p.minDuration, FIRST, l);
    TwoPaced(next, LAST, l.gap);
    assert SaneSamples(p.second) && forall i :: 0 <= i < |p.second| ==> WithinLimits(p.second[i], l);
  }

  // Two sane epochs whose events are valid and refused together.
  lemma EpochsCanOverlap(next: ActivitySample, sentAt: Stamp)
    requires next in {LONG_IDLE, ADDED_LATE}
    ensures var p := Overlapping(next);
            && SaneEpochs(p, Limits(60 * SECOND, 10 * SECOND, 20 * SECOND), SessionKey(None, Some(1)))
            && AllWireValid(p.FirstOutput() + p.SecondOutput())
            && !AcceptableBatch(sentAt, WireAll(p.FirstOutput() + p.SecondOutput()))
  {
    OverlappingAreSane(next);
    OverlappingOutputs(next);
    PairIsRefused(Close(Begin(FIRST, 0), 20 * SECOND, 0), Close(Begin(next, 11 * SECOND), 31 * SECOND, 1), sentAt);
  }

  lemma PairIsRefused(x: LocalActivityEvent, y: LocalActivityEvent, sentAt: Stamp)
    requires x.eventUuid != y.eventUuid && Wire(x).session == Wire(y).session && !Disjoint(Wire(x), Wire(y))
    requires forall e :: e in {x, y} ==> TICKS_PER_SECOND <= e.endedAt - e.startedAt <= 864_000_000_000
    requires forall e :: e in {x, y} ==> e.activity.state in ALLOWED_STATES && e.inputs == NO_INPUT
    ensures AllWireValid([x] + [y]) && !AcceptableBatch(sentAt, WireAll([x] + [y]))
  {
    var wired := WireAll([x] + [y]);
    EventIsValidExactly(x);
    EventIsValidExactly(y);
    assert wired[0] == Wire(x) && wired[1] == Wire(y) && IsFirst(wired, 0) && IsFirst(wired, 1);
  }

  // They block the queue for good wherever both go into one batch, though each of them is
  // valid: no attempts whatever move or store anything.
  lemma OverlappingEpochsBlockQueue(next: ActivitySample, link: Link, limit: nat, outcomes: seq<Outcome>)
    requires next in {LONG_IDLE, ADDED_LATE}
    requires var p := Overlapping(next);
             Events(link.queue.rows) == WireAll(p.FirstOutput() + p.SecondOutput())
    requires ValidQueue(link.queue) && UniqueUuids(link.table) && link.accepts == AcceptableBatch && 2 <= limit
    ensures AllValid(link.queue.rows)
    ensures var link' := Attempted(link, limit, outcomes);
            link'.queue == link.queue && StoredUuids(link'.table) == StoredUuids(link.table)
  {
    var p := Overlapping(next);
    var both := p.FirstOutput() + p.SecondOutput();
    EpochsCanOverlap(next, Stamp(0, true));
    OverlappingOutputs(next);
    assert |link.queue.rows| == |Events(link.queue.rows)| == |WireAll(both)| == 2;
    forall i | 0 <= i < |link.queue.rows|
      ensures ValidEvent(link.queue.rows[i].event)
    {
      assert Events(link.queue.rows)[i] == WireAll(both)[i] == Wire(both[i]);
    }
    assert Oldest(link.queue, limit) == link.queue.rows;
    ServerJudges();
    RefusedBatchStays(link, limit, outcomes, AcceptableContent);
  }
}
