/**
 The agent's activity aggregator: window samples are cut into raw intervals and
 intervals shorter than a minimum are glued onto the next one. Times are in ticks
 of 100 ns, counters are the agent's wrapping 32-bit integers.
 */
module Aggregation {
  import opened Common

  const TICKS_PER_SECOND: int := 10_000_000
  const INT_MAX: int := 0x7FFF_FFFF
  type int32 = n: int | -0x8000_0000 <= n <= 0x7FFF_FFFF
  const IDLE: string := "IDLE"

  // --- Records ------------------------------------------------------------

  datatype Activity = Activity(
    state: string, processName: Option<string>, appName: Option<string>, windowTitle: Option<string>,
    urlDomain: Option<string>, urlPath: Option<string>, windowsSessionId: int, isRemote: bool,
    windowsSid: Option<string>, windowsUsername: Option<string>)

  datatype Counter = Keystrokes | Clicks | MouseDistance

  datatype Inputs = Inputs(keystrokes: int32, clicks: int32, mouseDistance: int32) {
    function Get(which: Counter): int32 {
      match which
      case Keystrokes => keystrokes
      case Clicks => clicks
      case MouseDistance => mouseDistance
    }
  }

  datatype ActivitySample = ActivitySample(capturedAt: int, idleDuration: int, activity: Activity, inputs: Inputs)

  datatype LocalActivityEvent = LocalActivityEvent(
    eventUuid: nat, startedAt: int, endedAt: int, activity: Activity, inputs: Inputs)

  // --- Arithmetic and comparison as the agent performs them -----------------

  // C# `int` addition is unchecked: it wraps before Math.Min ever sees it.
  function Wrap32(n: int): int32
    decreases if n < 0 then -n else n + 1
  {
    if n > INT_MAX then Wrap32(n - 0x1_0000_0000)
    else if n < -INT_MAX - 1 then Wrap32(n + 0x1_0000_0000)
    else n
  }

  function ClampedSum(a: int32, b: int32): int32 {
    Min(INT_MAX, Wrap32(a + b))
  }

  function Plus(a: Inputs, b: Inputs): Inputs {
    Inputs(ClampedSum(a.keystrokes, b.keystrokes), ClampedSum(a.clicks, b.clicks),
           ClampedSum(a.mouseDistance, b.mouseDistance))
  }

  function Positive(a: Inputs): Inputs {
    Inputs(Max(0, a.keystrokes), Max(0, a.clicks), Max(0, a.mouseDistance))
  }

  predicate EqualIgnoringCase(a: Option<string>, b: Option<string>) {
    match (a, b)
    case (Some(x), Some(y)) => |x| == |y| && forall i :: 0 <= i < |x| ==> UpperChar(x[i]) == UpperChar(y[i])
    case (_, _) => a == b
  }

  predicate SameActivity(left: Activity, right: Activity) {
    && left.state == right.state
    && EqualIgnoringCase(left.processName, right.processName)
    && EqualIgnoringCase(left.urlDomain, right.urlDomain)
    && left.urlPath == right.urlPath
  }

  function EffectiveStart(s: ActivitySample): int {
    if s.activity.state == IDLE then s.capturedAt - s.idleDuration else s.capturedAt
  }

  // --- First stage: cutting samples into raw intervals ----------------------

  datatype OpenInterval = OpenInterval(sample: ActivitySample, startedAt: int, lastCapturedAt: int, inputs: Inputs)

  function Begin(s: ActivitySample, startedAt: int): OpenInterval {
    OpenInterval(s, startedAt, s.capturedAt, s.inputs)
  }

  function Close(o: OpenInterval, endedAt: int, uuid: nat): LocalActivityEvent {
    LocalActivityEvent(uuid, o.startedAt, endedAt, o.sample.activity, o.inputs)
  }

  datatype CutResult = CutResult(open: OpenInterval, closed: Option<LocalActivityEvent>)

  function Cut(o: OpenInterval, maxDuration: int, s: ActivitySample, uuid: nat): CutResult {
    if s.capturedAt < o.lastCapturedAt then
      CutResult(o, None)
    else if s.activity.state == IDLE && o.sample.activity.state != IDLE then
      var idleStart := Max(o.startedAt, EffectiveStart(s));
      CutResult(Begin(s, idleStart), Some(Close(o, idleStart, uuid)))
    else if !SameActivity(o.sample.activity, s.activity) then
      CutResult(Begin(s, s.capturedAt), Some(Close(o, s.capturedAt, uuid)))
    else
      var o' := o.(lastCapturedAt := s.capturedAt, inputs := Plus(o.inputs, Positive(s.inputs)));
      if s.capturedAt - o.startedAt >= maxDuration then
        CutResult(Begin(s, s.capturedAt), Some(Close(o', s.capturedAt, uuid)))
      else
        CutResult(o', None)
  }

  // --- Second stage: gluing short intervals ---------------------------------

  predicate Nonempty(e: LocalActivityEvent) {
    e.startedAt < e.endedAt
  }

  function Glue(pending: Option<LocalActivityEvent>, item: LocalActivityEvent): LocalActivityEvent {
    if pending.None? then item
    else item.(startedAt := pending.value.startedAt, inputs := Plus(item.inputs, pending.value.inputs))
  }

  function Listed(e: Option<LocalActivityEvent>): seq<LocalActivityEvent> {
    if e.None? then [] else [e.value]
  }

  datatype Absorbed = Absorbed(pending: Option<LocalActivityEvent>, emitted: seq<LocalActivityEvent>)

  function Absorb(pending: Option<LocalActivityEvent>, raw: LocalActivityEvent, minDuration: int): Absorbed {
    if !Nonempty(raw) then Absorbed(pending, [])
    else
      var item := Glue(pending, raw);
      if item.endedAt - item.startedAt < minDuration then Absorbed(Some(item), []) else Absorbed(None, [item])
  }

  // --- The whole machine ----------------------------------------------------

  datatype AggregatorState = AggregatorState(
    maxDuration: int, open: Option<OpenInterval>, pending: Option<LocalActivityEvent>, nextUuid: nat)

  datatype StepResult = StepResult(state: AggregatorState, emitted: seq<LocalActivityEvent>)

  // Install what a cut left open and pass what it closed to the second stage.
  function Feed(st: AggregatorState, minDuration: int, cut: CutResult): StepResult {
    match cut.closed
    case None => StepResult(st.(open := Some(cut.open)), [])
    case Some(raw) =>
      var glued := Absorb(st.pending, raw, minDuration);
      StepResult(AggregatorState(st.maxDuration, Some(cut.open), glued.pending, st.nextUuid + 1), glued.emitted)
  }

  function NextCut(st: AggregatorState, s: ActivitySample): CutResult {
    if st.open.None? then CutResult(Begin(s, EffectiveStart(s)), None)
    else Cut(st.open.value, st.maxDuration, s, st.nextUuid)
  }

  function AddStep(st: AggregatorState, minDuration: int, s: ActivitySample): StepResult {
    Feed(st, minDuration, NextCut(st, s))
  }

  function RetuneStep(st: AggregatorState, value: int): AggregatorState {
    if 5 * TICKS_PER_SECOND <= value <= 300 * TICKS_PER_SECOND then st.(maxDuration := value) else st
  }

  function FlushStep(st: AggregatorState, minDuration: int, endedAt: int): StepResult {
    match st.open
    case None => StepResult(st.(pending := None), Listed(st.pending))
    case Some(o) =>
      var raw := Close(o, endedAt, st.nextUuid);
      var glued := Absorb(st.pending, raw, minDuration);
      StepResult(AggregatorState(st.maxDuration, None, None, st.nextUuid + 1), glued.emitted + Listed(glued.pending))
  }

  /** The agent's class. Guid.NewGuid() is a counter that never repeats. */
  class ActivityAggregator {
    const minimumEventDuration: int
    var maxEventDuration: int
    var current: Option<ActivitySample>
    var pendingShort: Option<LocalActivityEvent>
    var startedAt: int
    var lastCapturedAt: int
    var keystrokes: int32
    var clicks: int32
    var mouseDistance: int32
    var nextUuid: nat

    ghost function State(): AggregatorState
      reads this
    {
      AggregatorState(
        maxEventDuration,
        if current.None? then None
        else Some(OpenInterval(current.value, startedAt, lastCapturedAt, Inputs(keystrokes, clicks, mouseDistance))),
        pendingShort, nextUuid)
    }

    constructor (maxDuration: Option<int>, minDuration: Option<int>)
      ensures State().maxDuration == if maxDuration.Some? then maxDuration.value else 600_000_000
      ensures State().open == None && State().pending == None && State().nextUuid == 0
      ensures minimumEventDuration == if minDuration.Some? then minDuration.value else 50_000_000
    {
      maxEventDuration := if maxDuration.Some? then maxDuration.value else 60 * TICKS_PER_SECOND;
      minimumEventDuration := if minDuration.Some? then minDuration.value else 5 * TICKS_PER_SECOND;
      current, pendingShort, nextUuid := None, None, 0;
      startedAt, lastCapturedAt, keystrokes, clicks, mouseDistance := 0, 0, 0, 0, 0;
    }

    method Add(sample: ActivitySample) returns (completed: seq<LocalActivityEvent>)
      modifies this
      ensures State() == AddStep(old(State()), minimumEventDuration, sample).state
      ensures completed == AddStep(old(State()), minimumEventDuration, sample).emitted
    {
      completed := [];
      var effectiveStart :=
        if sample.activity.state == IDLE then sample.capturedAt - sample.idleDuration else sample.capturedAt;
      if current.None? {
        Start(sample, effectiveStart);
        return;
      }
      if sample.capturedAt < lastCapturedAt {
        return;
      }
      if sample.activity.state == IDLE && current.value.activity.state != IDLE {
        var idleStart := Max(startedAt, effectiveStart);
        var item := Complete(idleStart);
        completed := AddCompleted(completed, item);
        Start(sample, idleStart);
        return;
      }
      if !SameActivity(current.value.activity, sample.activity) {
        var item := Complete(sample.capturedAt);
        completed := AddCompleted(completed, item);
        Start(sample, sample.capturedAt);
        return;
      }
      lastCapturedAt := sample.capturedAt;
      AddInput(sample);
      if sample.capturedAt - startedAt >= maxEventDuration {
        var item := Complete(sample.capturedAt);
        completed := AddCompleted(completed, item);
        Start(sample, sample.capturedAt);
      }
    }

    method UpdateMaxEventDuration(value: int)
      modifies this
      ensures State() == RetuneStep(old(State()), value)
      ensures maxEventDuration == if 50_000_000 <= value <= 3_000_000_000 then value else old(maxEventDuration)
    {
      if value >= 5 * TICKS_PER_SECOND && value <= 300 * TICKS_PER_SECOND {
        maxEventDuration := value;
      }
    }

    method Flush(endedAt: int) returns (result: seq<LocalActivityEvent>)
      modifies this
      ensures State() == FlushStep(old(State()), minimumEventDuration, endedAt).state
      ensures result == FlushStep(old(State()), minimumEventDuration, endedAt).emitted
      ensures current.None? && pendingShort.None?
    {
      result := [];
      if current.Some? {
        var item := Complete(endedAt);
        result := AddCompleted(result, item);
      }
      current := None;
      if pendingShort.Some? {
        result := result + [pendingShort.value];
        pendingShort := None;
      }
    }

    method Start(sample: ActivitySample, at: int)
      modifies this
      ensures State() == old(State()).(open := Some(Begin(sample, at)))
    {
      current, startedAt, lastCapturedAt := Some(sample), at, sample.capturedAt;
      keystrokes, clicks, mouseDistance := sample.inputs.keystrokes, sample.inputs.clicks, sample.inputs.mouseDistance;
    }

    method Complete(endedAt: int) returns (item: LocalActivityEvent)
      requires current.Some?
      modifies this`nextUuid
      ensures nextUuid == old(nextUuid) + 1
      ensures item == Close(State().open.value, endedAt, old(nextUuid))
    {
      item := LocalActivityEvent(nextUuid, startedAt, endedAt, current.value.activity,
                                 Inputs(keystrokes, clicks, mouseDistance));
      nextUuid := nextUuid + 1;
    }

    method AddInput(sample: ActivitySample)
      modifies this`keystrokes, this`clicks, this`mouseDistance
      ensures Inputs(keystrokes, clicks, mouseDistance)
           == Plus(old(Inputs(keystrokes, clicks, mouseDistance)), Positive(sample.inputs))
    {
      keystrokes := Min(INT_MAX, Wrap32(keystrokes + Max(0, sample.inputs.keystrokes)));
      clicks := Min(INT_MAX, Wrap32(clicks + Max(0, sample.inputs.clicks)));
      mouseDistance := Min(INT_MAX, Wrap32(mouseDistance + Max(0, sample.inputs.mouseDistance)));
    }

    method AddCompleted(target: seq<LocalActivityEvent>, raw: LocalActivityEvent)
      returns (extended: seq<LocalActivityEvent>)
      modifies this`pendingShort
      ensures pendingShort == Absorb(old(pendingShort), raw, minimumEventDuration).pending
      ensures extended == target + Absorb(old(pendingShort), raw, minimumEventDuration).emitted
    {
      extended := target;
      if raw.endedAt <= raw.startedAt {
        return;
      }
      var item := raw;
      if pendingShort.Some? {
        var p := pendingShort.value;
        item := raw.(startedAt := p.startedAt, inputs := Inputs(
          Min(INT_MAX, Wrap32(raw.inputs.keystrokes + p.inputs.keystrokes)),
          Min(INT_MAX, Wrap32(raw.inputs.clicks + p.inputs.clicks)),
          Min(INT_MAX, Wrap32(raw.inputs.mouseDistance + p.inputs.mouseDistance))));
        pendingShort := None;
      }
      if item.endedAt - item.startedAt < minimumEventDuration {
        pendingShort := Some(item);
      } else {
        extended := target + [item];
      }
    }
  }
}
