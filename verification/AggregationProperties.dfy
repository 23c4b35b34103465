/**
 What the aggregator guarantees over one epoch: any sequence of Add and
 UpdateMaxEventDuration calls from a fresh or just flushed aggregator.
 */
module AggregationProperties {
  import opened Common
  import opened Aggregation

  // --- Runs -----------------------------------------------------------------

  datatype Op = Sample(sample: ActivitySample) | Retune(value: int)

  datatype History = History(state: AggregatorState, emitted: seq<LocalActivityEvent>)

  function Advance(h: History, minDuration: int, op: Op): History {
    match op
    case Retune(value) => h.(state := RetuneStep(h.state, value))
    case Sample(s) =>
      var r := AddStep(h.state, minDuration, s);
      History(r.state, h.emitted + r.emitted)
  }

  function Run(init: AggregatorState, minDuration: int, ops: seq<Op>): History {
    if ops == [] then History(init, [])
    else Advance(Run(init, minDuration, ops[..|ops| - 1]), minDuration, ops[|ops| - 1])
  }

  predicate Fresh(st: AggregatorState) {
    st.open.None? && st.pending.None?
  }

  // The same run with the first stage alone: which raw intervals are cut.
  datatype CutHistory = CutHistory(
    maxDuration: int, open: Option<OpenInterval>, nextUuid: nat, raws: seq<LocalActivityEvent>)

  function Take(c: CutHistory, cut: CutResult): CutHistory {
    CutHistory(c.maxDuration, Some(cut.open), c.nextUuid + |Listed(cut.closed)|, c.raws + Listed(cut.closed))
  }

  function CutStep(c: CutHistory, s: ActivitySample): CutHistory {
    Take(c, NextCut(AggregatorState(c.maxDuration, c.open, None, c.nextUuid), s))
  }

  function CutAdvance(c: CutHistory, op: Op): CutHistory {
    match op
    case Retune(value) =>
      c.(maxDuration := RetuneStep(AggregatorState(c.maxDuration, None, None, 0), value).maxDuration)
    case Sample(s) => CutStep(c, s)
  }

  function CutRun(init: AggregatorState, ops: seq<Op>): CutHistory {
    if ops == [] then CutHistory(init.maxDuration, init.open, init.nextUuid, [])
    else CutAdvance(CutRun(init, ops[..|ops| - 1]), ops[|ops| - 1])
  }

  // --- Coalescing as greedy grouping ------------------------------------------

  function Kept(raws: seq<LocalActivityEvent>): seq<LocalActivityEvent> {
    if raws == [] then []
    else
      var n := |raws| - 1;
      Kept(raws[..n]) + (if Nonempty(raws[n]) then [raws[n]] else [])
  }

  function Span(raws: seq<LocalActivityEvent>): int
    requires raws != []
  {
    raws[|raws| - 1].endedAt - raws[0].startedAt
  }

  function Total(events: seq<LocalActivityEvent>, which: Counter): int {
    if events == [] then 0
    else Total(events[..|events| - 1], which) + events[|events| - 1].inputs.Get(which)
  }

  // One event for a group: from the first start, with the last raw interval's label.
  function Merged(raws: seq<LocalActivityEvent>): LocalActivityEvent
    requires raws != []
  {
    raws[|raws| - 1].(startedAt := raws[0].startedAt, inputs := Inputs(
      Wrap32(Total(raws, Keystrokes)), Wrap32(Total(raws, Clicks)), Wrap32(Total(raws, MouseDistance))))
  }

  function MergeEach(groups: seq<seq<LocalActivityEvent>>): seq<LocalActivityEvent>
    requires forall g :: g in groups ==> g != []
  {
    seq(|groups|, i requires 0 <= i < |groups| => assert groups[i] in groups; Merged(groups[i]))
  }

  function Flatten(groups: seq<seq<LocalActivityEvent>>): seq<LocalActivityEvent> {
    if groups == [] then [] else groups[0] + Flatten(groups[1..])
  }

  ghost predicate AllPrefixesShort(raws: seq<LocalActivityEvent>, upTo: nat, minDuration: int)
    requires upTo <= |raws|
  {
    forall k :: 0 < k <= upTo ==> Span(raws[..k]) < minDuration
  }

  // A group is the shortest prefix of what is left that lasts at least the minimum.
  ghost predicate IsGroup(g: seq<LocalActivityEvent>, minDuration: int) {
    g != [] && Span(g) >= minDuration && AllPrefixesShort(g, |g| - 1, minDuration)
  }

  datatype Grouping = Grouping(groups: seq<seq<LocalActivityEvent>>, rest: seq<LocalActivityEvent>)

  ghost predicate IsGreedy(g: Grouping, raws: seq<LocalActivityEvent>, minDuration: int) {
    && Flatten(g.groups) + g.rest == raws
    && (forall group :: group in g.groups ==> IsGroup(group, minDuration))
    && AllPrefixesShort(g.rest, |g.rest|, minDuration)
  }

  lemma {:induction false} FlattenSnoc(groups: seq<seq<LocalActivityEvent>>, g: seq<LocalActivityEvent>)
    ensures Flatten(groups + [g]) == Flatten(groups) + g
  {
    if groups == [] {
      assert ([] + [g])[1..] == [];
    } else {
      FlattenSnoc(groups[1..], g);
      assert (groups + [g])[1..] == groups[1..] + [g];
    }
  }

  ghost function GroupGreedily(raws: seq<LocalActivityEvent>, minDuration: int): (g: Grouping)
    ensures forall group :: group in g.groups ==> group != []
  {
    if raws == [] then Grouping([], [])
    else
      var n := |raws| - 1;
      var g := GroupGreedily(raws[..n], minDuration);
      var rest := g.rest + [raws[n]];
      if Span(rest) >= minDuration then Grouping(g.groups + [rest], []) else Grouping(g.groups, rest)
  }

  lemma {:induction false} GroupGreedilyIsGreedy(raws: seq<LocalActivityEvent>, minDuration: int)
    ensures IsGreedy(GroupGreedily(raws, minDuration), raws, minDuration)
  {
    if raws != [] {
      var n := |raws| - 1;
      GroupGreedilyIsGreedy(raws[..n], minDuration);
      var g := GroupGreedily(raws[..n], minDuration);
      var rest := g.rest + [raws[n]];
      assert Flatten(g.groups) + rest == raws;
      assert rest[..|g.rest|] == g.rest && rest[..|rest|] == rest;
      assert forall k :: 0 < k <= |g.rest| ==> rest[..k] == g.rest[..k];
      if Span(rest) >= minDuration {
        FlattenSnoc(g.groups, rest);
      }
    }
  }

  lemma FirstGroupIsPrefix(g: Grouping, raws: seq<LocalActivityEvent>, minDuration: int)
    requires IsGreedy(g, raws, minDuration) && g.groups != []
    ensures IsGroup(g.groups[0], minDuration)
    ensures |g.groups[0]| <= |raws| && raws[..|g.groups[0]|] == g.groups[0]
    ensures IsGreedy(Grouping(g.groups[1..], g.rest), raws[|g.groups[0]|..], minDuration)
  {
    assert g.groups[0] in g.groups;
    assert raws == g.groups[0] + (Flatten(g.groups[1..]) + g.rest);
  }

  lemma PrefixIsNotShort(g: Grouping, raws: seq<LocalActivityEvent>, minDuration: int)
    requires IsGreedy(g, raws, minDuration) && g.groups != []
    ensures !IsGreedy(Grouping([], raws), raws, minDuration)
  {
    FirstGroupIsPrefix(g, raws, minDuration);
  }

  // The greedy grouping of a sequence is unique, so it is the function "coalesce".
  lemma {:induction false} GreedyGroupingIsUnique(a: Grouping, b: Grouping, raws: seq<LocalActivityEvent>,
                                                  minDuration: int)
    requires IsGreedy(a, raws, minDuration) && IsGreedy(b, raws, minDuration)
    ensures a == b
    decreases |a.groups|
  {
    assert Flatten([]) + a.rest == a.rest && Flatten([]) + b.rest == b.rest;
    if a.groups == [] {
      if b.groups != [] {
        PrefixIsNotShort(b, raws, minDuration);
      }
    } else if b.groups == [] {
      PrefixIsNotShort(a, raws, minDuration);
    } else {
      var ga, gb := a.groups[0], b.groups[0];
      FirstGroupIsPrefix(a, raws, minDuration);
      FirstGroupIsPrefix(b, raws, minDuration);
      assert |ga| <= |gb| ==> gb[..|ga|] == ga;
      assert |gb| <= |ga| ==> ga[..|gb|] == gb;
      GreedyGroupingIsUnique(Grouping(a.groups[1..], a.rest), Grouping(b.groups[1..], b.rest), raws[|ga|..],
                             minDuration);
      assert a.groups == [ga] + a.groups[1..] && b.groups == [gb] + b.groups[1..];
    }
  }

  ghost function PendingOf(rest: seq<LocalActivityEvent>): Option<LocalActivityEvent> {
    if rest == [] then None else Some(Merged(rest))
  }

  lemma {:induction false} WrapAbsorbs(a: int, b: int)
    ensures Wrap32(a + Wrap32(b)) == Wrap32(a + b)
    decreases if b < 0 then -b else b + 1
  {
    if b > INT_MAX {
      WrapAbsorbs(a, b - 0x1_0000_0000);
      assert Wrap32(a + b) == Wrap32(a + b - 0x1_0000_0000);
    } else if b < -INT_MAX - 1 {
      WrapAbsorbs(a, b + 0x1_0000_0000);
      assert Wrap32(a + b) == Wrap32(a + b + 0x1_0000_0000);
    }
  }

  lemma GlueIsMerge(rest: seq<LocalActivityEvent>, raw: LocalActivityEvent)
    ensures Glue(PendingOf(rest), raw) == Merged(rest + [raw])
  {
    var all := rest + [raw];
    assert all[..|all| - 1] == rest;
    if rest == [] {
      assert all == [raw];
      forall w: Counter ensures Total(all, w) == raw.inputs.Get(w) {
        assert Total([], w) == 0;
      }
    } else {
      forall w: Counter ensures Total(all, w) == Total(rest, w) + raw.inputs.Get(w) {}
      WrapAbsorbs(raw.inputs.keystrokes, Total(rest, Keystrokes));
      WrapAbsorbs(raw.inputs.clicks, Total(rest, Clicks));
      WrapAbsorbs(raw.inputs.mouseDistance, Total(rest, MouseDistance));
    }
  }

  lemma MergeEachSnoc(groups: seq<seq<LocalActivityEvent>>, g: seq<LocalActivityEvent>)
    requires forall x :: x in groups ==> x != []
    requires g != []
    ensures MergeEach(groups + [g]) == MergeEach(groups) + [Merged(g)]
  {
  }

  ghost predicate Refines(h: History, c: CutHistory, minDuration: int) {
    var g := GroupGreedily(Kept(c.raws), minDuration);
    && h.state == AggregatorState(c.maxDuration, c.open, PendingOf(g.rest), c.nextUuid)
    && h.emitted == MergeEach(g.groups)
  }

  // Absorbing one more raw interval extends the grouping by that interval.
  lemma AbsorbExtendsGrouping(raws: seq<LocalActivityEvent>, raw: LocalActivityEvent, minDuration: int)
    ensures var g := GroupGreedily(Kept(raws), minDuration);
            var g' := GroupGreedily(Kept(raws + [raw]), minDuration);
            var step := Absorb(PendingOf(g.rest), raw, minDuration);
            step.pending == PendingOf(g'.rest) && MergeEach(g'.groups) == MergeEach(g.groups) + step.emitted
  {
    var kept := Kept(raws);
    assert (raws + [raw])[..|raws|] == raws;
    var g := GroupGreedily(kept, minDuration);
    if Nonempty(raw) {
      assert Kept(raws + [raw]) == kept + [raw];
      assert (kept + [raw])[..|kept|] == kept;
      GlueIsMerge(g.rest, raw);
      var rest := g.rest + [raw];
      if Span(rest) >= minDuration {
        MergeEachSnoc(g.groups, rest);
      }
    } else {
      assert Kept(raws + [raw]) == kept;
    }
  }

  lemma FeedNothingRefines(h: History, c: CutHistory, minDuration: int, cut: CutResult)
    requires Refines(h, c, minDuration) && cut.closed.None?
    ensures Refines(History(h.state.(open := Some(cut.open)), h.emitted), Take(c, cut), minDuration)
  {
    assert Take(c, cut).raws == c.raws;
  }

  lemma FeedRawRefines(h: History, c: CutHistory, minDuration: int, cut: CutResult)
    requires Refines(h, c, minDuration) && cut.closed.Some?
    ensures var r := Feed(h.state, minDuration, cut);
            Refines(History(r.state, h.emitted + r.emitted), Take(c, cut), minDuration)
  {
    assert Take(c, cut).raws == c.raws + [cut.closed.value];
    AbsorbExtendsGrouping(c.raws, cut.closed.value, minDuration);
  }

  lemma FeedRefines(h: History, c: CutHistory, minDuration: int, cut: CutResult)
    requires Refines(h, c, minDuration)
    ensures var r := Feed(h.state, minDuration, cut);
            Refines(History(r.state, h.emitted + r.emitted), Take(c, cut), minDuration)
  {
    if cut.closed.Some? {
      FeedRawRefines(h, c, minDuration, cut);
    } else {
      FeedNothingRefines(h, c, minDuration, cut);
      assert h.emitted + [] == h.emitted;
    }
  }

  // The interleaved class computes: cut everything, drop the empty intervals,
  // group greedily, merge each group; what is pending is the merged rest.
  lemma {:induction false} CoalescingRefinement(init: AggregatorState, minDuration: int, ops: seq<Op>)
    requires Fresh(init)
    ensures Refines(Run(init, minDuration, ops), CutRun(init, ops), minDuration)
  {
    if ops != [] {
      var ops' := ops[..|ops| - 1];
      CoalescingRefinement(init, minDuration, ops');
      if ops[|ops| - 1].Sample? {
        var h, s := Run(init, minDuration, ops'), ops[|ops| - 1].sample;
        FeedRefines(h, CutRun(init, ops'), minDuration, NextCut(h.state, s));
      }
    }
  }

  // A merged group lasts at least the minimum and carries the label of its last raw
  // interval; the intervals glued in front of that one are shorter than the minimum.
  lemma MergedGroupShape(g: seq<LocalActivityEvent>, minDuration: int)
    requires IsGroup(g, minDuration)
    ensures var e, last := Merged(g), g[|g| - 1];
            && e.activity == last.activity && e.eventUuid == last.eventUuid
            && e.startedAt == g[0].startedAt && e.endedAt == last.endedAt
            && e.endedAt - e.startedAt >= minDuration
            && (|g| > 1 ==> g[|g| - 2].endedAt - e.startedAt < minDuration)
  {
    assert |g| > 1 ==> Span(g[..|g| - 1]) < minDuration;
  }

  // What Add emits are such merged groups of the raw intervals, in order.
  lemma EmittedEventsAreGroups(init: AggregatorState, minDuration: int, ops: seq<Op>, i: nat)
    requires Fresh(init) && i < |Run(init, minDuration, ops).emitted|
    ensures var groups := GroupGreedily(Kept(CutRun(init, ops).raws), minDuration).groups;
            i < |groups| && IsGroup(groups[i], minDuration)
              && Run(init, minDuration, ops).emitted[i] == Merged(groups[i])
  {
    CoalescingRefinement(init, minDuration, ops);
    GroupGreedilyIsGreedy(Kept(CutRun(init, ops).raws), minDuration);
    var groups := GroupGreedily(Kept(CutRun(init, ops).raws), minDuration).groups;
    assert groups[i] in groups;
  }

  // Flush adds the open interval to the grouping and hands out the rest, if any.
  lemma FlushRefines(init: AggregatorState, minDuration: int, ops: seq<Op>, endedAt: int)
    requires Fresh(init) && Run(init, minDuration, ops).state.open.Some?
    ensures var h := Run(init, minDuration, ops);
            var final := Close(h.state.open.value, endedAt, h.state.nextUuid);
            var g := GroupGreedily(Kept(CutRun(init, ops).raws + [final]), minDuration);
            h.emitted + FlushStep(h.state, minDuration, endedAt).emitted == MergeEach(g.groups)
              + Listed(PendingOf(g.rest))
  {
    CoalescingRefinement(init, minDuration, ops);
    var h := Run(init, minDuration, ops);
    FlushOne(h, CutRun(init, ops), minDuration, Close(h.state.open.value, endedAt, h.state.nextUuid));
  }

  lemma ConcatIsAssociative<T>(a: seq<T>, b: seq<T>, c: seq<T>)
    ensures a + (b + c) == a + b + c
  {
  }

  lemma FlushOne(h: History, c: CutHistory, minDuration: int, final: LocalActivityEvent)
    requires Refines(h, c, minDuration)
    ensures var last := Absorb(h.state.pending, final, minDuration);
            var g := GroupGreedily(Kept(c.raws + [final]), minDuration);
            h.emitted + (last.emitted + Listed(last.pending)) == MergeEach(g.groups) + Listed(PendingOf(g.rest))
  {
    var last := Absorb(h.state.pending, final, minDuration);
    AbsorbExtendsGrouping(c.raws, final, minDuration);
    ConcatIsAssociative(h.emitted, last.emitted, Listed(last.pending));
  }

  // --- When a sample cuts -----------------------------------------------------------

  predicate SameText(a: Option<string>, b: Option<string>) {
    if a.None? || b.None? then a.None? && b.None?
    else SameUpToCase(a.value, b.value)
  }

  // The state and the path agree exactly, process name and domain up to letter case.
  predicate ShowsSame(a: Activity, b: Activity) {
    && a.state == b.state && SameText(a.processName, b.processName) && SameText(a.urlDomain, b.urlDomain)
    && a.urlPath == b.urlPath
  }

  lemma SameLetterExactly(c: char, d: char)
    ensures UpperChar(c) == UpperChar(d) <==> SameLetter(c, d)
  {
  }

  lemma SameTextExactly(a: Option<string>, b: Option<string>)
    ensures EqualIgnoringCase(a, b) <==> SameText(a, b)
  {
    if a.Some? && b.Some? && |a.value| == |b.value| {
      forall i | 0 <= i < |a.value|
        ensures UpperChar(a.value[i]) == UpperChar(b.value[i]) <==> SameLetter(a.value[i], b.value[i])
      {
        SameLetterExactly(a.value[i], b.value[i]);
      }
    }
  }

  lemma SameActivityExactly(a: Activity, b: Activity)
    ensures SameActivity(a, b) <==> ShowsSame(a, b)
  {
    SameTextExactly(a.processName, b.processName);
    SameTextExactly(a.urlDomain, b.urlDomain);
  }

  predicate TurnsIdle(o: OpenInterval, s: ActivitySample) {
    s.activity.state == "IDLE" && o.sample.activity.state != "IDLE"
  }

  // Which samples close the open interval, and where: a turn to idle, at the moment the
  // idleness began; another activity; or the same one, once it has lasted the maximum.
  lemma CutExactly(st: AggregatorState, s: ActivitySample)
    requires st.open.Some?
    ensures var o, cut := st.open.value, NextCut(st, s);
            && (cut.closed.None? <==>
                  s.capturedAt < o.lastCapturedAt
                  || (!TurnsIdle(o, s) && ShowsSame(o.sample.activity, s.activity)
                      && s.capturedAt - o.startedAt < st.maxDuration))
            && (cut.closed.Some? ==>
                  && cut.closed.value.startedAt == o.startedAt && cut.closed.value.activity == o.sample.activity
                  && cut.closed.value.endedAt
                     == (if TurnsIdle(o, s) then Max(o.startedAt, s.capturedAt - s.idleDuration) else s.capturedAt)
                  && cut.open == OpenInterval(s, cut.closed.value.endedAt, s.capturedAt, s.inputs))
            && (cut.closed.None? ==>
                  cut.open.sample == o.sample && cut.open.startedAt == o.startedAt
                  && cut.open.lastCapturedAt == Max(o.lastCapturedAt, s.capturedAt))
  {
    SameActivityExactly(st.open.value.sample.activity, s.activity);
  }

  // The same over a run: a timely sample that shows the same four fields and comes before
  // the maximum is the only one that completes no interval.
  lemma UncutExactly(init: AggregatorState, minDuration: int, ops: seq<Op>, s: ActivitySample)
    requires Fresh(init)
    ensures var st := Run(init, minDuration, ops).state;
            Run(init, minDuration, ops + [Sample(s)]).state.nextUuid == st.nextUuid <==>
              (st.open.Some? ==>
                 s.capturedAt < st.open.value.lastCapturedAt
                 || (!TurnsIdle(st.open.value, s) && ShowsSame(st.open.value.sample.activity, s.activity)
                     && s.capturedAt - st.open.value.startedAt < st.maxDuration))
  {
    RunSnoc(init, minDuration, ops, Sample(s));
    if Run(init, minDuration, ops).state.open.Some? {
      CutExactly(Run(init, minDuration, ops).state, s);
    }
  }

  // --- Tiling -----------------------------------------------------------------

  // The effective start of the first sample of the epoch.
  function EpochStart(ops: seq<Op>): Option<int> {
    if ops == [] then None
    else
      var earlier := EpochStart(ops[..|ops| - 1]);
      if earlier.None? && ops[|ops| - 1].Sample? then Some(EffectiveStart(ops[|ops| - 1].sample)) else earlier
  }

  function LatestCapture(ops: seq<Op>): Option<int> {
    if ops == [] then None
    else
      var earlier := LatestCapture(ops[..|ops| - 1]);
      match ops[|ops| - 1]
      case Retune(_) => earlier
      case Sample(s) => if earlier.None? then Some(s.capturedAt) else Some(Max(earlier.value, s.capturedAt))
  }

  ghost predicate IdleNonnegative(ops: seq<Op>) {
    forall i :: 0 <= i < |ops| && ops[i].Sample? ==> ops[i].sample.idleDuration >= 0
  }

  // Non-empty events that meet end to start and cover exactly [from, to).
  ghost predicate Tiles(events: seq<LocalActivityEvent>, from: int, to: int) {
    && (forall i :: 0 <= i < |events| ==> Nonempty(events[i]))
    && (forall i :: 0 <= i < |events| - 1 ==> events[i].endedAt == events[i + 1].startedAt)
    && (if events == [] then from == to else events[0].startedAt == from && events[|events| - 1].endedAt == to)
  }

  ghost predicate Tiled(h: History, ops: seq<Op>) {
    && (h.state.open.Some? <==> EpochStart(ops).Some?)
    && (h.state.open.Some? <==> LatestCapture(ops).Some?)
    && (h.state.open.None? ==> h.emitted == [] && h.state.pending.None?)
    && (h.state.open.Some? ==>
          var o := h.state.open.value;
          && o.startedAt <= o.lastCapturedAt == LatestCapture(ops).value
          && Tiles(h.emitted + Listed(h.state.pending), EpochStart(ops).value, o.startedAt))
  }

  lemma AbsorbTiles(emitted: seq<LocalActivityEvent>, pending: Option<LocalActivityEvent>, raw: LocalActivityEvent,
                    minDuration: int, from: int)
    requires Tiles(emitted + Listed(pending), from, raw.startedAt)
    ensures var step := Absorb(pending, raw, minDuration);
            Tiles(emitted + step.emitted + Listed(step.pending), from, Max(raw.startedAt, raw.endedAt))
  {
    var step := Absorb(pending, raw, minDuration);
    var before, after := emitted + Listed(pending), emitted + step.emitted + Listed(step.pending);
    if Nonempty(raw) {
      assert after == emitted + [Glue(pending, raw)];
      if pending.Some? {
        assert before[|emitted|] == pending.value;
      }
      assert forall i :: 0 <= i < |emitted| ==> before[i] == after[i];
    } else {
      assert after == before;
    }
  }

  // Emitted events, then the pending one, then the open interval are contiguous
  // from the first sample's effective start, whatever the sequence of calls.
  lemma {:induction false} EmittedEventsTile(init: AggregatorState, minDuration: int, ops: seq<Op>)
    requires Fresh(init) && IdleNonnegative(ops)
    ensures Tiled(Run(init, minDuration, ops), ops)
  {
    if ops != [] {
      var ops' := ops[..|ops| - 1];
      EmittedEventsTile(init, minDuration, ops');
      if ops[|ops| - 1].Sample? {
        AddTiles(Run(init, minDuration, ops'), minDuration, ops', ops[|ops| - 1].sample);
        assert ops == ops' + [Sample(ops[|ops| - 1].sample)];
      }
    }
  }

  lemma AddTiles(h: History, minDuration: int, ops: seq<Op>, s: ActivitySample)
    requires Tiled(h, ops) && s.idleDuration >= 0
    ensures var r := AddStep(h.state, minDuration, s);
            Tiled(History(r.state, h.emitted + r.emitted), ops + [Sample(s)])
  {
    assert (ops + [Sample(s)])[..|ops|] == ops;
    var cut := NextCut(h.state, s);
    if h.state.open.Some? {
      CutMeets(h.state.open.value, h.state.maxDuration, s, h.state.nextUuid);
    }
    FeedTiles(h, minDuration, cut, EpochStart(ops + [Sample(s)]).value);
  }

  // A cut closes the open interval where the next one starts.
  lemma CutMeets(o: OpenInterval, maxDuration: int, s: ActivitySample, uuid: nat)
    requires o.startedAt <= o.lastCapturedAt && s.idleDuration >= 0
    ensures var cut := Cut(o, maxDuration, s, uuid);
            && cut.open.startedAt <= cut.open.lastCapturedAt == Max(o.lastCapturedAt, s.capturedAt)
            && (if cut.closed.None? then cut.open.startedAt == o.startedAt
                else cut.closed.value.startedAt == o.startedAt <= cut.closed.value.endedAt == cut.open.startedAt)
  {
  }

  lemma FeedTiles(h: History, minDuration: int, cut: CutResult, from: int)
    requires h.state.open.None? ==>
               h.emitted == [] && h.state.pending.None? && cut.closed.None? && cut.open.startedAt == from
    requires h.state.open.Some? ==> Tiles(h.emitted + Listed(h.state.pending), from, h.state.open.value.startedAt)
    requires h.state.open.Some? && cut.closed.None? ==> cut.open.startedAt == h.state.open.value.startedAt
    requires h.state.open.Some? && cut.closed.Some? ==>
               cut.closed.value.startedAt == h.state.open.value.startedAt <= cut.closed.value.endedAt
                 == cut.open.startedAt
    ensures var r := Feed(h.state, minDuration, cut);
            Tiles(h.emitted + r.emitted + Listed(r.state.pending), from, cut.open.startedAt)
  {
    if cut.closed.Some? {
      AbsorbTiles(h.emitted, h.state.pending, cut.closed.value, minDuration, from);
    } else {
      assert h.emitted + [] == h.emitted;
    }
  }

  // Flushing closes the epoch: what was emitted tiles the whole of it, and Flush
  // hands out at most one event, the only one that may be shorter than the minimum.
  lemma FlushCompletesTiling(init: AggregatorState, minDuration: int, ops: seq<Op>, endedAt: int)
    requires Fresh(init) && IdleNonnegative(ops) && EpochStart(ops).Some?
    ensures var h := Run(init, minDuration, ops);
            var f := FlushStep(h.state, minDuration, endedAt);
            && h.state.open.Some?
            && Tiles(h.emitted + f.emitted, EpochStart(ops).value, Max(h.state.open.value.startedAt, endedAt))
            && |f.emitted| <= 1
            && Fresh(f.state)
  {
    EmittedEventsTile(init, minDuration, ops);
    var h := Run(init, minDuration, ops);
    var raw := Close(h.state.open.value, endedAt, h.state.nextUuid);
    AbsorbTiles(h.emitted, h.state.pending, raw, minDuration, EpochStart(ops).value);
    var g := Absorb(h.state.pending, raw, minDuration);
    assert h.emitted + (g.emitted + Listed(g.pending)) == h.emitted + g.emitted + Listed(g.pending);
  }

  // Emitted events, pending event and open interval meet, wherever the latter starts.
  ghost predicate Contiguous(h: History, ops: seq<Op>) {
    && (h.state.open.Some? <==> EpochStart(ops).Some?)
    && (h.state.open.None? ==> h.emitted == [] && h.state.pending.None?)
    && (h.state.open.Some? ==>
          Tiles(h.emitted + Listed(h.state.pending), EpochStart(ops).value, h.state.open.value.startedAt))
  }

  // The sample closes, by another activity or a rollover, an interval that starts after it.
  predicate ClosesBackward(st: AggregatorState, s: ActivitySample) {
    st.open.Some? &&
    (var o := st.open.value;
     && o.lastCapturedAt <= s.capturedAt < o.startedAt
     && !(s.activity.state == IDLE && o.sample.activity.state != IDLE)
     && (!ShowsSame(o.sample.activity, s.activity) || s.capturedAt - o.startedAt >= st.maxDuration))
  }

  lemma CutGoesBackExactly(o: OpenInterval, maxDuration: int, s: ActivitySample, uuid: nat)
    ensures var cut, st := Cut(o, maxDuration, s, uuid), AggregatorState(maxDuration, Some(o), None, uuid);
            if cut.closed.None? then cut.open.startedAt == o.startedAt && !ClosesBackward(st, s)
            else
              && cut.closed.value.startedAt == o.startedAt && cut.open.startedAt == cut.closed.value.endedAt
              && (cut.closed.value.endedAt < o.startedAt <==> ClosesBackward(st, s))
  {
    SameActivityExactly(o.sample.activity, s.activity);
  }

  lemma StepIsContiguousExactly(h: History, h': History, minDuration: int, ops: seq<Op>, s: ActivitySample,
                                cut: CutResult)
    requires Contiguous(h, ops) && cut == NextCut(h.state, s)
    requires var r := Feed(h.state, minDuration, cut); h' == History(r.state, h.emitted + r.emitted)
    ensures Contiguous(h', ops + [Sample(s)]) <==> !ClosesBackward(h.state, s)
  {
    assert (ops + [Sample(s)])[..|ops|] == ops;
    if h.state.open.None? {
      assert h'.emitted == [];
    } else {
      CutGoesBackExactly(h.state.open.value, h.state.maxDuration, s, h.state.nextUuid);
      if cut.closed.None? {
        assert h'.emitted == h.emitted;
      } else {
        AbsorbTiles(h.emitted, h.state.pending, cut.closed.value, minDuration, EpochStart(ops).value);
      }
    }
  }

  ghost predicate ContiguousAt(init: AggregatorState, minDuration: int, ops: seq<Op>, k: nat)
    requires k <= |ops|
  {
    Contiguous(Run(init, minDuration, ops[..k]), ops[..k])
  }

  ghost predicate ClosesBackwardAt(init: AggregatorState, minDuration: int, ops: seq<Op>, k: nat)
    requires k < |ops|
  {
    ops[k].Sample? && ClosesBackward(Run(init, minDuration, ops[..k]).state, ops[k].sample)
  }

  lemma NextIsContiguousExactly(init: AggregatorState, minDuration: int, ops: seq<Op>, k: nat)
    requires k < |ops| && ContiguousAt(init, minDuration, ops, k)
    ensures ContiguousAt(init, minDuration, ops, k + 1) <==> !ClosesBackwardAt(init, minDuration, ops, k)
  {
    assert ops[..k + 1] == ops[..k] + [ops[k]] && ops[..k + 1][..k] == ops[..k];
    var h := Run(init, minDuration, ops[..k]);
    if ops[k].Sample? {
      StepIsContiguousExactly(h, Run(init, minDuration, ops[..k + 1]), minDuration, ops[..k], ops[k].sample,
                              NextCut(h.state, ops[k].sample));
    }
  }

  lemma {:induction false} ForwardIsContiguous(init: AggregatorState, minDuration: int, ops: seq<Op>, k: nat)
    requires Fresh(init) && k <= |ops| && forall j :: 0 <= j < |ops| ==> !ClosesBackwardAt(init, minDuration, ops, j)
    ensures ContiguousAt(init, minDuration, ops, k)
  {
    if k > 0 {
      ForwardIsContiguous(init, minDuration, ops, k - 1);
      NextIsContiguousExactly(init, minDuration, ops, k - 1);
    }
  }

  // Whatever the idle durations, an epoch is contiguous throughout exactly if no sample
  // closes an interval that starts after it.
  lemma TilesExactly(init: AggregatorState, minDuration: int, ops: seq<Op>)
    requires Fresh(init)
    ensures (forall k :: 0 <= k <= |ops| ==> ContiguousAt(init, minDuration, ops, k)) <==>
              forall k :: 0 <= k < |ops| ==> !ClosesBackwardAt(init, minDuration, ops, k)
  {
    if forall k :: 0 <= k < |ops| ==> !ClosesBackwardAt(init, minDuration, ops, k) {
      forall k | 0 <= k <= |ops|
        ensures ContiguousAt(init, minDuration, ops, k)
      {
        ForwardIsContiguous(init, minDuration, ops, k);
      }
    }
    if forall k :: 0 <= k <= |ops| ==> ContiguousAt(init, minDuration, ops, k) {
      forall k | 0 <= k < |ops|
        ensures !ClosesBackwardAt(init, minDuration, ops, k)
      {
        assert ContiguousAt(init, minDuration, ops, k) && ContiguousAt(init, minDuration, ops, k + 1);
        NextIsContiguousExactly(init, minDuration, ops, k);
      }
    }
  }

  // Idle durations the agent measures are not negative, and then no sample does.
  lemma IdleTimeGoesForward(init: AggregatorState, minDuration: int, ops: seq<Op>, k: nat)
    requires Fresh(init) && IdleNonnegative(ops) && k < |ops|
    ensures !ClosesBackwardAt(init, minDuration, ops, k)
  {
    assert IdleNonnegative(ops[..k]);
    EmittedEventsTile(init, minDuration, ops[..k]);
  }

  // With a negative idle duration an interval can start after the sample that opened
  // it: here [0, 110) is emitted and the next interval opens at 20.
  lemma NegativeIdleBreaksTiling()
    ensures exists init, minDuration, ops ::
              && Fresh(init) && EpochStart(ops).Some? && Run(init, minDuration, ops).state.open.Some?
              && var h := Run(init, minDuration, ops);
                 !Tiles(h.emitted + Listed(h.state.pending), EpochStart(ops).value, h.state.open.value.startedAt)
  {
    var window := Activity("NEUTRAL", None, None, None, None, None, 1, false, None, None);
    var none := Inputs(0, 0, 0);
    var init := AggregatorState(600, None, None, 0);
    var a := ActivitySample(0, 0, window, none);
    var b := ActivitySample(10, -100, window.(state := IDLE), none);
    var c := ActivitySample(20, 0, window, none);
    var ops1, ops2, ops3 := [Sample(a)], [Sample(a), Sample(b)], [Sample(a), Sample(b), Sample(c)];
    assert ops1[..0] == [] && ops2[..1] == ops1 && ops3[..2] == ops2;
    assert EpochStart([]) == None && Run(init, 5, []) == History(init, []);
    var h1, h2, h3 := Run(init, 5, ops1), Run(init, 5, ops2), Run(init, 5, ops3);
    assert |window.state| == 7 && EffectiveStart(a) == 0 && EffectiveStart(b) == 110;
    assert h1 == History(AggregatorState(600, Some(Begin(a, 0)), None, 0), []);
    var first := Close(Begin(a, 0), 110, 0);
    assert NextCut(h1.state, b) == CutResult(Begin(b, 110), Some(first));
    assert Absorb(None, first, 5) == Absorbed(None, [first]);
    assert h2 == History(AggregatorState(600, Some(Begin(b, 110)), None, 1), [first]);
    var second := Close(Begin(b, 110), 20, 1);
    assert NextCut(h2.state, c) == CutResult(Begin(c, 20), Some(second));
    assert h3 == History(AggregatorState(600, Some(Begin(c, 20)), None, 2), [first]);
    assert EpochStart(ops1) == EpochStart(ops2) == EpochStart(ops3) == Some(0);
    assert !Tiles(h3.emitted + Listed(h3.state.pending), 0, 20);
  }

  // --- Lengths and identifiers --------------------------------------------------

  datatype Limits = Limits(maxDuration: int, idle: int, gap: int)

  ghost predicate WithinLimits(op: Op, l: Limits) {
    match op
    case Sample(s) => 0 <= s.idleDuration <= l.idle
    case Retune(value) => 5 * TICKS_PER_SECOND <= value <= 300 * TICKS_PER_SECOND ==> value <= l.maxDuration
  }

  // No sample comes more than `gap` after the latest capture before it.
  ghost predicate Paced(ops: seq<Op>, gap: int) {
    ops == [] ||
    (var ops' := ops[..|ops| - 1];
     && Paced(ops', gap)
     && (ops[|ops| - 1].Sample? && LatestCapture(ops').Some? ==>
           ops[|ops| - 1].sample.capturedAt <= LatestCapture(ops').value + gap))
  }

  ghost predicate UuidsIncrease(events: seq<LocalActivityEvent>, below: nat) {
    && (forall i, j :: 0 <= i < j < |events| ==> events[i].eventUuid < events[j].eventUuid)
    && (forall i :: 0 <= i < |events| ==> events[i].eventUuid < below)
  }

  ghost predicate LengthsBounded(h: History, minDuration: int, l: Limits) {
    && h.state.maxDuration <= l.maxDuration
    && (forall i :: 0 <= i < |h.emitted| ==>
          minDuration <= h.emitted[i].endedAt - h.emitted[i].startedAt <= Max(l.maxDuration, l.idle) + l.gap
            + Max(0, minDuration))
    && (h.state.pending.Some? ==> h.state.pending.value.endedAt - h.state.pending.value.startedAt < minDuration)
    && (h.state.open.Some? ==>
          h.state.open.value.lastCapturedAt - h.state.open.value.startedAt <= Max(l.maxDuration, l.idle))
  }

  // Every event from Add lasts at least the minimum and at most one open interval,
  // one sampling gap and one pending event together.
  lemma {:induction false} EmittedLengthsAreBounded(init: AggregatorState, minDuration: int, ops: seq<Op>, l: Limits)
    requires Fresh(init) && init.maxDuration <= l.maxDuration && 0 <= l.gap
    requires forall i :: 0 <= i < |ops| ==> WithinLimits(ops[i], l)
    requires Paced(ops, l.gap)
    ensures LengthsBounded(Run(init, minDuration, ops), minDuration, l)
  {
    if ops != [] {
      var ops' := ops[..|ops| - 1];
      assert WithinLimits(ops[|ops| - 1], l);
      assert forall i :: 0 <= i < |ops'| ==> ops'[i] == ops[i];
      EmittedLengthsAreBounded(init, minDuration, ops', l);
      assert IdleNonnegative(ops') by {
        forall i | 0 <= i < |ops'| && ops'[i].Sample? ensures ops'[i].sample.idleDuration >= 0 {
          assert WithinLimits(ops[i], l);
        }
      }
      EmittedEventsTile(init, minDuration, ops');
      if ops[|ops| - 1].Sample? {
        AddBoundsLengths(Run(init, minDuration, ops'), minDuration, ops', ops[|ops| - 1].sample, l);
      }
    }
  }

  lemma CutBoundsLength(o: OpenInterval, maxDuration: int, s: ActivitySample, uuid: nat, l: Limits)
    requires maxDuration <= l.maxDuration && 0 <= s.idleDuration <= l.idle
    requires o.startedAt <= o.lastCapturedAt && s.capturedAt <= o.lastCapturedAt + l.gap
    requires o.lastCapturedAt - o.startedAt <= Max(l.maxDuration, l.idle) && 0 <= l.gap
    ensures var cut := Cut(o, maxDuration, s, uuid);
            && cut.open.lastCapturedAt - cut.open.startedAt <= Max(l.maxDuration, l.idle)
            && (cut.closed.Some? ==>
                  cut.closed.value.endedAt - cut.closed.value.startedAt <= Max(l.maxDuration, l.idle) + l.gap)
  {
  }

  lemma AddBoundsLengths(h: History, minDuration: int, ops: seq<Op>, s: ActivitySample, l: Limits)
    requires LengthsBounded(h, minDuration, l) && Tiled(h, ops)
    requires 0 <= s.idleDuration <= l.idle && 0 <= l.gap
    requires LatestCapture(ops).Some? ==> s.capturedAt <= LatestCapture(ops).value + l.gap
    ensures var r := AddStep(h.state, minDuration, s);
            LengthsBounded(History(r.state, h.emitted + r.emitted), minDuration, l)
  {
    var cut := NextCut(h.state, s);
    if h.state.open.Some? {
      CutBoundsLength(h.state.open.value, h.state.maxDuration, s, h.state.nextUuid, l);
      CutMeets(h.state.open.value, h.state.maxDuration, s, h.state.nextUuid);
      var before := h.emitted + Listed(h.state.pending);
      if h.state.pending.Some? {
        assert before[|before| - 1] == h.state.pending.value;
      }
    }
    FeedBoundsLength(h, minDuration, cut, l);
  }

  lemma FeedBoundsLength(h: History, minDuration: int, cut: CutResult, l: Limits)
    requires LengthsBounded(h, minDuration, l)
    requires cut.open.lastCapturedAt - cut.open.startedAt <= Max(l.maxDuration, l.idle)
    requires cut.closed.Some? ==>
               cut.closed.value.endedAt - cut.closed.value.startedAt <= Max(l.maxDuration, l.idle) + l.gap
    requires cut.closed.Some? && h.state.pending.Some? ==> h.state.pending.value.endedAt == cut.closed.value.startedAt
    ensures var r := Feed(h.state, minDuration, cut);
            LengthsBounded(History(r.state, h.emitted + r.emitted), minDuration, l)
  {
  }

  // Event identifiers never repeat within an epoch.
  lemma {:induction false} EmittedUuidsAreDistinct(init: AggregatorState, minDuration: int, ops: seq<Op>)
    requires Fresh(init)
    ensures var h := Run(init, minDuration, ops);
            UuidsIncrease(h.emitted + Listed(h.state.pending), h.state.nextUuid)
  {
    if ops != [] {
      var ops' := ops[..|ops| - 1];
      EmittedUuidsAreDistinct(init, minDuration, ops');
      var h := Run(init, minDuration, ops');
      if ops[|ops| - 1].Sample? {
        FeedKeepsUuids(h, minDuration, NextCut(h.state, ops[|ops| - 1].sample));
      }
    }
  }

  lemma FeedKeepsUuids(h: History, minDuration: int, cut: CutResult)
    requires UuidsIncrease(h.emitted + Listed(h.state.pending), h.state.nextUuid)
    requires cut.closed.Some? ==> cut.closed.value.eventUuid == h.state.nextUuid
    ensures var r := Feed(h.state, minDuration, cut);
            UuidsIncrease(h.emitted + r.emitted + Listed(r.state.pending), r.state.nextUuid)
  {
    var r := Feed(h.state, minDuration, cut);
    var before, after := h.emitted + Listed(h.state.pending), h.emitted + r.emitted + Listed(r.state.pending);
    if cut.closed.Some? && Nonempty(cut.closed.value) {
      assert before[..|h.emitted|] == h.emitted;
      assert after == before[..|h.emitted|] + [Glue(h.state.pending, cut.closed.value)];
    } else {
      assert after == before;
    }
  }

  // --- Whose activity an interval shows ---------------------------------------------

  // The latest sample of the epoch that did not come late.
  function LatestSample(ops: seq<Op>): Option<ActivitySample> {
    if ops == [] then None
    else
      var earlier := LatestSample(ops[..|ops| - 1]);
      match ops[|ops| - 1]
      case Retune(_) => earlier
      case Sample(s) => if earlier.Some? && s.capturedAt < earlier.value.capturedAt then earlier else Some(s)
  }

  // The open interval always shows the activity of the latest accepted sample, so the
  // interval a sample closes carries the activity seen just before that sample.
  lemma {:induction false} IntervalsShowSampledActivity(init: AggregatorState, ops: seq<Op>)
    requires Fresh(init)
    ensures CutRun(init, ops).open.Some? <==> LatestSample(ops).Some?
    ensures LatestSample(ops).Some? ==>
              var o := CutRun(init, ops).open.value;
              ShowsSame(o.sample.activity, LatestSample(ops).value.activity)
                && o.lastCapturedAt == LatestSample(ops).value.capturedAt
    ensures ops != [] ==>
              var before, after := CutRun(init, ops[..|ops| - 1]).raws, CutRun(init, ops).raws;
              before <= after
              && forall i :: |before| <= i < |after| ==>
                   LatestSample(ops[..|ops| - 1]).Some?
                   && ShowsSame(after[i].activity, LatestSample(ops[..|ops| - 1]).value.activity)
  {
    if ops != [] {
      IntervalsShowSampledActivity(init, ops[..|ops| - 1]);
      var c, op := CutRun(init, ops[..|ops| - 1]), ops[|ops| - 1];
      if op.Sample? {
        SameActivityExactly(op.sample.activity, op.sample.activity);
        if c.open.Some? {
          SameActivityExactly(c.open.value.sample.activity, op.sample.activity);
        }
      }
    }
  }

  lemma {:induction false} LatestSampleIsRemembered(init: AggregatorState, minDuration: int, ops: seq<Op>)
    requires Fresh(init)
    ensures var open := Run(init, minDuration, ops).state.open;
            && (open.Some? <==> LatestSample(ops).Some?)
            && (open.Some? ==> open.value.lastCapturedAt == LatestSample(ops).value.capturedAt)
  {
    if ops != [] {
      LatestSampleIsRemembered(init, minDuration, ops[..|ops| - 1]);
    }
  }

  predicate ComesLate(ops: seq<Op>, s: ActivitySample) {
    LatestSample(ops).Some? && s.capturedAt < LatestSample(ops).value.capturedAt
  }

  // The calls without the samples captured before one that came earlier.
  function WithoutLate(ops: seq<Op>): seq<Op> {
    if ops == [] then []
    else
      var ops', op := ops[..|ops| - 1], ops[|ops| - 1];
      if op.Sample? && ComesLate(ops', op.sample) then WithoutLate(ops') else WithoutLate(ops') + [op]
  }

  lemma LateSampleIsIgnored(h: History, minDuration: int, s: ActivitySample)
    requires h.state.open.Some? && s.capturedAt < h.state.open.value.lastCapturedAt
    ensures Advance(h, minDuration, Sample(s)) == h
  {
    assert h.emitted + [] == h.emitted;
  }

  lemma RunSnoc(init: AggregatorState, minDuration: int, ops: seq<Op>, op: Op)
    ensures Run(init, minDuration, ops + [op]) == Advance(Run(init, minDuration, ops), minDuration, op)
  {
    assert (ops + [op])[..|ops|] == ops;
  }

  // Late samples change neither the state nor what is emitted, then or later.
  lemma {:induction false} LateSamplesChangeNothing(init: AggregatorState, minDuration: int, ops: seq<Op>)
    requires Fresh(init)
    ensures Run(init, minDuration, WithoutLate(ops)) == Run(init, minDuration, ops)
  {
    if ops != [] {
      var ops', op := ops[..|ops| - 1], ops[|ops| - 1];
      LateSamplesChangeNothing(init, minDuration, ops');
      if op.Sample? && ComesLate(ops', op.sample) {
        LatestSampleIsRemembered(init, minDuration, ops');
        LateSampleIsIgnored(Run(init, minDuration, ops'), minDuration, op.sample);
      } else {
        RunSnoc(init, minDuration, WithoutLate(ops'), op);
      }
    }
  }

  // --- What every event carries ---------------------------------------------------

  // Whatever holds of every sample's label holds of every event's.
  lemma {:induction false} LabelsComeFromSamples(init: AggregatorState, minDuration: int, ops: seq<Op>,
                                                 good: Activity -> bool)
    requires Fresh(init)
    requires forall i :: 0 <= i < |ops| && ops[i].Sample? ==> good(ops[i].sample.activity)
    ensures var h := Run(init, minDuration, ops);
            && (forall i :: 0 <= i < |h.emitted| ==> good(h.emitted[i].activity))
            && (h.state.pending.Some? ==> good(h.state.pending.value.activity))
            && (h.state.open.Some? ==> good(h.state.open.value.sample.activity))
  {
    if ops != [] {
      LabelsComeFromSamples(init, minDuration, ops[..|ops| - 1], good);
    }
  }
}
