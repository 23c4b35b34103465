/**
 Where the counted inputs of an epoch go: a ledger of all counters together, and an
 account of every single event.
 */
module InputAccounting {
  import opened Common
  import opened Aggregation
  import opened AggregationProperties

  // --- What is credited --------------------------------------------------------------

  predicate IsLate(st: AggregatorState, s: ActivitySample) {
    st.open.Some? && s.capturedAt < st.open.value.lastCapturedAt
  }

  // The sample closes an interval of the same activity that has become long enough.
  predicate RollsOver(st: AggregatorState, s: ActivitySample) {
    && st.open.Some? && !IsLate(st, s)
    && !(s.activity.state == IDLE && st.open.value.sample.activity.state != IDLE)
    && ShowsSame(st.open.value.sample.activity, s.activity)
    && s.capturedAt - st.open.value.startedAt >= st.maxDuration
  }

  // An accepted sample is credited once, a sample that rolls over twice.
  function Credit(st: AggregatorState, s: ActivitySample, which: Counter): int {
    if IsLate(st, s) then 0
    else if RollsOver(st, s) then 2 * s.inputs.Get(which)
    else s.inputs.Get(which)
  }

  function CreditOf(st: AggregatorState, op: Op, which: Counter): int {
    match op
    case Retune(_) => 0
    case Sample(s) => Credit(st, s, which)
  }

  function Credited(init: AggregatorState, minDuration: int, ops: seq<Op>, which: Counter): int {
    if ops == [] then 0
    else
      var ops' := ops[..|ops| - 1];
      Credited(init, minDuration, ops', which) + CreditOf(Run(init, minDuration, ops').state, ops[|ops| - 1], which)
  }

  ghost predicate InputsNonnegative(ops: seq<Op>, which: Counter) {
    forall i :: 0 <= i < |ops| && ops[i].Sample? ==> ops[i].sample.inputs.Get(which) >= 0
  }

  lemma PlusGet(a: Inputs, b: Inputs, which: Counter)
    ensures Plus(a, b).Get(which) == ClampedSum(a.Get(which), b.Get(which))
    ensures Positive(b).Get(which) == Max(0, b.Get(which))
  {
  }

  // Math.Min(int.MaxValue, a + b) never saturates: the sum is kept exactly when it
  // fits, and otherwise comes out negative.
  lemma ClampNeverSaturates(a: int32, b: int32)
    requires 0 <= a && 0 <= b
    ensures ClampedSum(a, b) == a + b <==> a + b <= INT_MAX
    ensures ClampedSum(a, b) < 0 <==> a + b > INT_MAX
  {
    assert a + b > INT_MAX ==> Wrap32(a + b) == Wrap32(a + b - 0x1_0000_0000);
  }

  // --- What each event is credited ---------------------------------------------------

  // The same bookkeeping with unbounded numbers, event by event.
  datatype Account = Account(open: int, pending: int, emitted: seq<int>, discarded: int) {
    function Sum(): int {
      open + pending + SumOf(emitted) + discarded
    }
  }

  function SumOf(amounts: seq<int>): int {
    if amounts == [] then 0 else SumOf(amounts[..|amounts| - 1]) + amounts[|amounts| - 1]
  }

  // `amount` was credited to the raw interval that the glue stage gets.
  function Bill(a: Account, pending: Option<LocalActivityEvent>, raw: LocalActivityEvent, minDuration: int,
                amount: int): Account
  {
    if !Nonempty(raw) then a.(discarded := a.discarded + amount)
    else if Absorb(pending, raw, minDuration).pending.Some? then a.(pending := a.pending + amount)
    else a.(pending := 0, emitted := a.emitted + [a.pending + amount])
  }

  // What the closed interval is credited: what was open, and the sample on a rollover.
  function ClosingAmount(a: Account, st: AggregatorState, s: ActivitySample, which: Counter): int {
    a.open + if RollsOver(st, s) then s.inputs.Get(which) else 0
  }

  function AccountStep(a: Account, st: AggregatorState, minDuration: int, s: ActivitySample, which: Counter): Account {
    var mine := s.inputs.Get(which);
    var cut := NextCut(st, s);
    if IsLate(st, s) then a
    else if cut.closed.None? then a.(open := a.open + mine)
    else
      Bill(a, st.pending, cut.closed.value, minDuration, ClosingAmount(a, st, s, which)).(open := mine)
  }

  function Accounts(init: AggregatorState, minDuration: int, ops: seq<Op>, which: Counter): Account {
    if ops == [] then Account(0, 0, [], 0)
    else
      var ops' := ops[..|ops| - 1];
      var a := Accounts(init, minDuration, ops', which);
      match ops[|ops| - 1]
      case Retune(_) => a
      case Sample(s) => AccountStep(a, Run(init, minDuration, ops').state, minDuration, s, which)
  }

  // Each counter is its account in 32 bits.
  ghost predicate Accounted(h: History, a: Account, which: Counter) {
    && a.open >= 0 && a.pending >= 0 && a.discarded >= 0 && (forall i :: 0 <= i < |a.emitted| ==> a.emitted[i] >= 0)
    && (if h.state.open.None? then a.open == 0 else h.state.open.value.inputs.Get(which) == Wrap32(a.open))
    && (if h.state.pending.None? then a.pending == 0 else h.state.pending.value.inputs.Get(which) == Wrap32(a.pending))
    && |h.emitted| == |a.emitted|
    && (forall i :: 0 <= i < |h.emitted| ==> h.emitted[i].inputs.Get(which) == Wrap32(a.emitted[i]))
  }

  lemma WrapOfWraps(x: int32, y: int32, a: int, b: int)
    requires x == Wrap32(a) && y == Wrap32(b)
    ensures ClampedSum(x, y) == Wrap32(a + b)
  {
    WrapAbsorbs(x, b);
    WrapAbsorbs(b, a);
  }

  lemma WrapExactly(n: int)
    requires n >= 0
    ensures Wrap32(n) == n <==> n <= INT_MAX
  {
  }

  // A cut closes the open account, with the sample's own inputs on a rollover.
  lemma CutIsAccounted(st: AggregatorState, s: ActivitySample, open: int, which: Counter)
    requires st.open.Some? && st.open.value.inputs.Get(which) == Wrap32(open) && s.inputs.Get(which) >= 0
             && !IsLate(st, s)
    ensures var cut, mine := NextCut(st, s), s.inputs.Get(which);
            if cut.closed.None? then cut.open.inputs.Get(which) == Wrap32(open + mine)
            else
              && cut.open.inputs.Get(which) == Wrap32(mine)
              && cut.closed.value.inputs.Get(which) == Wrap32(open + if RollsOver(st, s) then mine else 0)
  {
    SameActivityExactly(st.open.value.sample.activity, s.activity);
    PlusGet(st.open.value.inputs, Positive(s.inputs), which);
    PlusGet(s.inputs, s.inputs, which);
    WrapOfWraps(st.open.value.inputs.Get(which), s.inputs.Get(which), open, s.inputs.Get(which));
  }

  lemma AbsorbIsAccounted(pending: Option<LocalActivityEvent>, raw: LocalActivityEvent, minDuration: int, owed: int,
                          amount: int,
                          which: Counter)
    requires raw.inputs.Get(which) == Wrap32(amount) && Nonempty(raw)
    requires if pending.None? then owed == 0 else pending.value.inputs.Get(which) == Wrap32(owed)
    ensures Glue(pending, raw).inputs.Get(which) == Wrap32(owed + amount)
  {
    if pending.Some? {
      PlusGet(raw.inputs, pending.value.inputs, which);
      WrapOfWraps(raw.inputs.Get(which), pending.value.inputs.Get(which), amount, owed);
    }
  }

  lemma FeedIsAccounted(h: History, a: Account, minDuration: int, cut: CutResult, amount: int, open: int,
                        which: Counter)
    requires Accounted(h, a, which) && amount >= 0 && open >= 0 && cut.closed.Some?
    requires cut.closed.value.inputs.Get(which) == Wrap32(amount) && cut.open.inputs.Get(which) == Wrap32(open)
    ensures var r := Feed(h.state, minDuration, cut);
            Accounted(History(r.state, h.emitted + r.emitted),
                      Bill(a, h.state.pending, cut.closed.value, minDuration, amount).(open := open), which)
  {
    if Nonempty(cut.closed.value) {
      AbsorbIsAccounted(h.state.pending, cut.closed.value, minDuration, a.pending, amount, which);
    }
  }

  lemma KeepsAccounted(h: History, h': History, a: Account, a': Account, o: OpenInterval, which: Counter)
    requires Accounted(h, a, which) && a' == a.(open := a'.open) && a'.open >= 0
    requires h'.emitted == h.emitted && h'.state.pending == h.state.pending && h'.state.open == Some(o)
    requires o.inputs.Get(which) == Wrap32(a'.open)
    ensures Accounted(h', a', which)
  {
  }

  lemma UnclosedIsAccounted(h: History, a: Account, minDuration: int, s: ActivitySample, which: Counter)
    requires Accounted(h, a, which) && s.inputs.Get(which) >= 0 && NextCut(h.state, s).closed.None?
    ensures var a' := AccountStep(a, h.state, minDuration, s, which);
            a' == a.(open := a'.open) && a'.open >= 0 && NextCut(h.state, s).open.inputs.Get(which) == Wrap32(a'.open)
  {
    if h.state.open.Some? && !IsLate(h.state, s) {
      CutIsAccounted(h.state, s, a.open, which);
    }
  }

  lemma ClosedIsAccounted(h: History, a: Account, minDuration: int, s: ActivitySample, which: Counter)
    requires Accounted(h, a, which) && s.inputs.Get(which) >= 0 && NextCut(h.state, s).closed.Some?
    ensures var cut, amount := NextCut(h.state, s), ClosingAmount(a, h.state, s, which);
            && amount >= 0 && cut.closed.value.inputs.Get(which) == Wrap32(amount)
            && cut.open.inputs.Get(which) == Wrap32(s.inputs.Get(which))
            && AccountStep(a, h.state, minDuration, s, which)
               == Bill(a, h.state.pending, cut.closed.value, minDuration, amount).(open := s.inputs.Get(which))
  {
    CutIsAccounted(h.state, s, a.open, which);
  }

  lemma AddIsAccounted(h: History, h': History, a: Account, minDuration: int, s: ActivitySample, cut: CutResult,
                       which: Counter)
    requires Accounted(h, a, which) && s.inputs.Get(which) >= 0 && cut == NextCut(h.state, s)
    requires var r := Feed(h.state, minDuration, cut); h' == History(r.state, h.emitted + r.emitted)
    ensures Accounted(h', AccountStep(a, h.state, minDuration, s, which), which)
  {
    if cut.closed.None? {
      assert h.emitted + [] == h.emitted;
      UnclosedIsAccounted(h, a, minDuration, s, which);
      KeepsAccounted(h, h', a, AccountStep(a, h.state, minDuration, s, which), cut.open, which);
    } else {
      ClosedIsAccounted(h, a, minDuration, s, which);
      FeedIsAccounted(h, a, minDuration, cut, ClosingAmount(a, h.state, s, which), s.inputs.Get(which), which);
    }
  }

  // Every emitted event's counter is, in 32 bits, what was credited to that very event.
  lemma {:induction false} EventCountersExactly(init: AggregatorState, minDuration: int, ops: seq<Op>, which: Counter)
    requires Fresh(init) && InputsNonnegative(ops, which)
    ensures Accounted(Run(init, minDuration, ops), Accounts(init, minDuration, ops, which), which)
  {
    if ops != [] {
      var ops' := ops[..|ops| - 1];
      EventCountersExactly(init, minDuration, ops', which);
      if ops[|ops| - 1].Sample? {
        var h, sample := Run(init, minDuration, ops'), ops[|ops| - 1].sample;
        AddIsAccounted(h, Run(init, minDuration, ops), Accounts(init, minDuration, ops', which), minDuration, sample,
                       NextCut(h.state, sample), which);
      }
    }
  }

  // So the counter is right exactly if that credit fits.
  lemma EventCounterIsRightExactly(init: AggregatorState, minDuration: int, ops: seq<Op>, which: Counter, i: nat)
    requires Fresh(init) && InputsNonnegative(ops, which) && i < |Run(init, minDuration, ops).emitted|
    ensures |Accounts(init, minDuration, ops, which).emitted| == |Run(init, minDuration, ops).emitted|
    ensures var credit := Accounts(init, minDuration, ops, which).emitted[i];
            Run(init, minDuration, ops).emitted[i].inputs.Get(which) == credit <==> credit <= INT_MAX
  {
    EventCountersExactly(init, minDuration, ops, which);
    WrapExactly(Accounts(init, minDuration, ops, which).emitted[i]);
  }

  lemma SumOfSnoc(amounts: seq<int>, amount: int)
    ensures SumOf(amounts + [amount]) == SumOf(amounts) + amount
  {
    assert (amounts + [amount])[..|amounts|] == amounts;
  }

  // The accounts divide up exactly what was credited.
  lemma {:induction false} AccountsAddUp(init: AggregatorState, minDuration: int, ops: seq<Op>, which: Counter)
    requires Fresh(init) && InputsNonnegative(ops, which)
    ensures Accounts(init, minDuration, ops, which).Sum() == Credited(init, minDuration, ops, which)
  {
    if ops != [] {
      var ops' := ops[..|ops| - 1];
      AccountsAddUp(init, minDuration, ops', which);
      EventCountersExactly(init, minDuration, ops', which);
      var a, h := Accounts(init, minDuration, ops', which), Run(init, minDuration, ops');
      match ops[|ops| - 1] {
        case Retune(_) =>
        case Sample(s) => StepAddsUp(a, h, minDuration, s, which);
      }
    }
  }

  lemma StepAddsUp(a: Account, h: History, minDuration: int, s: ActivitySample, which: Counter)
    requires Accounted(h, a, which)
    ensures AccountStep(a, h.state, minDuration, s, which).Sum() == a.Sum() + Credit(h.state, s, which)
  {
    var cut, mine := NextCut(h.state, s), s.inputs.Get(which);
    if !IsLate(h.state, s) && cut.closed.Some? {
      var amount := ClosingAmount(a, h.state, s, which);
      SumOfSnoc(a.emitted, a.pending + amount);
    } else if h.state.open.Some? {
      SameActivityExactly(h.state.open.value.sample.activity, s.activity);
      assert !RollsOver(h.state, s) || cut.closed.Some?;
    }
  }

  lemma {:induction false} PartIsAtMostSum(amounts: seq<int>, i: nat)
    requires i < |amounts| && forall j :: 0 <= j < |amounts| ==> amounts[j] >= 0
    ensures amounts[i] <= SumOf(amounts)
  {
    var n := |amounts| - 1;
    if i < n {
      PartIsAtMostSum(amounts[..n], i);
    } else if n > 0 {
      PartIsAtMostSum(amounts[..n], n - 1);
    }
  }

  // While the total credited fits a 32-bit counter, no event carries a negative one.
  ghost predicate NonnegativeCounters(h: History, which: Counter) {
    forall i :: 0 <= i < |h.emitted| ==> h.emitted[i].inputs.Get(which) >= 0
  }

  lemma EmittedCountersAreNonnegative(init: AggregatorState, minDuration: int, ops: seq<Op>, which: Counter)
    requires Fresh(init) && InputsNonnegative(ops, which)
    requires Credited(init, minDuration, ops, which) <= INT_MAX
    ensures NonnegativeCounters(Run(init, minDuration, ops), which)
  {
    var a := Accounts(init, minDuration, ops, which);
    EventCountersExactly(init, minDuration, ops, which);
    AccountsAddUp(init, minDuration, ops, which);
    forall i | 0 <= i < |Run(init, minDuration, ops).emitted|
      ensures Run(init, minDuration, ops).emitted[i].inputs.Get(which) >= 0
    {
      PartIsAtMostSum(a.emitted, i);
    }
  }

  // --- The ledger of an epoch ---------------------------------------------------------

  // The same value in a 32-bit counter.
  ghost predicate Congruent(a: int, b: int) {
    Wrap32(a) == Wrap32(b)
  }

  lemma CongruentSum(a: int, b: int, c: int, d: int)
    requires Congruent(a, b) && Congruent(c, d)
    ensures Congruent(a + c, b + d)
  {
    WrapAbsorbs(a, c);
    WrapAbsorbs(a, d);
    WrapAbsorbs(d, a);
    WrapAbsorbs(d, b);
  }

  // The counters of the zero-length intervals that are thrown away.
  function Discarded(raws: seq<LocalActivityEvent>, which: Counter): int {
    if raws == [] then 0
    else
      var n := |raws| - 1;
      Discarded(raws[..n], which) + (if Nonempty(raws[n]) then 0 else raws[n].inputs.Get(which))
  }

  function Held(o: Option<OpenInterval>, which: Counter): int {
    if o.None? then 0 else o.value.inputs.Get(which)
  }

  // Where the counted inputs are at one moment.
  datatype Ledger = Ledger(emitted: int, pending: int, open: int, discarded: int) {
    function Sum(): int {
      emitted + pending + open + discarded
    }

    predicate Nonnegative() {
      0 <= emitted && 0 <= pending && 0 <= open && 0 <= discarded
    }
  }

  function LedgerOf(h: History, raws: seq<LocalActivityEvent>, which: Counter): Ledger {
    Ledger(Total(h.emitted, which), Total(Listed(h.state.pending), which), Held(h.state.open, which),
           Discarded(raws, which))
  }

  lemma ListedTotal(e: Option<LocalActivityEvent>, which: Counter)
    ensures Total(Listed(e), which) == if e.None? then 0 else e.value.inputs.Get(which)
  {
    if e.Some? {
      assert Listed(e)[..0] == [];
    }
  }

  ghost predicate Balanced(l: Ledger, credited: int) {
    && Congruent(l.Sum(), credited)
    && (credited <= INT_MAX ==> l.Sum() == credited && l.Nonnegative())
  }

  // The counter is right as far as 32 bits go.
  ghost predicate Stands(counter: int, amount: int) {
    amount >= 0 && Congruent(counter, amount) && (amount <= INT_MAX ==> counter == amount)
  }

  // Events whose counters are their accounts in 32 bits add up as the accounts do.
  lemma {:induction false} TotalIsAccounted(events: seq<LocalActivityEvent>, amounts: seq<int>, which: Counter)
    requires |events| == |amounts| && forall i :: 0 <= i < |amounts| ==> amounts[i] >= 0
    requires forall i :: 0 <= i < |events| ==> events[i].inputs.Get(which) == Wrap32(amounts[i])
    ensures Stands(Total(events, which), SumOf(amounts))
  {
    if events != [] {
      var n := |events| - 1;
      TotalIsAccounted(events[..n], amounts[..n], which);
      WrapExactly(amounts[n]);
      WrapIsCongruent(amounts[n]);
      CongruentSum(Total(events[..n], which), SumOf(amounts[..n]), Wrap32(amounts[n]), amounts[n]);
    }
  }

  lemma WrapIsCongruent(n: int)
    ensures Congruent(Wrap32(n), n)
  {
    WrapAbsorbs(0, n);
  }

  lemma {:induction false} DiscardedIsAccounted(init: AggregatorState, minDuration: int, ops: seq<Op>, which: Counter)
    requires Fresh(init) && InputsNonnegative(ops, which)
    ensures var a, d := Accounts(init, minDuration, ops, which), Discarded(CutRun(init, ops).raws, which);
            Stands(d, a.discarded)
  {
    if ops != [] {
      var ops' := ops[..|ops| - 1];
      DiscardedIsAccounted(init, minDuration, ops', which);
      EventCountersExactly(init, minDuration, ops', which);
      SameCuts(init, minDuration, ops');
      if ops[|ops| - 1].Sample? {
        var a, h, s := Accounts(init, minDuration, ops', which), Run(init, minDuration, ops'), ops[|ops| - 1].sample;
        DiscardStep(a, Accounts(init, minDuration, ops, which), h, minDuration, s, CutRun(init, ops').raws,
                    CutRun(init, ops).raws, which);
      }
    }
  }

  lemma DiscardStep(a: Account, a': Account, h: History, minDuration: int, s: ActivitySample,
                    raws: seq<LocalActivityEvent>,
                    raws': seq<LocalActivityEvent>, which: Counter)
    requires Accounted(h, a, which) && s.inputs.Get(which) >= 0 && a' == AccountStep(a, h.state, minDuration, s, which)
    requires raws' == raws + Listed(NextCut(h.state, s).closed)
    requires Stands(Discarded(raws, which), a.discarded)
    ensures Stands(Discarded(raws', which), a'.discarded)
  {
    var cut := NextCut(h.state, s);
    if cut.closed.None? {
      assert raws' == raws;
    } else {
      assert raws'[..|raws|] == raws;
      ClosedIsAccounted(h, a, minDuration, s, which);
      var amount := ClosingAmount(a, h.state, s, which);
      WrapExactly(amount);
      WrapIsCongruent(amount);
      CongruentSum(Discarded(raws, which), a.discarded, Wrap32(amount), amount);
    }
  }

  lemma WrappedStands(counter: int, amount: int)
    requires counter == Wrap32(amount) && amount >= 0
    ensures Stands(counter, amount)
  {
    WrapExactly(amount);
    WrapIsCongruent(amount);
  }

  lemma LedgerAddsUp(l: Ledger, a: Account)
    requires Stands(l.emitted, SumOf(a.emitted)) && Stands(l.pending, a.pending)
    requires Stands(l.open, a.open) && Stands(l.discarded, a.discarded)
    ensures Balanced(l, a.Sum())
  {
    CongruentSum(l.emitted, SumOf(a.emitted), l.pending, a.pending);
    CongruentSum(l.emitted + l.pending, SumOf(a.emitted) + a.pending, l.open, a.open);
    CongruentSum(l.emitted + l.pending + l.open, SumOf(a.emitted) + a.pending + a.open, l.discarded, a.discarded);
    assert SumOf(a.emitted) + a.pending + a.open + a.discarded == a.Sum();
  }

  lemma HeldStands(h: History, a: Account, which: Counter)
    requires Accounted(h, a, which)
    ensures Stands(Total(h.emitted, which), SumOf(a.emitted))
    ensures Stands(Total(Listed(h.state.pending), which), a.pending) && Stands(Held(h.state.open, which), a.open)
  {
    TotalIsAccounted(h.emitted, a.emitted, which);
    ListedTotal(h.state.pending, which);
    WrappedStands(Total(Listed(h.state.pending), which), a.pending);
    WrappedStands(Held(h.state.open, which), a.open);
  }

  // Nothing that was counted is lost: modulo 2^32 always, and exactly while the total
  // credited fits a 32-bit counter.
  lemma InputLedger(init: AggregatorState, minDuration: int, ops: seq<Op>, which: Counter)
    requires Fresh(init) && InputsNonnegative(ops, which)
    ensures Balanced(LedgerOf(Run(init, minDuration, ops), CutRun(init, ops).raws, which),
                     Credited(init, minDuration, ops, which))
  {
    var h, a := Run(init, minDuration, ops), Accounts(init, minDuration, ops, which);
    EventCountersExactly(init, minDuration, ops, which);
    AccountsAddUp(init, minDuration, ops, which);
    HeldStands(h, a, which);
    DiscardedIsAccounted(init, minDuration, ops, which);
    LedgerAddsUp(LedgerOf(h, CutRun(init, ops).raws, which), a);
  }

  lemma SameCuts(init: AggregatorState, minDuration: int, ops: seq<Op>)
    requires Fresh(init)
    ensures var h, c := Run(init, minDuration, ops), CutRun(init, ops);
            c == CutHistory(h.state.maxDuration, h.state.open, h.state.nextUuid, c.raws)
  {
    CoalescingRefinement(init, minDuration, ops);
  }
}
