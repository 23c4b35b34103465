/** The agent's upload loop as one schedule of the delivery protocol, and its delays. */
module ActivityUpload {
  import opened Common
  import opened ActivityBatches
  import opened ActivityDelivery

  // What the network does to one attempt.
  datatype Outcome = Unreached | Reached(sentAt: Stamp, answered: bool)

  // What the loop works on: the queue, the server's table and its own delay.
  datatype Link = Link(queue: QueueState, table: seq<EventInput>, retrySeconds: nat, accepts: Validator)

  ghost function AttemptOnce(l: Link, limit: nat, outcome: Outcome): Link {
    var batch := Oldest(l.queue, limit);
    var later := Min(l.retrySeconds * 2, MAX_RETRY_SECONDS);
    if batch == [] then l.(retrySeconds := 1)
    else if outcome.Unreached? || !l.accepts(outcome.sentAt, Events(batch)) then l.(retrySeconds := later)
    else if !outcome.answered then l.(table := Ingest(l.table, Events(batch)), retrySeconds := later)
    else Link(Deleted(l.queue, batch), Ingest(l.table, Events(batch)), 1, l.accepts)
  }

  // An exception leaves the try block.
  ghost predicate Fails(l: Link, limit: nat, outcome: Outcome) {
    var batch := Oldest(l.queue, limit);
    batch != [] && (outcome.Unreached? || !outcome.answered || !l.accepts(outcome.sentAt, Events(batch)))
  }

  ghost function Attempted(l: Link, limit: nat, outcomes: seq<Outcome>): Link {
    if outcomes == [] then l
    else AttemptOnce(Attempted(l, limit, outcomes[..|outcomes| - 1]), limit, outcomes[|outcomes| - 1])
  }

  class ActivityUploadWorker {
    var retrySeconds: nat

    constructor ()
      ensures retrySeconds == 1
    {
      retrySeconds := 1;
    }

    method Execute(queue: ActivityQueue, store: ActivityStore, limit: nat, outcomes: seq<Outcome>)
      requires UniqueUuids(store.table)
      modifies queue, store, this
      ensures Link(queue.State(), store.table, retrySeconds, AcceptableBatch)
           == Attempted(Link(old(queue.State()), old(store.table), 1, AcceptableBatch), limit, outcomes)
    {
      queue.Initialize();
      retrySeconds := 1;
      ghost var start := Link(queue.State(), store.table, 1, AcceptableBatch);
      for i := 0 to |outcomes|
        invariant UniqueUuids(store.table)
        invariant Link(queue.State(), store.table, retrySeconds, AcceptableBatch)
                  == Attempted(start, limit, outcomes[..i])
      {
        assert outcomes[..i + 1][..i] == outcomes[..i];
        var failed := TryOnce(queue, store, limit, outcomes[i]);
        retrySeconds := if failed then Min(retrySeconds * 2, MAX_RETRY_SECONDS) else 1;
      }
      assert outcomes[..|outcomes|] == outcomes;
    }

    // The try block: take, send, delete; `failed` says that an exception left it.
    method TryOnce(queue: ActivityQueue, store: ActivityStore, limit: nat, outcome: Outcome) returns (failed: bool)
      requires UniqueUuids(store.table)
      modifies queue, store
      ensures UniqueUuids(store.table)
      ensures var l := Link(old(queue.State()), old(store.table), retrySeconds, AcceptableBatch);
              && failed == Fails(l, limit, outcome)
              && queue.State() == AttemptOnce(l, limit, outcome).queue
              && store.table == AttemptOnce(l, limit, outcome).table
    {
      var batch := queue.Take(limit);
      if |batch| == 0 {
        return false;
      }
      if outcome.Unreached? {
        return true;
      }
      var verdict := ValidateBatch(outcome.sentAt, Events(batch));
      if verdict.Err? {
        return true;
      }
      IngestIsExact(store.table, Events(batch));
      var accepted, duplicates := store.Receive(Events(batch));
      if !outcome.answered {
        return true;
      }
      queue.Delete(IdsOf(batch));
      return false;
    }
  }

  // One iteration as protocol steps.
  ghost function Schedule(l: Link, limit: nat, outcome: Outcome): seq<Step> {
    var batch := Oldest(l.queue, limit);
    if batch == [] then [TakeBatch(limit)]
    else if outcome.Unreached? then [TakeBatch(limit), GiveUp]
    else if Fails(l, limit, outcome) then [TakeBatch(limit), Handle(batch, outcome.sentAt), GiveUp]
    else [TakeBatch(limit), Handle(batch, outcome.sentAt), ReceiveAnswer, DeleteBatch]
  }

  ghost function ExecuteFrom(s: System, steps: seq<Step>): System
    decreases |steps|
  {
    if steps == [] then s else ExecuteFrom(Apply(s, steps[0]), steps[1..])
  }

  lemma {:induction false} ExecuteFromKeepsInvariant(s: System, steps: seq<Step>)
    requires Invariant(s)
    ensures Invariant(ExecuteFrom(s, steps))
    decreases |steps|
  {
    if steps != [] {
      StepKeepsInvariant(s, steps[0]);
      ExecuteFromKeepsInvariant(Apply(s, steps[0]), steps[1..]);
    }
  }

  lemma ExecuteOne(s: System, a: Step)
    ensures ExecuteFrom(s, [a]) == Apply(s, a)
  {
    assert [a][1..] == [];
  }

  lemma ExecuteTwo(s: System, a: Step, b: Step)
    ensures ExecuteFrom(s, [a, b]) == Apply(Apply(s, a), b)
  {
    assert [a, b][1..] == [b];
    ExecuteOne(Apply(s, a), b);
  }

  lemma ExecuteThree(s: System, a: Step, b: Step, c: Step)
    ensures ExecuteFrom(s, [a, b, c]) == Apply(Apply(Apply(s, a), b), c)
  {
    assert [a, b, c][1..] == [b, c];
    ExecuteTwo(Apply(s, a), b, c);
  }

  lemma ExecuteFour(s: System, a: Step, b: Step, c: Step, d: Step)
    ensures ExecuteFrom(s, [a, b, c, d]) == Apply(Apply(Apply(Apply(s, a), b), c), d)
  {
    assert [a, b, c, d][1..] == [b, c, d];
    ExecuteThree(Apply(s, a), b, c, d);
  }

  // An iteration of the loop is a schedule of the protocol: it has the same effect on
  // both tables, and leaves the worker waiting again.
  lemma AttemptIsSchedule(s: System, l: Link, limit: nat, outcome: Outcome)
    requires s.worker.Waiting? && l.queue == s.queue && l.table == s.table && l.accepts == s.accepts
    ensures var s', l' := ExecuteFrom(s, Schedule(l, limit, outcome)), AttemptOnce(l, limit, outcome);
            s'.worker.Waiting? && s'.queue == l'.queue && s'.table == l'.table
  {
    var batch := Oldest(l.queue, limit);
    if batch == [] {
      ExecuteOne(s, TakeBatch(limit));
    } else if outcome.Unreached? {
      ExecuteTwo(s, TakeBatch(limit), GiveUp);
    } else {
      var handle := Handle(batch, outcome.sentAt);
      ExecuteThree(s, TakeBatch(limit), handle, GiveUp);
      ExecuteFour(s, TakeBatch(limit), handle, ReceiveAnswer, DeleteBatch);
    }
  }

  function Power2(n: nat): nat {
    if n == 0 then 1 else 2 * Power2(n - 1)
  }

  // The last n attempts failed, and before them is the start or one that did not fail.
  ghost predicate FailedLast(l: Link, limit: nat, outcomes: seq<Outcome>, n: nat)
    decreases |outcomes|
  {
    if outcomes == [] then n == 0 && l.retrySeconds == 1
    else
      var earlier, last := outcomes[..|outcomes| - 1], outcomes[|outcomes| - 1];
      if !Fails(Attempted(l, limit, earlier), limit, last) then n == 0
      else n > 0 && FailedLast(l, limit, earlier, n - 1)
  }

  // After n failures in a row the delay is min(2^n, 300) seconds.
  lemma {:induction false} BackoffDoubles(l: Link, limit: nat, outcomes: seq<Outcome>, n: nat)
    requires FailedLast(l, limit, outcomes, n)
    ensures Attempted(l, limit, outcomes).retrySeconds == Min(Power2(n), 300)
    decreases |outcomes|
  {
    if outcomes != [] {
      var earlier, last := outcomes[..|outcomes| - 1], outcomes[|outcomes| - 1];
      var before := Attempted(l, limit, earlier);
      if Fails(before, limit, last) {
        BackoffDoubles(l, limit, earlier, n - 1);
        FailureDoubles(before, AttemptOnce(before, limit, last), limit, last);
      }
    }
  }

  lemma FailureDoubles(m: Link, m': Link, limit: nat, outcome: Outcome)
    requires Fails(m, limit, outcome) && m' == AttemptOnce(m, limit, outcome)
    ensures m'.retrySeconds == Min(m.retrySeconds * 2, MAX_RETRY_SECONDS)
  {
  }
}
