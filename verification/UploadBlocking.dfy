/** What blocks the upload queue, over every interleaving of the delivery protocol. */
module UploadBlocking {
  import opened Common
  import opened ActivityBatches
  import opened ActivityDelivery
  import opened UploadProgress

  // --- Rows the server refuses together -------------------------------------------------

  ghost predicate Holds(batch: seq<QueueRow>, rows: seq<QueueRow>) {
    forall r :: r in rows ==> r in batch
  }

  ghost predicate HoldsNone(batch: seq<QueueRow>, rows: seq<QueueRow>) {
    forall r :: r in rows ==> r !in batch
  }

  // No request with all of these rows and no repeated UUID is ever accepted.
  ghost predicate Refused(rows: seq<QueueRow>, accepts: Validator) {
    forall sentAt, batch: seq<QueueRow> :: UniqueUuids(Events(batch)) && Holds(batch, rows) ==>
      !accepts(sentAt, Events(batch))
  }

  lemma NoMoreRows(rows: seq<QueueRow>, batch: seq<QueueRow>)
    requires UniqueUuids(Events(rows)) && Holds(batch, rows)
    ensures |rows| <= |batch|
  {
    DistinctCount(rows);
    assert Members(rows) <= Members(batch);
    SetOfSeq(batch);
    assert Members(batch) == Members(rows) + (Members(batch) - Members(rows));
  }

  lemma {:induction false} DistinctCount(rows: seq<QueueRow>)
    requires UniqueUuids(Events(rows))
    ensures |Members(rows)| == |rows|
  {
    if rows != [] {
      var n := |rows| - 1;
      assert Events(rows[..n]) == Events(rows)[..n];
      DistinctCount(rows[..n]);
      forall i | 0 <= i < n
        ensures rows[i] != rows[n]
      {
        assert Events(rows)[i].eventUuid != Events(rows)[n].eventUuid;
      }
      assert Members(rows) == Members(rows[..n]) + {rows[n]};
    }
  }

  lemma {:induction false} SetOfSeq(rows: seq<QueueRow>)
    ensures |Members(rows)| <= |rows|
  {
    if rows != [] {
      var n := |rows| - 1;
      SetOfSeq(rows[..n]);
      assert Members(rows) == Members(rows[..n]) + {rows[n]};
    }
  }

  lemma UniqueIsFirst(events: seq<EventInput>, i: nat)
    requires UniqueUuids(events) && i < |events|
    ensures IsFirst(events, i)
  {
  }

  // In a larger acceptable request two of the rows do not overlap either.
  lemma PartIsDisjoint(rows: seq<QueueRow>, batch: seq<QueueRow>, i: nat, j: nat)
    requires UniqueUuids(Events(rows)) && UniqueUuids(Events(batch)) && Holds(batch, rows)
    requires SessionsDisjoint(Events(batch)) && i < j < |rows| && rows[i].event.session == rows[j].event.session
    ensures Disjoint(rows[i].event, rows[j].event)
  {
    assert Events(rows)[i].eventUuid != Events(rows)[j].eventUuid;
    assert rows[i] in rows && rows[j] in rows;
    var a :| 0 <= a < |batch| && batch[a] == rows[i];
    var b :| 0 <= b < |batch| && batch[b] == rows[j];
    UniqueIsFirst(Events(batch), a);
    UniqueIsFirst(Events(batch), b);
    if a < b {
      assert Disjoint(Events(batch)[a], Events(batch)[b]);
    } else {
      assert a != b;
      assert Disjoint(Events(batch)[b], Events(batch)[a]);
    }
  }

  lemma PartIsAcceptable(rows: seq<QueueRow>, batch: seq<QueueRow>, sentAt: Stamp)
    requires UniqueUuids(Events(rows)) && UniqueUuids(Events(batch)) && Holds(batch, rows) && rows != []
    requires AcceptableBatch(sentAt, Events(batch))
    ensures AcceptableContent(Events(rows))
  {
    var events := Events(rows);
    NoMoreRows(rows, batch);
    forall i | 0 <= i < |events|
      ensures ValidEvent(events[i])
    {
      assert rows[i] in rows;
      var a :| 0 <= a < |batch| && batch[a] == rows[i];
      assert ValidEvent(Events(batch)[a]);
    }
    forall i, j | 0 <= i < j < |events| && IsFirst(events, i) && IsFirst(events, j)
        && events[i].session == events[j].session
      ensures Disjoint(events[i], events[j])
    {
      PartIsDisjoint(rows, batch, i, j);
    }
  }

  // Queued rows are refused in whatever company exactly if they are refused by themselves:
  // an invalid event, two that overlap, or too many.
  lemma RefusedExactly(rows: seq<QueueRow>)
    requires UniqueUuids(Events(rows)) && rows != []
    ensures Refused(rows, AcceptableBatch) <==> !AcceptableContent(Events(rows))
  {
    if !AcceptableContent(Events(rows)) {
      forall sentAt, batch: seq<QueueRow> | UniqueUuids(Events(batch)) && Holds(batch, rows)
        ensures !AcceptableBatch(sentAt, Events(batch))
      {
        if AcceptableBatch(sentAt, Events(batch)) {
          PartIsAcceptable(rows, batch, sentAt);
        }
      }
    } else {
      assert Holds(rows, rows) && AcceptableBatch(Stamp(0, true), Events(rows));
    }
  }

  // --- The blocked queue ------------------------------------------------------------------

  // A request that can never be accepted.
  ghost predicate Hopeless(batch: seq<QueueRow>, stuck: seq<QueueRow>) {
    UniqueUuids(Events(batch)) && Holds(batch, stuck)
  }

  // Only accepted requests are answered.
  ghost predicate AnswersWereAccepted(s: System) {
    forall batch :: batch in s.answered ==> exists sentAt :: s.accepts(sentAt, Events(batch))
  }

  // Rows that are refused together are all among the oldest `limit`; the worker's request
  // has all of them or none, and `flying` are the requests under way without them all.
  ghost predicate Blocked(s: System, stuck: seq<QueueRow>, limit: nat, flying: set<seq<QueueRow>>) {
    && Invariant(s) && AnswersWereAccepted(s) && Refused(stuck, s.accepts) && Holds(Oldest(s.queue, limit), stuck)
    && (s.worker.Waiting? || HoldsNone(s.worker.batch, stuck) || Hopeless(s.worker.batch, stuck))
    && (forall batch :: batch in s.network ==> batch in flying || Hopeless(batch, stuck))
  }

  // What steps may do to the server's table: nothing that does not come from a request
  // under way, and nothing at all once those are answered.
  ghost predicate OnlyFlyingArrives(s: System, s': System, flying: set<seq<QueueRow>>) {
    && (forall e :: e in s'.table ==> e in s.table || exists batch :: batch in flying && e in Events(batch))
    && (flying <= s.answered ==> s'.table == s.table && flying <= s'.answered)
  }

  ghost predicate SomeEvicted(s: System, rows: seq<QueueRow>) {
    exists r :: r in rows && r.event.eventUuid in s.evicted
  }

  lemma RowMovesUp(q: QueueState, q': QueueState, r: QueueRow, limit: nat)
    requires ValidQueue(q) && ValidQueue(q') && r in Oldest(q, limit) && r in q'.rows
    requires Ahead(q'.rows, r) <= Ahead(q.rows, r)
    ensures r in Oldest(q', limit)
  {
    var i :| 0 <= i < |Oldest(q, limit)| && Oldest(q, limit)[i] == r;
    var j :| 0 <= j < |q'.rows| && q'.rows[j] == r;
    AheadExactly(q, i);
    AheadExactly(q', j);
    FewerAhead(Ahead(q'.rows, r), Ahead(q.rows, r));
    assert Oldest(q', limit)[j] == r;
  }

  lemma MemberOfOldest(q: QueueState, r: QueueRow, limit: nat)
    requires r in Oldest(q, limit)
    ensures r in q.rows
  {
  }

  lemma EnqueueStaysBlocked(s: System, s': System, item: EventInput, now: int, bytes: int, stuck: seq<QueueRow>,
                            limit: nat, flying: set<seq<QueueRow>>)
    requires Blocked(s, stuck, limit, flying) && s' == Apply(s, Enqueue(item, now, bytes))
    ensures Blocked(s', stuck, limit, flying) || SomeEvicted(s', stuck)
  {
    EnqueueKeepsInvariant(s, item, now, bytes);
    if !SomeEvicted(s', stuck) {
      forall r | r in stuck
        ensures r in Oldest(s'.queue, limit)
      {
        MemberOfOldest(s.queue, r, limit);
        if r !in s'.queue.rows {
          EvictedForGood(s, r, item, now, bytes);
        }
        EnqueueKeepsAhead(s, r, item, now, bytes);
        RowMovesUp(s.queue, s'.queue, r, limit);
      }
    }
  }

  lemma HandleStaysBlocked(s: System, s': System, request: seq<QueueRow>, sentAt: Stamp, stuck: seq<QueueRow>,
                           limit: nat, flying: set<seq<QueueRow>>)
    requires Blocked(s, stuck, limit, flying) && s' == Apply(s, Handle(request, sentAt))
    ensures Blocked(s', stuck, limit, flying) && OnlyFlyingArrives(s, s', flying)
  {
    HandleKeepsInvariant(s, request, sentAt);
    if request in s.network && s.accepts(sentAt, Events(request)) {
      assert request in flying;
      IngestIsExact(s.table, Events(request));
      if request in s.answered {
        IngestIsIdempotent(s.table, Events(request));
      }
    }
  }

  lemma PrefixIsUnique(q: QueueState, size: nat)
    requires ValidQueue(q)
    ensures UniqueUuids(Events(Oldest(q, size)))
  {
  }

  lemma TakeStaysBlocked(s: System, s': System, size: nat, stuck: seq<QueueRow>, limit: nat,
                         flying: set<seq<QueueRow>>)
    requires Blocked(s, stuck, limit, flying) && s' == Apply(s, TakeBatch(size)) && (size == 0 || limit <= size)
    ensures Blocked(s', stuck, limit, flying)
  {
    TakeKeepsInvariant(s, size);
    var batch := Oldest(s.queue, size);
    PrefixIsUnique(s.queue, size);
    if batch != [] {
      assert batch[..Min(limit, |s.queue.rows|)] == Oldest(s.queue, limit);
      assert Holds(batch, stuck);
    }
  }

  lemma DeleteStaysBlocked(s: System, s': System, stuck: seq<QueueRow>, limit: nat, flying: set<seq<QueueRow>>)
    requires Blocked(s, stuck, limit, flying) && s.worker.Confirmed? && s' == Apply(s, DeleteBatch)
    ensures Blocked(s', stuck, limit, flying) && s'.table == s.table && s'.answered == s.answered
    ensures s'.evicted == s.evicted
  {
    DeleteKeepsInvariant(s);
    DeleteFreesWorker(s);
    var batch := s.worker.batch;
    var sentAt :| s.accepts(sentAt, Events(batch));
    assert !Hopeless(batch, stuck);
    forall r | r in stuck
      ensures r in Oldest(s'.queue, limit)
    {
      MemberOfOldest(s.queue, r, limit);
      DeletedStays(s, r);
      DeletedAreNotAhead(s, s'.queue.rows, r);
      RowMovesUp(s.queue, s'.queue, r, limit);
    }
  }

  lemma WorkerStaysBlocked(s: System, s': System, step: Step, stuck: seq<QueueRow>, limit: nat,
                           flying: set<seq<QueueRow>>)
    requires Blocked(s, stuck, limit, flying) && (step.ReceiveAnswer? || step.GiveUp?) && s' == Apply(s, step)
    ensures Blocked(s', stuck, limit, flying) && s'.table == s.table && s'.answered == s.answered
    ensures s'.evicted == s.evicted
  {
    StepKeepsInvariant(s, step);
  }

  // The batch size never falls below the limit, except to nothing.
  predicate TakesAllOrNone(step: Step, limit: nat) {
    step.TakeBatch? ==> step.limit == 0 || limit <= step.limit
  }

  lemma StepStaysBlocked(s: System, s': System, step: Step, stuck: seq<QueueRow>, limit: nat,
                         flying: set<seq<QueueRow>>)
    requires Blocked(s, stuck, limit, flying) && s' == Apply(s, step) && TakesAllOrNone(step, limit)
    ensures OnlyFlyingArrives(s, s', flying) && s.evicted <= s'.evicted
    ensures Blocked(s', stuck, limit, flying) || SomeEvicted(s', stuck)
  {
    match step
    case Enqueue(item, now, bytes) => EnqueueStaysBlocked(s, s', item, now, bytes, stuck, limit, flying);
    case TakeBatch(size) => TakeStaysBlocked(s, s', size, stuck, limit, flying);
    case Handle(request, sentAt) => HandleStaysBlocked(s, s', request, sentAt, stuck, limit, flying);
    case DeleteBatch =>
      if s.worker.Confirmed? {
        DeleteStaysBlocked(s, s', stuck, limit, flying);
      }
    case _ => WorkerStaysBlocked(s, s', step, stuck, limit, flying);
  }

  lemma ArrivesStepwise(s: System, t: System, t': System, flying: set<seq<QueueRow>>)
    requires OnlyFlyingArrives(s, t, flying) && OnlyFlyingArrives(t, t', flying)
    ensures OnlyFlyingArrives(s, t', flying)
  {
  }

  lemma EvictedOnlyGrows(s: System, step: Step)
    ensures s.evicted <= Apply(s, step).evicted
  {
  }

  // Until the agent itself evicts one of them, rows that are refused together stay among
  // the oldest, and whatever the server stores from then on was already under way.
  lemma {:induction false} StuckRowsBlockQueue(s: System, steps: seq<Step>, stuck: seq<QueueRow>, limit: nat,
                                               flying: set<seq<QueueRow>>)
    requires Blocked(s, stuck, limit, flying) && !SomeEvicted(Execute(s, steps), stuck)
    requires forall i :: 0 <= i < |steps| ==> TakesAllOrNone(steps[i], limit)
    ensures Blocked(Execute(s, steps), stuck, limit, flying)
    ensures OnlyFlyingArrives(s, Execute(s, steps), flying)
  {
    if steps != [] {
      var earlier, last := steps[..|steps| - 1], steps[|steps| - 1];
      var t := Execute(s, earlier);
      EvictedOnlyGrows(t, last);
      StuckRowsBlockQueue(s, earlier, stuck, limit, flying);
      StepStaysBlocked(t, Apply(t, last), last, stuck, limit, flying);
      ArrivesStepwise(s, t, Apply(t, last), flying);
    }
  }

  // --- In every reachable state -----------------------------------------------------------

  lemma {:induction false} AnswersAreAccepted(accepts: Validator, steps: seq<Step>)
    ensures Execute(Start(accepts), steps).accepts == accepts
    ensures AnswersWereAccepted(Execute(Start(accepts), steps))
  {
    if steps != [] {
      AnswersAreAccepted(accepts, steps[..|steps| - 1]);
      match steps[|steps| - 1]
      case Handle(request, sentAt) =>
      case _ =>
    }
  }

  ghost predicate RequestsAreUnique(s: System) {
    forall batch :: batch in s.network ==> UniqueUuids(Events(batch))
  }

  lemma {:induction false} RequestsStayUnique(accepts: Validator, steps: seq<Step>)
    ensures RequestsAreUnique(Execute(Start(accepts), steps))
  {
    if steps != [] {
      var s := Execute(Start(accepts), steps[..|steps| - 1]);
      RequestsStayUnique(accepts, steps[..|steps| - 1]);
      ExactlyOnce(accepts, steps[..|steps| - 1]);
      match steps[|steps| - 1]
      case TakeBatch(size) => PrefixIsUnique(s.queue, size);
      case _ =>
    }
  }

  // Once rows that are refused together are among the oldest `limit`, requests already
  // under way are all that can still arrive; if each of those has all the rows or has been
  // answered, nothing does.
  lemma RefusedRowsStopDelivery(accepts: Validator, before: seq<Step>, after: seq<Step>, stuck: seq<QueueRow>,
                                limit: nat)
    requires var s := Execute(Start(accepts), before);
             && Refused(stuck, accepts) && Holds(Oldest(s.queue, limit), stuck)
             && (s.worker.Waiting? || HoldsNone(s.worker.batch, stuck) || Holds(s.worker.batch, stuck))
             && !SomeEvicted(Execute(s, after), stuck)
    requires forall i :: 0 <= i < |after| ==> TakesAllOrNone(after[i], limit)
    ensures var s := Execute(Start(accepts), before);
            var s' := Execute(s, after);
            && Holds(Oldest(s'.queue, limit), stuck)
            && OnlyFlyingArrives(s, s', s.network)
            && ((forall batch :: batch in s.network ==> Holds(batch, stuck) || batch in s.answered) ==>
                  s'.table == s.table)
  {
    var s := Execute(Start(accepts), before);
    ExactlyOnce(accepts, before);
    AnswersAreAccepted(accepts, before);
    RequestsStayUnique(accepts, before);
    StuckRowsBlockQueue(s, after, stuck, limit, s.network);
    if forall batch :: batch in s.network ==> Holds(batch, stuck) || batch in s.answered {
      StuckRowsBlockQueue(s, after, stuck, limit, s.answered);
    }
  }
}
