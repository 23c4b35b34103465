/** How long an enqueued event stays: what eviction takes, by the times of the steps themselves. */
module QueueLifetime {
  import opened Common
  import opened ActivityBatches
  import opened ActivityDelivery
  import opened UploadProgress

  const SEVEN_DAYS: int := 604_800_000_000
  const FIVE_HUNDRED_MEGABYTES: int := 524_288_000

  // --- One enqueue ------------------------------------------------------------------------

  // The queue accepts a new event at the end, at the current time, and keeps it.
  lemma NewRowIsLast(q: QueueState, item: EventInput, now: int, databaseBytes: int)
    requires item.eventUuid !in QueuedUuids(q.rows) && databaseBytes <= FIVE_HUNDRED_MEGABYTES
    ensures var q' := Enqueued(q, item, now, databaseBytes);
            && q'.rows != [] && q'.rows[|q'.rows| - 1] == QueueRow(q.nextId, item, now) && q'.nextId == q.nextId + 1
  {
    var inserted := Insert(q, item, now);
    assert inserted.rows[..|q.rows|] == q.rows;
  }

  // The rows that no age limit drops and that were enqueued before the row.
  function YoungAhead(rows: seq<QueueRow>, now: int, r: QueueRow): set<QueueRow> {
    set p | p in rows && p.createdAt >= now - SEVEN_DAYS && p.id < r.id
  }

  // An enqueue evicts a row exactly if it is more than seven days old or, with more than
  // 500 MB, one of the 5000 oldest of the others.
  lemma EvictedExactly(q: QueueState, item: EventInput, now: int, databaseBytes: int, r: QueueRow)
    requires ValidQueue(q) && r in Insert(q, item, now).rows
    ensures r !in Enqueued(q, item, now, databaseBytes).rows <==>
              now > r.createdAt + SEVEN_DAYS
              || (databaseBytes > FIVE_HUNDRED_MEGABYTES && |YoungAhead(Insert(q, item, now).rows, now, r)| < 5000)
  {
    var inserted := Insert(q, item, now);
    InsertIsValid(q, item, now);
    YoungExactly(inserted, now, r);
    if now <= r.createdAt + SEVEN_DAYS {
      TrimmedExactly(inserted, YoungerThan(inserted.rows, now - MAX_AGE), now, r);
    } else {
      OldIsTrimmed(YoungerThan(inserted.rows, now - MAX_AGE), r);
    }
  }

  lemma YoungExactly(q: QueueState, now: int, r: QueueRow)
    requires ValidQueue(q)
    ensures ValidQueue(q.(rows := YoungerThan(q.rows, now - MAX_AGE)))
    ensures r in YoungerThan(q.rows, now - MAX_AGE) <==> r in q.rows && now <= r.createdAt + SEVEN_DAYS
  {
    YoungerThanIsExact(q.rows, now - MAX_AGE);
    SubqueueIsValid(q, YoungerThan(q.rows, now - MAX_AGE));
  }

  lemma OldIsTrimmed(young: seq<QueueRow>, r: QueueRow)
    requires r !in young
    ensures r !in young[Min(TRIM_ROWS, |young|)..]
  {
  }

  lemma TrimmedExactly(q: QueueState, young: seq<QueueRow>, now: int, r: QueueRow)
    requires ValidQueue(q) && young == YoungerThan(q.rows, now - MAX_AGE) && r in young
    ensures r in young[Min(TRIM_ROWS, |young|)..] <==> |YoungAhead(q.rows, now, r)| >= 5000
  {
    YoungerThanIsExact(q.rows, now - MAX_AGE);
    SubqueueIsValid(q, young);
    YoungRank(q.rows, young, now, r);
    PlaceInQueue(q.(rows := young), r, Min(TRIM_ROWS, |young|));
  }

  lemma YoungRank(rows: seq<QueueRow>, young: seq<QueueRow>, now: int, r: QueueRow)
    requires forall p :: p in young <==> p in rows && p.createdAt >= now - MAX_AGE
    ensures Ahead(young, r) == YoungAhead(rows, now, r)
  {
  }

  // A row survives the trimming of the k oldest exactly if as many are ahead of it.
  lemma PlaceInQueue(q: QueueState, r: QueueRow, k: nat)
    requires ValidQueue(q) && r in q.rows && k <= |q.rows|
    ensures r in q.rows[k..] <==> |Ahead(q.rows, r)| >= k
    ensures |Ahead(q.rows, r)| < |q.rows|
  {
    var i :| 0 <= i < |q.rows| && q.rows[i] == r;
    AheadExactly(q, i);
    assert i >= k ==> q.rows[k..][i - k] == r;
  }

  // --- Over the protocol --------------------------------------------------------------------

  ghost function After(accepts: Validator, steps: seq<Step>): System {
    Execute(Start(accepts), steps)
  }

  // The i-th step enqueued the row: its event was not queued then, and the row has the
  // event and the time of the step.
  ghost predicate Stems(accepts: Validator, steps: seq<Step>, i: nat, r: QueueRow)
    requires i < |steps|
  {
    var before := After(accepts, steps[..i]);
    && steps[i].Enqueue? && steps[i].item.eventUuid !in QueuedUuids(before.queue.rows)
    && r == QueueRow(before.queue.nextId, steps[i].item, steps[i].now)
  }

  // No enqueue from the i-th step on came more than seven days after it.
  ghost predicate NoneMuchLater(steps: seq<Step>, i: nat)
    requires i < |steps| && steps[i].Enqueue?
  {
    forall k :: i <= k < |steps| && steps[k].Enqueue? ==> steps[k].now <= steps[i].now + SEVEN_DAYS
  }

  lemma NoneMuchLaterSnoc(steps: seq<Step>, i: nat)
    requires i < |steps| - 1 && steps[i].Enqueue?
    ensures var n := |steps| - 1;
            NoneMuchLater(steps, i) <==>
              NoneMuchLater(steps[..n], i) && (steps[n].Enqueue? ==> steps[n].now <= steps[i].now + SEVEN_DAYS)
  {
    var n := |steps| - 1;
    assert forall k :: 0 <= k < n ==> steps[..n][k] == steps[k];
    if NoneMuchLater(steps, i) {
      forall k | i <= k < n && steps[..n][k].Enqueue?
        ensures steps[..n][k].now <= steps[..n][i].now + SEVEN_DAYS
      {
        assert steps[k].Enqueue?;
      }
    }
  }

  lemma StemsLater(accepts: Validator, steps: seq<Step>, i: nat, r: QueueRow)
    requires i < |steps| - 1
    ensures Stems(accepts, steps, i, r) <==> Stems(accepts, steps[..|steps| - 1], i, r)
  {
    assert steps[..|steps| - 1][..i] == steps[..i];
  }

  // What one step leaves of the queue: old rows, past no age limit, and a new one.
  lemma StepRows(s: System, step: Step, r: QueueRow)
    requires Invariant(s) && r in Apply(s, step).queue.rows
    ensures r in s.queue.rows
            || (step.Enqueue? && step.item.eventUuid !in QueuedUuids(s.queue.rows)
                && r == QueueRow(s.queue.nextId, step.item, step.now))
    ensures step.Enqueue? ==> step.now <= r.createdAt + SEVEN_DAYS
  {
    match step
    case Enqueue(item, now, bytes) =>
      EnqueuedIsValid(s.queue, item, now, bytes);
      assert r in Insert(s.queue, item, now).rows;
      EvictedExactly(s.queue, item, now, bytes, r);
    case DeleteBatch =>
      if s.worker.Confirmed? {
        DeleteIsSafe(s);
      }
    case _ =>
  }

  // Every queued row stems from a step, and no enqueue since came more than seven days
  // after that step.
  lemma {:induction false} QueuedStems(accepts: Validator, steps: seq<Step>, r: QueueRow) returns (i: nat)
    requires r in After(accepts, steps).queue.rows
    ensures i < |steps| && Stems(accepts, steps, i, r) && NoneMuchLater(steps, i)
  {
    var n := |steps| - 1;
    var before := After(accepts, steps[..n]);
    AfterSnoc(accepts, steps);
    ExactlyOnce(accepts, steps[..n]);
    StepRows(before, steps[n], r);
    if r in before.queue.rows {
      i := QueuedStems(accepts, steps[..n], r);
      StemsLater(accepts, steps, i, r);
      NoneMuchLaterSnoc(steps, i);
    } else {
      i := n;
    }
  }

  // From the i-th step on nothing is evicted for its age or for the size of the file.
  ghost predicate Calm(steps: seq<Step>, i: nat)
    requires i < |steps| && steps[i].Enqueue?
  {
    forall k :: i <= k < |steps| && steps[k].Enqueue? ==>
      steps[k].now <= steps[i].now + SEVEN_DAYS && steps[k].databaseBytes <= FIVE_HUNDRED_MEGABYTES
  }

  lemma CalmPrefix(steps: seq<Step>, i: nat)
    requires i < |steps| - 1 && steps[i].Enqueue? && Calm(steps, i)
    ensures Calm(steps[..|steps| - 1], i)
  {
    var n := |steps| - 1;
    assert forall k :: 0 <= k < n ==> steps[..n][k] == steps[k];
  }

  ghost predicate Arrives(s: System, r: QueueRow) {
    r in s.queue.rows || r.event.eventUuid in StoredUuids(s.table)
  }

  lemma StepKeepsArrival(s: System, step: Step, r: QueueRow)
    requires Invariant(s) && Arrives(s, r)
    requires step.Enqueue? ==> step.now <= r.createdAt + SEVEN_DAYS && step.databaseBytes <= FIVE_HUNDRED_MEGABYTES
    ensures Arrives(Apply(s, step), r)
  {
    match step
    case Enqueue(item, now, bytes) =>
      if r in s.queue.rows {
        assert r in Insert(s.queue, item, now).rows;
        EvictedExactly(s.queue, item, now, bytes, r);
      }
    case Handle(request, _) =>
      IngestIsExact(s.table, Events(request));
    case DeleteBatch =>
      if s.worker.Confirmed? {
        DeleteIsSafe(s);
      }
    case _ =>
  }

  lemma FreshArrives(s: System, s': System, step: Step, r: QueueRow)
    requires step.Enqueue? && step.item.eventUuid !in QueuedUuids(s.queue.rows) && s' == Apply(s, step)
    requires step.databaseBytes <= FIVE_HUNDRED_MEGABYTES && r == QueueRow(s.queue.nextId, step.item, step.now)
    ensures Arrives(s', r)
  {
    NewRowIsLast(s.queue, step.item, step.now, step.databaseBytes);
    assert s'.queue.rows[|s'.queue.rows| - 1] == r;
  }

  lemma AfterSnoc(accepts: Validator, steps: seq<Step>)
    requires steps != []
    ensures After(accepts, steps) == Apply(After(accepts, steps[..|steps| - 1]), steps[|steps| - 1])
  {
  }

  // An event that was not queued when it was enqueued is queued, with the step's own time,
  // or stored, as long as no enqueue since came more than seven days later or found more
  // than 500 MB.
  lemma {:induction false} EnqueuedArrives(accepts: Validator, steps: seq<Step>, i: nat, r: QueueRow)
    requires i < |steps| && Stems(accepts, steps, i, r) && Calm(steps, i)
    ensures Arrives(After(accepts, steps), r)
  {
    var earlier, last := steps[..|steps| - 1], steps[|steps| - 1];
    var before := After(accepts, earlier);
    AfterSnoc(accepts, steps);
    if i == |steps| - 1 {
      FreshArrives(before, Apply(before, last), last, r);
    } else {
      ExactlyOnce(accepts, earlier);
      StemsLater(accepts, steps, i, r);
      CalmPrefix(steps, i);
      EnqueuedArrives(accepts, earlier, i, r);
      StepKeepsArrival(before, last, r);
    }
  }

  // Conversely, once an enqueue came more than seven days later, the row is gone for good.
  lemma OldRowsAreGone(accepts: Validator, steps: seq<Step>, i: nat, k: nat, r: QueueRow)
    requires i < k < |steps| && Stems(accepts, steps, i, r)
    requires steps[k].Enqueue? && steps[k].now > steps[i].now + SEVEN_DAYS
    ensures r !in After(accepts, steps).queue.rows
  {
    if r in After(accepts, steps).queue.rows {
      var j := QueuedStems(accepts, steps, r);
      StemsOnce(accepts, steps, i, j, r);
    }
  }

  // Ids are never reused, so a row stems from one step only.
  lemma StemsOnce(accepts: Validator, steps: seq<Step>, i: nat, j: nat, r: QueueRow)
    requires i < |steps| && j < |steps| && Stems(accepts, steps, i, r) && Stems(accepts, steps, j, r)
    ensures i == j
  {
    if i < j {
      IdsGrow(accepts, steps, i, j);
    } else if j < i {
      IdsGrow(accepts, steps, j, i);
    }
  }

  lemma {:induction false} IdsGrow(accepts: Validator, steps: seq<Step>, i: nat, j: nat)
    requires i < j <= |steps| && steps[i].Enqueue?
    requires steps[i].item.eventUuid !in QueuedUuids(After(accepts, steps[..i]).queue.rows)
    ensures After(accepts, steps[..i]).queue.nextId < After(accepts, steps[..j]).queue.nextId
  {
    assert steps[..j][..j - 1] == steps[..j - 1];
    if i < j - 1 {
      IdsGrow(accepts, steps, i, j - 1);
    }
  }
}
