/**
 Store and forward: the agent's SQLite queue, its upload loop, and the server's
 idempotent ingest, each as a class over its table and as steps of one protocol.
 */
module ActivityDelivery {
  import opened Common
  import opened ActivityBatches

  const MAX_BYTES: int := 500 * 1024 * 1024
  const MAX_AGE: int := 7 * 24 * 60 * 60 * MICROS_PER_SECOND
  const TRIM_ROWS: nat := 5000
  const MAX_RETRY_SECONDS: nat := 300

  // --- The agent's queue --------------------------------------------------------

  datatype QueueRow = QueueRow(id: nat, event: EventInput, createdAt: int)

  datatype QueueState = QueueState(rows: seq<QueueRow>, nextId: nat)

  function Events(rows: seq<QueueRow>): seq<EventInput> {
    seq(|rows|, i requires 0 <= i < |rows| => rows[i].event)
  }

  function QueuedUuids(rows: seq<QueueRow>): set<nat> {
    set i | 0 <= i < |rows| :: rows[i].event.eventUuid
  }

  // INSERT OR IGNORE on a unique event_uuid, with AUTOINCREMENT ids.
  function Insert(q: QueueState, item: EventInput, now: int): QueueState {
    if item.eventUuid in QueuedUuids(q.rows) then q
    else QueueState(q.rows + [QueueRow(q.nextId, item, now)], q.nextId + 1)
  }

  function YoungerThan(rows: seq<QueueRow>, cutoff: int): seq<QueueRow> {
    if rows == [] then []
    else YoungerThan(rows[..|rows| - 1], cutoff)
         + (if rows[|rows| - 1].createdAt < cutoff then [] else [rows[|rows| - 1]])
  }

  function EnforceLimits(q: QueueState, now: int, databaseBytes: int): QueueState {
    var young := YoungerThan(q.rows, now - MAX_AGE);
    q.(rows := if databaseBytes <= MAX_BYTES then young else young[Min(TRIM_ROWS, |young|)..])
  }

  function Enqueued(q: QueueState, item: EventInput, now: int, databaseBytes: int): QueueState {
    EnforceLimits(Insert(q, item, now), now, databaseBytes)
  }

  function Oldest(q: QueueState, limit: nat): seq<QueueRow> {
    q.rows[..Min(limit, |q.rows|)]
  }

  function Without(rows: seq<QueueRow>, ids: set<nat>): seq<QueueRow> {
    if rows == [] then []
    else Without(rows[..|rows| - 1], ids) + (if rows[|rows| - 1].id in ids then [] else [rows[|rows| - 1]])
  }

  function IdsOf(rows: seq<QueueRow>): seq<nat> {
    seq(|rows|, i requires 0 <= i < |rows| => rows[i].id)
  }

  function Ids(rows: seq<QueueRow>): set<nat> {
    Members(IdsOf(rows))
  }

  function Deleted(q: QueueState, batch: seq<QueueRow>): QueueState {
    q.(rows := Without(q.rows, Ids(batch)))
  }

  ghost predicate ValidQueue(q: QueueState) {
    && (forall i, j :: 0 <= i < j < |q.rows| ==> q.rows[i].id < q.rows[j].id)
    && (forall i :: 0 <= i < |q.rows| ==> q.rows[i].id < q.nextId)
    && (forall i, j :: 0 <= i < j < |q.rows| ==> q.rows[i].event.eventUuid != q.rows[j].event.eventUuid)
  }

  class ActivityQueue {
    var rows: seq<QueueRow>
    var nextId: nat
    var initialized: bool

    ghost function State(): QueueState
      reads this
    {
      QueueState(rows, nextId)
    }

    constructor ()
      ensures State() == QueueState([], 0) && !initialized
    {
      rows, nextId, initialized := [], 0, false;
    }

    // CREATE TABLE IF NOT EXISTS: initializing twice changes nothing.
    method Initialize()
      modifies this`initialized
      ensures initialized
    {
      if !initialized {
        initialized := true;
      }
    }

    method Enqueue(item: EventInput, now: int, databaseBytes: int)
      modifies this`rows, this`nextId
      ensures State() == Enqueued(old(State()), item, now, databaseBytes)
    {
      if item.eventUuid !in QueuedUuids(rows) {
        rows := rows + [QueueRow(nextId, item, now)];
        nextId := nextId + 1;
      }
      rows := YoungerThan(rows, now - MAX_AGE);
      if databaseBytes <= MAX_BYTES {
        return;
      }
      rows := rows[Min(TRIM_ROWS, |rows|)..];
    }

    method Take(limit: nat) returns (batch: seq<QueueRow>)
      ensures batch == Oldest(State(), limit)
    {
      batch := [];
      while |batch| < limit && |batch| < |rows|
        invariant |batch| <= limit && |batch| <= |rows|
        invariant batch == rows[..|batch|]
        decreases |rows| - |batch|
      {
        batch := batch + [rows[|batch|]];
      }
    }

    // One DELETE per id, committed together.
    method Delete(ids: seq<nat>)
      modifies this`rows
      ensures rows == Without(old(rows), Members(ids))
    {
      WithoutNothing(rows);
      assert Members(ids[..0]) == {};
      for i := 0 to |ids|
        invariant rows == Without(old(rows), Members(ids[..i]))
      {
        WithoutTwice(old(rows), Members(ids[..i]), {ids[i]});
        assert Members(ids[..i + 1]) == Members(ids[..i]) + {ids[i]};
        rows := Without(rows, {ids[i]});
      }
      assert ids[..|ids|] == ids;
    }
  }

  lemma {:induction false} WithoutNothing(rows: seq<QueueRow>)
    ensures Without(rows, {}) == rows
  {
    if rows != [] {
      WithoutNothing(rows[..|rows| - 1]);
    }
  }

  lemma {:induction false} WithoutTwice(rows: seq<QueueRow>, a: set<nat>, b: set<nat>)
    ensures Without(Without(rows, a), b) == Without(rows, a + b)
  {
    if rows != [] {
      var n := |rows| - 1;
      WithoutTwice(rows[..n], a, b);
      var kept := Without(rows[..n], a);
      assert (kept + [rows[n]])[..|kept|] == kept;
      assert kept + [] == kept;
    }
  }

  // Filtering keeps a valid queue valid and only loses rows.
  ghost predicate Subqueue(rows: seq<QueueRow>, of: seq<QueueRow>) {
    && (forall i :: 0 <= i < |rows| ==> rows[i] in of)
    && (forall i, j :: 0 <= i < j < |rows| ==> rows[i].id < rows[j].id)
  }

  lemma {:induction false} WithoutIsExact(rows: seq<QueueRow>, ids: set<nat>)
    requires forall i, j :: 0 <= i < j < |rows| ==> rows[i].id < rows[j].id
    ensures Subqueue(Without(rows, ids), rows)
    ensures forall r :: r in Without(rows, ids) <==> r in rows && r.id !in ids
  {
    if rows != [] {
      WithoutIsExact(rows[..|rows| - 1], ids);
    }
  }

  lemma {:induction false} YoungerThanIsExact(rows: seq<QueueRow>, cutoff: int)
    requires forall i, j :: 0 <= i < j < |rows| ==> rows[i].id < rows[j].id
    ensures Subqueue(YoungerThan(rows, cutoff), rows)
    ensures forall r :: r in YoungerThan(rows, cutoff) <==> r in rows && r.createdAt >= cutoff
  {
    if rows != [] {
      YoungerThanIsExact(rows[..|rows| - 1], cutoff);
    }
  }

  lemma SubqueueIsValid(q: QueueState, rows: seq<QueueRow>)
    requires ValidQueue(q) && Subqueue(rows, q.rows)
    ensures ValidQueue(q.(rows := rows))
    ensures QueuedUuids(rows) <= QueuedUuids(q.rows)
  {
    forall i, j | 0 <= i < j < |rows|
      ensures rows[i].event.eventUuid != rows[j].event.eventUuid
    {
      assert rows[i] in q.rows && rows[j] in q.rows;
      var a :| 0 <= a < |q.rows| && q.rows[a] == rows[i];
      var b :| 0 <= b < |q.rows| && q.rows[b] == rows[j];
      assert a != b;
    }
  }

  lemma InsertIsValid(q: QueueState, item: EventInput, now: int)
    requires ValidQueue(q)
    ensures ValidQueue(Insert(q, item, now))
  {
    assert forall i :: 0 <= i < |q.rows| ==> q.rows[i].event.eventUuid in QueuedUuids(q.rows);
  }

  lemma EnqueuedIsValid(q: QueueState, item: EventInput, now: int, databaseBytes: int)
    requires ValidQueue(q)
    ensures ValidQueue(Enqueued(q, item, now, databaseBytes))
    ensures Subqueue(Enqueued(q, item, now, databaseBytes).rows, Insert(q, item, now).rows)
    ensures q.nextId <= Enqueued(q, item, now, databaseBytes).nextId
  {
    var inserted := Insert(q, item, now);
    InsertIsValid(q, item, now);
    YoungerThanIsExact(inserted.rows, now - MAX_AGE);
    SubqueueIsValid(inserted, Enqueued(q, item, now, databaseBytes).rows);
  }

  // --- The server's table -----------------------------------------------------------

  function StoredUuids(table: seq<EventInput>): set<nat> {
    set i | 0 <= i < |table| :: table[i].eventUuid
  }

  // ON CONFLICT(event_uuid) DO NOTHING
  function InsertNew(table: seq<EventInput>, e: EventInput): seq<EventInput> {
    if e.eventUuid in StoredUuids(table) then table else table + [e]
  }

  function Ingest(table: seq<EventInput>, batch: seq<EventInput>): seq<EventInput> {
    if batch == [] then table else InsertNew(Ingest(table, batch[..|batch| - 1]), batch[|batch| - 1])
  }

  ghost predicate UniqueUuids(table: seq<EventInput>) {
    forall i, j :: 0 <= i < j < |table| ==> table[i].eventUuid != table[j].eventUuid
  }

  lemma StoredUuidsSnoc(table: seq<EventInput>, e: EventInput)
    ensures StoredUuids(table + [e]) == StoredUuids(table) + {e.eventUuid}
    ensures UniqueUuids(table) && e.eventUuid !in StoredUuids(table) ==> UniqueUuids(table + [e])
  {
    var after := table + [e];
    assert forall i :: 0 <= i < |table| ==> after[i] == table[i];
    assert after[|table|] == e;
  }

  // What one ingest does: old rows stay, every UUID of the batch is there, once,
  // and whatever is new comes from the batch.
  lemma {:induction false} IngestIsExact(table: seq<EventInput>, batch: seq<EventInput>)
    requires UniqueUuids(table)
    ensures UniqueUuids(Ingest(table, batch))
    ensures table <= Ingest(table, batch)
    ensures StoredUuids(Ingest(table, batch)) == StoredUuids(table) + StoredUuids(batch)
    ensures forall e :: e in Ingest(table, batch) ==> e in table || e in batch
    ensures |table| <= |Ingest(table, batch)| <= |table| + |batch|
  {
    if batch != [] {
      var n := |batch| - 1;
      IngestIsExact(table, batch[..n]);
      var before, after := Ingest(table, batch[..n]), Ingest(table, batch);
      assert batch == batch[..n] + [batch[n]];
      StoredUuidsSnoc(batch[..n], batch[n]);
      if batch[n].eventUuid !in StoredUuids(before) {
        StoredUuidsSnoc(before, batch[n]);
      }
    }
  }

  // Sending the same events again stores nothing.
  lemma {:induction false} IngestIsIdempotent(table: seq<EventInput>, batch: seq<EventInput>)
    requires StoredUuids(batch) <= StoredUuids(table)
    ensures Ingest(table, batch) == table
  {
    if batch != [] {
      var n := |batch| - 1;
      assert forall i :: 0 <= i < n ==> batch[..n][i] == batch[i];
      IngestIsIdempotent(table, batch[..n]);
      assert batch[n].eventUuid in StoredUuids(batch);
    }
  }

  class ActivityStore {
    var table: seq<EventInput>

    constructor ()
      ensures table == []
    {
      table := [];
    }

    method Receive(batch: seq<EventInput>) returns (accepted: nat, duplicates: nat)
      requires UniqueUuids(table)
      modifies this
      ensures table == Ingest(old(table), batch)
      ensures accepted == |table| - |old(table)|
      ensures accepted + duplicates == |batch|
    {
      accepted := 0;
      for i := 0 to |batch|
        invariant table == Ingest(old(table), batch[..i])
        invariant accepted <= i && accepted == |table| - |old(table)|
      {
        assert batch[..i + 1][..i] == batch[..i];
        if batch[i].eventUuid !in StoredUuids(table) {
          table := table + [batch[i]];
          accepted := accepted + 1;
        }
      }
      assert batch[..|batch|] == batch;
      duplicates := |batch| - accepted;
    }
  }

  // --- The protocol -------------------------------------------------------------------

  // The server's verdict on a request body; AcceptableBatch is the one it applies.
  type Validator = (Stamp, seq<EventInput>) -> bool

  datatype Worker = Waiting | Sending(batch: seq<QueueRow>) | Confirmed(batch: seq<QueueRow>)

  // `network` are requests the server may still handle, any number of times, even after
  // the worker gave up on them; `answered` are the requests it has answered with success.
  datatype System = System(
    queue: QueueState, worker: Worker, network: set<seq<QueueRow>>, answered: set<seq<QueueRow>>,
    table: seq<EventInput>, acceptedSum: nat, enqueued: set<EventInput>, evicted: set<nat>, accepts: Validator)

  ghost function Start(accepts: Validator): System {
    System(QueueState([], 0), Waiting, {}, {}, [], 0, {}, {}, accepts)
  }

  datatype Step =
    | Enqueue(item: EventInput, now: int, databaseBytes: int)
    | TakeBatch(limit: nat)
    | Handle(request: seq<QueueRow>, sentAt: Stamp)
    | ReceiveAnswer
    | GiveUp
    | DeleteBatch

  ghost function Apply(s: System, step: Step): System {
    match step
    case Enqueue(item, now, bytes) =>
      var q := Enqueued(s.queue, item, now, bytes);
      s.(queue := q, enqueued := s.enqueued + {item},
         evicted := s.evicted + (QueuedUuids(Insert(s.queue, item, now).rows) - QueuedUuids(q.rows)))
    case TakeBatch(limit) =>
      var batch := Oldest(s.queue, limit);
      if s.worker.Waiting? && batch != [] then s.(worker := Sending(batch), network := s.network + {batch}) else s
    case Handle(request, sentAt) =>
      if request in s.network && s.accepts(sentAt, Events(request)) then
        var table := Ingest(s.table, Events(request));
        s.(table := table, acceptedSum := s.acceptedSum + (if |table| >= |s.table| then |table| - |s.table| else 0),
           answered := s.answered + {request})
      else s
    case ReceiveAnswer =>
      if s.worker.Sending? && s.worker.batch in s.answered then s.(worker := Confirmed(s.worker.batch)) else s
    case GiveUp =>
      s.(worker := Waiting)
    case DeleteBatch =>
      if s.worker.Confirmed? then
        s.(worker := Waiting, queue := Deleted(s.queue, s.worker.batch))
      else s
  }

  ghost function Execute(s: System, steps: seq<Step>): System {
    if steps == [] then s else Apply(Execute(s, steps[..|steps| - 1]), steps[|steps| - 1])
  }

  function Batches(s: System): set<seq<QueueRow>> {
    s.network + s.answered + (if s.worker.Waiting? then {} else {s.worker.batch})
  }

  // Ids are never reused, so a row that still has a taken id is the taken row.
  ghost predicate BatchesAreTaken(s: System) {
    forall batch, b, r :: batch in Batches(s) && b in batch && r in s.queue.rows && b.id == r.id ==> b == r
  }

  ghost predicate BatchesAreOld(s: System) {
    forall batch, b :: batch in Batches(s) && b in batch ==> b.id < s.queue.nextId && b.event in s.enqueued
  }

  ghost predicate AnswersAreStored(s: System) {
    forall batch :: batch in s.answered ==> StoredUuids(Events(batch)) <= StoredUuids(s.table)
  }

  ghost predicate ConfirmedIsAnswered(s: System) {
    && (s.worker.Sending? ==> s.worker.batch in s.network)
    && (s.worker.Confirmed? ==> s.worker.batch in s.answered)
    && s.answered <= s.network
  }

  // Every enqueued event is in the queue, on the server, or was evicted.
  ghost predicate NothingIsLost(s: System) {
    forall e :: e in s.enqueued ==>
      e.eventUuid in QueuedUuids(s.queue.rows) || e.eventUuid in StoredUuids(s.table) || e.eventUuid in s.evicted
  }

  // The server holds each UUID once, counted once, and nothing that was not enqueued.
  ghost predicate StoredOnce(s: System) {
    && UniqueUuids(s.table)
    && s.acceptedSum == |s.table|
    && (forall e :: e in s.table ==> e in s.enqueued)
    && (forall r :: r in s.queue.rows ==> r.event in s.enqueued)
  }

  ghost predicate Invariant(s: System) {
    && ValidQueue(s.queue) && BatchesAreTaken(s) && BatchesAreOld(s) && AnswersAreStored(s) && ConfirmedIsAnswered(s)
    && NothingIsLost(s) && StoredOnce(s)
  }

  lemma EnqueueKeepsInvariant(s: System, item: EventInput, now: int, bytes: int)
    requires Invariant(s)
    ensures Invariant(Apply(s, Enqueue(item, now, bytes)))
  {
    var s' := Apply(s, Enqueue(item, now, bytes));
    var inserted := Insert(s.queue, item, now);
    EnqueuedIsValid(s.queue, item, now, bytes);
    assert forall i :: 0 <= i < |s.queue.rows| ==> inserted.rows[i] == s.queue.rows[i];
    assert item.eventUuid in QueuedUuids(inserted.rows) by {
      if inserted != s.queue {
        assert inserted.rows[|s.queue.rows|].event == item;
      }
    }
    assert QueuedUuids(s.queue.rows) <= QueuedUuids(inserted.rows);
    forall r | r in s'.queue.rows
      ensures r in s.queue.rows || (r.id == s.queue.nextId && r.event == item)
    {
      assert r in inserted.rows;
    }
  }

  lemma SameIdSameRow(q: QueueState, a: QueueRow, b: QueueRow)
    requires ValidQueue(q) && a in q.rows && b in q.rows && a.id == b.id
    ensures a == b
  {
    var i :| 0 <= i < |q.rows| && q.rows[i] == a;
    var j :| 0 <= j < |q.rows| && q.rows[j] == b;
    assert !(i < j) && !(j < i);
  }

  lemma SameUuidSameRow(q: QueueState, a: QueueRow, b: QueueRow)
    requires ValidQueue(q) && a in q.rows && b in q.rows && a.event.eventUuid == b.event.eventUuid
    ensures a == b
  {
    var i :| 0 <= i < |q.rows| && q.rows[i] == a;
    var j :| 0 <= j < |q.rows| && q.rows[j] == b;
    assert !(i < j) && !(j < i);
  }

  lemma TakeKeepsInvariant(s: System, limit: nat)
    requires Invariant(s)
    ensures Invariant(Apply(s, TakeBatch(limit)))
  {
    var batch := Oldest(s.queue, limit);
    if s.worker.Waiting? && batch != [] {
      assert forall b :: b in batch ==> b in s.queue.rows;
      SendKeepsInvariant(s, batch);
    }
  }

  lemma SendKeepsInvariant(s: System, batch: seq<QueueRow>)
    requires Invariant(s) && s.worker.Waiting?
    requires forall b :: b in batch ==> b in s.queue.rows
    ensures Invariant(s.(worker := Sending(batch), network := s.network + {batch}))
  {
    var s' := s.(worker := Sending(batch), network := s.network + {batch});
    forall other, b, r | other in Batches(s') && b in other && r in s'.queue.rows && b.id == r.id
      ensures b == r
    {
      if other == batch {
        SameIdSameRow(s.queue, b, r);
      } else {
        assert other in Batches(s);
      }
    }
    forall other, b | other in Batches(s') && b in other
      ensures b.id < s.queue.nextId && b.event in s.enqueued
    {
      if other != batch {
        assert other in Batches(s);
      }
    }
  }

  lemma HandleKeepsInvariant(s: System, request: seq<QueueRow>, sentAt: Stamp)
    requires Invariant(s)
    ensures Invariant(Apply(s, Handle(request, sentAt)))
  {
    if request in s.network && s.accepts(sentAt, Events(request)) {
      StoreKeepsInvariant(s, request, Ingest(s.table, Events(request)));
    }
  }

  lemma StoreKeepsInvariant(s: System, request: seq<QueueRow>, table: seq<EventInput>)
    requires Invariant(s) && request in s.network && table == Ingest(s.table, Events(request))
    ensures |table| >= |s.table|
    ensures Invariant(s.(table := table, acceptedSum := s.acceptedSum + (|table| - |s.table|),
                         answered := s.answered + {request}))
  {
    IngestIsExact(s.table, Events(request));
    var s' := s.(table := table, acceptedSum := s.acceptedSum + (|table| - |s.table|),
                 answered := s.answered + {request});
    assert Batches(s') == Batches(s);
    forall e | e in table
      ensures e in s.enqueued
    {
      if e in Events(request) {
        var i :| 0 <= i < |request| && Events(request)[i] == e;
        assert request[i] in request && request in Batches(s);
      }
    }
  }

  // A delete takes out rows of the confirmed batch only, and the server has them all.
  lemma DeleteIsSafe(s: System)
    requires Invariant(s) && s.worker.Confirmed?
    ensures forall r :: r in s.queue.rows && r !in Apply(s, DeleteBatch).queue.rows ==>
              r in s.worker.batch && r.event.eventUuid in StoredUuids(s.table)
    ensures forall r :: r in s.queue.rows && r !in s.worker.batch ==> r in Apply(s, DeleteBatch).queue.rows
    ensures forall r :: r in Apply(s, DeleteBatch).queue.rows ==> r in s.queue.rows && r !in s.worker.batch
  {
    var batch := s.worker.batch;
    WithoutIsExact(s.queue.rows, Ids(batch));
    forall r | r in s.queue.rows
      ensures r.id in Ids(batch) <==> r in batch
      ensures r in batch ==> r.event.eventUuid in StoredUuids(s.table)
    {
      assert batch in Batches(s);
      if r.id in Ids(batch) {
        var i :| 0 <= i < |batch| && IdsOf(batch)[i] == r.id;
        assert batch[i] in batch;
      }
      if r in batch {
        var i :| 0 <= i < |batch| && batch[i] == r;
        assert IdsOf(batch)[i] == r.id && Events(batch)[i] == r.event;
      }
    }
  }

  lemma DeleteLosesNothing(s: System, e: EventInput)
    requires Invariant(s) && s.worker.Confirmed? && e in s.enqueued && e.eventUuid in QueuedUuids(s.queue.rows)
    ensures e.eventUuid in QueuedUuids(Apply(s, DeleteBatch).queue.rows) || e.eventUuid in StoredUuids(s.table)
  {
    DeleteIsSafe(s);
    var rows := Apply(s, DeleteBatch).queue.rows;
    var i :| 0 <= i < |s.queue.rows| && s.queue.rows[i].event.eventUuid == e.eventUuid;
    if s.queue.rows[i] in rows {
      var j :| 0 <= j < |rows| && rows[j] == s.queue.rows[i];
      assert rows[j].event.eventUuid == e.eventUuid;
    }
  }

  lemma DeleteFreesWorker(s: System)
    requires s.worker.Confirmed?
    ensures Apply(s, DeleteBatch).worker == Waiting
  {
  }

  lemma DeleteKeepsInvariant(s: System)
    requires Invariant(s)
    ensures Invariant(Apply(s, DeleteBatch))
  {
    if s.worker.Confirmed? {
      var s' := Apply(s, DeleteBatch);
      DeleteIsSafe(s);
      DeleteFreesWorker(s);
      WithoutIsExact(s.queue.rows, Ids(s.worker.batch));
      SubqueueIsValid(s.queue, s'.queue.rows);
      assert Batches(s') <= Batches(s);
      forall e | e in s.enqueued
        ensures e.eventUuid in QueuedUuids(s'.queue.rows) || e.eventUuid in StoredUuids(s.table)
                || e.eventUuid in s.evicted
      {
        if e.eventUuid in QueuedUuids(s.queue.rows) {
          DeleteLosesNothing(s, e);
        }
      }
    }
  }

  lemma StepKeepsInvariant(s: System, step: Step)
    requires Invariant(s)
    ensures Invariant(Apply(s, step))
  {
    match step
    case Enqueue(item, now, bytes) => EnqueueKeepsInvariant(s, item, now, bytes);
    case TakeBatch(limit) => TakeKeepsInvariant(s, limit);
    case Handle(request, sentAt) => HandleKeepsInvariant(s, request, sentAt);
    case ReceiveAnswer => assert Batches(Apply(s, ReceiveAnswer)) == Batches(s);
    case GiveUp => assert Batches(Apply(s, GiveUp)) <= Batches(s);
    case DeleteBatch => DeleteKeepsInvariant(s);
  }

  // Exactly-once delivery, over every interleaving of the steps and whatever the
  // server refuses.
  lemma {:induction false} ExactlyOnce(accepts: Validator, steps: seq<Step>)
    ensures Invariant(Execute(Start(accepts), steps))
  {
    if steps != [] {
      ExactlyOnce(accepts, steps[..|steps| - 1]);
      StepKeepsInvariant(Execute(Start(accepts), steps[..|steps| - 1]), steps[|steps| - 1]);
    }
  }
}
