/** How far the upload loop gets, and that queued rows leave while others arrive. */
module UploadProgress {
  import opened Common
  import opened ActivityBatches
  import opened ActivityDelivery
  import opened ActivityUpload

  // --- What one answered attempt does -------------------------------------------------

  lemma {:induction false} WithoutPrefix(rows: seq<QueueRow>, k: nat)
    requires k <= |rows| && forall i, j :: 0 <= i < j < |rows| ==> rows[i].id < rows[j].id
    ensures Without(rows, Ids(rows[..k])) == rows[k..]
  {
    var ids := Ids(rows[..k]);
    forall i | 0 <= i < |rows|
      ensures rows[i].id in ids <==> i < k
    {
      if i < k {
        assert IdsOf(rows[..k])[i] == rows[i].id;
      }
    }
    WithoutCut(rows, ids, k);
  }

  lemma {:induction false} WithoutCut(rows: seq<QueueRow>, ids: set<nat>, k: nat)
    requires k <= |rows| && forall i :: 0 <= i < |rows| ==> (rows[i].id in ids <==> i < k)
    ensures Without(rows, ids) == rows[k..]
  {
    if rows != [] {
      var n := |rows| - 1;
      var earlier := rows[..n];
      assert rows == earlier + [rows[n]];
      WithoutCut(earlier, ids, Min(k, n));
      if k <= n {
        assert (earlier + [rows[n]])[k..] == earlier[k..] + [rows[n]];
      } else {
        assert earlier[n..] == [];
      }
    }
  }

  // One answered attempt moves exactly the oldest batch from the queue to the server.
  lemma AttemptDelivers(l: Link, l': Link, limit: nat, sentAt: Stamp)
    requires ValidQueue(l.queue) && l' == AttemptOnce(l, limit, Reached(sentAt, true))
    requires Oldest(l.queue, limit) != [] ==> l.accepts(sentAt, Events(Oldest(l.queue, limit)))
    ensures l'.queue == l.queue.(rows := l.queue.rows[Min(limit, |l.queue.rows|)..])
    ensures l'.table == Ingest(l.table, Events(l.queue.rows[..Min(limit, |l.queue.rows|)]))
    ensures l'.retrySeconds == 1 && l'.accepts == l.accepts
  {
    var k := Min(limit, |l.queue.rows|);
    if k > 0 {
      WithoutPrefix(l.queue.rows, k);
    } else {
      assert l.queue.rows[0..] == l.queue.rows;
    }
  }

  // --- Which rows can be delivered at all -----------------------------------------------

  // The verdict on a request looks at its time only to ask for a zone.
  ghost predicate JudgedBy(accepts: Validator, judge: seq<EventInput> -> bool) {
    forall sentAt, batch :: accepts(sentAt, batch) <==> sentAt.hasZone && judge(batch)
  }

  ghost predicate AcceptableContent(batch: seq<EventInput>) {
    AcceptableBatch(Stamp(0, true), batch)
  }

  lemma ServerJudges()
    ensures JudgedBy(AcceptableBatch, AcceptableContent)
  {
  }

  // The queue cut into batches of `limit` rows, oldest first, all of them acceptable.
  ghost predicate ChunksAcceptable(rows: seq<QueueRow>, limit: nat, judge: seq<EventInput> -> bool)
    requires 0 < limit
    decreases |rows|
  {
    rows == [] ||
    (var n := Min(limit, |rows|); judge(Events(rows[..n])) && ChunksAcceptable(rows[n..], limit, judge))
  }

  function Batch(rows: seq<QueueRow>, k: nat, limit: nat): seq<QueueRow>
    requires k <= |rows|
  {
    rows[k..k + Min(limit, |rows| - k)]
  }

  ghost predicate Passes(batch: seq<QueueRow>, judge: seq<EventInput> -> bool) {
    batch != [] && judge(Events(batch))
  }

  // Where the acceptable batches that start at k end.
  ghost function Front(rows: seq<QueueRow>, k: nat, limit: nat, judge: seq<EventInput> -> bool): (d: nat)
    requires k <= |rows|
    ensures k <= d <= |rows|
    decreases |rows| - k
  {
    var batch := Batch(rows, k, limit);
    if Passes(batch, judge) then Front(rows, k + |batch|, limit, judge) else k
  }

  // The number of rows before the first batch that is refused.
  ghost function Deliverable(rows: seq<QueueRow>, limit: nat, judge: seq<EventInput> -> bool): (d: nat)
    ensures d <= |rows|
  {
    Front(rows, 0, limit, judge)
  }

  lemma ChunksBehind(rows: seq<QueueRow>, k: nat, limit: nat, judge: seq<EventInput> -> bool)
    requires 0 < limit && k < |rows|
    ensures var batch := Batch(rows, k, limit);
            ChunksAcceptable(rows[k..], limit, judge) <==>
              Passes(batch, judge) && ChunksAcceptable(rows[k + |batch|..], limit, judge)
  {
    var batch, rest := Batch(rows, k, limit), rows[k..];
    assert Min(limit, |rest|) == |batch|;
    assert rest[..|batch|] == batch && rest[|batch|..] == rows[k + |batch|..];
  }

  lemma {:induction false} FrontIsEndExactly(rows: seq<QueueRow>, k: nat, limit: nat, judge: seq<EventInput> -> bool)
    requires 0 < limit && k <= |rows|
    ensures Front(rows, k, limit, judge) == |rows| <==> ChunksAcceptable(rows[k..], limit, judge)
    decreases |rows| - k
  {
    if k < |rows| {
      var n := |Batch(rows, k, limit)|;
      ChunksBehind(rows, k, limit, judge);
      FrontIsEndExactly(rows, k + n, limit, judge);
    }
  }

  // Where n batches of a deliverable front of d rows end.
  function Reach(n: nat, limit: nat, d: nat): (k: nat)
    ensures k <= d
  {
    if n == 0 then 0 else Min(Reach(n - 1, limit, d) + limit, d)
  }

  lemma {:induction false} ReachExactly(n: nat, limit: nat, d: nat)
    ensures Reach(n, limit, d) == Min(n * limit, d)
  {
    if n > 0 {
      ReachExactly(n - 1, limit, d);
      assert n * limit == (n - 1) * limit + limit;
    }
  }

  // The batch at k is acceptable and ends at k', or the front ends at k.
  ghost predicate LeadsTo(rows: seq<QueueRow>, k: nat, k': nat, limit: nat, judge: seq<EventInput> -> bool, d: nat)
    requires k <= |rows|
  {
    if Passes(Batch(rows, k, limit), judge) then k' == k + |Batch(rows, k, limit)| else k == d == k'
  }

  lemma FrontLeadsTo(rows: seq<QueueRow>, k: nat, limit: nat, judge: seq<EventInput> -> bool, d: nat)
    requires k <= |rows| && d == Front(rows, k, limit, judge)
    ensures LeadsTo(rows, k, Min(k + limit, d), limit, judge, d)
    ensures Front(rows, Min(k + limit, d), limit, judge) == d
  {
  }

  // After n batches the front still ends at the same row.
  lemma {:induction false} ReachIsInFront(rows: seq<QueueRow>, n: nat, limit: nat, judge: seq<EventInput> -> bool,
                                          d: nat)
    requires d == Front(rows, 0, limit, judge)
    ensures Front(rows, Reach(n, limit, d), limit, judge) == d
  {
    if n > 0 {
      var k := Reach(n - 1, limit, d);
      ReachIsInFront(rows, n - 1, limit, judge, d);
      FrontLeadsTo(rows, k, limit, judge, d);
      assert Reach(n, limit, d) == Min(k + limit, d);
    }
  }

  lemma ReachLeads(rows: seq<QueueRow>, n: nat, limit: nat, judge: seq<EventInput> -> bool, d: nat)
    requires d == Deliverable(rows, limit, judge)
    ensures Reach(n, limit, d) <= Reach(n + 1, limit, d)
    ensures LeadsTo(rows, Reach(n, limit, d), Reach(n + 1, limit, d), limit, judge, d)
  {
    ReachIsInFront(rows, n, limit, judge, d);
    FrontLeadsTo(rows, Reach(n, limit, d), limit, judge, d);
  }

  // --- How far any sequence of attempts gets ----------------------------------------------

  // The server hears of the attempt, and its answer comes back.
  predicate Heard(outcome: Outcome) {
    outcome.Reached? && outcome.sentAt.hasZone && outcome.answered
  }

  function Answered(outcomes: seq<Outcome>): nat {
    if outcomes == [] then 0
    else
      var n := |outcomes| - 1;
      Answered(outcomes[..n]) + if Heard(outcomes[n]) then 1 else 0
  }

  // The k oldest rows have left the queue and are stored; of the others, up to d, some may
  // be stored already, by attempts whose answer was lost.
  ghost predicate DrainedTo(l: Link, l': Link, k: nat, d: nat)
    requires k <= d <= |l.queue.rows|
  {
    && UniqueUuids(l'.table) && l'.accepts == l.accepts
    && l'.queue == l.queue.(rows := l.queue.rows[k..])
    && StoredUuids(l.table) + QueuedUuids(l.queue.rows[..k]) <= StoredUuids(l'.table)
    && StoredUuids(l'.table) <= StoredUuids(l.table) + QueuedUuids(l.queue.rows[..d])
  }

  lemma UuidsOfSlices(rows: seq<QueueRow>, k: nat, k': nat)
    requires k <= k' <= |rows|
    ensures QueuedUuids(rows[..k']) == QueuedUuids(rows[..k]) + StoredUuids(Events(rows[k..k']))
  {
    var tail := Events(rows[k..k']);
    forall u | u in QueuedUuids(rows[..k'])
      ensures u in QueuedUuids(rows[..k]) + StoredUuids(tail)
    {
      var i :| 0 <= i < k' && rows[..k'][i].event.eventUuid == u;
      if i < k {
        assert rows[..k][i].event.eventUuid == u;
      } else {
        assert tail[i - k].eventUuid == u;
      }
    }
    forall u | u in QueuedUuids(rows[..k]) + StoredUuids(tail)
      ensures u in QueuedUuids(rows[..k'])
    {
      if u in QueuedUuids(rows[..k]) {
        var i :| 0 <= i < k && rows[..k][i].event.eventUuid == u;
        assert rows[..k'][i].event.eventUuid == u;
      } else {
        var i :| 0 <= i < |tail| && tail[i].eventUuid == u;
        assert rows[..k'][k + i].event.eventUuid == u;
      }
    }
  }

  lemma PrefixUuids(rows: seq<QueueRow>, k: nat, d: nat)
    requires k <= d <= |rows|
    ensures QueuedUuids(rows[..k]) <= QueuedUuids(rows[..d])
  {
    UuidsOfSlices(rows, k, d);
  }

  // Ingesting a run of the queue that starts at k stores it and nothing else.
  lemma IngestDrains(l: Link, m: Link, m': Link, k: nat, j: nat, k': nat, d: nat)
    requires k <= j <= d <= |l.queue.rows| && DrainedTo(l, m, k, d) && (k' == k || k' == j)
    requires m'.accepts == m.accepts && m'.queue == m.queue.(rows := m.queue.rows[k' - k..])
    requires m'.table == Ingest(m.table, Events(m.queue.rows[..j - k]))
    ensures DrainedTo(l, m', k', d)
  {
    var rows := l.queue.rows;
    assert m.queue.rows[..j - k] == rows[k..j] && m.queue.rows[k' - k..] == rows[k'..];
    IngestIsExact(m.table, Events(rows[k..j]));
    UuidsOfSlices(rows, k, j);
    PrefixUuids(rows, j, d);
  }

  lemma SuffixIsValid(q: QueueState, q': QueueState, k: nat)
    requires ValidQueue(q) && k <= |q.rows| && q' == q.(rows := q.rows[k..])
    ensures ValidQueue(q') && |q'.rows| == |q.rows| - k
  {
  }

  lemma OldestIsBatch(q: QueueState, q': QueueState, k: nat, limit: nat)
    requires k <= |q.rows| && q' == q.(rows := q.rows[k..])
    ensures Oldest(q', limit) == Batch(q.rows, k, limit)
  {
  }

  // Every run of consecutive queued events is acceptable, as the output of one epoch is.
  ghost predicate AllRunsAcceptable(rows: seq<QueueRow>, judge: seq<EventInput> -> bool) {
    forall lo, hi :: 0 <= lo < hi <= |rows| && hi - lo <= MAX_BATCH ==> judge(Events(rows[lo..hi]))
  }

  lemma {:induction false} RunsAreDeliverable(rows: seq<QueueRow>, k: nat, limit: nat, judge: seq<EventInput> -> bool)
    requires AllRunsAcceptable(rows, judge) && 0 < limit <= MAX_BATCH && k <= |rows|
    ensures Front(rows, k, limit, judge) == |rows|
    decreases |rows| - k
  {
    if k < |rows| {
      var batch := Batch(rows, k, limit);
      assert batch == rows[k..k + |batch|];
      RunsAreDeliverable(rows, k + |batch|, limit, judge);
    }
  }

  // One attempt from k on: it moves the next acceptable batch if it is heard, and else at
  // most stores it.
  lemma DrainOnce(l: Link, m: Link, m': Link, limit: nat, outcome: Outcome, judge: seq<EventInput> -> bool, k: nat,
                  k': nat, d: nat)
    requires ValidQueue(l.queue) && JudgedBy(l.accepts, judge)
    requires k <= k' <= d <= |l.queue.rows| && DrainedTo(l, m, k, d) && m' == AttemptOnce(m, limit, outcome)
    requires LeadsTo(l.queue.rows, k, k', limit, judge, d)
    ensures DrainedTo(l, m', if Heard(outcome) then k' else k, d)
  {
    var batch := Oldest(m.queue, limit);
    OldestIsBatch(l.queue, m.queue, k, limit);
    SuffixIsValid(l.queue, m.queue, k);
    assert m.queue.rows[0..] == m.queue.rows;
    if batch != [] && outcome.Reached? && m.accepts(outcome.sentAt, Events(batch)) {
      assert Passes(batch, judge);
      if outcome.answered {
        AttemptDelivers(m, m', limit, outcome.sentAt);
        IngestDrains(l, m, m', k, k', k', d);
      } else {
        IngestDrains(l, m, m', k, k', k, d);
      }
    }
  }

  lemma NothingDrained(l: Link, d: nat)
    requires UniqueUuids(l.table) && d <= |l.queue.rows|
    ensures DrainedTo(l, l, 0, d)
  {
    assert l.queue.rows[0..] == l.queue.rows;
    assert QueuedUuids(l.queue.rows[..0]) == {};
  }

  // What each attempt passes on from n to n or n + 1 holds after any attempts.
  lemma {:induction false} AttemptsKeep(l: Link, limit: nat, outcomes: seq<Outcome>, holds: (Link, nat) -> bool)
    requires holds(l, 0)
    requires forall m: Link, n: nat, outcome :: holds(m, n) ==>
               holds(AttemptOnce(m, limit, outcome), if Heard(outcome) then n + 1 else n)
    ensures holds(Attempted(l, limit, outcomes), Answered(outcomes))
  {
    if outcomes != [] {
      var earlier, last := outcomes[..|outcomes| - 1], outcomes[|outcomes| - 1];
      AttemptsKeep(l, limit, earlier, holds);
      assert holds(AttemptOnce(Attempted(l, limit, earlier), limit, last),
                   if Heard(last) then Answered(earlier) + 1 else Answered(earlier));
    }
  }

  lemma DrainNext(l: Link, m: Link, m': Link, limit: nat, outcome: Outcome, judge: seq<EventInput> -> bool, n: nat,
                  d: nat)
    requires ValidQueue(l.queue) && JudgedBy(l.accepts, judge) && d == Deliverable(l.queue.rows, limit, judge)
    requires DrainedTo(l, m, Reach(n, limit, d), d) && m' == AttemptOnce(m, limit, outcome)
    ensures DrainedTo(l, m', Reach(if Heard(outcome) then n + 1 else n, limit, d), d)
  {
    ReachLeads(l.queue.rows, n, limit, judge, d);
    DrainOnce(l, m, m', limit, outcome, judge, Reach(n, limit, d), Reach(n + 1, limit, d), d);
  }

  lemma ReachIsDrained(l: Link, limit: nat, outcomes: seq<Outcome>, judge: seq<EventInput> -> bool, d: nat)
    requires ValidQueue(l.queue) && UniqueUuids(l.table) && JudgedBy(l.accepts, judge)
    requires d == Deliverable(l.queue.rows, limit, judge)
    ensures DrainedTo(l, Attempted(l, limit, outcomes), Reach(Answered(outcomes), limit, d), d)
  {
    var holds := (m: Link, n: nat) => DrainedTo(l, m, Reach(n, limit, d), d);
    NothingDrained(l, d);
    assert holds(l, 0);
    forall m: Link, n: nat, outcome | holds(m, n)
      ensures holds(AttemptOnce(m, limit, outcome), if Heard(outcome) then n + 1 else n)
    {
      DrainNext(l, m, AttemptOnce(m, limit, outcome), limit, outcome, judge, n, d);
    }
    AttemptsKeep(l, limit, outcomes, holds);
  }

  // However many attempts fail or lose their answer in between, after n answered ones
  // exactly the n*limit oldest rows are stored and gone, except that nothing behind the
  // first unacceptable batch ever moves.
  lemma QueueDrains(l: Link, limit: nat, outcomes: seq<Outcome>, judge: seq<EventInput> -> bool)
    requires ValidQueue(l.queue) && UniqueUuids(l.table) && JudgedBy(l.accepts, judge)
    ensures var d := Deliverable(l.queue.rows, limit, judge);
            0 <= Min(Answered(outcomes) * limit, d)
            && DrainedTo(l, Attempted(l, limit, outcomes), Min(Answered(outcomes) * limit, d), d)
  {
    var d := Deliverable(l.queue.rows, limit, judge);
    ReachExactly(Answered(outcomes), limit, d);
    ReachIsDrained(l, limit, outcomes, judge, d);
  }

  // The server answers every one of n attempts.
  function AllHeard(n: nat): seq<Outcome> {
    if n == 0 then [] else AllHeard(n - 1) + [Reached(Stamp(0, true), true)]
  }

  lemma {:induction false} AllAreHeard(n: nat)
    ensures |AllHeard(n)| == n && Answered(AllHeard(n)) == n
  {
    if n > 0 {
      AllAreHeard(n - 1);
      assert AllHeard(n)[..n - 1] == AllHeard(n - 1);
    }
  }

  ghost predicate Emptied(l: Link, limit: nat, outcomes: seq<Outcome>) {
    Attempted(l, limit, outcomes).queue.rows == []
  }

  lemma EmptiedWasDeliverable(l: Link, limit: nat, outcomes: seq<Outcome>, judge: seq<EventInput> -> bool)
    requires ValidQueue(l.queue) && UniqueUuids(l.table) && JudgedBy(l.accepts, judge)
    requires Emptied(l, limit, outcomes)
    ensures Deliverable(l.queue.rows, limit, judge) == |l.queue.rows|
  {
    var k := Min(Answered(outcomes) * limit, Deliverable(l.queue.rows, limit, judge));
    QueueDrains(l, limit, outcomes, judge);
    assert |l.queue.rows[k..]| == |l.queue.rows| - k;
  }

  lemma DeliverableIsEmptied(l: Link, limit: nat, judge: seq<EventInput> -> bool)
    requires ValidQueue(l.queue) && UniqueUuids(l.table) && JudgedBy(l.accepts, judge) && 0 < limit
    requires Deliverable(l.queue.rows, limit, judge) == |l.queue.rows|
    ensures Emptied(l, limit, AllHeard(|l.queue.rows|))
  {
    var n := |l.queue.rows|;
    AllAreHeard(n);
    QueueDrains(l, limit, AllHeard(n), judge);
    EnoughRounds(n, limit);
    assert l.queue.rows[n..] == [];
  }

  lemma EnoughRounds(n: nat, limit: nat)
    requires 0 < limit
    ensures Min(n * limit, n) == n
  {
  }

  // Some outcomes empty the queue exactly if, cut into batches, it consists of acceptable
  // ones; otherwise none do.
  lemma EmptiesExactly(l: Link, limit: nat, judge: seq<EventInput> -> bool)
    requires ValidQueue(l.queue) && UniqueUuids(l.table) && JudgedBy(l.accepts, judge) && 0 < limit
    ensures (exists outcomes :: Emptied(l, limit, outcomes)) <==> ChunksAcceptable(l.queue.rows, limit, judge)
  {
    FrontIsEndExactly(l.queue.rows, 0, limit, judge);
    assert l.queue.rows[0..] == l.queue.rows;
    if outcomes :| Emptied(l, limit, outcomes) {
      EmptiedWasDeliverable(l, limit, outcomes, judge);
    }
    if ChunksAcceptable(l.queue.rows, limit, judge) {
      DeliverableIsEmptied(l, limit, judge);
    }
  }

  // With an unacceptable batch in front nothing moves, whatever the outcomes.
  lemma RefusedBatchStays(l: Link, limit: nat, outcomes: seq<Outcome>, judge: seq<EventInput> -> bool)
    requires ValidQueue(l.queue) && UniqueUuids(l.table) && JudgedBy(l.accepts, judge)
    requires !judge(Events(Oldest(l.queue, limit)))
    ensures var l' := Attempted(l, limit, outcomes);
            l'.queue == l.queue && StoredUuids(l'.table) == StoredUuids(l.table)
  {
    var rows := l.queue.rows;
    assert Batch(rows, 0, limit) == Oldest(l.queue, limit);
    QueueDrains(l, limit, outcomes, judge);
    assert rows[0..] == rows && QueuedUuids(rows[..0]) == {};
  }

  // --- Progress while events keep arriving ------------------------------------------------

  // The queued rows that were enqueued before the row.
  function Ahead(rows: seq<QueueRow>, r: QueueRow): set<QueueRow> {
    set q | q in rows && q.id < r.id
  }

  lemma {:induction false} MembersCount(rows: seq<QueueRow>)
    requires forall i, j :: 0 <= i < j < |rows| ==> rows[i].id < rows[j].id
    ensures |Members(rows)| == |rows|
  {
    if rows != [] {
      var n := |rows| - 1;
      MembersCount(rows[..n]);
      assert Members(rows) == Members(rows[..n]) + {rows[n]};
    }
  }

  lemma AheadExactly(q: QueueState, i: nat)
    requires ValidQueue(q) && i < |q.rows|
    ensures Ahead(q.rows, q.rows[i]) == Members(q.rows[..i])
    ensures |Ahead(q.rows, q.rows[i])| == i
  {
    MembersCount(q.rows[..i]);
    forall b | b in Ahead(q.rows, q.rows[i])
      ensures b in q.rows[..i]
    {
      var j :| 0 <= j < |q.rows| && q.rows[j] == b;
      assert q.rows[..i][j] == b;
    }
  }

  lemma FewerAhead(some: set<QueueRow>, all: set<QueueRow>)
    requires some <= all
    ensures |some| <= |all|
  {
    assert all == some + (all - some);
  }

  // The row has left, stored or evicted.
  ghost predicate Gone(s: System, r: QueueRow) {
    && r !in s.queue.rows && r.id < s.queue.nextId
    && (r.event.eventUuid in StoredUuids(s.table) || r.event.eventUuid in s.evicted)
  }

  // The row is queued behind at most `left` others; once they are deleted, the request
  // under way takes it along or a full batch of those ahead of it.
  ghost predicate Waits(s: System, r: QueueRow, limit: nat, left: int) {
    && r in s.queue.rows && |Ahead(s.queue.rows, r)| <= left
    && (!s.worker.Waiting? ==>
          r in s.worker.batch || |Ahead(s.queue.rows, r) - Members(s.worker.batch)| + limit <= left)
  }

  lemma EnqueueKeepsAhead(s: System, r: QueueRow, item: EventInput, now: int, bytes: int)
    requires Invariant(s) && r in s.queue.rows
    ensures Ahead(Apply(s, Enqueue(item, now, bytes)).queue.rows, r) <= Ahead(s.queue.rows, r)
  {
    var rows, inserted := Apply(s, Enqueue(item, now, bytes)).queue.rows, Insert(s.queue, item, now);
    EnqueuedIsValid(s.queue, item, now, bytes);
    forall q | q in Ahead(rows, r)
      ensures q in Ahead(s.queue.rows, r)
    {
      assert q in inserted.rows;
    }
  }

  lemma EnqueueKeepsWaiting(s: System, s': System, r: QueueRow, limit: nat, left: int, item: EventInput, now: int,
                            bytes: int)
    requires Invariant(s) && Waits(s, r, limit, left) && s' == Apply(s, Enqueue(item, now, bytes))
    ensures Gone(s', r) || Waits(s', r, limit, left)
  {
    if r in s'.queue.rows {
      EnqueueKeepsAhead(s, r, item, now, bytes);
      FewerAhead(Ahead(s'.queue.rows, r), Ahead(s.queue.rows, r));
      if !s.worker.Waiting? {
        var batch := Members(s.worker.batch);
        FewerAhead(Ahead(s'.queue.rows, r) - batch, Ahead(s.queue.rows, r) - batch);
      }
    } else {
      EvictedForGood(s, r, item, now, bytes);
    }
  }

  lemma EvictedForGood(s: System, r: QueueRow, item: EventInput, now: int, bytes: int)
    requires Invariant(s) && r in s.queue.rows
    requires r !in Apply(s, Enqueue(item, now, bytes)).queue.rows
    ensures Gone(Apply(s, Enqueue(item, now, bytes)), r)
    ensures r.event.eventUuid in Apply(s, Enqueue(item, now, bytes)).evicted
  {
    var inserted, rows := Insert(s.queue, item, now), Enqueued(s.queue, item, now, bytes).rows;
    InsertIsValid(s.queue, item, now);
    EnqueuedIsValid(s.queue, item, now, bytes);
    var i :| 0 <= i < |s.queue.rows| && s.queue.rows[i] == r;
    assert inserted.rows[i] == r;
    if r.event.eventUuid in QueuedUuids(rows) {
      var j :| 0 <= j < |rows| && rows[j].event.eventUuid == r.event.eventUuid;
      assert rows[j] in inserted.rows;
      SameUuidSameRow(inserted, rows[j], r);
    }
  }

  lemma PartOfSet(part: set<QueueRow>, all: set<QueueRow>)
    requires part <= all
    ensures |all - part| + |part| == |all|
  {
    assert all == part + (all - part);
  }

  lemma BatchIsAhead(q: QueueState, i: nat, size: nat)
    requires ValidQueue(q) && i < |q.rows| && q.rows[i] !in Oldest(q, size)
    ensures Members(Oldest(q, size)) <= Ahead(q.rows, q.rows[i])
    ensures |Members(Oldest(q, size))| == size
  {
    var batch := Oldest(q, size);
    assert forall j :: 0 <= j < |batch| ==> batch[j] == q.rows[j];
    MembersCount(batch);
    forall b | b in batch
      ensures b in q.rows && b.id < q.rows[i].id
    {
      var j :| 0 <= j < |batch| && batch[j] == b;
      assert q.rows[j] == b;
    }
  }

  lemma BehindBatch(q: QueueState, i: nat, size: nat)
    requires ValidQueue(q) && i < |q.rows| && q.rows[i] !in Oldest(q, size)
    ensures |Ahead(q.rows, q.rows[i]) - Members(Oldest(q, size))| + size == |Ahead(q.rows, q.rows[i])|
  {
    BatchIsAhead(q, i, size);
    PartOfSet(Members(Oldest(q, size)), Ahead(q.rows, q.rows[i]));
  }

  lemma TakeKeepsWaiting(s: System, s': System, r: QueueRow, limit: nat, left: int, size: nat)
    requires Invariant(s) && Waits(s, r, limit, left) && limit <= size && s' == Apply(s, TakeBatch(size))
    ensures Waits(s', r, limit, left)
  {
    var q := s.queue;
    var i :| 0 <= i < |q.rows| && q.rows[i] == r;
    if r !in Oldest(q, size) {
      BehindBatch(q, i, size);
    }
  }

  lemma DeletedAreNotAhead(s: System, rows: seq<QueueRow>, r: QueueRow)
    requires Invariant(s) && s.worker.Confirmed? && rows == Apply(s, DeleteBatch).queue.rows
    ensures Ahead(rows, r) <= Ahead(s.queue.rows, r) - Members(s.worker.batch)
  {
    DeleteIsSafe(s);
  }

  lemma DeletedForGood(s: System, r: QueueRow)
    requires Invariant(s) && s.worker.Confirmed? && r in s.queue.rows && r in s.worker.batch
    ensures Gone(Apply(s, DeleteBatch), r)
  {
    DeleteIsSafe(s);
    assert s.worker.batch in Batches(s);
  }

  lemma DeletedStays(s: System, r: QueueRow)
    requires Invariant(s) && s.worker.Confirmed? && r in s.queue.rows && r !in s.worker.batch
    ensures r in Apply(s, DeleteBatch).queue.rows
  {
    DeleteIsSafe(s);
  }

  lemma FewerRemain(s: System, rows: seq<QueueRow>, r: QueueRow)
    requires Invariant(s) && s.worker.Confirmed? && rows == Apply(s, DeleteBatch).queue.rows
    ensures |Ahead(rows, r)| <= |Ahead(s.queue.rows, r) - Members(s.worker.batch)|
  {
    DeletedAreNotAhead(s, rows, r);
    FewerAhead(Ahead(rows, r), Ahead(s.queue.rows, r) - Members(s.worker.batch));
  }

  lemma SurvivorMovesUp(s: System, s': System, r: QueueRow, limit: nat, left: int)
    requires Invariant(s) && Waits(s, r, limit, left) && s.worker.Confirmed? && s' == Apply(s, DeleteBatch)
    requires r !in s.worker.batch
    ensures Waits(s', r, limit, left - limit)
  {
    DeletedStays(s, r);
    DeleteFreesWorker(s);
    FewerRemain(s, s'.queue.rows, r);
    WaitsAgain(s', r, limit, left - limit);
  }

  lemma WaitsAgain(s: System, r: QueueRow, limit: nat, left: int)
    requires s.worker.Waiting? && r in s.queue.rows && |Ahead(s.queue.rows, r)| <= left
    ensures Waits(s, r, limit, left)
  {
  }

  // Deletions that take effect.
  predicate Deletes(s: System, step: Step) {
    step.DeleteBatch? && s.worker.Confirmed?
  }

  ghost function Deletions(s: System, steps: seq<Step>): nat {
    if steps == [] then 0
    else
      var n := |steps| - 1;
      Deletions(s, steps[..n]) + if Deletes(Execute(s, steps[..n]), steps[n]) then 1 else 0
  }

  ghost predicate TakesAtLeast(steps: seq<Step>, limit: nat) {
    forall i :: 0 <= i < |steps| && steps[i].TakeBatch? ==> limit <= steps[i].limit
  }

  lemma StepKeepsGone(s: System, step: Step, r: QueueRow)
    requires Invariant(s) && Gone(s, r)
    ensures Gone(Apply(s, step), r)
  {
    match step
    case Enqueue(item, now, bytes) =>
      EnqueuedIsValid(s.queue, item, now, bytes);
      assert r !in Insert(s.queue, item, now).rows;
    case Handle(request, _) =>
      IngestIsExact(s.table, Events(request));
    case DeleteBatch =>
      if s.worker.Confirmed? {
        DeleteIsSafe(s);
      }
    case _ =>
  }

  lemma StepKeepsWaiting(s: System, step: Step, r: QueueRow, limit: nat, left: int)
    requires Invariant(s) && Waits(s, r, limit, left) && (step.TakeBatch? ==> limit <= step.limit)
    ensures Gone(Apply(s, step), r) || Waits(Apply(s, step), r, limit, if Deletes(s, step) then left - limit else left)
  {
    match step
    case Enqueue(item, now, bytes) => EnqueueKeepsWaiting(s, Apply(s, step), r, limit, left, item, now, bytes);
    case TakeBatch(size) => TakeKeepsWaiting(s, Apply(s, step), r, limit, left, size);
    case DeleteBatch =>
      if s.worker.Confirmed? {
        if r in s.worker.batch {
          DeletedForGood(s, r);
        } else {
          SurvivorMovesUp(s, Apply(s, step), r, limit, left);
        }
      }
    case _ =>
  }

  // What each allowed step passes on, counting deletions, holds after any of them.
  lemma {:induction false} StepsKeep(s: System, steps: seq<Step>, allowed: Step -> bool, holds: (System, nat) -> bool)
    requires holds(s, 0) && forall i :: 0 <= i < |steps| ==> allowed(steps[i])
    requires forall t: System, n: nat, step :: holds(t, n) && allowed(step) ==>
               holds(Apply(t, step), if Deletes(t, step) then n + 1 else n)
    ensures holds(Execute(s, steps), Deletions(s, steps))
  {
    if steps != [] {
      var earlier, last := steps[..|steps| - 1], steps[|steps| - 1];
      var t, n := Execute(s, earlier), Deletions(s, earlier);
      StepsKeep(s, earlier, allowed, holds);
      assert holds(Apply(t, last), if Deletes(t, last) then n + 1 else n);
    }
  }

  // After n deletions the row has moved up by n batches, or has left.
  ghost predicate MovedUp(s: System, r: QueueRow, limit: nat, i: nat, n: nat) {
    Invariant(s) && (Gone(s, r) || Waits(s, r, limit, i - n * limit))
  }

  lemma StepMovesUp(s: System, step: Step, r: QueueRow, limit: nat, i: nat, n: nat)
    requires MovedUp(s, r, limit, i, n) && (step.TakeBatch? ==> limit <= step.limit)
    ensures MovedUp(Apply(s, step), r, limit, i, if Deletes(s, step) then n + 1 else n)
  {
    StepKeepsInvariant(s, step);
    if Gone(s, r) {
      StepKeepsGone(s, step, r);
    } else {
      StepKeepsWaiting(s, step, r, limit, i - n * limit);
      assert i - n * limit - limit == i - (n + 1) * limit;
    }
  }

  // Whatever is enqueued, evicted, repeated or lost meanwhile, a queued row with i rows
  // ahead has left the queue, stored or evicted, once n batches of at least `limit` rows
  // were deleted and n * limit > i.
  lemma RowLeaves(s: System, steps: seq<Step>, i: nat, limit: nat)
    requires Invariant(s) && s.worker.Waiting? && i < |s.queue.rows|
    requires TakesAtLeast(steps, limit) && Deletions(s, steps) * limit > i
    ensures Gone(Execute(s, steps), s.queue.rows[i])
  {
    var r := s.queue.rows[i];
    var holds := (t: System, n: nat) => MovedUp(t, r, limit, i, n);
    var allowed := (step: Step) => step.TakeBatch? ==> limit <= step.limit;
    AheadExactly(s.queue, i);
    assert holds(s, 0);
    forall t: System, n: nat, step | holds(t, n) && allowed(step)
      ensures holds(Apply(t, step), if Deletes(t, step) then n + 1 else n)
    {
      StepMovesUp(t, step, r, limit, i, n);
    }
    StepsKeep(s, steps, allowed, holds);
  }
}
