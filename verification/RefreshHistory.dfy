/** When a refresh succeeds, told from the calls before it and not from the stored table. */
module RefreshHistory {
  import opened Common
  import opened RefreshSessions

  // --- What the calls say --------------------------------------------------------------------

  predicate CanOpen(step: Step) {
    step.Login? || step.Refresh?
  }

  function UserOf(step: Step): nat
    requires CanOpen(step)
  {
    if step.Login? then step.user else step.token.sub
  }

  function FamilyOf(step: Step): nat
    requires CanOpen(step)
  {
    if step.Login? then step.family else step.token.fid
  }

  // The login or accepted refresh that opened a session.
  ghost predicate Opens(steps: seq<Step>, i: nat)
    requires i < |steps|
    decreases i, 2
  {
    steps[i].Login? || (steps[i].Refresh? && Succeeds(steps, i))
  }

  // Refresh number j names the session, the user and the family of opening number i.
  ghost predicate Names(steps: seq<Step>, i: nat, j: nat)
    requires i < j < |steps| && steps[j].Refresh?
    decreases i, 3
  {
    && CanOpen(steps[i]) && Opens(steps, i) && steps[i].id == steps[j].token.sid
    && UserOf(steps[i]) == steps[j].token.sub && FamilyOf(steps[i]) == steps[j].token.fid
  }

  // The session opened by step i was exchanged or logged out, its user was disabled, or its
  // family was hit by a reuse.
  ghost predicate Ends(steps: seq<Step>, i: nat, k: nat)
    requires i < k < |steps| && CanOpen(steps[i])
    decreases k, 2
  {
    match steps[k]
    case Login(_, _, _, _, _, _) => false
    case Refresh(token, _, _, _, _, _) =>
      (token.sid == steps[i].id && Succeeds(steps, k)) || (token.fid == FamilyOf(steps[i]) && IsReuse(steps, k))
    case Logout(sid, _) => sid == steps[i].id
    case DisableUser(user, _) => user == UserOf(steps[i])
  }

  ghost predicate Lasts(steps: seq<Step>, i: nat, j: nat)
    requires i < j <= |steps| && CanOpen(steps[i])
    decreases j, 0
  {
    forall k :: i < k < j ==> !Ends(steps, i, k)
  }

  // The refresh names a session that has ended, or shows another text for it.
  ghost predicate IsReuse(steps: seq<Step>, j: nat)
    requires j < |steps|
    decreases j, 1
  {
    steps[j].Refresh? &&
    exists i | 0 <= i < j && CanOpen(steps[i]) ::
      Names(steps, i, j) && (!Lasts(steps, i, j) || steps[i].hash != steps[j].token.hash)
  }

  // The refresh is accepted: it names a session that has not ended, with its own text and
  // before its lifetime is over, and the user is active.
  ghost predicate Succeeds(steps: seq<Step>, j: nat)
    requires j < |steps|
    decreases j, 1
  {
    steps[j].Refresh? && steps[j].userActive &&
    exists i | 0 <= i < j && CanOpen(steps[i]) ::
      Names(steps, i, j) && Lasts(steps, i, j) && steps[i].hash == steps[j].token.hash
      && steps[j].now < steps[i].now + steps[i].lifetime
  }

  ghost predicate NamesNone(steps: seq<Step>, j: nat)
    requires j < |steps| && steps[j].Refresh?
  {
    forall i :: 0 <= i < j && CanOpen(steps[i]) ==> !Names(steps, i, j)
  }

  ghost predicate IsExpired(steps: seq<Step>, j: nat)
    requires j < |steps| && steps[j].Refresh?
  {
    exists i | 0 <= i < j && CanOpen(steps[i]) ::
      Names(steps, i, j) && Lasts(steps, i, j) && steps[i].hash == steps[j].token.hash
      && steps[j].now >= steps[i].now + steps[i].lifetime
  }

  // --- What the table says --------------------------------------------------------------------

  // The stored session is the one step i opened, revoked exactly if that has ended.
  ghost predicate RecordedAs(s: Session, steps: seq<Step>, i: nat, n: nat)
    requires i < n <= |steps| && CanOpen(steps[i])
  {
    && s.user == UserOf(steps[i]) && s.family == FamilyOf(steps[i]) && s.tokenHash == steps[i].hash
    && s.expiresAt == steps[i].now + steps[i].lifetime
    && (s.revokedAt.None? <==> Lasts(steps, i, n))
  }

  ghost predicate OpenedBy(steps: seq<Step>, i: nat, id: nat)
    requires i < |steps|
  {
    CanOpen(steps[i]) && Opens(steps, i) && steps[i].id == id
  }

  // The table holds the opened sessions, each opened once, and nothing else.
  ghost predicate Recorded(table: map<nat, Session>, steps: seq<Step>, n: nat)
    requires n <= |steps|
  {
    && (forall id :: id in table ==> exists i :: 0 <= i < n && OpenedBy(steps, i, id))
    && (forall i, id :: 0 <= i < n && OpenedBy(steps, i, id) ==> id in table && RecordedAs(table[id], steps, i, n))
    && (forall i, j, id :: 0 <= i < j < n && OpenedBy(steps, i, id) ==> !OpenedBy(steps, j, id))
  }

  lemma OneOpening(table: map<nat, Session>, steps: seq<Step>, n: nat, i: nat, j: nat, id: nat)
    requires n <= |steps| && Recorded(table, steps, n) && i < n && j < n
    requires OpenedBy(steps, i, id) && OpenedBy(steps, j, id)
    ensures i == j
  {
    assert !(i < j) && !(j < i);
  }

  lemma NamesIsOpened(steps: seq<Step>, i: nat, j: nat)
    requires i < j < |steps| && steps[j].Refresh? && Names(steps, i, j)
    ensures OpenedBy(steps, i, steps[j].token.sid)
  {
  }

  // Whether the n-th call succeeds or is a reuse can be told from the table.
  lemma VerdictIsHistory(table: map<nat, Session>, steps: seq<Step>, n: nat)
    requires n < |steps| && steps[n].Refresh? && Recorded(table, steps, n)
    ensures var verdict := Verdict(table, steps[n].token, steps[n].now, steps[n].userActive);
            && (verdict.Ok? <==> Succeeds(steps, n))
            && (verdict == Err(Reused) <==> IsReuse(steps, n))
            && (verdict == Err(SessionNotFound) <==> NamesNone(steps, n))
            && (verdict == Err(SessionExpired) <==> IsExpired(steps, n))
  {
    var sid := steps[n].token.sid;
    if sid in table {
      var i :| 0 <= i < n && OpenedBy(steps, i, sid);
      forall j | 0 <= j < n && CanOpen(steps[j]) && Names(steps, j, n)
        ensures j == i
      {
        NamesIsOpened(steps, j, n);
        OneOpening(table, steps, n, i, j, sid);
      }
      OpenedVerdict(table, steps, n, i);
    } else {
      forall j | 0 <= j < n && CanOpen(steps[j])
        ensures !Names(steps, j, n)
      {
        if Names(steps, j, n) {
          NamesIsOpened(steps, j, n);
        }
      }
    }
  }

  lemma OpenedVerdict(table: map<nat, Session>, steps: seq<Step>, n: nat, i: nat)
    requires i < n < |steps| && steps[n].Refresh? && steps[n].token.sid in table
    requires OpenedBy(steps, i, steps[n].token.sid) && RecordedAs(table[steps[n].token.sid], steps, i, n)
    requires forall j :: 0 <= j < n && CanOpen(steps[j]) && Names(steps, j, n) ==> j == i
    ensures var verdict := Verdict(table, steps[n].token, steps[n].now, steps[n].userActive);
            && (verdict.Ok? <==> Succeeds(steps, n))
            && (verdict == Err(Reused) <==> IsReuse(steps, n))
            && (verdict == Err(SessionNotFound) <==> NamesNone(steps, n))
            && (verdict == Err(SessionExpired) <==> IsExpired(steps, n))
  {
  }

  // --- The table follows the calls ---------------------------------------------------------------

  // The step revokes the session.
  ghost predicate Revokes(s: State, step: Step, id: nat)
    requires id in s.table
  {
    match step
    case Login(_, _, _, _, _, _) => false
    case Refresh(token, _, _, now, _, active) =>
      var verdict := Verdict(s.table, token, now, active);
      (verdict.Ok? && token.sid == id) || (verdict == Err(Reused) && token.fid == s.table[id].family)
    case Logout(sid, _) => sid == id
    case DisableUser(user, _) => user == s.table[id].user
  }

  lemma OldSession(s: State, s': State, step: Step, id: nat)
    requires Enabled(s, step) && id in s.table && s' == Apply(s, step)
    ensures id in s'.table
    ensures s'.table[id].user == s.table[id].user && s'.table[id].family == s.table[id].family
    ensures s'.table[id].tokenHash == s.table[id].tokenHash && s'.table[id].expiresAt == s.table[id].expiresAt
    ensures s'.table[id].revokedAt.Some? <==> s.table[id].revokedAt.Some? || Revokes(s, step, id)
  {
  }

  // A session that a step ends is marked with the time of the step, and keeps that mark.
  lemma EndIsMarked(s: State, step: Step, id: nat)
    requires Enabled(s, step) && id in s.table && Apply(s, step).table[id].revokedAt.Some?
    ensures Apply(s, step).table[id].revokedAt
         == if s.table[id].revokedAt.Some? then s.table[id].revokedAt else Some(step.now)
  {
  }

  ghost predicate Inserts(s: State, step: Step) {
    step.Login? || Accepts(s, step)
  }

  lemma NewSession(s: State, s': State, step: Step)
    requires Enabled(s, step) && s' == Apply(s, step) && Inserts(s, step)
    ensures step.id in s'.table
            && s'.table[step.id]
               == Session(FamilyOf(step), UserOf(step), step.hash, step.now + step.lifetime, None, None)
  {
  }

  lemma SameKeys(s: State, s': State, step: Step, id: nat)
    requires s' == Apply(s, step) && id in s'.table
    ensures id in s.table || (Inserts(s, step) && step.id == id)
  {
  }

  lemma LastsLonger(steps: seq<Step>, i: nat, n: nat)
    requires i < n < |steps| && CanOpen(steps[i])
    ensures Lasts(steps, i, n + 1) <==> Lasts(steps, i, n) && !Ends(steps, i, n)
  {
  }

  lemma RevokesIsEnds(s: State, steps: seq<Step>, n: nat, i: nat, id: nat)
    requires i < n < |steps| && Recorded(s.table, steps, n) && id in s.table
    requires OpenedBy(steps, i, id) && RecordedAs(s.table[id], steps, i, n)
    ensures Revokes(s, steps[n], id) <==> Ends(steps, i, n)
  {
    if steps[n].Refresh? {
      VerdictIsHistory(s.table, steps, n);
    }
  }

  lemma OpensExactly(s: State, steps: seq<Step>, n: nat)
    requires n < |steps| && Recorded(s.table, steps, n)
    ensures Inserts(s, steps[n]) <==> CanOpen(steps[n]) && Opens(steps, n)
  {
    if steps[n].Refresh? {
      VerdictIsHistory(s.table, steps, n);
    }
  }

  lemma OldIsRecorded(s: State, s': State, steps: seq<Step>, n: nat, i: nat, id: nat)
    requires i < n < |steps| && Recorded(s.table, steps, n) && Enabled(s, steps[n]) && s' == Apply(s, steps[n])
    requires OpenedBy(steps, i, id)
    ensures id in s.table && id in s'.table && RecordedAs(s'.table[id], steps, i, n + 1)
  {
    assert id in s.table && RecordedAs(s.table[id], steps, i, n);
    OldSession(s, s', steps[n], id);
    RevokesIsEnds(s, steps, n, i, id);
    LastsLonger(steps, i, n);
  }

  lemma NewIsRecorded(s: State, s': State, steps: seq<Step>, n: nat)
    requires n < |steps| && Recorded(s.table, steps, n) && Enabled(s, steps[n]) && s' == Apply(s, steps[n])
    requires CanOpen(steps[n]) && Opens(steps, n)
    ensures steps[n].id !in s.table
    ensures steps[n].id in s'.table && RecordedAs(s'.table[steps[n].id], steps, n, n + 1)
  {
    OpensExactly(s, steps, n);
    NewSession(s, s', steps[n]);
  }

  lemma StepIsRecorded(s: State, s': State, steps: seq<Step>, n: nat)
    requires n < |steps| && Recorded(s.table, steps, n) && Enabled(s, steps[n]) && s' == Apply(s, steps[n])
    ensures Recorded(s'.table, steps, n + 1)
  {
    OpensExactly(s, steps, n);
    forall id | id in s'.table
      ensures exists i :: 0 <= i < n + 1 && OpenedBy(steps, i, id)
    {
      SameKeys(s, s', steps[n], id);
      if id in s.table {
        var i :| 0 <= i < n && OpenedBy(steps, i, id);
      } else {
        assert OpenedBy(steps, n, id);
      }
    }
    forall i, id | 0 <= i < n + 1 && OpenedBy(steps, i, id)
      ensures id in s'.table && RecordedAs(s'.table[id], steps, i, n + 1)
    {
      if i < n {
        OldIsRecorded(s, s', steps, n, i, id);
      } else {
        NewIsRecorded(s, s', steps, n);
      }
    }
    forall i, j, id | 0 <= i < j < n + 1 && OpenedBy(steps, i, id)
      ensures !OpenedBy(steps, j, id)
    {
      if j == n && OpenedBy(steps, n, id) {
        NewIsRecorded(s, s', steps, n);
      }
    }
  }

  lemma NextIsRecorded(steps: seq<Step>, k: nat)
    requires Possible(steps) && k < |steps| && Recorded(Run(steps[..k]).table, steps, k)
    ensures Recorded(Run(steps[..k + 1]).table, steps, k + 1)
  {
    PossibleAt(steps, k);
    RunNext(steps, k);
    StepIsRecorded(Run(steps[..k]), Run(steps[..k + 1]), steps, k);
  }

  lemma {:induction false} RunIsRecorded(steps: seq<Step>, n: nat)
    requires Possible(steps) && n <= |steps|
    ensures Recorded(Run(steps[..n]).table, steps, n)
  {
    if n == 0 {
      assert steps[..n] == [];
    } else {
      RunIsRecorded(steps, n - 1);
      NextIsRecorded(steps, n - 1);
    }
  }

  // Over any run: a refresh is accepted exactly if it names a session that a login or an
  // accepted refresh opened for that user and family, shows its text before its lifetime
  // is over, the user is active, and nothing in between ended the session. It is a reuse
  // exactly if the session has ended or the text is another one.
  lemma RefreshSucceedsExactly(steps: seq<Step>, j: nat)
    requires Possible(steps) && j < |steps| && steps[j].Refresh?
    ensures Accepts(Run(steps[..j]), steps[j]) <==> Succeeds(steps, j)
    ensures var verdict := Verdict(Run(steps[..j]).table, steps[j].token, steps[j].now, steps[j].userActive);
            && (verdict == Err(Reused) <==> IsReuse(steps, j))
            && (verdict == Err(SessionNotFound) <==> NamesNone(steps, j))
            && (verdict == Err(SessionExpired) <==> IsExpired(steps, j))
  {
    RunIsRecorded(steps, j);
    VerdictIsHistory(Run(steps[..j]).table, steps, j);
  }
}
