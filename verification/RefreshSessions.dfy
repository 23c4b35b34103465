/**
 Refresh-token rotation: each refresh replaces a session by a new one of the same
 family, and presenting a revoked token revokes the whole family. Session and family
 ids stand for UUIDs; token hashes are opaque numbers.
 */
module RefreshSessions {
  import opened Common
  import opened StableOrder

  datatype Session = Session(
    family: nat, user: nat, tokenHash: nat, expiresAt: int, revokedAt: Option<int>, replacedBy: Option<nat>)

  // The claims of a refresh token that passed decode_token, and the hash of its text.
  datatype Presented = Presented(sid: nat, fid: nat, sub: nat, hash: nat)

  datatype RefreshError = SessionNotFound | Reused | SessionExpired | UserDisabled

  // --- Table updates ------------------------------------------------------------------

  function Revoked(s: Session, now: int): Session {
    if s.revokedAt.None? then s.(revokedAt := Some(now)) else s
  }

  function RevokeFamily(table: map<nat, Session>, family: nat, now: int): map<nat, Session> {
    map id | id in table :: if table[id].family == family then Revoked(table[id], now) else table[id]
  }

  function RevokeUser(table: map<nat, Session>, user: nat, now: int): map<nat, Session> {
    map id | id in table :: if table[id].user == user then Revoked(table[id], now) else table[id]
  }

  function RevokeOne(table: map<nat, Session>, sid: nat, now: int): map<nat, Session> {
    if sid in table then table[sid := Revoked(table[sid], now)] else table
  }

  // INSERT the new session, then mark the one it replaced.
  function Create(table: map<nat, Session>, id: nat, s: Session, replaced: Option<nat>, now: int): map<nat, Session> {
    var inserted := table[id := s];
    if replaced.Some? && replaced.value in inserted
    then inserted[replaced.value := inserted[replaced.value].(revokedAt := Some(now), replacedBy := Some(id))]
    else inserted
  }

  function Verdict(table: map<nat, Session>, p: Presented, now: int, userActive: bool): Result<Session, RefreshError> {
    if p.sid !in table || table[p.sid].user != p.sub || table[p.sid].family != p.fid then Err(SessionNotFound)
    else if table[p.sid].revokedAt.Some? || table[p.sid].tokenHash != p.hash then Err(Reused)
    else if table[p.sid].expiresAt <= now then Err(SessionExpired)
    else if !userActive then Err(UserDisabled)
    else Ok(table[p.sid])
  }

  // --- Chains -----------------------------------------------------------------------------

  // The sessions of each family in the order they were created.
  type Chains = map<nat, seq<nat>>

  // replaced_by leads from each session of the chain to the next, all but the last are
  // revoked, and the chain lists every session of its family.
  ghost predicate IsChain(table: map<nat, Session>, family: nat, chain: seq<nat>) {
    && chain != [] && Distinct(chain)
    && (forall i :: 0 <= i < |chain| ==> chain[i] in table && table[chain[i]].family == family)
    && (forall i :: 0 <= i < |chain| - 1 ==>
          table[chain[i]].revokedAt.Some? && table[chain[i]].replacedBy == Some(chain[i + 1]))
    && table[chain[|chain| - 1]].replacedBy.None?
    && (forall id :: id in table && table[id].family == family ==> id in chain)
  }

  ghost predicate Chained(table: map<nat, Session>, chains: Chains) {
    && (forall family :: family in chains ==> IsChain(table, family, chains[family]))
    && (forall id :: id in table ==> table[id].family in chains)
  }

  lemma LiveIsLast(table: map<nat, Session>, family: nat, chain: seq<nat>, id: nat)
    requires IsChain(table, family, chain) && id in table && table[id].family == family && table[id].revokedAt.None?
    ensures id == chain[|chain| - 1]
  {
    assert id in chain;
    var i :| 0 <= i < |chain| && chain[i] == id;
    assert forall k :: 0 <= k < |chain| - 1 ==> table[chain[k]].revokedAt.Some?;
  }

  // A family has at most one session that is not revoked: the last of its chain.
  lemma AtMostOneLive(table: map<nat, Session>, chains: Chains, a: nat, b: nat)
    requires Chained(table, chains) && a in table && b in table && table[a].family == table[b].family
    requires table[a].revokedAt.None? && table[b].revokedAt.None?
    ensures a == b == chains[table[a].family][|chains[table[a].family]| - 1]
  {
    var family := table[a].family;
    assert IsChain(table, family, chains[family]);
    LiveIsLast(table, family, chains[family], a);
    LiveIsLast(table, family, chains[family], b);
  }

  // --- Steps --------------------------------------------------------------------------------

  datatype Step =
    | Login(user: nat, id: nat, family: nat, hash: nat, now: int, lifetime: int)
    | Refresh(token: Presented, id: nat, hash: nat, now: int, lifetime: int, userActive: bool)
    | Logout(sid: nat, now: int)
    | DisableUser(user: nat, now: int)

  datatype State = State(table: map<nat, Session>, chains: Chains)

  // uuid4 never repeats: an id or family that is already there is never drawn.
  ghost predicate Enabled(s: State, step: Step) {
    && (step.Login? ==> step.id !in s.table && step.family !in s.chains)
    && (step.Refresh? ==> step.id !in s.table)
  }

  ghost predicate Accepts(s: State, step: Step) {
    step.Refresh? && Verdict(s.table, step.token, step.now, step.userActive).Ok?
  }

  ghost function ApplyRefresh(s: State, token: Presented, id: nat, session: Session, now: int, userActive: bool): State
  {
    match Verdict(s.table, token, now, userActive)
    case Ok(_) =>
      State(Create(s.table, id, session, Some(token.sid), now),
            s.chains[token.fid := (if token.fid in s.chains then s.chains[token.fid] else []) + [id]])
    case Err(error) =>
      if error == Reused then s.(table := RevokeFamily(s.table, token.fid, now)) else s
  }

  ghost function Apply(s: State, step: Step): State {
    match step
    case Login(user, id, family, hash, now, lifetime) =>
      State(Create(s.table, id, Session(family, user, hash, now + lifetime, None, None), None, now),
            s.chains[family := [id]])
    case Refresh(token, id, hash, now, lifetime, userActive) =>
      ApplyRefresh(s, token, id, Session(token.fid, token.sub, hash, now + lifetime, None, None), now, userActive)
    case Logout(sid, now) => s.(table := RevokeOne(s.table, sid, now))
    case DisableUser(user, now) => s.(table := RevokeUser(s.table, user, now))
  }

  /** The auth handlers that write refresh_sessions. `chains` only serves the proofs. */
  class RefreshSessionStore {
    var table: map<nat, Session>
    ghost var chains: Chains

    ghost function Current(): State
      reads this
    {
      State(table, chains)
    }

    constructor ()
      ensures Current() == State(map[], map[])
    {
      table, chains := map[], map[];
    }

    method CreateSession(id: nat, family: nat, user: nat, hash: nat, now: int, lifetime: int, replaced: Option<nat>)
      modifies this`table
      ensures table == Create(old(table), id, Session(family, user, hash, now + lifetime, None, None), replaced, now)
    {
      table := table[id := Session(family, user, hash, now + lifetime, None, None)];
      if replaced.Some? && replaced.value in table {
        table := table[replaced.value := table[replaced.value].(revokedAt := Some(now), replacedBy := Some(id))];
      }
    }

    method Login(user: nat, id: nat, family: nat, hash: nat, now: int, lifetime: int)
      modifies this
      ensures Current() == Apply(old(Current()), Step.Login(user, id, family, hash, now, lifetime))
    {
      CreateSession(id, family, user, hash, now, lifetime, None);
      chains := chains[family := [id]];
    }

    method Refresh(token: Presented, id: nat, hash: nat, now: int, lifetime: int, userActive: bool)
      returns (r: Result<(), RefreshError>)
      modifies this
      ensures Current() == Apply(old(Current()), Step.Refresh(token, id, hash, now, lifetime, userActive))
      ensures r.Ok? <==> Accepts(old(Current()), Step.Refresh(token, id, hash, now, lifetime, userActive))
      ensures r.Err? ==> Verdict(old(table), token, now, userActive) == Err(r.error)
    {
      if token.sid !in table {
        return Err(SessionNotFound);
      }
      var session := table[token.sid];
      if session.user != token.sub || session.family != token.fid {
        return Err(SessionNotFound);
      }
      if session.revokedAt.Some? || session.tokenHash != token.hash {
        table := map other | other in table ::
            if table[other].family == token.fid then Revoked(table[other], now) else table[other];
        return Err(Reused);
      }
      if session.expiresAt <= now {
        return Err(SessionExpired);
      }
      if !userActive {
        return Err(UserDisabled);
      }
      CreateSession(id, token.fid, token.sub, hash, now, lifetime, Some(token.sid));
      chains := chains[token.fid := (if token.fid in chains then chains[token.fid] else []) + [id]];
      return Ok(());
    }

    method Logout(sid: nat, now: int)
      modifies this
      ensures Current() == Apply(old(Current()), Step.Logout(sid, now))
    {
      if sid in table {
        table := table[sid := Revoked(table[sid], now)];
      }
    }

    // update_user with a new password or is_active = false.
    method DisableUser(user: nat, now: int)
      modifies this
      ensures Current() == Apply(old(Current()), Step.DisableUser(user, now))
    {
      table := map id | id in table :: if table[id].user == user then Revoked(table[id], now) else table[id];
    }
  }

  // --- What every step keeps ------------------------------------------------------------------

  // Revoking any sessions keeps the chains.
  ghost predicate OnlyRevokes(table: map<nat, Session>, table': map<nat, Session>, now: int) {
    && table'.Keys == table.Keys
    && (forall id :: id in table ==> table'[id] == table[id] || table'[id] == Revoked(table[id], now))
  }

  lemma RevokedChain(table: map<nat, Session>, table': map<nat, Session>, now: int, family: nat, chain: seq<nat>)
    requires IsChain(table, family, chain) && OnlyRevokes(table, table', now)
    ensures IsChain(table', family, chain)
  {
    assert forall id :: id in table ==>
             table'[id].family == table[id].family && table'[id].replacedBy == table[id].replacedBy;
    assert forall id :: id in table && table[id].revokedAt.Some? ==> table'[id].revokedAt.Some?;
  }

  lemma RevokingKeepsChains(table: map<nat, Session>, table': map<nat, Session>, now: int, chains: Chains)
    requires Chained(table, chains) && OnlyRevokes(table, table', now)
    ensures Chained(table', chains)
  {
    forall family | family in chains
      ensures IsChain(table', family, chains[family])
    {
      RevokedChain(table, table', now, family, chains[family]);
    }
    assert forall id :: id in table ==> table'[id].family == table[id].family;
  }

  // A chain only depends on the sessions of its family.
  lemma UntouchedChain(table: map<nat, Session>, table': map<nat, Session>, family: nat, chain: seq<nat>)
    requires IsChain(table, family, chain)
    requires forall id :: id in table && table[id].family == family ==> id in table' && table'[id] == table[id]
    requires forall id :: id in table' && table'[id].family == family ==> id in table && table[id].family == family
    ensures IsChain(table', family, chain)
  {
  }

  lemma LoginKeepsChains(s: State, s': State, id: nat, family: nat, session: Session, now: int)
    requires Chained(s.table, s.chains) && id !in s.table && family !in s.chains
    requires session.family == family && session.replacedBy.None?
    requires s' == State(Create(s.table, id, session, None, now), s.chains[family := [id]])
    ensures Chained(s'.table, s'.chains)
  {
    assert s'.table == s.table[id := session];
    assert IsChain(s'.table, family, [id]);
    OtherChainsStay(s, s', id, family);
  }

  // A live session is the last of its chain, so the replacement extends the chain.
  lemma RotationKeepsChains(s: State, s': State, sid: nat, id: nat, session: Session, now: int)
    requires Chained(s.table, s.chains) && id !in s.table && sid in s.table
    requires s.table[sid].revokedAt.None? && session.family == s.table[sid].family && session.replacedBy.None?
    requires s'.table == Create(s.table, id, session, Some(sid), now)
    requires s'.chains == s.chains[session.family := s.chains[session.family] + [id]]
    ensures Chained(s'.table, s'.chains)
  {
    AtMostOneLive(s.table, s.chains, sid, sid);
    RotatedChain(s.table, s.chains[session.family], sid, id, session, now);
    RotationIsLocal(s.table, s'.table, sid, id, session, now);
    OtherChainsStay(s, s', id, session.family);
  }

  // A new session joins one family only.
  ghost predicate OnlyJoins(table: map<nat, Session>, table': map<nat, Session>, id: nat, family: nat) {
    && id !in table && table'.Keys == table.Keys + {id} && table'[id].family == family
    && (forall other :: other in table ==> table'[other].family == table[other].family)
    && (forall other :: other in table && table[other].family != family ==> table'[other] == table[other])
  }

  lemma OtherChainStays(table: map<nat, Session>, table': map<nat, Session>, id: nat, family: nat, other: nat,
                        chain: seq<nat>)
    requires OnlyJoins(table, table', id, family) && other != family && IsChain(table, other, chain)
    ensures IsChain(table', other, chain)
  {
    UntouchedChain(table, table', other, chain);
  }

  lemma OtherChainsStay(s: State, s': State, id: nat, family: nat)
    requires Chained(s.table, s.chains) && OnlyJoins(s.table, s'.table, id, family)
    requires family in s'.chains && s'.chains == s.chains[family := s'.chains[family]]
    requires IsChain(s'.table, family, s'.chains[family])
    ensures Chained(s'.table, s'.chains)
  {
    forall f | f in s'.chains
      ensures IsChain(s'.table, f, s'.chains[f])
    {
      if f != family {
        assert f in s.chains && s'.chains[f] == s.chains[f];
        OtherChainStays(s.table, s'.table, id, family, f, s.chains[f]);
      }
    }
    forall other | other in s'.table
      ensures s'.table[other].family in s'.chains
    {
      assert other == id || other in s.table;
    }
  }

  lemma RotationIsLocal(table: map<nat, Session>, table': map<nat, Session>, sid: nat, id: nat, session: Session,
                        now: int)
    requires id !in table && sid in table && session.family == table[sid].family
    requires table' == Create(table, id, session, Some(sid), now)
    ensures OnlyJoins(table, table', id, session.family)
  {
  }

  lemma RotatedChain(table: map<nat, Session>, chain: seq<nat>, sid: nat, id: nat, session: Session, now: int)
    requires id !in table && sid in table && IsChain(table, session.family, chain)
    requires chain[|chain| - 1] == sid && session.replacedBy.None?
    ensures IsChain(Create(table, id, session, Some(sid), now), session.family, chain + [id])
  {
    var table', chain' := Create(table, id, session, Some(sid), now), chain + [id];
    assert forall other :: other in table && other != sid ==> table'[other] == table[other];
    forall i | 0 <= i < |chain'| - 1
      ensures table'[chain'[i]].revokedAt.Some? && table'[chain'[i]].replacedBy == Some(chain'[i + 1])
    {
      assert chain'[i] == chain[i];
    }
  }

  lemma RefreshKeepsChains(s: State, s': State, token: Presented, id: nat, session: Session, now: int, userActive: bool)
    requires Chained(s.table, s.chains) && id !in s.table
    requires session.family == token.fid && session.replacedBy.None?
    requires s' == ApplyRefresh(s, token, id, session, now, userActive)
    ensures Chained(s'.table, s'.chains)
  {
    var verdict := Verdict(s.table, token, now, userActive);
    if verdict.Ok? {
      RotationKeepsChains(s, s', token.sid, id, session, now);
    } else if verdict.error == Reused {
      RevokingKeepsChains(s.table, s'.table, now, s'.chains);
    }
  }

  lemma LogoutKeepsChains(s: State, s': State, sid: nat, now: int)
    requires Chained(s.table, s.chains) && s' == s.(table := RevokeOne(s.table, sid, now))
    ensures Chained(s'.table, s'.chains)
  {
    RevokingKeepsChains(s.table, s'.table, now, s'.chains);
  }

  lemma DisableKeepsChains(s: State, s': State, user: nat, now: int)
    requires Chained(s.table, s.chains) && s' == s.(table := RevokeUser(s.table, user, now))
    ensures Chained(s'.table, s'.chains)
  {
    RevokingKeepsChains(s.table, s'.table, now, s'.chains);
  }

  lemma LoginStepKeepsChains(s: State, s': State, step: Step)
    requires Chained(s.table, s.chains) && Enabled(s, step) && step.Login? && s' == Apply(s, step)
    ensures Chained(s'.table, s'.chains)
  {
    var session := Session(step.family, step.user, step.hash, step.now + step.lifetime, None, None);
    LoginKeepsChains(s, s', step.id, step.family, session, step.now);
  }

  lemma RefreshStepKeepsChains(s: State, s': State, step: Step)
    requires Chained(s.table, s.chains) && Enabled(s, step) && step.Refresh? && s' == Apply(s, step)
    ensures Chained(s'.table, s'.chains)
  {
    var session := Session(step.token.fid, step.token.sub, step.hash, step.now + step.lifetime, None, None);
    RefreshKeepsChains(s, s', step.token, step.id, session, step.now, step.userActive);
  }

  lemma StepKeepsChains(s: State, s': State, step: Step)
    requires Chained(s.table, s.chains) && Enabled(s, step) && s' == Apply(s, step)
    ensures Chained(s'.table, s'.chains)
  {
    if step.Login? {
      LoginStepKeepsChains(s, s', step);
    } else if step.Refresh? {
      RefreshStepKeepsChains(s, s', step);
    } else if step.Logout? {
      LogoutKeepsChains(s, s', step.sid, step.now);
    } else {
      DisableKeepsChains(s, s', step.user, step.now);
    }
  }

  ghost function Run(steps: seq<Step>): State {
    if steps == [] then State(map[], map[]) else Apply(Run(steps[..|steps| - 1]), steps[|steps| - 1])
  }

  ghost predicate Possible(steps: seq<Step>) {
    steps == []
    || (Possible(steps[..|steps| - 1]) && Enabled(Run(steps[..|steps| - 1]), steps[|steps| - 1]))
  }

  lemma {:induction false} PossibleAt(steps: seq<Step>, k: nat)
    requires Possible(steps) && k < |steps|
    ensures Possible(steps[..k]) && Possible(steps[..k + 1]) && Enabled(Run(steps[..k]), steps[k])
  {
    if k == |steps| - 1 {
      assert steps[..k + 1] == steps;
    } else {
      var earlier := steps[..|steps| - 1];
      PossibleAt(earlier, k);
      assert earlier[..k] == steps[..k] && earlier[..k + 1] == steps[..k + 1];
    }
  }

  ghost predicate LiveIsUnique(table: map<nat, Session>) {
    forall a, b | a in table && b in table && table[a].family == table[b].family && table[a].revokedAt.None?
      && table[b].revokedAt.None? ::
      a == b
  }

  // In every reachable state each family is one simple replaced_by path with at most
  // one live session.
  lemma {:induction false} FamiliesAreChains(steps: seq<Step>)
    requires Possible(steps)
    ensures Chained(Run(steps).table, Run(steps).chains)
    ensures LiveIsUnique(Run(steps).table)
  {
    if steps != [] {
      var n := |steps| - 1;
      FamiliesAreChains(steps[..n]);
      StepKeepsChains(Run(steps[..n]), Run(steps), steps[n]);
    }
    ChainedIsUnique(Run(steps).table, Run(steps).chains);
  }

  lemma ChainedIsUnique(table: map<nat, Session>, chains: Chains)
    requires Chained(table, chains)
    ensures LiveIsUnique(table)
  {
    forall a, b | a in table && b in table && table[a].family == table[b].family && table[a].revokedAt.None?
      && table[b].revokedAt.None?
      ensures a == b
    {
      AtMostOneLive(table, chains, a, b);
    }
  }

  // --- Revocation is final -------------------------------------------------------------------------

  // A revoked session keeps its revocation time, its family and its successor.
  lemma RevocationIsFinal(s: State, s': State, step: Step, id: nat)
    requires Enabled(s, step) && id in s.table && s.table[id].revokedAt.Some? && s' == Apply(s, step)
    ensures id in s'.table && s'.table[id] == s.table[id]
  {
  }

  ghost predicate Dead(s: State, family: nat) {
    family in s.chains && forall id :: id in s.table && s.table[id].family == family ==> s.table[id].revokedAt.Some?
  }

  lemma RevokedFamilyIsDead(s: State, family: nat, now: int)
    requires family in s.chains
    ensures Dead(s.(table := RevokeFamily(s.table, family, now)), family)
  {
  }

  // Presenting a revoked token, or a wrong text for a live one, kills the family.
  lemma ReuseKillsFamily(s: State, s': State, step: Step)
    requires Chained(s.table, s.chains) && Enabled(s, step) && step.Refresh? && s' == Apply(s, step)
    requires Verdict(s.table, step.token, step.now, step.userActive) == Err(Reused)
    ensures Dead(s', step.token.fid)
  {
    assert step.token.fid == s.table[step.token.sid].family;
    RevokedFamilyIsDead(s, step.token.fid, step.now);
    assert s' == s.(table := RevokeFamily(s.table, step.token.fid, step.now));
  }

  lemma DeadStaysDead(s: State, s': State, step: Step, family: nat)
    requires Enabled(s, step) && Dead(s, family) && s' == Apply(s, step)
    ensures Dead(s', family)
  {
  }

  lemma RunNext(steps: seq<Step>, k: nat)
    requires k < |steps|
    ensures Run(steps[..k + 1]) == Apply(Run(steps[..k]), steps[k])
  {
    assert steps[..k + 1][..k] == steps[..k];
  }

  // Over whole runs: once dead, a family never has a live session again.
  lemma {:induction false} DeadForever(steps: seq<Step>, i: nat, family: nat)
    requires Possible(steps) && i <= |steps| && Dead(Run(steps[..i]), family)
    ensures Dead(Run(steps), family)
  {
    if i == |steps| {
      assert steps[..i] == steps;
    } else {
      var earlier := steps[..|steps| - 1];
      assert earlier[..i] == steps[..i];
      DeadForever(earlier, i, family);
      DeadStaysDead(Run(earlier), Run(steps), steps[|steps| - 1], family);
    }
  }

  lemma ReuseIsFatal(steps: seq<Step>, i: nat)
    requires Possible(steps) && i < |steps| && steps[i].Refresh?
    requires Verdict(Run(steps[..i]).table, steps[i].token, steps[i].now, steps[i].userActive) == Err(Reused)
    ensures Dead(Run(steps[..i + 1]), steps[i].token.fid)
  {
    PossibleAt(steps, i);
    FamiliesAreChains(steps[..i]);
    RunNext(steps, i);
    ReuseKillsFamily(Run(steps[..i]), Run(steps[..i + 1]), steps[i]);
  }

  lemma DeadRefuses(s: State, step: Step)
    requires step.Refresh? && Dead(s, step.token.fid)
    ensures !Accepts(s, step)
  {
  }

  // The consequence of presenting a revoked token: no later refresh of its family succeeds.
  lemma ReuseStopsFamily(steps: seq<Step>, i: nat, j: nat)
    requires Possible(steps) && i < j < |steps| && steps[i].Refresh? && steps[j].Refresh?
    requires steps[j].token.fid == steps[i].token.fid
    requires Verdict(Run(steps[..i]).table, steps[i].token, steps[i].now, steps[i].userActive) == Err(Reused)
    ensures !Accepts(Run(steps[..j]), steps[j])
  {
    ReuseIsFatal(steps, i);
    PossibleAt(steps, j);
    assert steps[..j][..i + 1] == steps[..i + 1];
    DeadForever(steps[..j], i + 1, steps[i].token.fid);
    DeadRefuses(Run(steps[..j]), steps[j]);
  }

  ghost predicate IsRevoked(s: State, id: nat) {
    id in s.table && s.table[id].revokedAt.Some?
  }

  lemma {:induction false} RevokedForever(steps: seq<Step>, i: nat, id: nat)
    requires Possible(steps) && i <= |steps| && IsRevoked(Run(steps[..i]), id)
    ensures IsRevoked(Run(steps), id)
  {
    if i == |steps| {
      assert steps[..i] == steps;
    } else {
      var earlier := steps[..|steps| - 1];
      assert earlier[..i] == steps[..i];
      RevokedForever(earlier, i, id);
      RevocationIsFinal(Run(earlier), Run(steps), steps[|steps| - 1], id);
    }
  }

  // Each session is exchanged at most once, whatever tokens are presented: a second
  // attempt is refused and, if it names the right user and family, kills the family.
  lemma RedeemedOnce(steps: seq<Step>, i: nat, j: nat)
    requires Possible(steps) && i < j < |steps|
    requires Accepts(Run(steps[..i]), steps[i]) && steps[j].Refresh? && steps[j].token.sid == steps[i].token.sid
    ensures !Accepts(Run(steps[..j]), steps[j])
    ensures Verdict(Run(steps[..j]).table, steps[j].token, steps[j].now, steps[j].userActive)
            in {Err(SessionNotFound), Err(Reused)}
  {
    RunNext(steps, i);
    PossibleAt(steps, j);
    assert steps[..j][..i + 1] == steps[..i + 1];
    RevokedForever(steps[..j], i + 1, steps[i].token.sid);
  }
}
