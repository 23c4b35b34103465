/** Stream sessions: manual requests and stops, and the recording policy run. */
module StreamPolicy {
  import opened Common
  import opened WorkSchedules

  datatype Status = Requested | Starting | Live | Ended | Failed

  datatype Session = Session(id: nat, device: nat, employee: nat, startedAt: int, status: Status, mode: string,
                             endedAt: Option<int>)

  datatype Command = StartStream(device: nat, session: nat) | StopStream(device: nat, session: nat)

  datatype Store = Store(sessions: seq<Session>, commands: seq<Command>)

  predicate IsActive(s: Session) {
    s.status in {Requested, Starting, Live}
  }

  // --- Finding and changing sessions -----------------------------------------------------

  // ORDER BY started_at DESC LIMIT 1 over the employee's active sessions.
  function LatestActive(sessions: seq<Session>, employee: nat): (r: Option<nat>)
    ensures r.Some? ==> r.value < |sessions| && IsActive(sessions[r.value]) && sessions[r.value].employee == employee
  {
    if sessions == [] then None
    else
      var n := |sessions| - 1;
      var earlier := LatestActive(sessions[..n], employee);
      if !IsActive(sessions[n]) || sessions[n].employee != employee then earlier
      else if earlier.Some? && sessions[earlier.value].startedAt >= sessions[n].startedAt then earlier
      else Some(n)
  }

  function End(s: Session, now: int): Session {
    s.(status := Ended, endedAt := Some(now))
  }

  function EndAt(sessions: seq<Session>, i: nat, now: int): seq<Session>
    requires i < |sessions|
  {
    sessions[i := End(sessions[i], now)]
  }

  function EndAllOf(sessions: seq<Session>, employee: nat, now: int): seq<Session> {
    seq(|sessions|, i requires 0 <= i < |sessions| =>
      if sessions[i].employee == employee && IsActive(sessions[i]) then End(sessions[i], now) else sessions[i])
  }

  function Started(sessions: seq<Session>, device: nat, employee: nat, mode: string, now: int): Session {
    Session(|sessions|, device, employee, now, Requested, mode, None)
  }

  ghost predicate AtMostOneActive(sessions: seq<Session>) {
    forall i, j :: 0 <= i < j < |sessions| && IsActive(sessions[i]) && IsActive(sessions[j]) ==>
        sessions[i].employee != sessions[j].employee
  }

  // --- The policy for one device -----------------------------------------------------------

  const MINUTE: int := 60 * MICROS_PER_SECOND

  // A device that is online, with what the policy looks up for it: the employee's mode and
  // limits, the assigned work schedule, the wall-clock time, and the device's own recent
  // unproductive events.
  datatype Device = Device(
    id: nat, employee: nat, mode: string, schedule: Option<Option<Rule>>, local: int, graceMinutes: int, holiday: bool,
    windows: seq<Option<Rule>>, activityState: string, unproductive: seq<(int, int)>, triggerMinutes: int,
    timeoutMinutes: int)

  predicate Allowed(d: Device) {
    WithinWorkSchedule(d.schedule, d.local, d.graceMinutes, d.holiday) && d.activityState !in {"BREAK", "LOCKED"}
  }

  ghost predicate InWindow(windows: seq<Option<Rule>>, local: int) {
    exists i :: 0 <= i < |windows| && windows[i].Some? && Scheduled(windows[i].value, 0, local)
  }

  // An unproductive event from before the threshold that lasted into the last ten minutes.
  predicate Triggered(d: Device, now: int) {
    exists i :: 0 <= i < |d.unproductive| && d.unproductive[i].0 <= now - d.triggerMinutes * MINUTE
      && d.unproductive[i].1 > now - 10 * MINUTE
  }

  ghost predicate ShouldStart(d: Device, now: int) {
    if d.mode == "scheduled" then Allowed(d) && InWindow(d.windows, d.local)
    else if d.mode == "trigger" && Allowed(d) && d.activityState == "UNPRODUCTIVE" then Triggered(d, now)
    else d.mode == "always_on" && Allowed(d)
  }

  predicate TimedOut(s: Session, d: Device, now: int) {
    now - s.startedAt >= d.timeoutMinutes * MINUTE
  }

  // Parsed bounds are times of day.
  ghost predicate WindowsAreTimes(d: Device) {
    forall i :: 0 <= i < |d.windows| && d.windows[i].Some? ==> WellFormed(d.windows[i].value)
  }

  // A manual session is left alone until it times out.
  predicate LeftAlone(s: Session, d: Device, now: int) {
    s.mode == "on_demand" && !TimedOut(s, d, now)
  }

  ghost predicate Wanted(active: Option<Session>, d: Device, now: int) {
    ShouldStart(d, now) && !(active.Some? && active.value.mode == "on_demand")
  }

  ghost function PolicyStep(st: Store, d: Device, now: int): Store {
    var a := LatestActive(st.sessions, d.employee);
    var active := if a.Some? then Some(st.sessions[a.value]) else None;
    if active.Some? && LeftAlone(active.value, d, now) then st
    else
      var wanted := Wanted(active, d, now);
      var stop := active.Some? && (!wanted || active.value.mode != d.mode);
      var stopped := if stop
        then Store(EndAt(st.sessions, a.value, now), st.commands + [StopStream(d.id, active.value.id)])
        else st;
      if wanted && (active.None? || stop) then
        var started := Started(stopped.sessions, d.id, d.employee, d.mode, now);
        Store(stopped.sessions + [started], stopped.commands + [StartStream(d.id, started.id)])
      else stopped
  }

  ghost function PolicyRun(st: Store, devices: seq<Device>, now: int): Store {
    if devices == [] then st
    else PolicyStep(PolicyRun(st, devices[..|devices| - 1], now), devices[|devices| - 1], now)
  }

  // --- Requests and stops -------------------------------------------------------------------

  // The employee's approved devices as the request sees them.
  datatype Registered = Registered(
    device: nat, lastSeen: Option<int>, activityState: string, schedule: Option<Option<Rule>>, local: int,
    graceMinutes: int, holiday: bool)

  predicate SeenBefore(a: Registered, b: Registered) {
    b.lastSeen.Some? && (a.lastSeen.None? || a.lastSeen.value < b.lastSeen.value)
  }

  // ORDER BY last_seen DESC NULLS LAST LIMIT 1
  function LatestSeen(devices: seq<Registered>): (r: Option<nat>)
    ensures r.None? <==> devices == []
    ensures r.Some? ==>
              && r.value < |devices|
              && forall j :: 0 <= j < |devices| ==> !SeenBefore(devices[r.value], devices[j])
  {
    if devices == [] then None
    else
      var n := |devices| - 1;
      var earlier := LatestSeen(devices[..n]);
      if earlier.None? || SeenBefore(devices[earlier.value], devices[n]) then Some(n) else earlier
  }

  datatype StreamError = NoDevice | Offline | Paused | OutsideHours | NotFound

  function RequestStep(st: Store, device: nat, employee: nat, mode: string, now: int): Store {
    var ended := EndAllOf(st.sessions, employee, now);
    var started := Started(ended, device, employee, mode, now);
    Store(ended + [started], st.commands + [StartStream(device, started.id)])
  }

  function StopStep(st: Store, employee: nat, now: int): Store {
    match LatestActive(st.sessions, employee)
    case None => st
    case Some(i) => Store(EndAt(st.sessions, i, now),
                          st.commands + [StopStream(st.sessions[i].device, st.sessions[i].id)])
  }

  /** The stream_sessions and agent_commands tables. */
  class StreamStore {
    var sessions: seq<Session>
    var commands: seq<Command>

    ghost function State(): Store
      reads this
    {
      Store(sessions, commands)
    }

    constructor ()
      ensures State() == Store([], [])
    {
      sessions, commands := [], [];
    }

    method RequestStream(employee: nat, devices: seq<Registered>, mode: string, now: int)
      returns (r: Result<nat, StreamError>)
      modifies this
      ensures devices == [] <==> r == Err(NoDevice)
      ensures devices != [] ==>
                var d := devices[LatestSeen(devices).value];
                var online := d.lastSeen.Some? && now <= d.lastSeen.value + 90_000_000;
                var paused := d.activityState == "BREAK" || d.activityState == "LOCKED";
                var working := WithinWorkSchedule(d.schedule, d.local, d.graceMinutes, d.holiday);
                && (r == Err(Offline) <==> !online) && (r == Err(Paused) <==> online && paused)
                && (r.Ok? <==> online && !paused && working)
      ensures r.Ok? ==> r.value == |old(sessions)|
      ensures r.Ok? ==>
                State() == RequestStep(old(State()), devices[LatestSeen(devices).value].device, employee, mode, now)
      ensures r.Err? ==> State() == old(State())
    {
      var latest := LatestSeen(devices);
      if latest.None? {
        return Err(NoDevice);
      }
      var device := devices[latest.value];
      if device.lastSeen.None? || now - device.lastSeen.value > 90 * MICROS_PER_SECOND {
        return Err(Offline);
      }
      if device.activityState in {"BREAK", "LOCKED"} {
        return Err(Paused);
      }
      if !WithinWorkSchedule(device.schedule, device.local, device.graceMinutes, device.holiday) {
        return Err(OutsideHours);
      }
      sessions := EndAllOf(sessions, employee, now);
      var started := Started(sessions, device.device, employee, mode, now);
      sessions := sessions + [started];
      commands := commands + [StartStream(device.device, started.id)];
      return Ok(started.id);
    }

    method StopStream(employee: nat, now: int) returns (r: Result<(), StreamError>)
      modifies this
      ensures State() == StopStep(old(State()), employee, now)
      ensures r.Err? <==> LatestActive(old(sessions), employee).None?
    {
      var active := LatestActive(sessions, employee);
      if active.None? {
        return Err(NotFound);
      }
      var i := active.value;
      commands := commands + [Command.StopStream(sessions[i].device, sessions[i].id)];
      sessions := EndAt(sessions, i, now);
      return Ok(());
    }

    method RunStreamPolicyOnce(devices: seq<Device>, now: int)
      requires forall i :: 0 <= i < |devices| ==> WindowsAreTimes(devices[i])
      modifies this
      ensures State() == PolicyRun(old(State()), devices, now)
    {
      for i := 0 to |devices|
        invariant State() == PolicyRun(old(State()), devices[..i], now)
      {
        assert devices[..i + 1][..i] == devices[..i];
        var device := devices[i];
        var shouldStart := Decide(device, now);
        var active := LatestActive(sessions, device.employee);
        if active.Some? && sessions[active.value].mode == "on_demand" {
          if TimedOut(sessions[active.value], device, now) {
            shouldStart := false;
          } else {
            continue;
          }
        }
        if active.Some? && (!shouldStart || sessions[active.value].mode != device.mode) {
          commands := commands + [Command.StopStream(device.id, sessions[active.value].id)];
          sessions := EndAt(sessions, active.value, now);
          active := None;
        }
        if shouldStart && active.None? {
          var started := Started(sessions, device.id, device.employee, device.mode, now);
          sessions := sessions + [started];
          commands := commands + [StartStream(device.id, started.id)];
        }
      }
      assert devices[..|devices|] == devices;
    }
  }

  method Decide(device: Device, now: int) returns (shouldStart: bool)
    requires WindowsAreTimes(device)
    ensures shouldStart == ShouldStart(device, now)
  {
    var allowed := WithinWorkSchedule(device.schedule, device.local, device.graceMinutes, device.holiday)
      && device.activityState !in {"BREAK", "LOCKED"};
    shouldStart := device.mode == "always_on" && allowed;
    if device.mode == "scheduled" {
      var inWindow := ScheduledNow(device.windows, device.local);
      shouldStart := allowed && inWindow;
    }
    if device.mode == "trigger" && allowed && device.activityState == "UNPRODUCTIVE" {
      shouldStart := Triggered(device, now);
    }
  }

  // --- At most one active session --------------------------------------------------------------

  lemma {:induction false} NoneActive(sessions: seq<Session>, employee: nat)
    ensures LatestActive(sessions, employee).None? <==>
              forall i :: 0 <= i < |sessions| && IsActive(sessions[i]) ==> sessions[i].employee != employee
  {
    if sessions != [] {
      NoneActive(sessions[..|sessions| - 1], employee);
    }
  }

  // With at most one active session per employee the latest one is the only one.
  lemma OnlyActive(sessions: seq<Session>, employee: nat, i: nat)
    requires AtMostOneActive(sessions) && i < |sessions| && IsActive(sessions[i]) && sessions[i].employee == employee
    ensures LatestActive(sessions, employee) == Some(i)
  {
    NoneActive(sessions, employee);
    var latest := LatestActive(sessions, employee);
    assert !(latest.value < i) && !(i < latest.value);
  }

  lemma EndKeepsOne(sessions: seq<Session>, i: nat, now: int)
    requires AtMostOneActive(sessions) && i < |sessions|
    ensures AtMostOneActive(EndAt(sessions, i, now))
  {
  }

  lemma EndLeavesNone(sessions: seq<Session>, employee: nat, now: int)
    requires AtMostOneActive(sessions) && LatestActive(sessions, employee).Some?
    ensures LatestActive(EndAt(sessions, LatestActive(sessions, employee).value, now), employee).None?
  {
    var i := LatestActive(sessions, employee).value;
    NoneActive(EndAt(sessions, i, now), employee);
  }

  lemma StartKeepsOne(sessions: seq<Session>, started: Session)
    requires AtMostOneActive(sessions) && LatestActive(sessions, started.employee).None?
    ensures AtMostOneActive(sessions + [started])
  {
    NoneActive(sessions, started.employee);
  }

  lemma PolicyKeepsOne(st: Store, d: Device, now: int)
    requires AtMostOneActive(st.sessions)
    ensures AtMostOneActive(PolicyStep(st, d, now).sessions)
  {
    var a := LatestActive(st.sessions, d.employee);
    if a.Some? {
      var ended := EndAt(st.sessions, a.value, now);
      EndKeepsOne(st.sessions, a.value, now);
      EndLeavesNone(st.sessions, d.employee, now);
      StartKeepsOne(ended, Started(ended, d.id, d.employee, d.mode, now));
    } else {
      StartKeepsOne(st.sessions, Started(st.sessions, d.id, d.employee, d.mode, now));
    }
  }

  lemma {:induction false} PolicyRunKeepsOne(st: Store, devices: seq<Device>, now: int)
    requires AtMostOneActive(st.sessions)
    ensures AtMostOneActive(PolicyRun(st, devices, now).sessions)
  {
    if devices != [] {
      PolicyRunKeepsOne(st, devices[..|devices| - 1], now);
      PolicyKeepsOne(PolicyRun(st, devices[..|devices| - 1], now), devices[|devices| - 1], now);
    }
  }

  lemma RequestKeepsOne(st: Store, device: nat, employee: nat, mode: string, now: int)
    requires AtMostOneActive(st.sessions)
    ensures AtMostOneActive(RequestStep(st, device, employee, mode, now).sessions)
  {
    var ended := EndAllOf(st.sessions, employee, now);
    NoneActive(ended, employee);
    StartKeepsOne(ended, Started(ended, device, employee, mode, now));
  }

  lemma StopKeepsOne(st: Store, employee: nat, now: int)
    requires AtMostOneActive(st.sessions)
    ensures AtMostOneActive(StopStep(st, employee, now).sessions)
  {
  }

  datatype Step =
    | Request(device: nat, employee: nat, mode: string, now: int)
    | Stop(employee: nat, now: int)
    | Policy(devices: seq<Device>, now: int)

  ghost function Apply(st: Store, step: Step): Store {
    match step
    case Request(device, employee, mode, now) => RequestStep(st, device, employee, mode, now)
    case Stop(employee, now) => StopStep(st, employee, now)
    case Policy(devices, now) => PolicyRun(st, devices, now)
  }

  ghost function Run(steps: seq<Step>): Store {
    if steps == [] then Store([], []) else Apply(Run(steps[..|steps| - 1]), steps[|steps| - 1])
  }

  // Requests, stops and policy runs in any order.
  lemma {:induction false} OneActivePerEmployee(steps: seq<Step>)
    ensures AtMostOneActive(Run(steps).sessions)
  {
    if steps != [] {
      var st := Run(steps[..|steps| - 1]);
      OneActivePerEmployee(steps[..|steps| - 1]);
      match steps[|steps| - 1] {
        case Request(device, employee, mode, now) => RequestKeepsOne(st, device, employee, mode, now);
        case Stop(employee, now) => StopKeepsOne(st, employee, now);
        case Policy(devices, now) => PolicyRunKeepsOne(st, devices, now);
      }
    }
  }

  // --- Commands match sessions -------------------------------------------------------------------

  function StartCommands(commands: seq<Command>): seq<Command> {
    if commands == [] then []
    else
      var n := |commands| - 1;
      StartCommands(commands[..n]) + (if commands[n].StartStream? then [commands[n]] else [])
  }

  function StartsFor(sessions: seq<Session>): seq<Command> {
    seq(|sessions|, i requires 0 <= i < |sessions| => StartStream(sessions[i].device, i))
  }

  // Each session was announced once, in order, to its own device, and a stop was only
  // ever sent for a session that has ended.
  ghost predicate Commanded(st: Store) {
    && (forall i :: 0 <= i < |st.sessions| ==> st.sessions[i].id == i)
    && StartCommands(st.commands) == StartsFor(st.sessions)
    && (forall i :: 0 <= i < |st.commands| && st.commands[i].StopStream? ==>
          HasEnded(st.sessions, st.commands[i].session))
  }

  predicate HasEnded(sessions: seq<Session>, id: nat) {
    id < |sessions| && sessions[id].status == Ended
  }

  // Ending sessions, with or without sending a stop for one of them.
  lemma EndingStaysCommanded(st: Store, sessions: seq<Session>, stops: seq<Command>)
    requires Commanded(st) && |sessions| == |st.sessions|
    requires forall i :: 0 <= i < |sessions| ==> sessions[i].id == i && sessions[i].device == st.sessions[i].device
    requires forall i :: 0 <= i < |sessions| ==>
               sessions[i].status == st.sessions[i].status || sessions[i].status == Ended
    requires |stops| <= 1
    requires forall i :: 0 <= i < |stops| ==> stops[i].StopStream? && HasEnded(sessions, stops[i].session)
    ensures Commanded(Store(sessions, st.commands + stops))
  {
    assert StartsFor(sessions) == StartsFor(st.sessions);
    if stops != [] {
      assert (st.commands + stops)[..|st.commands|] == st.commands;
    } else {
      assert st.commands + stops == st.commands;
    }
  }

  lemma StartingStaysCommanded(st: Store, started: Session)
    requires Commanded(st) && started.id == |st.sessions|
    ensures Commanded(Store(st.sessions + [started], st.commands + [StartStream(started.device, started.id)]))
  {
    var commands := st.commands + [StartStream(started.device, started.id)];
    assert commands[..|st.commands|] == st.commands;
    assert StartsFor(st.sessions + [started]) == StartsFor(st.sessions) + [StartStream(started.device, started.id)];
  }

  lemma PolicyStaysCommanded(st: Store, d: Device, now: int)
    requires Commanded(st)
    ensures Commanded(PolicyStep(st, d, now))
  {
    var a := LatestActive(st.sessions, d.employee);
    var stopped := st;
    if a.Some? {
      var ended := EndAt(st.sessions, a.value, now);
      EndingStaysCommanded(st, ended, [StopStream(d.id, st.sessions[a.value].id)]);
      stopped := Store(ended, st.commands + [StopStream(d.id, st.sessions[a.value].id)]);
    }
    StartingStaysCommanded(stopped, Started(stopped.sessions, d.id, d.employee, d.mode, now));
  }

  lemma {:induction false} PolicyRunStaysCommanded(st: Store, devices: seq<Device>, now: int)
    requires Commanded(st)
    ensures Commanded(PolicyRun(st, devices, now))
  {
    if devices != [] {
      PolicyRunStaysCommanded(st, devices[..|devices| - 1], now);
      PolicyStaysCommanded(PolicyRun(st, devices[..|devices| - 1], now), devices[|devices| - 1], now);
    }
  }

  lemma RequestStaysCommanded(st: Store, device: nat, employee: nat, mode: string, now: int)
    requires Commanded(st)
    ensures Commanded(RequestStep(st, device, employee, mode, now))
  {
    var ended := EndAllOf(st.sessions, employee, now);
    EndingStaysCommanded(st, ended, []);
    assert st.commands + [] == st.commands;
    StartingStaysCommanded(Store(ended, st.commands), Started(ended, device, employee, mode, now));
  }

  lemma StopStaysCommanded(st: Store, employee: nat, now: int)
    requires Commanded(st)
    ensures Commanded(StopStep(st, employee, now))
  {
    var a := LatestActive(st.sessions, employee);
    if a.Some? {
      EndingStaysCommanded(st, EndAt(st.sessions, a.value, now),
                           [StopStream(st.sessions[a.value].device, st.sessions[a.value].id)]);
    }
  }

  // Over requests, stops and policy runs in any order.
  lemma {:induction false} CommandsMatchSessions(steps: seq<Step>)
    ensures Commanded(Run(steps))
  {
    if steps != [] {
      var st := Run(steps[..|steps| - 1]);
      CommandsMatchSessions(steps[..|steps| - 1]);
      match steps[|steps| - 1] {
        case Request(device, employee, mode, now) => RequestStaysCommanded(st, device, employee, mode, now);
        case Stop(employee, now) => StopStaysCommanded(st, employee, now);
        case Policy(devices, now) => PolicyRunStaysCommanded(st, devices, now);
      }
    }
  }

  // Polling marks the sessions of all delivered start commands as starting, ended or not.
  function PollStep(st: Store, delivered: set<nat>): Store {
    st.(sessions := seq(|st.sessions|, i requires 0 <= i < |st.sessions| =>
      if st.sessions[i].id in delivered then st.sessions[i].(status := Starting) else st.sessions[i]))
  }

  predicate Marked(st: Store, delivered: set<nat>, i: nat)
    requires i < |st.sessions|
  {
    i in delivered || IsActive(st.sessions[i])
  }

  // A poll keeps one active session per employee exactly if no employee has two sessions
  // that are active or about to be marked.
  lemma PollIsHarmlessExactly(st: Store, delivered: set<nat>)
    requires forall i :: 0 <= i < |st.sessions| ==> st.sessions[i].id == i
    ensures AtMostOneActive(PollStep(st, delivered).sessions) <==>
              forall i, j | 0 <= i < j < |st.sessions| && Marked(st, delivered, i) && Marked(st, delivered, j) ::
                st.sessions[i].employee != st.sessions[j].employee
  {
    var polled := PollStep(st, delivered).sessions;
    assert forall i :: 0 <= i < |polled| ==> (IsActive(polled[i]) <==> Marked(st, delivered, i));
    assert forall i :: 0 <= i < |polled| ==> polled[i].employee == st.sessions[i].employee;
    if AtMostOneActive(polled) {
      forall i, j | 0 <= i < j < |st.sessions| && Marked(st, delivered, i) && Marked(st, delivered, j)
        ensures st.sessions[i].employee != st.sessions[j].employee
      {
        assert IsActive(polled[i]) && IsActive(polled[j]);
      }
    }
  }

  // The announcement of session i may be handed out next to no other announced and no
  // active session of its employee.
  ghost predicate MayAnnounce(st: Store, delivered: set<nat>, i: nat)
    requires i < |st.sessions|
  {
    forall j | 0 <= j < |st.sessions| && j != i && st.sessions[j].employee == st.sessions[i].employee ::
      !Marked(st, delivered, j)
  }

  // In every reachable state a poll is harmless exactly if it may hand out each of the
  // start commands it does hand out.
  lemma PollMayDeliver(steps: seq<Step>, delivered: set<nat>)
    ensures AtMostOneActive(PollStep(Run(steps), delivered).sessions) <==>
              forall i :: 0 <= i < |Run(steps).sessions| && i in delivered ==> MayAnnounce(Run(steps), delivered, i)
  {
    var st := Run(steps);
    CommandsMatchSessions(steps);
    OneActivePerEmployee(steps);
    PollIsHarmlessExactly(st, delivered);
    if AtMostOneActive(PollStep(st, delivered).sessions) {
      forall i, j | 0 <= i < |st.sessions| && i in delivered && 0 <= j < |st.sessions| && j != i
          && st.sessions[j].employee == st.sessions[i].employee
        ensures !Marked(st, delivered, j)
      {
        assert Marked(st, delivered, i);
      }
    }
  }

  // Two requests before the device polls leave two active sessions after it does.
  lemma PollRevivesEndedSession(device: nat, employee: nat, mode: string, now: int)
    ensures var st := Run([Request(device, employee, mode, now), Request(device, employee, mode, now)]);
            && st.commands == [StartStream(device, 0), StartStream(device, 1)]
            && AtMostOneActive(st.sessions) && !AtMostOneActive(PollStep(st, {0, 1}).sessions)
  {
    var request := Request(device, employee, mode, now);
    assert [request, request][..1] == [request] && [request][..0] == [];
    assert Run([]) == Store([], []);
    var one := Run([request]);
    assert one == RequestStep(Store([], []), device, employee, mode, now);
    assert one == Store([Session(0, device, employee, now, Requested, mode, None)], [StartStream(device, 0)]);
    var two := Run([request, request]);
    assert two == RequestStep(one, device, employee, mode, now);
    assert |two.sessions| == 2 && two.sessions[0].status == Ended && two.sessions[1].id == 1;
    var polled := PollStep(two, {0, 1}).sessions;
    assert IsActive(polled[0]) && IsActive(polled[1]) && polled[0].employee == polled[1].employee;
  }

  // --- Convergence -------------------------------------------------------------------------------

  // What the policy sees of an employee.
  function View(sessions: seq<Session>, employee: nat): Option<Session> {
    var a := LatestActive(sessions, employee);
    if a.Some? then Some(sessions[a.value]) else None
  }

  ghost function NextView(v: Option<Session>, d: Device, now: int, id: nat): Option<Session> {
    if v.Some? && (LeftAlone(v.value, d, now) || (Wanted(v, d, now) && v.value.mode == d.mode)) then v
    else if Wanted(v, d, now) then Some(Session(id, d.id, d.employee, now, Requested, d.mode, None))
    else None
  }

  // The policy has nothing to do for the device.
  ghost predicate Settled(v: Option<Session>, d: Device, now: int) {
    match v
    case None => !ShouldStart(d, now)
    case Some(a) => LeftAlone(a, d, now) || (Wanted(v, d, now) && a.mode == d.mode)
  }

  // A step does nothing exactly for a settled device.
  lemma SettledExactly(st: Store, d: Device, now: int)
    ensures PolicyStep(st, d, now) == st <==> Settled(View(st.sessions, d.employee), d, now)
  {
    var st' := PolicyStep(st, d, now);
    if !Settled(View(st.sessions, d.employee), d, now) {
      assert |st'.commands| > |st.commands|;
    }
  }

  // A manual session that timed out is stopped in one run and replaced only in the next.
  ghost predicate NeedsTwoRuns(v: Option<Session>, d: Device, now: int) {
    v.Some? && v.value.mode == "on_demand" && TimedOut(v.value, d, now) && ShouldStart(d, now)
  }

  lemma OneStepSettles(v: Option<Session>, d: Device, now: int, id: nat)
    ensures Settled(NextView(v, d, now, id), d, now) <==> !NeedsTwoRuns(v, d, now)
  {
    assert ShouldStart(d, now) ==> d.mode != "on_demand";
  }

  lemma ViewOfOnly(sessions: seq<Session>, employee: nat, i: nat)
    requires AtMostOneActive(sessions) && i < |sessions| && IsActive(sessions[i]) && sessions[i].employee == employee
    ensures View(sessions, employee) == Some(sessions[i])
  {
    OnlyActive(sessions, employee, i);
  }

  lemma {:induction false} SamePlace(sessions: seq<Session>, i: nat, now: int, employee: nat)
    requires i < |sessions| && sessions[i].employee != employee
    ensures LatestActive(EndAt(sessions, i, now), employee) == LatestActive(sessions, employee)
  {
    var n := |sessions| - 1;
    var ended := EndAt(sessions, i, now);
    if i < n {
      assert ended[..n] == EndAt(sessions[..n], i, now);
      SamePlace(sessions[..n], i, now, employee);
    } else {
      assert ended[..n] == sessions[..n];
    }
  }

  lemma ViewOfOthers(sessions: seq<Session>, i: nat, now: int, employee: nat)
    requires i < |sessions| && sessions[i].employee != employee
    ensures View(EndAt(sessions, i, now), employee) == View(sessions, employee)
  {
    SamePlace(sessions, i, now, employee);
  }

  lemma ViewAfterStart(sessions: seq<Session>, started: Session, employee: nat)
    requires AtMostOneActive(sessions + [started]) && IsActive(started)
    ensures View(sessions + [started], employee) ==
            if started.employee == employee then Some(started) else View(sessions, employee)
  {
    assert (sessions + [started])[..|sessions|] == sessions;
    if started.employee == employee {
      ViewOfOnly(sessions + [started], employee, |sessions|);
    }
  }

  // One step moves the view of its own employee and of nobody else.
  lemma StepView(st: Store, d: Device, now: int, employee: nat)
    requires AtMostOneActive(st.sessions)
    ensures var after := View(PolicyStep(st, d, now).sessions, employee);
            if employee == d.employee then after == NextView(View(st.sessions, employee), d, now, |st.sessions|)
            else after == View(st.sessions, employee)
  {
    var a := LatestActive(st.sessions, d.employee);
    PolicyKeepsOne(st, d, now);
    if a.Some? {
      var ended := EndAt(st.sessions, a.value, now);
      EndLeavesNone(st.sessions, d.employee, now);
      if employee != d.employee {
        ViewOfOthers(st.sessions, a.value, now, employee);
      }
      if PolicyStep(st, d, now).sessions == ended + [Started(ended, d.id, d.employee, d.mode, now)] {
        ViewAfterStart(ended, Started(ended, d.id, d.employee, d.mode, now), employee);
      }
    } else if ShouldStart(d, now) {
      ViewAfterStart(st.sessions, Started(st.sessions, d.id, d.employee, d.mode, now), employee);
    }
  }

  ghost predicate OneDeviceEach(devices: seq<Device>) {
    forall i, j :: 0 <= i < j < |devices| ==> devices[i].employee != devices[j].employee
  }

  // A run moves each listed employee's view once.
  lemma {:induction false} RunView(st: Store, devices: seq<Device>, now: int, i: nat) returns (id: nat)
    requires AtMostOneActive(st.sessions) && OneDeviceEach(devices) && i < |devices|
    ensures View(PolicyRun(st, devices, now).sessions, devices[i].employee)
         == NextView(View(st.sessions, devices[i].employee), devices[i], now, id)
  {
    var n := |devices| - 1;
    var before := PolicyRun(st, devices[..n], now);
    PolicyRunKeepsOne(st, devices[..n], now);
    if i < n {
      id := RunView(st, devices[..n], now, i);
      OtherView(before, devices[n], now, devices[i].employee);
    } else {
      id := |before.sessions|;
      UnlistedView(st, devices[..n], now, devices[n].employee);
      OwnView(before, devices[n], now);
    }
  }

  lemma OtherView(st: Store, d: Device, now: int, employee: nat)
    requires AtMostOneActive(st.sessions) && employee != d.employee
    ensures View(PolicyStep(st, d, now).sessions, employee) == View(st.sessions, employee)
  {
    StepView(st, d, now, employee);
  }

  lemma OwnView(st: Store, d: Device, now: int)
    requires AtMostOneActive(st.sessions)
    ensures View(PolicyStep(st, d, now).sessions, d.employee)
         == NextView(View(st.sessions, d.employee), d, now, |st.sessions|)
  {
    StepView(st, d, now, d.employee);
  }

  lemma {:induction false} UnlistedView(st: Store, devices: seq<Device>, now: int, employee: nat)
    requires AtMostOneActive(st.sessions)
    requires forall i :: 0 <= i < |devices| ==> devices[i].employee != employee
    ensures View(PolicyRun(st, devices, now).sessions, employee) == View(st.sessions, employee)
  {
    if devices != [] {
      var n := |devices| - 1;
      UnlistedView(st, devices[..n], now, employee);
      PolicyRunKeepsOne(st, devices[..n], now);
      StepView(PolicyRun(st, devices[..n], now), devices[n], now, employee);
    }
  }

  ghost predicate AllSettled(st: Store, devices: seq<Device>, now: int) {
    forall i :: 0 <= i < |devices| ==> Settled(View(st.sessions, devices[i].employee), devices[i], now)
  }

  lemma {:induction false} SettledRun(st: Store, devices: seq<Device>, now: int)
    requires AllSettled(st, devices, now)
    ensures PolicyRun(st, devices, now) == st
  {
    if devices != [] {
      var n := |devices| - 1;
      assert forall i :: 0 <= i < n ==> devices[..n][i] == devices[i];
      SettledRun(st, devices[..n], now);
      SettledExactly(st, devices[n], now);
    }
  }

  // One run is enough unless some employee's timed-out manual session has to make room
  // for a session the policy wants.
  lemma OneRunConverges(st: Store, devices: seq<Device>, now: int)
    requires AtMostOneActive(st.sessions) && OneDeviceEach(devices)
    ensures var once := PolicyRun(st, devices, now);
            AllSettled(once, devices, now)
            <==> forall i :: 0 <= i < |devices| ==>
                !NeedsTwoRuns(View(st.sessions, devices[i].employee), devices[i], now)
  {
    var once := PolicyRun(st, devices, now);
    forall i | 0 <= i < |devices|
      ensures Settled(View(once.sessions, devices[i].employee), devices[i], now)
              <==> !NeedsTwoRuns(View(st.sessions, devices[i].employee), devices[i], now)
    {
      var id := RunView(st, devices, now, i);
      OneStepSettles(View(st.sessions, devices[i].employee), devices[i], now, id);
    }
  }

  // --- When repeated runs reach a fixed point ------------------------------------------------------

  ghost function Runs(st: Store, devices: seq<Device>, now: int, n: nat): Store {
    if n == 0 then st else PolicyRun(Runs(st, devices, now, n - 1), devices, now)
  }

  lemma {:induction false} RunsKeepOne(st: Store, devices: seq<Device>, now: int, n: nat)
    requires AtMostOneActive(st.sessions)
    ensures AtMostOneActive(Runs(st, devices, now, n).sessions)
  {
    if n > 0 {
      RunsKeepOne(st, devices, now, n - 1);
      PolicyRunKeepsOne(Runs(st, devices, now, n - 1), devices, now);
    }
  }

  lemma {:induction false} RunGrowsOrStays(st: Store, devices: seq<Device>, now: int)
    ensures PolicyRun(st, devices, now) == st || |PolicyRun(st, devices, now).commands| > |st.commands|
  {
    if devices != [] {
      RunGrowsOrStays(st, devices[..|devices| - 1], now);
    }
  }

  lemma AllButLastSettled(st: Store, devices: seq<Device>, now: int)
    requires devices != []
    ensures var n := |devices| - 1;
            AllSettled(st, devices, now) <==>
              AllSettled(st, devices[..n], now) && Settled(View(st.sessions, devices[n].employee), devices[n], now)
  {
    var n := |devices| - 1;
    assert forall i :: 0 <= i < n ==> devices[..n][i] == devices[i];
    if AllSettled(st, devices, now) {
      forall i | 0 <= i < n
        ensures Settled(View(st.sessions, devices[..n][i].employee), devices[..n][i], now)
      {
        assert devices[i] == devices[..n][i];
      }
    }
  }

  lemma LastStepStays(st: Store, devices: seq<Device>, now: int)
    requires devices != [] && PolicyRun(st, devices, now) == st
    ensures PolicyRun(st, devices[..|devices| - 1], now) == st && PolicyStep(st, devices[|devices| - 1], now) == st
  {
    var before := PolicyRun(st, devices[..|devices| - 1], now);
    RunGrowsOrStays(st, devices[..|devices| - 1], now);
    RunGrowsOrStays(before, [devices[|devices| - 1]], now);
    assert PolicyRun(before, [devices[|devices| - 1]], now) == st;
  }

  // A run changes nothing exactly if it has nothing to do for any device.
  lemma {:induction false} FixedExactly(st: Store, devices: seq<Device>, now: int)
    ensures PolicyRun(st, devices, now) == st <==> AllSettled(st, devices, now)
  {
    if AllSettled(st, devices, now) {
      SettledRun(st, devices, now);
    } else if PolicyRun(st, devices, now) == st {
      LastStepStays(st, devices, now);
      FixedExactly(st, devices[..|devices| - 1], now);
      SettledExactly(st, devices[|devices| - 1], now);
      AllButLastSettled(st, devices, now);
    }
  }

  // Mode and timeout come from the employee's settings.
  ghost predicate Configured(devices: seq<Device>) {
    forall i, j | 0 <= i < |devices| && 0 <= j < |devices| && devices[i].employee == devices[j].employee ::
      devices[i].mode == devices[j].mode && devices[i].timeoutMinutes == devices[j].timeoutMinutes
  }

  // The employee has a manual session that the policy leaves alone.
  predicate Manual(v: Option<Session>, d: Device, now: int) {
    v.Some? && LeftAlone(v.value, d, now)
  }

  ghost predicate Agree(devices: seq<Device>, employee: nat, d: Device, now: int) {
    forall i :: 0 <= i < |devices| && devices[i].employee == employee ==>
      devices[i].mode == d.mode && devices[i].timeoutMinutes == d.timeoutMinutes
      && (ShouldStart(devices[i], now) <==> ShouldStart(d, now))
  }

  // For each employee a manual session is left alone, or all devices want the same.
  ghost predicate Stable(st: Store, devices: seq<Device>, now: int) {
    forall i | 0 <= i < |devices| ::
      Manual(View(st.sessions, devices[i].employee), devices[i], now)
        || Agree(devices, devices[i].employee, devices[i], now)
  }

  lemma {:induction false} ManualStays(st: Store, devices: seq<Device>, now: int, d: Device)
    requires AtMostOneActive(st.sessions) && Manual(View(st.sessions, d.employee), d, now)
    requires forall i :: 0 <= i < |devices| && devices[i].employee == d.employee ==>
               devices[i].timeoutMinutes == d.timeoutMinutes
    ensures View(PolicyRun(st, devices, now).sessions, d.employee) == View(st.sessions, d.employee)
  {
    if devices != [] {
      var n := |devices| - 1;
      assert forall i :: 0 <= i < n ==> devices[..n][i] == devices[i];
      ManualStays(st, devices[..n], now, d);
      PolicyRunKeepsOne(st, devices[..n], now);
      StepView(PolicyRun(st, devices[..n], now), devices[n], now, d.employee);
    }
  }

  predicate HasManual(sessions: seq<Session>, employee: nat) {
    var v := View(sessions, employee);
    v.Some? && v.value.mode == "on_demand"
  }

  // The policy never starts a manual session, so one it leaves alone was there before.
  lemma {:induction false} ManualIsOld(st: Store, devices: seq<Device>, now: int, employee: nat)
    requires AtMostOneActive(st.sessions)
    requires HasManual(PolicyRun(st, devices, now).sessions, employee)
    ensures View(PolicyRun(st, devices, now).sessions, employee) == View(st.sessions, employee)
  {
    if devices != [] {
      var n := |devices| - 1;
      PolicyRunKeepsOne(st, devices[..n], now);
      StepView(PolicyRun(st, devices[..n], now), devices[n], now, employee);
      ManualIsOld(st, devices[..n], now, employee);
    }
  }

  lemma {:induction false} ManualWasThere(st: Store, devices: seq<Device>, now: int, n: nat, employee: nat)
    requires AtMostOneActive(st.sessions)
    requires HasManual(Runs(st, devices, now, n).sessions, employee)
    ensures View(Runs(st, devices, now, n).sessions, employee) == View(st.sessions, employee)
  {
    if n > 0 {
      var before := Runs(st, devices, now, n - 1);
      RunsKeepOne(st, devices, now, n - 1);
      assert Runs(st, devices, now, n) == PolicyRun(before, devices, now);
      ManualIsOld(before, devices, now, employee);
      ManualWasThere(st, devices, now, n - 1, employee);
    }
  }

  // The first step for an employee clears a timed-out manual session away ...
  lemma {:induction false} OneRunReadies(st: Store, devices: seq<Device>, now: int, d: Device)
    requires AtMostOneActive(st.sessions) && Agree(devices, d.employee, d, now)
    requires d in devices || !NeedsTwoRuns(View(st.sessions, d.employee), d, now)
    ensures !NeedsTwoRuns(View(PolicyRun(st, devices, now).sessions, d.employee), d, now)
  {
    if devices != [] {
      var n := |devices| - 1;
      var before := PolicyRun(st, devices[..n], now);
      assert devices == devices[..n] + [devices[n]];
      PolicyRunKeepsOne(st, devices[..n], now);
      StepView(before, devices[n], now, d.employee);
      if devices[n].employee != d.employee {
        OneRunReadies(st, devices[..n], now, d);
      }
    }
  }

  // ... and the next one settles it.
  lemma {:induction false} NextRunSettles(st: Store, devices: seq<Device>, now: int, d: Device)
    requires AtMostOneActive(st.sessions) && Agree(devices, d.employee, d, now)
    requires !NeedsTwoRuns(View(st.sessions, d.employee), d, now)
    requires d in devices || Settled(View(st.sessions, d.employee), d, now)
    ensures Settled(View(PolicyRun(st, devices, now).sessions, d.employee), d, now)
  {
    if devices != [] {
      var n := |devices| - 1;
      var before := PolicyRun(st, devices[..n], now);
      assert devices == devices[..n] + [devices[n]];
      PolicyRunKeepsOne(st, devices[..n], now);
      StepView(before, devices[n], now, d.employee);
      if devices[n].employee == d.employee {
        OneRunReadies(st, devices[..n], now, d);
        OneStepSettles(View(before.sessions, d.employee), devices[n], now, |before.sessions|);
      } else {
        NextRunSettles(st, devices[..n], now, d);
      }
    }
  }

  lemma StableSettles(st: Store, devices: seq<Device>, now: int)
    requires AtMostOneActive(st.sessions) && Configured(devices) && Stable(st, devices, now)
    ensures AllSettled(PolicyRun(PolicyRun(st, devices, now), devices, now), devices, now)
  {
    var once := PolicyRun(st, devices, now);
    PolicyRunKeepsOne(st, devices, now);
    forall i | 0 <= i < |devices|
      ensures Settled(View(PolicyRun(once, devices, now).sessions, devices[i].employee), devices[i], now)
    {
      var d := devices[i];
      if Manual(View(st.sessions, d.employee), d, now) {
        ManualStays(st, devices, now, d);
        ManualStays(once, devices, now, d);
      } else {
        OneRunReadies(st, devices, now, d);
        NextRunSettles(once, devices, now, d);
      }
    }
  }

  lemma FixedIsStable(st: Store, devices: seq<Device>, now: int, n: nat)
    requires AtMostOneActive(st.sessions) && Configured(devices)
    requires AllSettled(Runs(st, devices, now, n), devices, now)
    ensures Stable(st, devices, now)
  {
    forall i | 0 <= i < |devices| && !Manual(View(st.sessions, devices[i].employee), devices[i], now)
      ensures Agree(devices, devices[i].employee, devices[i], now)
    {
      var v := View(Runs(st, devices, now, n).sessions, devices[i].employee);
      if v.Some? && v.value.mode == "on_demand" {
        ManualWasThere(st, devices, now, n, devices[i].employee);
      }
      assert Settled(v, devices[i], now);
      assert forall j :: 0 <= j < |devices| && devices[j].employee == devices[i].employee ==>
               Settled(v, devices[j], now);
    }
  }

  lemma NextRun(st: Store, devices: seq<Device>, now: int, n: nat)
    ensures Runs(st, devices, now, n + 1) == PolicyRun(Runs(st, devices, now, n), devices, now)
  {
  }

  ghost predicate FixedAt(st: Store, devices: seq<Device>, now: int, n: nat) {
    Runs(st, devices, now, n + 1) == Runs(st, devices, now, n)
  }

  // With unchanged inputs some later run changes nothing exactly if each employee has a
  // manual session that is left alone or devices that agree; then the third one does.
  lemma SettlesExactly(st: Store, devices: seq<Device>, now: int)
    requires AtMostOneActive(st.sessions) && Configured(devices)
    ensures (exists n: nat :: FixedAt(st, devices, now, n)) <==> Stable(st, devices, now)
    ensures Stable(st, devices, now) ==> FixedAt(st, devices, now, 2)
  {
    if n: nat :| FixedAt(st, devices, now, n) {
      FixedExactly(Runs(st, devices, now, n), devices, now);
      FixedIsStable(st, devices, now, n);
    }
    if Stable(st, devices, now) {
      StableSettles(st, devices, now);
      NextRun(st, devices, now, 0);
      NextRun(st, devices, now, 1);
      NextRun(st, devices, now, 2);
      SettledRun(Runs(st, devices, now, 2), devices, now);
      assert FixedAt(st, devices, now, 2);
    }
  }

  // With one device per employee and unchanged inputs, two runs reach a fixed point.
  lemma PolicyConverges(st: Store, devices: seq<Device>, now: int)
    requires AtMostOneActive(st.sessions) && OneDeviceEach(devices)
    ensures var twice := PolicyRun(PolicyRun(st, devices, now), devices, now);
            PolicyRun(twice, devices, now) == twice
  {
    forall i, j | 0 <= i < |devices| && 0 <= j < |devices| && devices[i].employee == devices[j].employee
      ensures i == j
    {
      assert !(i < j) && !(j < i);
    }
    StableSettles(st, devices, now);
    SettledRun(PolicyRun(PolicyRun(st, devices, now), devices, now), devices, now);
  }

  // Two devices of one employee, one of them locked: the policy starts and ends sessions
  // forever.
  lemma LockedAndUnlocked(employee: nat, now: int, n: nat)
    ensures var unlocked := Device(1, employee, "always_on", None, 0, 0, false, [], "NEUTRAL", [], 5, 30);
            var devices := [unlocked, unlocked.(id := 2, activityState := "LOCKED")];
            Configured(devices) && !FixedAt(Store([], []), devices, now, n)
  {
    var unlocked := Device(1, employee, "always_on", None, 0, 0, false, [], "NEUTRAL", [], 5, 30);
    var locked := unlocked.(id := 2, activityState := "LOCKED");
    var devices := [unlocked, locked];
    assert ShouldStart(unlocked, now) && !ShouldStart(locked, now);
    assert devices[0] == unlocked && devices[1] == locked;
    assert !Agree(devices, employee, devices[0], now);
    assert View([], employee) == None;
    assert !Stable(Store([], []), devices, now);
    SettlesExactly(Store([], []), devices, now);
  }

  lemma StartsFromNothing(st: Store, d: Device, now: int)
    requires LatestActive(st.sessions, d.employee).None? && ShouldStart(d, now)
    ensures PolicyStep(st, d, now)
         == Store(st.sessions + [Started(st.sessions, d.id, d.employee, d.mode, now)],
                  st.commands + [StartStream(d.id, |st.sessions|)])
  {
  }

  lemma StopsUnwanted(st: Store, d: Device, now: int, i: nat)
    requires LatestActive(st.sessions, d.employee) == Some(i)
    requires st.sessions[i].mode != "on_demand" && !ShouldStart(d, now)
    ensures PolicyStep(st, d, now)
         == Store(EndAt(st.sessions, i, now), st.commands + [StopStream(d.id, st.sessions[i].id)])
  {
  }

  lemma TwoDeviceRun(st: Store, a: Device, b: Device, now: int)
    ensures PolicyRun(st, [a, b], now) == PolicyStep(PolicyStep(st, a, now), b, now)
  {
    assert [a, b][..1] == [a] && [a][..0] == [];
    assert PolicyRun(st, [], now) == st;
    assert PolicyRun(st, [a], now) == PolicyStep(st, a, now);
  }

  // With two devices of one employee, one that wants recording and one that forbids it,
  // every run starts a session and ends it again; the stop goes to the wrong device.
  lemma TwoDevicesNeverSettle(st: Store, a: Device, b: Device, now: int)
    requires AtMostOneActive(st.sessions) && a.employee == b.employee
    requires ShouldStart(a, now) && !ShouldStart(b, now) && View(st.sessions, a.employee).None?
    ensures var after := PolicyRun(st, [a, b], now);
            && |after.sessions| == |st.sessions| + 1 && after.sessions[|st.sessions|].device == a.id
            && after.commands == st.commands + [StartStream(a.id, |st.sessions|), StopStream(b.id, |st.sessions|)]
            && View(after.sessions, a.employee).None? && AtMostOneActive(after.sessions)
  {
    var n := |st.sessions|;
    var started := Started(st.sessions, a.id, a.employee, a.mode, now);
    var one := Store(st.sessions + [started], st.commands + [StartStream(a.id, n)]);
    TwoDeviceRun(st, a, b, now);
    StartsFromNothing(st, a, now);
    StartKeepsOne(st.sessions, started);
    OnlyActive(one.sessions, b.employee, n);
    StopsUnwanted(one, b, now, n);
    EndKeepsOne(one.sessions, n, now);
    EndLeavesNone(one.sessions, b.employee, now);
  }

  // n runs leave n ended sessions and 2n commands behind.
  lemma {:induction false} TwoDevicesPileUp(st: Store, a: Device, b: Device, now: int, n: nat)
    requires AtMostOneActive(st.sessions) && a.employee == b.employee
    requires ShouldStart(a, now) && !ShouldStart(b, now) && View(st.sessions, a.employee).None?
    ensures var after := Runs(st, [a, b], now, n);
            && |after.sessions| == |st.sessions| + n && |after.commands| == |st.commands| + 2 * n
            && View(after.sessions, a.employee).None? && AtMostOneActive(after.sessions)
  {
    if n > 0 {
      TwoDevicesPileUp(st, a, b, now, n - 1);
      TwoDevicesNeverSettle(Runs(st, [a, b], now, n - 1), a, b, now);
    }
  }

  // --- Manual sessions and their timeout ------------------------------------------------------------

  // A session somebody asked for that has neither ended nor failed.
  predicate ActiveManual(s: Session, employee: nat) {
    s.status in {Requested, Starting, Live} && s.employee == employee && s.mode == "on_demand"
  }

  predicate HasManualSession(sessions: seq<Session>, employee: nat) {
    exists i :: 0 <= i < |sessions| && ActiveManual(sessions[i], employee)
  }

  // Before its timeout a manual session keeps the policy from doing anything.
  lemma ManualIsLeft(st: Store, d: Device, now: int, i: nat)
    requires AtMostOneActive(st.sessions) && i < |st.sessions| && ActiveManual(st.sessions[i], d.employee)
    requires now < st.sessions[i].startedAt + d.timeoutMinutes * 60_000_000
    ensures PolicyStep(st, d, now) == st
  {
    OnlyActive(st.sessions, d.employee, i);
  }

  // From then on it is ended, and told so.
  lemma ManualIsEnded(st: Store, d: Device, now: int, i: nat)
    requires AtMostOneActive(st.sessions) && i < |st.sessions| && ActiveManual(st.sessions[i], d.employee)
    requires now >= st.sessions[i].startedAt + d.timeoutMinutes * 60_000_000
    ensures PolicyStep(st, d, now)
         == Store(st.sessions[i := st.sessions[i].(status := Ended, endedAt := Some(now))],
                  st.commands + [StopStream(d.id, st.sessions[i].id)])
    ensures !HasManualSession(PolicyStep(st, d, now).sessions, d.employee)
  {
    OnlyActive(st.sessions, d.employee, i);
    var ended := EndAt(st.sessions, i, now);
    EndKeepsOne(st.sessions, i, now);
    forall j | 0 <= j < |ended|
      ensures !ActiveManual(ended[j], d.employee)
    {
      assert j != i ==> ended[j] == st.sessions[j];
      assert j < i || j == i || i < j;
    }
  }

  // A step for a device never starts a manual session, and ends none of another employee.
  lemma ManualOfOthers(st: Store, d: Device, now: int, i: nat)
    requires i < |st.sessions| && d.employee != st.sessions[i].employee
    ensures i < |PolicyStep(st, d, now).sessions| && PolicyStep(st, d, now).sessions[i] == st.sessions[i]
  {
  }

  lemma NoManualIsStarted(st: Store, d: Device, now: int, employee: nat)
    requires !HasManualSession(st.sessions, employee)
    ensures !HasManualSession(PolicyStep(st, d, now).sessions, employee)
  {
    var sessions := PolicyStep(st, d, now).sessions;
    forall j | 0 <= j < |sessions|
      ensures !ActiveManual(sessions[j], employee)
    {
      assert j < |st.sessions| ==> !ActiveManual(st.sessions[j], employee);
      assert ShouldStart(d, now) ==> d.mode != "on_demand";
    }
  }

  // Policy runs one after the other, each with the devices and the time it finds.
  datatype PolicyCall = PolicyCall(devices: seq<Device>, now: int)

  ghost function PolicyCalls(st: Store, calls: seq<PolicyCall>): Store {
    if calls == [] then st
    else
      var last := calls[|calls| - 1];
      PolicyRun(PolicyCalls(st, calls[..|calls| - 1]), last.devices, last.now)
  }

  ghost predicate BeforeTimeout(s: Session, call: PolicyCall) {
    forall k :: 0 <= k < |call.devices| && call.devices[k].employee == s.employee ==>
      call.now < s.startedAt + call.devices[k].timeoutMinutes * 60_000_000
  }

  ghost predicate TimesOut(s: Session, call: PolicyCall) {
    exists k :: 0 <= k < |call.devices| && call.devices[k].employee == s.employee
      && call.now >= s.startedAt + call.devices[k].timeoutMinutes * 60_000_000
  }

  lemma {:induction false} RunLeavesManual(st: Store, devices: seq<Device>, now: int, i: nat, employee: nat)
    requires AtMostOneActive(st.sessions) && i < |st.sessions| && ActiveManual(st.sessions[i], employee)
    requires BeforeTimeout(st.sessions[i], PolicyCall(devices, now))
    ensures var sessions := PolicyRun(st, devices, now).sessions;
            i < |sessions| && sessions[i] == st.sessions[i]
  {
    if devices != [] {
      var n := |devices| - 1;
      var before := PolicyRun(st, devices[..n], now);
      assert forall k :: 0 <= k < n ==> devices[..n][k] == devices[k];
      RunLeavesManual(st, devices[..n], now, i, employee);
      PolicyRunKeepsOne(st, devices[..n], now);
      if devices[n].employee == employee {
        ManualIsLeft(before, devices[n], now, i);
      } else {
        ManualOfOthers(before, devices[n], now, i);
      }
    }
  }

  lemma {:induction false} NoManualInRun(st: Store, devices: seq<Device>, now: int, employee: nat)
    requires !HasManualSession(st.sessions, employee)
    ensures !HasManualSession(PolicyRun(st, devices, now).sessions, employee)
  {
    if devices != [] {
      NoManualInRun(st, devices[..|devices| - 1], now, employee);
      NoManualIsStarted(PolicyRun(st, devices[..|devices| - 1], now), devices[|devices| - 1], now, employee);
    }
  }

  // One device that finds the session timed out is enough.
  lemma StepWithManual(st: Store, d: Device, now: int, i: nat, employee: nat)
    requires AtMostOneActive(st.sessions) && i < |st.sessions| && ActiveManual(st.sessions[i], employee)
    ensures var sessions := PolicyStep(st, d, now).sessions;
            || (i < |sessions| && sessions[i] == st.sessions[i]
                && !(d.employee == employee && now >= st.sessions[i].startedAt + d.timeoutMinutes * 60_000_000))
            || !HasManualSession(sessions, employee)
  {
    if d.employee != employee {
      ManualOfOthers(st, d, now, i);
    } else if now < st.sessions[i].startedAt + d.timeoutMinutes * 60_000_000 {
      ManualIsLeft(st, d, now, i);
    } else {
      ManualIsEnded(st, d, now, i);
    }
  }

  lemma {:induction false} RunEndsManual(st: Store, devices: seq<Device>, now: int, i: nat, employee: nat)
    requires AtMostOneActive(st.sessions) && i < |st.sessions| && ActiveManual(st.sessions[i], employee)
    ensures var sessions := PolicyRun(st, devices, now).sessions;
            || (i < |sessions| && sessions[i] == st.sessions[i]
                && !TimesOut(st.sessions[i], PolicyCall(devices, now)))
            || !HasManualSession(sessions, employee)
  {
    if devices != [] {
      var n := |devices| - 1;
      var before := PolicyRun(st, devices[..n], now);
      assert devices == devices[..n] + [devices[n]];
      RunEndsManual(st, devices[..n], now, i, employee);
      PolicyRunKeepsOne(st, devices[..n], now);
      if !HasManualSession(before.sessions, employee) {
        NoManualIsStarted(before, devices[n], now, employee);
      } else {
        StepWithManual(before, devices[n], now, i, employee);
      }
    }
  }

  lemma {:induction false} CallsKeepOne(st: Store, calls: seq<PolicyCall>)
    requires AtMostOneActive(st.sessions)
    ensures AtMostOneActive(PolicyCalls(st, calls).sessions)
  {
    if calls != [] {
      var last := calls[|calls| - 1];
      CallsKeepOne(st, calls[..|calls| - 1]);
      PolicyRunKeepsOne(PolicyCalls(st, calls[..|calls| - 1]), last.devices, last.now);
    }
  }

  // Over any policy runs: a manual session is untouched exactly as long as no device of its
  // employee has been evaluated at its timeout or later; after that the employee has none.
  lemma {:induction false} ManualEndsAtTimeout(st: Store, calls: seq<PolicyCall>, i: nat, employee: nat)
    requires AtMostOneActive(st.sessions) && i < |st.sessions| && ActiveManual(st.sessions[i], employee)
    ensures var sessions := PolicyCalls(st, calls).sessions;
            if forall k :: 0 <= k < |calls| ==> BeforeTimeout(st.sessions[i], calls[k])
            then i < |sessions| && sessions[i] == st.sessions[i]
            else !HasManualSession(sessions, employee)
  {
    if calls != [] {
      var n := |calls| - 1;
      var before := PolicyCalls(st, calls[..n]);
      assert forall k :: 0 <= k < n ==> calls[..n][k] == calls[k];
      ManualEndsAtTimeout(st, calls[..n], i, employee);
      CallsKeepOne(st, calls[..n]);
      if forall k :: 0 <= k < n ==> BeforeTimeout(st.sessions[i], calls[k]) {
        if BeforeTimeout(st.sessions[i], calls[n]) {
          RunLeavesManual(before, calls[n].devices, calls[n].now, i, employee);
        } else {
          RunEndsManual(before, calls[n].devices, calls[n].now, i, employee);
          assert TimesOut(st.sessions[i], calls[n]);
        }
      } else {
        NoManualInRun(before, calls[n].devices, calls[n].now, employee);
      }
    }
  }

  // A stop ends the employee's one active session and tells the device it runs on.
  lemma StopEndsSession(st: Store, employee: nat, now: int, i: nat)
    requires AtMostOneActive(st.sessions) && i < |st.sessions| && st.sessions[i].employee == employee
    requires st.sessions[i].status in {Requested, Starting, Live}
    ensures StopStep(st, employee, now)
         == Store(st.sessions[i := st.sessions[i].(status := Ended, endedAt := Some(now))],
                  st.commands + [StopStream(st.sessions[i].device, st.sessions[i].id)])
  {
    OnlyActive(st.sessions, employee, i);
  }

  // Without one nothing happens.
  lemma NothingToStop(st: Store, employee: nat, now: int)
    requires forall i :: 0 <= i < |st.sessions| && st.sessions[i].employee == employee ==>
               st.sessions[i].status in {Ended, Failed}
    ensures StopStep(st, employee, now) == st
  {
    NoneActive(st.sessions, employee);
  }

  // --- Stops reach the device that records ---------------------------------------------------------

  // Every stop is sent to the device of its session.
  ghost predicate StopsAreOwn(st: Store) {
    forall i :: 0 <= i < |st.commands| && st.commands[i].StopStream? ==>
      IsDeviceOf(st.sessions, st.commands[i].session, st.commands[i].device)
  }

  predicate IsDeviceOf(sessions: seq<Session>, id: nat, device: nat) {
    id < |sessions| && sessions[id].device == device
  }

  // Known before the step: it sends no stop, or the active session is on the device itself.
  ghost predicate StopsOwn(v: Option<Session>, d: Device, now: int) {
    v.None? || Settled(v, d, now) || v.value.device == d.id
  }

  lemma StopsStayOwn(st: Store, sessions: seq<Session>, more: seq<Command>)
    requires Commanded(st) && |st.sessions| <= |sessions|
    requires forall i :: 0 <= i < |st.sessions| ==> sessions[i].device == st.sessions[i].device
    ensures StopsAreOwn(Store(sessions, st.commands + more))
        <==> StopsAreOwn(st) && StopsAreOwn(Store(sessions, more))
  {
    var st' := Store(sessions, st.commands + more);
    assert forall i :: 0 <= i < |st.commands| ==> st'.commands[i] == st.commands[i];
    assert forall i :: 0 <= i < |more| ==> st'.commands[|st.commands| + i] == more[i];
    if StopsAreOwn(st) && StopsAreOwn(Store(sessions, more)) {
      forall i | 0 <= i < |st'.commands| && st'.commands[i].StopStream?
        ensures IsDeviceOf(sessions, st'.commands[i].session, st'.commands[i].device)
      {
        if i >= |st.commands| {
          assert st'.commands[i] == more[i - |st.commands|];
        }
      }
    }
    if StopsAreOwn(st') {
      forall i | 0 <= i < |st.commands| && st.commands[i].StopStream?
        ensures IsDeviceOf(st.sessions, st.commands[i].session, st.commands[i].device)
      {
        assert st'.commands[i].StopStream? && HasEnded(st.sessions, st.commands[i].session);
      }
      forall i | 0 <= i < |more| && more[i].StopStream?
        ensures IsDeviceOf(sessions, more[i].session, more[i].device)
      {
        assert st'.commands[|st.commands| + i].StopStream?;
      }
    }
  }

  // What a step adds to the commands, and that no session changes its device.
  lemma StepSends(st: Store, d: Device, now: int) returns (more: seq<Command>)
    ensures PolicyStep(st, d, now).commands == st.commands + more
    ensures var sessions := PolicyStep(st, d, now).sessions;
            |st.sessions| <= |sessions|
            && forall i :: 0 <= i < |st.sessions| ==> sessions[i].device == st.sessions[i].device
    ensures forall i :: 0 <= i < |more| && more[i].StopStream? ==>
              var a := LatestActive(st.sessions, d.employee);
              a.Some? && more[i] == StopStream(d.id, st.sessions[a.value].id)
    ensures var v := View(st.sessions, d.employee);
            v.Some? && !Settled(v, d, now) ==> more != [] && more[0].StopStream?
    ensures var v := View(st.sessions, d.employee);
            v.Some? && Settled(v, d, now) ==> more == []
  {
    var st' := PolicyStep(st, d, now);
    more := st'.commands[|st.commands|..];
  }

  // A policy step keeps every stop on the right device exactly if the active session that
  // it ends, if any, is on the device under evaluation.
  lemma StepStopsExactly(st: Store, d: Device, now: int)
    requires Commanded(st)
    ensures StopsAreOwn(PolicyStep(st, d, now)) <==> StopsAreOwn(st) && StopsOwn(View(st.sessions, d.employee), d, now)
  {
    var sessions, a := PolicyStep(st, d, now).sessions, LatestActive(st.sessions, d.employee);
    var more := StepSends(st, d, now);
    StopsStayOwn(st, sessions, more);
    if a.Some? && !Settled(Some(st.sessions[a.value]), d, now) {
      assert more[0] == StopStream(d.id, a.value) && sessions[a.value].device == st.sessions[a.value].device;
    }
  }

  ghost predicate AllStopsOwn(st: Store, devices: seq<Device>, now: int) {
    forall i :: 0 <= i < |devices| ==> StopsOwn(View(st.sessions, devices[i].employee), devices[i], now)
  }

  lemma AllButLastStopsOwn(st: Store, devices: seq<Device>, now: int)
    requires devices != []
    ensures var n := |devices| - 1;
            AllStopsOwn(st, devices, now) <==>
              AllStopsOwn(st, devices[..n], now) && StopsOwn(View(st.sessions, devices[n].employee), devices[n], now)
  {
    var n := |devices| - 1;
    assert forall i :: 0 <= i < n ==> devices[..n][i] == devices[i];
    if AllStopsOwn(st, devices, now) {
      forall i | 0 <= i < n
        ensures StopsOwn(View(st.sessions, devices[..n][i].employee), devices[..n][i], now)
      {
        assert devices[i] == devices[..n][i];
      }
    }
  }

  // Over a run in which each employee is listed once, all stops go to the right device
  // exactly if for each listed device this can be seen before the run.
  lemma {:induction false} RunStopsExactly(st: Store, devices: seq<Device>, now: int)
    requires Commanded(st) && AtMostOneActive(st.sessions) && OneDeviceEach(devices)
    ensures StopsAreOwn(PolicyRun(st, devices, now)) <==> StopsAreOwn(st) && AllStopsOwn(st, devices, now)
  {
    if devices != [] {
      var n := |devices| - 1;
      RunStopsExactly(st, devices[..n], now);
      PolicyRunStaysCommanded(st, devices[..n], now);
      UnlistedView(st, devices[..n], now, devices[n].employee);
      StepStopsExactly(PolicyRun(st, devices[..n], now), devices[n], now);
      AllButLastStopsOwn(st, devices, now);
    }
  }

  // Every session is on the one device its employee uses.
  ghost predicate AtHome(sessions: seq<Session>, deviceOf: nat -> nat) {
    forall i :: 0 <= i < |sessions| ==> sessions[i].device == deviceOf(sessions[i].employee)
  }

  ghost predicate DevicesAreHome(devices: seq<Device>, deviceOf: nat -> nat) {
    forall i :: 0 <= i < |devices| ==> devices[i].id == deviceOf(devices[i].employee)
  }

  ghost predicate UsesOneDevice(step: Step, deviceOf: nat -> nat) {
    match step
    case Request(device, employee, _, _) => device == deviceOf(employee)
    case Stop(_, _) => true
    case Policy(devices, _) => DevicesAreHome(devices, deviceOf)
  }

  lemma StepStaysHome(st: Store, d: Device, now: int, deviceOf: nat -> nat)
    requires Commanded(st) && StopsAreOwn(st) && AtHome(st.sessions, deviceOf) && d.id == deviceOf(d.employee)
    ensures StopsAreOwn(PolicyStep(st, d, now)) && AtHome(PolicyStep(st, d, now).sessions, deviceOf)
  {
    StepStopsExactly(st, d, now);
  }

  lemma {:induction false} PolicyStaysHome(st: Store, devices: seq<Device>, now: int, deviceOf: nat -> nat)
    requires Commanded(st) && StopsAreOwn(st) && AtHome(st.sessions, deviceOf) && DevicesAreHome(devices, deviceOf)
    ensures StopsAreOwn(PolicyRun(st, devices, now)) && AtHome(PolicyRun(st, devices, now).sessions, deviceOf)
  {
    if devices != [] {
      var n := |devices| - 1;
      PolicyStaysHome(st, devices[..n], now, deviceOf);
      PolicyRunStaysCommanded(st, devices[..n], now);
      StepStaysHome(PolicyRun(st, devices[..n], now), devices[n], now, deviceOf);
    }
  }

  lemma RequestStaysHome(st: Store, device: nat, employee: nat, mode: string, now: int, deviceOf: nat -> nat)
    requires Commanded(st) && StopsAreOwn(st) && AtHome(st.sessions, deviceOf) && device == deviceOf(employee)
    ensures var st' := RequestStep(st, device, employee, mode, now); StopsAreOwn(st') && AtHome(st'.sessions, deviceOf)
  {
    var st' := RequestStep(st, device, employee, mode, now);
    StopsStayOwn(st, st'.sessions, [StartStream(device, |st.sessions|)]);
  }

  lemma StopStaysHome(st: Store, employee: nat, now: int, deviceOf: nat -> nat)
    requires Commanded(st) && StopsAreOwn(st) && AtHome(st.sessions, deviceOf)
    ensures var st' := StopStep(st, employee, now); StopsAreOwn(st') && AtHome(st'.sessions, deviceOf)
  {
    var a := LatestActive(st.sessions, employee);
    if a.Some? {
      StopsStayOwn(st, EndAt(st.sessions, a.value, now), [StopStream(st.sessions[a.value].device, a.value)]);
    }
  }

  // Over requests, stops and policy runs in which each employee uses one device, every
  // stop goes to the device that records.
  lemma {:induction false} StopsGoHome(steps: seq<Step>, deviceOf: nat -> nat)
    requires forall i :: 0 <= i < |steps| ==> UsesOneDevice(steps[i], deviceOf)
    ensures StopsAreOwn(Run(steps)) && AtHome(Run(steps).sessions, deviceOf)
  {
    if steps != [] {
      var st := Run(steps[..|steps| - 1]);
      StopsGoHome(steps[..|steps| - 1], deviceOf);
      CommandsMatchSessions(steps[..|steps| - 1]);
      match steps[|steps| - 1] {
        case Request(device, employee, mode, now) => RequestStaysHome(st, device, employee, mode, now, deviceOf);
        case Stop(employee, now) => StopStaysHome(st, employee, now, deviceOf);
        case Policy(devices, now) => PolicyStaysHome(st, devices, now, deviceOf);
      }
    }
  }

  // --- What a request does ---------------------------------------------------------------------------

  predicate Running(s: Session, employee: nat) {
    s.status in {Requested, Starting, Live} && s.employee == employee
  }

  // A request ends the employee's running sessions, leaves all others as they are, and
  // starts one on the device.
  lemma RequestExactly(st: Store, device: nat, employee: nat, mode: string, now: int)
    ensures var n, after := |st.sessions|, RequestStep(st, device, employee, mode, now);
            && |after.sessions| == n + 1 && after.commands == st.commands + [StartStream(device, n)]
            && after.sessions[n] == Session(n, device, employee, now, Requested, mode, None)
            && (forall i :: 0 <= i < n && Running(st.sessions[i], employee) ==>
                  after.sessions[i] == st.sessions[i].(status := Ended, endedAt := Some(now)))
            && (forall i :: 0 <= i < n && !Running(st.sessions[i], employee) ==> after.sessions[i] == st.sessions[i])
  {
  }

  // Even where polls left several, the session that is found is running and none that runs
  // started later.
  lemma {:induction false} FoundIsLatest(sessions: seq<Session>, employee: nat)
    ensures var found := LatestActive(sessions, employee);
            if found.None? then forall i :: 0 <= i < |sessions| ==> !Running(sessions[i], employee)
            else
              && Running(sessions[found.value], employee)
              && forall i :: 0 <= i < |sessions| && Running(sessions[i], employee) ==>
                  sessions[i].startedAt <= sessions[found.value].startedAt
  {
    if sessions != [] {
      FoundIsLatest(sessions[..|sessions| - 1], employee);
    }
  }

  // --- The policy respects the schedule ------------------------------------------------------------

  // Some occurrence of one of the readable windows, on any day, covers the time.
  ghost predicate CoveredByWindow(d: Device) {
    exists i :: 0 <= i < |d.windows| && d.windows[i].Some? && Scheduled(d.windows[i].value, 0, d.local)
  }

  // An unproductive event began long enough ago and lasted into the last ten minutes.
  predicate LongUnproductive(d: Device, now: int) {
    exists i :: 0 <= i < |d.unproductive|
      && d.unproductive[i].0 + d.triggerMinutes * 60_000_000 <= now && now < d.unproductive[i].1 + 600_000_000
  }

  // The device may record: it works within its schedule, neither locked nor on a break,
  // and its mode asks for it.
  ghost predicate MayRecord(d: Device, now: int) {
    && WithinWorkSchedule(d.schedule, d.local, d.graceMinutes, d.holiday)
    && d.activityState != "BREAK" && d.activityState != "LOCKED"
    && (|| d.mode == "always_on"
        || (d.mode == "scheduled" && CoveredByWindow(d))
        || (d.mode == "trigger" && d.activityState == "UNPRODUCTIVE" && LongUnproductive(d, now)))
  }

  lemma ShouldStartExactly(d: Device, now: int)
    ensures ShouldStart(d, now) <==> MayRecord(d, now)
  {
    assert CoveredByWindow(d) <==> InWindow(d.windows, d.local);
    TriggeredExactly(d, now);
  }

  lemma TriggeredExactly(d: Device, now: int)
    ensures Triggered(d, now) <==> LongUnproductive(d, now)
  {
    forall i | 0 <= i < |d.unproductive|
      ensures d.unproductive[i].0 <= now - d.triggerMinutes * MINUTE <==>
              d.unproductive[i].0 + d.triggerMinutes * 60_000_000 <= now
      ensures d.unproductive[i].1 > now - 10 * MINUTE <==> now < d.unproductive[i].1 + 600_000_000
    {
    }
  }

  // What a run leaves an employee with one device: a manual session until it times out, and
  // then none; otherwise a session of the device's mode exactly if the device may record.
  lemma RecordsExactly(st: Store, devices: seq<Device>, now: int, i: nat)
    requires AtMostOneActive(st.sessions) && OneDeviceEach(devices) && i < |devices|
    ensures var d := devices[i];
            var before, after := View(st.sessions, d.employee), View(PolicyRun(st, devices, now).sessions, d.employee);
            if before.Some? && before.value.mode == "on_demand" then
              after == if now < before.value.startedAt + d.timeoutMinutes * 60_000_000 then before else None
            else
              && (after.Some? <==> MayRecord(d, now))
              && (after.Some? ==> after.value.mode == d.mode)
              && (after.Some? && before.Some? && before.value.mode == d.mode ==> after == before)
              && (after.Some? && (before.None? || before.value.mode != d.mode) ==>
                    after.value.device == d.id && after.value.startedAt == now && after.value.status == Requested)
  {
    var id := RunView(st, devices, now, i);
    ShouldStartExactly(devices[i], now);
  }

  // So an automatic session is only active where its device should record: neither locked
  // nor on a break, on no holiday, and inside some occurrence, on any day, of the work
  // schedule.
  lemma RecordsOnlyInHours(st: Store, devices: seq<Device>, now: int, i: nat)
    requires AtMostOneActive(st.sessions) && OneDeviceEach(devices) && i < |devices|
    ensures var d, v := devices[i], View(PolicyRun(st, devices, now).sessions, devices[i].employee);
            v.Some? && v.value.mode != "on_demand" ==>
              && v.value.mode == d.mode && MayRecord(d, now)
              && (d.schedule.None?
                  || (!d.holiday
                      && (d.schedule.value.None? || Scheduled(d.schedule.value.value, Grace(d.graceMinutes), d.local))))
  {
    RecordsExactly(st, devices, now, i);
  }
}
