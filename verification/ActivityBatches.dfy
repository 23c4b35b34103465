/**
 What the server accepts from an agent: the validation of one interval, the overlap
 check of a batch, and the clipped durations a timeline adds up. Times are in
 microseconds, the resolution of Python's datetime.
 */
module ActivityBatches {
  import opened Common
  import opened StableOrder

  const MAX_EVENT_DURATION_SECONDS: int := 24 * 60 * 60
  const MAX_BATCH: nat := 5000
  const ALLOWED_STATES: set<string> := {"PRODUCTIVE", "NEUTRAL", "UNPRODUCTIVE", "IDLE", "LOCKED", "BREAK"}

  // --- One interval -----------------------------------------------------------

  datatype Stamp = Stamp(at: int, hasZone: bool)

  datatype ValidatedInterval = ValidatedInterval(start: int, end: int, durationSeconds: int, state: string)

  datatype IntervalError = NoTimezone | NotPositive | TooLong | UnsupportedState

  function StripLeft(s: string): string {
    if s != [] && IsBlank(s[0]) then StripLeft(s[1..]) else s
  }

  function StripRight(s: string): string {
    if s != [] && IsBlank(s[|s| - 1]) then StripRight(s[..|s| - 1]) else s
  }

  function NormalizeState(value: string): Option<string> {
    var normalized := Upper(StripRight(StripLeft(value)));
    if normalized in ALLOWED_STATES then Some(normalized) else None
  }

  ghost predicate AllBlank(s: string) {
    forall c :: c in s ==> IsBlank(c)
  }

  // The text from i to j is the state in some case, with only white space around it.
  ghost predicate ReadsAs(value: string, i: nat, j: nat, state: string) {
    i <= j <= |value| && AllBlank(value[..i]) && AllBlank(value[j..]) && SameUpToCase(value[i..j], state)
  }

  lemma {:induction false} LeftStripped(s: string) returns (i: nat)
    ensures i <= |s| && StripLeft(s) == s[i..] && AllBlank(s[..i]) && (i < |s| ==> !IsBlank(s[i]))
    decreases |s|
  {
    i := 0;
    if s != [] && IsBlank(s[0]) {
      var k := LeftStripped(s[1..]);
      i := k + 1;
      assert s[..i] == [s[0]] + s[1..][..k];
    }
  }

  lemma {:induction false} RightStripped(s: string) returns (j: nat)
    ensures j <= |s| && StripRight(s) == s[..j] && AllBlank(s[j..]) && (j > 0 ==> !IsBlank(s[j - 1]))
    decreases |s|
  {
    j := |s|;
    if s != [] && IsBlank(s[|s| - 1]) {
      j := RightStripped(s[..|s| - 1]);
      assert s[j..] == s[..|s| - 1][j..] + [s[|s| - 1]];
    }
  }

  lemma StrippedCore(value: string) returns (i: nat, j: nat)
    ensures i <= j <= |value| && StripRight(StripLeft(value)) == value[i..j]
    ensures AllBlank(value[..i]) && AllBlank(value[j..])
    ensures i < j ==> !IsBlank(value[i]) && !IsBlank(value[j - 1])
  {
    i := LeftStripped(value);
    var k := RightStripped(value[i..]);
    j := i + k;
    assert value[i..][..k] == value[i..j] && value[i..][k..] == value[j..];
  }

  // Stripping leaves a text without white space at its ends as it is.
  lemma CoreIsUnique(value: string, i: nat, j: nat, k: nat, l: nat)
    requires i < j <= |value| && k <= l <= |value|
    requires AllBlank(value[..i]) && AllBlank(value[j..]) && !IsBlank(value[i]) && !IsBlank(value[j - 1])
    requires AllBlank(value[..k]) && AllBlank(value[l..]) && (k < l ==> !IsBlank(value[k]) && !IsBlank(value[l - 1]))
    ensures i == k && j == l
  {
    assert forall m :: 0 <= m < i ==> value[m] == value[..i][m];
    assert forall m :: 0 <= m < k ==> value[m] == value[..k][m];
    assert forall m :: j <= m < |value| ==> value[m] == value[j..][m - j];
    assert forall m :: l <= m < |value| ==> value[m] == value[l..][m - l];
  }

  ghost predicate IsCapital(s: string) {
    s != "" && forall c :: c in s ==> 'A' <= c <= 'Z'
  }

  ghost predicate IsState(s: string) {
    s == "PRODUCTIVE" || s == "NEUTRAL" || s == "UNPRODUCTIVE" || s == "IDLE" || s == "LOCKED" || s == "BREAK"
  }

  lemma StatesAreCapital(s: string)
    ensures IsState(s) ==> IsCapital(s)
  {
  }

  lemma CapitalIsUpper(s: string)
    requires IsCapital(s)
    ensures Upper(s) == s
    ensures forall c, d :: d in s && SameLetter(c, d) ==> !IsBlank(c)
  {
    assert forall i :: 0 <= i < |s| ==> s[i] in s;
  }

  lemma NormalizedIsRead(value: string, state: string)
    requires IsCapital(state) && Upper(StripRight(StripLeft(value))) == state
    ensures exists i, j :: ReadsAs(value, i, j, state)
  {
    var i, j := StrippedCore(value);
    CapitalIsUpper(state);
    UpperExactly(value[i..j], state);
    assert ReadsAs(value, i, j, state);
  }

  lemma ReadIsNormalized(value: string, i: nat, j: nat, state: string)
    requires IsCapital(state) && ReadsAs(value, i, j, state)
    ensures Upper(StripRight(StripLeft(value))) == state
  {
    var k, l := StrippedCore(value);
    CapitalIsUpper(state);
    assert SameLetter(value[i..j][0], state[0]) && SameLetter(value[i..j][j - i - 1], state[j - i - 1]);
    CoreIsUnique(value, i, j, k, l);
    UpperExactly(value[i..j], state);
  }

  // A state is read in any case and with white space around it, and nothing else is read.
  lemma NormalizeStateExactly(value: string, state: string)
    ensures NormalizeState(value) == Some(state) <==> IsState(state) && exists i, j :: ReadsAs(value, i, j, state)
  {
    StatesAreCapital(state);
    if NormalizeState(value) == Some(state) {
      NormalizedIsRead(value, state);
    }
    if i: nat, j: nat :| IsState(state) && ReadsAs(value, i, j, state) {
      ReadIsNormalized(value, i, j, state);
    }
  }

  function ValidateInterval(start: Stamp, end: Stamp, state: string): Result<ValidatedInterval, IntervalError> {
    var duration := WholeSeconds(end.at - start.at);
    if !start.hasZone || !end.hasZone then Err(NoTimezone)
    else if duration <= 0 then Err(NotPositive)
    else if duration > MAX_EVENT_DURATION_SECONDS then Err(TooLong)
    else
      match NormalizeState(state)
      case None => Err(UnsupportedState)
      case Some(normalized) => Ok(ValidatedInterval(start.at, end.at, duration, normalized))
  }

  // An interval is accepted iff its zones and state are known and it lasts at least one
  // second and less than a second more than a day; fractions of a second are dropped.
  lemma ValidIntervalExactly(start: Stamp, end: Stamp, state: string)
    ensures var r := ValidateInterval(start, end, state);
            && (r.Ok? <==>
                  && start.hasZone && end.hasZone && NormalizeState(state).Some?
                  && start.at + 1_000_000 <= end.at < start.at + 86_401_000_000)
            && (r.Ok? ==>
                  && 0 <= end.at - start.at - r.value.durationSeconds * 1_000_000 < 1_000_000
                  && r.value.start == start.at && r.value.end == end.at && NormalizeState(state) == Some(r.value.state))
  {
    assert end.at >= start.at ==> WholeSeconds(end.at - start.at) == (end.at - start.at) / MICROS_PER_SECOND;
  }

  // --- A batch ----------------------------------------------------------------

  datatype SessionKey = SessionKey(windowsSid: Option<string>, windowsSessionId: Option<int>)

  datatype EventInput = EventInput(
    eventUuid: nat, tsStart: Stamp, tsEnd: Stamp, state: string, session: SessionKey,
    keystrokes: int, clicks: int, mouseDistance: int)

  datatype BatchError = WrongSize | InvalidEvent(index: nat) | SentAtWithoutZone | Overlap

  predicate ValidEvent(e: EventInput) {
    && ValidateInterval(e.tsStart, e.tsEnd, e.state).Ok?
    && 0 <= e.keystrokes && 0 <= e.clicks && 0 <= e.mouseDistance
  }

  predicate Disjoint(a: EventInput, b: EventInput) {
    a.tsEnd.at <= b.tsStart.at || b.tsEnd.at <= a.tsStart.at
  }

  predicate IsFirst(events: seq<EventInput>, i: nat)
    requires i < |events|
  {
    forall j :: 0 <= j < i ==> events[j].eventUuid != events[i].eventUuid
  }

  // The requirement: events of one Windows session do not overlap, a repeated UUID
  // counting once.
  ghost predicate SessionsDisjoint(events: seq<EventInput>) {
    forall i, j | 0 <= i < j < |events| && IsFirst(events, i) && IsFirst(events, j)
      && events[i].session == events[j].session ::
      Disjoint(events[i], events[j])
  }

  ghost predicate AcceptableBatch(sentAt: Stamp, events: seq<EventInput>) {
    && 1 <= |events| <= 5000 && sentAt.hasZone
    && (forall i :: 0 <= i < |events| ==> ValidEvent(events[i]))
    && SessionsDisjoint(events)
  }

  // The first occurrences that belong to one session, in order of arrival.
  function GroupOf(events: seq<EventInput>, key: SessionKey): seq<EventInput> {
    if events == [] then []
    else
      var n := |events| - 1;
      GroupOf(events[..n], key) + (if IsFirst(events, n) && events[n].session == key then [events[n]] else [])
  }

  ghost predicate PairwiseDisjoint(group: seq<EventInput>) {
    forall x, y :: x in group && y in group && x != y ==> Disjoint(x, y)
  }

  function StartOf(): EventInput -> int {
    (e: EventInput) => e.tsStart.at
  }

  predicate AdjacentDisjoint(ordered: seq<EventInput>) {
    forall i :: 0 <= i < |ordered| - 1 ==> ordered[i + 1].tsStart.at >= ordered[i].tsEnd.at
  }

  // x is at i, the first occurrence of its UUID, and belongs to the session.
  ghost predicate IsMemberAt(events: seq<EventInput>, key: SessionKey, x: EventInput, i: nat) {
    i < |events| && IsFirst(events, i) && events[i].session == key && events[i] == x
  }

  ghost predicate BelongsTo(events: seq<EventInput>, key: SessionKey, x: EventInput) {
    exists i :: IsMemberAt(events, key, x, i)
  }

  lemma MemberAtPrefix(events: seq<EventInput>, n: nat, key: SessionKey, x: EventInput, i: nat)
    requires i < n <= |events|
    ensures IsMemberAt(events[..n], key, x, i) <==> IsMemberAt(events, key, x, i)
  {
    assert forall j :: 0 <= j <= i ==> events[..n][j] == events[j];
    assert IsFirst(events[..n], i) <==> IsFirst(events, i);
  }

  lemma BelongsNext(events: seq<EventInput>, key: SessionKey, x: EventInput)
    requires events != []
    ensures BelongsTo(events, key, x) <==>
              BelongsTo(events[..|events| - 1], key, x) || IsMemberAt(events, key, x, |events| - 1)
  {
    var n := |events| - 1;
    forall i: nat | i < n
      ensures IsMemberAt(events[..n], key, x, i) <==> IsMemberAt(events, key, x, i)
    {
      MemberAtPrefix(events, n, key, x, i);
    }
  }

  lemma {:induction false} GroupMember(events: seq<EventInput>, key: SessionKey, x: EventInput)
    ensures x in GroupOf(events, key) <==> BelongsTo(events, key, x)
  {
    if events != [] {
      GroupMember(events[..|events| - 1], key, x);
      BelongsNext(events, key, x);
    }
  }

  lemma {:induction false} GroupIsDistinct(events: seq<EventInput>, key: SessionKey)
    ensures forall a, b :: 0 <= a < b < |GroupOf(events, key)| ==>
              GroupOf(events, key)[a].eventUuid != GroupOf(events, key)[b].eventUuid
  {
    if events != [] {
      var n := |events| - 1;
      var group := GroupOf(events[..n], key);
      GroupIsDistinct(events[..n], key);
      if IsFirst(events, n) {
        forall a | 0 <= a < |group|
          ensures group[a].eventUuid != events[n].eventUuid
        {
          GroupMember(events[..n], key, group[a]);
          assert group[a] in group;
        }
      }
    }
  }

  // A group has exactly the first occurrences that belong to its session, each UUID once.
  lemma GroupMembers(events: seq<EventInput>, key: SessionKey)
    ensures forall x :: x in GroupOf(events, key) <==> BelongsTo(events, key, x)
    ensures forall a, b :: 0 <= a < b < |GroupOf(events, key)| ==>
              GroupOf(events, key)[a].eventUuid != GroupOf(events, key)[b].eventUuid
  {
    forall x
      ensures x in GroupOf(events, key) <==> BelongsTo(events, key, x)
    {
      GroupMember(events, key, x);
    }
    GroupIsDistinct(events, key);
  }

  ghost predicate GroupsDisjoint(events: seq<EventInput>) {
    forall key :: PairwiseDisjoint(GroupOf(events, key))
  }

  lemma InGroup(events: seq<EventInput>, key: SessionKey, x: EventInput) returns (i: nat)
    requires x in GroupOf(events, key)
    ensures i < |events| && IsFirst(events, i) && events[i].session == key && events[i] == x
  {
    GroupMember(events, key, x);
    i :| IsMemberAt(events, key, x, i);
  }

  lemma GroupDisjoint(events: seq<EventInput>, key: SessionKey)
    requires SessionsDisjoint(events)
    ensures PairwiseDisjoint(GroupOf(events, key))
  {
    forall x, y | x in GroupOf(events, key) && y in GroupOf(events, key) && x != y
      ensures Disjoint(x, y)
    {
      var i := InGroup(events, key, x);
      var j := InGroup(events, key, y);
      assert i < j || j < i;
    }
  }

  // Grouping by session loses nothing: the groups are pairwise disjoint iff the batch is.
  lemma GroupsDecide(events: seq<EventInput>)
    ensures SessionsDisjoint(events) <==> GroupsDisjoint(events)
  {
    if SessionsDisjoint(events) {
      forall key ensures PairwiseDisjoint(GroupOf(events, key)) {
        GroupDisjoint(events, key);
      }
    }
    if GroupsDisjoint(events) {
      forall i, j | 0 <= i < j < |events| && IsFirst(events, i) && IsFirst(events, j)
        && events[i].session == events[j].session
        ensures Disjoint(events[i], events[j])
      {
        assert IsMemberAt(events, events[i].session, events[i], i)
               && IsMemberAt(events, events[i].session, events[j], j);
        GroupMember(events, events[i].session, events[i]);
        GroupMember(events, events[i].session, events[j]);
        assert PairwiseDisjoint(GroupOf(events, events[i].session));
      }
    }
  }

  lemma {:induction false} NeighboursImplyAll(s: seq<EventInput>, i: nat, j: nat)
    requires i < j < |s| && AdjacentDisjoint(s)
    requires forall x :: x in s ==> x.tsStart.at < x.tsEnd.at
    ensures s[i].tsEnd.at <= s[j].tsStart.at
    decreases j - i
  {
    if i + 1 < j {
      NeighboursImplyAll(s, i + 1, j);
      assert s[i + 1] in s;
    }
  }

  lemma AllImplyNeighbours(s: seq<EventInput>, i: nat)
    requires i + 1 < |s| && PairwiseDisjoint(s) && Distinct(s) && SortedBy(s, StartOf())
    requires forall x :: x in s ==> x.tsStart.at < x.tsEnd.at
    ensures s[i].tsEnd.at <= s[i + 1].tsStart.at
  {
    assert s[i] in s && s[i + 1] in s && s[i] != s[i + 1];
    assert StartOf()(s[i]) <= StartOf()(s[i + 1]);
  }

  // Looking at neighbours after sorting decides disjointness of all pairs.
  lemma SortedNeighboursDecide(group: seq<EventInput>)
    requires Distinct(group)
    requires forall x :: x in group ==> x.tsStart.at < x.tsEnd.at
    ensures AdjacentDisjoint(SortBy(group, StartOf())) <==> PairwiseDisjoint(group)
  {
    var s := SortBy(group, StartOf());
    SortByIsSorted(group, StartOf());
    SameElements(s, group);
    SortByKeepsDistinct(group, StartOf());
    OrderedNeighboursDecide(s);
    assert PairwiseDisjoint(s) <==> PairwiseDisjoint(group);
  }

  lemma OrderedNeighboursDecide(s: seq<EventInput>)
    requires Distinct(s) && SortedBy(s, StartOf())
    requires forall x :: x in s ==> x.tsStart.at < x.tsEnd.at
    ensures AdjacentDisjoint(s) <==> PairwiseDisjoint(s)
  {
    if AdjacentDisjoint(s) {
      forall x, y | x in s && y in s && x != y
        ensures Disjoint(x, y)
      {
        var i :| 0 <= i < |s| && s[i] == x;
        var j :| 0 <= j < |s| && s[j] == y;
        if i < j {
          NeighboursImplyAll(s, i, j);
        } else {
          NeighboursImplyAll(s, j, i);
        }
      }
    }
    if PairwiseDisjoint(s) {
      forall i | 0 <= i < |s| - 1
        ensures s[i + 1].tsStart.at >= s[i].tsEnd.at
      {
        AllImplyNeighbours(s, i);
      }
    }
  }

  lemma GroupOfNext(events: seq<EventInput>, i: nat, key: SessionKey)
    requires i < |events|
    ensures GroupOf(events[..i + 1], key)
         == GroupOf(events[..i], key) + (if IsFirst(events, i) && events[i].session == key then [events[i]] else [])
  {
    assert events[..i + 1][..i] == events[..i];
    assert IsFirst(events[..i + 1], i) <==> IsFirst(events, i);
  }

  function SeenUuids(events: seq<EventInput>): set<nat> {
    set k | 0 <= k < |events| :: events[k].eventUuid
  }

  lemma SeenNext(events: seq<EventInput>, i: nat)
    requires i < |events|
    ensures IsFirst(events, i) <==> events[i].eventUuid !in SeenUuids(events[..i])
    ensures SeenUuids(events[..i + 1]) == SeenUuids(events[..i]) + {events[i].eventUuid}
  {
    assert forall j :: 0 <= j < i ==> events[..i][j] == events[j];
    assert events[..i + 1] == events[..i] + [events[i]];
  }

  ghost predicate Filed(events: seq<EventInput>, groups: map<SessionKey, seq<EventInput>>) {
    forall key :: GroupOf(events, key) == if key in groups then groups[key] else []
  }

  lemma FiledNext(events: seq<EventInput>, i: nat, groups: map<SessionKey, seq<EventInput>>)
    requires i < |events| && Filed(events[..i], groups)
    ensures !IsFirst(events, i) ==> Filed(events[..i + 1], groups)
    ensures IsFirst(events, i) ==>
              Filed(events[..i + 1],
                    groups[events[i].session := (if events[i].session in groups then groups[events[i].session] else [])
                           + [events[i]]])
  {
    forall key {
      GroupOfNext(events, i, key);
    }
  }

  // The first loop: the first occurrence of each UUID is filed under its session.
  method GroupBySession(events: seq<EventInput>) returns (groups: map<SessionKey, seq<EventInput>>)
    ensures forall key :: GroupOf(events, key) == if key in groups then groups[key] else []
  {
    groups := map[];
    var seen: set<nat> := {};
    for i := 0 to |events|
      invariant seen == SeenUuids(events[..i])
      invariant Filed(events[..i], groups)
    {
      var event := events[i];
      SeenNext(events, i);
      FiledNext(events, i, groups);
      if event.eventUuid !in seen {
        seen := seen + {event.eventUuid};
        groups := groups[event.session := (if event.session in groups then groups[event.session] else []) + [event]];
      }
    }
    assert events[..|events|] == events;
  }

  // The second loop: sort each group and compare neighbours.
  method AllGroupsDisjoint(groups: map<SessionKey, seq<EventInput>>) returns (ok: bool)
    requires forall key :: key in groups ==> Distinct(groups[key]) && forall x: EventInput ::
               x in groups[key] ==> x.tsStart.at < x.tsEnd.at
    ensures ok <==> forall key :: key in groups ==> PairwiseDisjoint(groups[key])
  {
    var unchecked := groups.Keys;
    while unchecked != {}
      invariant unchecked <= groups.Keys
      invariant forall key :: key in groups && key !in unchecked ==> PairwiseDisjoint(groups[key])
      decreases |unchecked|
    {
      var key :| key in unchecked;
      unchecked := unchecked - {key};
      SortedNeighboursDecide(groups[key]);
      var ordered := SortBy(groups[key], StartOf());
      if !AdjacentDisjoint(ordered) {
        return false;
      }
    }
    return true;
  }

  // ActivityBatchRequest: every event is validated, then the batch as a whole.
  method ValidateBatch(sentAt: Stamp, events: seq<EventInput>) returns (r: Result<(), BatchError>)
    ensures r.Ok? <==> AcceptableBatch(sentAt, events)
    ensures r == Err(WrongSize) <==> events == [] || |events| > 5000
    ensures r == Err(Overlap) ==> !SessionsDisjoint(events)
    ensures r == Err(SentAtWithoutZone) ==> !sentAt.hasZone
    ensures r.Err? && r.error.InvalidEvent? ==> 
              && r.error.index < |events| && !ValidEvent(events[r.error.index])
              && forall i :: 0 <= i < r.error.index ==> ValidEvent(events[i])
  {
    if |events| < 1 || |events| > MAX_BATCH {
      return Err(WrongSize);
    }
    for i := 0 to |events|
      invariant forall k :: 0 <= k < i ==> ValidEvent(events[k])
    {
      if !ValidEvent(events[i]) {
        return Err(InvalidEvent(i));
      }
    }
    if !sentAt.hasZone {
      return Err(SentAtWithoutZone);
    }
    var groups := GroupBySession(events);
    forall key: SessionKey | key in groups
      ensures Distinct(groups[key]) && forall x: EventInput :: x in groups[key] ==> x.tsStart.at < x.tsEnd.at
    {
      GroupIsSound(events, key);
    }
    var ok := AllGroupsDisjoint(groups);
    GroupsDecide(events);
    assert ok <==> GroupsDisjoint(events) by {
      if ok {
        forall key ensures PairwiseDisjoint(GroupOf(events, key)) {
          assert GroupOf(events, key) == if key in groups then groups[key] else [];
        }
      } else {
        var key :| key in groups && !PairwiseDisjoint(groups[key]);
        assert GroupOf(events, key) == groups[key];
      }
    }
    return if ok then Ok(()) else Err(Overlap);
  }

  lemma GroupIsSound(events: seq<EventInput>, key: SessionKey)
    requires forall i :: 0 <= i < |events| ==> ValidEvent(events[i])
    ensures Distinct(GroupOf(events, key))
    ensures forall x :: x in GroupOf(events, key) ==> x.tsStart.at < x.tsEnd.at
  {
    GroupMembers(events, key);
  }

  // --- Clipped durations ------------------------------------------------------

  function ClippedDuration(start: int, end: int, rangeStart: int, rangeEnd: int): int {
    Max(0, WholeSeconds(Min(end, rangeEnd) - Max(start, rangeStart)))
  }

  function ClippedTotal(events: seq<EventInput>, rangeStart: int, rangeEnd: int): int {
    if events == [] then 0
    else ClippedDuration(events[0].tsStart.at, events[0].tsEnd.at, rangeStart, rangeEnd)
         + ClippedTotal(events[1..], rangeStart, rangeEnd)
  }

  lemma {:induction false} ClippedTotalOfInsert(x: EventInput, s: seq<EventInput>, rangeStart: int, rangeEnd: int)
    ensures ClippedTotal(Insert(x, s, StartOf()), rangeStart, rangeEnd)
         == ClippedDuration(x.tsStart.at, x.tsEnd.at, rangeStart, rangeEnd) + ClippedTotal(s, rangeStart, rangeEnd)
  {
    if s == [] || StartOf()(x) <= StartOf()(s[0]) {
      assert ([x] + s)[1..] == s;
    } else {
      ClippedTotalOfInsert(x, s[1..], rangeStart, rangeEnd);
      assert ([s[0]] + Insert(x, s[1..], StartOf()))[1..] == Insert(x, s[1..], StartOf());
    }
  }

  lemma {:induction false} ClippedTotalOfSort(s: seq<EventInput>, rangeStart: int, rangeEnd: int)
    ensures ClippedTotal(SortBy(s, StartOf()), rangeStart, rangeEnd) == ClippedTotal(s, rangeStart, rangeEnd)
  {
    if s != [] {
      ClippedTotalOfSort(s[1..], rangeStart, rangeEnd);
      ClippedTotalOfInsert(s[0], SortBy(s[1..], StartOf()), rangeStart, rangeEnd);
    }
  }

  // Ordered, non-overlapping events cannot fill more than what is left of the range.
  lemma {:induction false} OrderedTotalFits(s: seq<EventInput>, rangeStart: int, rangeEnd: int)
    requires AdjacentDisjoint(s) && (forall x :: x in s ==> x.tsStart.at < x.tsEnd.at)
    ensures var from := if s == [] then rangeStart else Max(rangeStart, s[0].tsStart.at);
            ClippedTotal(s, rangeStart, rangeEnd) * MICROS_PER_SECOND <= Max(0, rangeEnd - from)
  {
    if s != [] {
      OrderedTotalFits(s[1..], rangeStart, rangeEnd);
      assert s[0] in s;
    }
  }

  // The seconds counted for one session of an accepted batch never exceed the range.
  lemma SessionTotalFits(sentAt: Stamp, events: seq<EventInput>, key: SessionKey, rangeStart: int, rangeEnd: int)
    requires AcceptableBatch(sentAt, events) && rangeStart <= rangeEnd
    ensures ClippedTotal(GroupOf(events, key), rangeStart, rangeEnd) <= WholeSeconds(rangeEnd - rangeStart)
  {
    var group := GroupOf(events, key);
    GroupDisjoint(events, key);
    GroupIsSound(events, key);
    SortedNeighboursDecide(group);
    SortByIsSorted(group, StartOf());
    SameElements(SortBy(group, StartOf()), group);
    ClippedTotalOfSort(group, rangeStart, rangeEnd);
    OrderedTotalFits(SortBy(group, StartOf()), rangeStart, rangeEnd);
  }
}
