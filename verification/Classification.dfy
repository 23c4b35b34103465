/** The rule engine and the job that applies it again to stored events. */
module Classification {
  import opened Common
  import opened StableOrder
  import opened WildcardTranslation

  const PRESERVED_STATES: set<string> := {"IDLE", "LOCKED", "BREAK"}
  const PRODUCTIVITIES: set<string> := {"PRODUCTIVE", "NEUTRAL", "UNPRODUCTIVE"}
  const MAX_REGEX: nat := 500

  // --- The rule engine ------------------------------------------------------------

  // What a rule can look at: the stored row or the uploaded event.
  datatype Fields = Fields(
    state: string, processName: Option<string>, windowTitle: Option<string>, urlDomain: Option<string>,
    urlPath: Option<string>)

  datatype Rule = Rule(
    priority: int, matchField: string, matchType: string, pattern: string, productivity: string,
    categoryId: Option<int>)

  datatype Classified = Classified(state: string, categoryId: Option<int>)

  // Regular expression search with IGNORECASE; a malformed expression finds nothing.
  type RegexSearch = (string, string) -> bool

  function OrEmpty(text: Option<string>): string {
    if text.None? then "" else text.value
  }

  function EventField(event: Fields, field: string): string {
    if field == "process_name" then OrEmpty(event.processName)
    else if field == "window_title" then OrEmpty(event.windowTitle)
    else if field == "url_domain" then OrEmpty(event.urlDomain)
    else if field == "url_full" then OrEmpty(event.urlDomain) + OrEmpty(event.urlPath)
    else ""
  }

  predicate Contains(value: string, part: string) {
    part <= value || (value != [] && Contains(value[1..], part))
  }

  predicate OccursAt(value: string, part: string, i: nat) {
    i + |part| <= |value| && value[i..i + |part|] == part
  }

  lemma OccursLater(value: string, part: string, i: nat)
    requires value != []
    ensures OccursAt(value[1..], part, i) <==> OccursAt(value, part, i + 1)
  {
    assert i + |part| <= |value| - 1 ==> value[1..][i..i + |part|] == value[i + 1..i + 1 + |part|];
  }

  lemma {:induction false} ContainsExactly(value: string, part: string)
    ensures Contains(value, part) <==> exists i :: OccursAt(value, part, i)
  {
    assert part <= value <==> OccursAt(value, part, 0);
    if value != [] {
      ContainsExactly(value[1..], part);
      if i :| OccursAt(value[1..], part, i) {
        OccursLater(value, part, i);
      }
      if i: nat :| i > 0 && OccursAt(value, part, i) {
        OccursLater(value, part, i - 1);
      }
    }
  }

  predicate Matches(value: string, matchType: string, pattern: string, regex: RegexSearch) {
    if matchType == "exact" then Fold(value) == Fold(pattern)
    else if matchType == "contains" then Contains(Fold(value), Fold(pattern))
    else if matchType == "wildcard" then WildcardMatches(Fold(value), Fold(pattern))
    else if matchType == "regex" then |pattern| <= MAX_REGEX && regex(pattern, value)
    else false
  }

  predicate Applies(rule: Rule, event: Fields, regex: RegexSearch) {
    Matches(EventField(event, rule.matchField), rule.matchType, rule.pattern, regex)
  }

  function FirstMatch(rules: seq<Rule>, hit: Rule -> bool): Classified {
    if rules == [] then Classified("NEUTRAL", None)
    else if hit(rules[0]) then Classified(rules[0].productivity, rules[0].categoryId)
    else FirstMatch(rules[1..], hit)
  }

  function HitsOn(event: Fields, regex: RegexSearch): Rule -> bool {
    (rule: Rule) => Applies(rule, event, regex)
  }

  function PriorityOf(): Rule -> int {
    (r: Rule) => r.priority
  }

  function Classify(event: Fields, rules: seq<Rule>, regex: RegexSearch): Classified {
    if Upper(event.state) in PRESERVED_STATES then Classified(Upper(event.state), None)
    else FirstMatch(SortBy(rules, PriorityOf()), HitsOn(event, regex))
  }

  // --- Which rule wins ----------------------------------------------------------------

  // Rule i hits and no rule that hits has a smaller priority, or the same priority and
  // an earlier place.
  ghost predicate Wins(rules: seq<Rule>, i: nat, hit: Rule -> bool)
    requires i < |rules|
  {
    && hit(rules[i])
    && (forall j :: 0 <= j < |rules| && hit(rules[j]) ==>
          rules[i].priority < rules[j].priority || (rules[i].priority == rules[j].priority && i <= j))
  }

  ghost predicate NoneHits(rules: seq<Rule>, hit: Rule -> bool) {
    forall r :: r in rules ==> !hit(r)
  }

  ghost predicate NotAfterHits(x: Rule, rules: seq<Rule>, hit: Rule -> bool) {
    forall y :: y in rules && hit(y) ==> x.priority <= y.priority
  }

  lemma {:induction false} FirstMatchOfInsert(x: Rule, s: seq<Rule>, hit: Rule -> bool)
    requires SortedBy(s, PriorityOf())
    ensures FirstMatch(Insert(x, s, PriorityOf()), hit) ==
              if hit(x) && NotAfterHits(x, s, hit) then Classified(x.productivity, x.categoryId) else FirstMatch(s, hit)
  {
    if s == [] || PriorityOf()(x) <= PriorityOf()(s[0]) {
      assert ([x] + s)[1..] == s;
      forall y | y in s
        ensures x.priority <= y.priority
      {
        var i :| 0 <= i < |s| && s[i] == y;
        assert PriorityOf()(s[0]) <= PriorityOf()(s[i]);
      }
    } else {
      var rest := Insert(x, s[1..], PriorityOf());
      FirstMatchOfInsert(x, s[1..], hit);
      assert ([s[0]] + rest)[1..] == rest;
      assert NotAfterHits(x, s, hit) <==> !hit(s[0]) && NotAfterHits(x, s[1..], hit);
    }
  }

  // The outcome is decided by the rule that hits with the least priority and, among
  // those, the one listed first; without one the state is NEUTRAL.
  lemma {:induction false} WinnerDecides(rules: seq<Rule>, hit: Rule -> bool) returns (winner: nat)
    ensures if NoneHits(rules, hit) then FirstMatch(SortBy(rules, PriorityOf()), hit) == Classified("NEUTRAL", None)
            else winner < |rules| && Wins(rules, winner, hit)
                 && FirstMatch(SortBy(rules, PriorityOf()), hit)
                   == Classified(rules[winner].productivity, rules[winner].categoryId)
  {
    winner := 0;
    if rules != [] {
      var x, rest := rules[0], rules[1..];
      var sorted := SortBy(rest, PriorityOf());
      var later := WinnerDecides(rest, hit);
      SortByIsSorted(rest, PriorityOf());
      SameElements(sorted, rest);
      FirstMatchOfInsert(x, sorted, hit);
      assert rules == [x] + rest;
      assert NotAfterHits(x, sorted, hit) <==> NotAfterHits(x, rest, hit);
      assert NoneHits(rules, hit) <==> !hit(x) && NoneHits(rest, hit);
      if hit(x) && NotAfterHits(x, rest, hit) {
        FirstWins(x, rest, hit);
      } else if !NoneHits(rest, hit) {
        LaterWinnerStays(x, rest, later, hit);
        winner := later + 1;
      }
    }
  }

  lemma FirstWins(x: Rule, rest: seq<Rule>, hit: Rule -> bool)
    requires hit(x) && NotAfterHits(x, rest, hit)
    ensures Wins([x] + rest, 0, hit)
  {
    var rules := [x] + rest;
    assert forall j :: 0 < j < |rules| ==> rules[j] in rest;
  }

  lemma LaterWinnerStays(x: Rule, rest: seq<Rule>, i: nat, hit: Rule -> bool)
    requires i < |rest| && Wins(rest, i, hit) && !(hit(x) && NotAfterHits(x, rest, hit))
    ensures Wins([x] + rest, i + 1, hit)
  {
    var rules := [x] + rest;
    forall j | 0 <= j < |rules| && hit(rules[j])
      ensures rules[i + 1].priority < rules[j].priority || (rules[i + 1].priority == rules[j].priority && i + 1 <= j)
    {
      if j == 0 {
        var y :| y in rest && hit(y) && y.priority < x.priority;
        var k :| 0 <= k < |rest| && rest[k] == y;
        assert rest[i].priority <= rest[k].priority;
      } else {
        assert rest[j - 1] == rules[j];
      }
    }
  }

  ghost predicate FromCategories(rules: seq<Rule>) {
    forall i :: 0 <= i < |rules| ==> rules[i].productivity in PRODUCTIVITIES
  }

  // --- When a rule hits -----------------------------------------------------------------

  predicate IsText(text: Option<string>, s: string) {
    s == if text.Some? then text.value else ""
  }

  // The text a rule looks at: one field of the event, domain and path together, or none.
  ghost predicate LooksAt(rule: Rule, event: Fields, s: string) {
    && (rule.matchField == "process_name" ==> IsText(event.processName, s))
    && (rule.matchField == "window_title" ==> IsText(event.windowTitle, s))
    && (rule.matchField == "url_domain" ==> IsText(event.urlDomain, s))
    && (rule.matchField == "url_full" ==>
          exists domain, path :: IsText(event.urlDomain, domain) && IsText(event.urlPath, path) && s == domain + path)
    && (rule.matchField !in {"process_name", "window_title", "url_domain", "url_full"} ==> s == "")
  }

  predicate OccursUpToCase(s: string, part: string, i: nat) {
    i + |part| <= |s| && SameUpToCase(s[i..i + |part|], part)
  }

  // Up to letter case the text is the pattern, holds it somewhere, or fits it as a
  // wildcard; or a regular expression of at most 500 characters finds it.
  ghost predicate Hits(rule: Rule, event: Fields, regex: RegexSearch) {
    exists s :: LooksAt(rule, event, s) &&
      ((rule.matchType == "exact" && SameUpToCase(s, rule.pattern))
       || (rule.matchType == "contains" && exists i :: OccursUpToCase(s, rule.pattern, i))
       || (rule.matchType == "wildcard" && WildcardMatches(Fold(s), Fold(rule.pattern)))
       || (rule.matchType == "regex" && |rule.pattern| <= 500 && regex(rule.pattern, s)))
  }

  lemma FoldExactly(s: string, t: string)
    ensures Fold(s) == Fold(t) <==> SameUpToCase(s, t)
  {
    if |s| == |t| {
      forall i | 0 <= i < |s|
        ensures Fold(s)[i] == Fold(t)[i] <==> SameLetter(s[i], t[i])
      {
        FoldCharExactly(s[i], t[i]);
      }
    } else {
      assert |Fold(s)| != |Fold(t)|;
    }
  }

  lemma FoldCharExactly(c: char, d: char)
    ensures FoldChar(c) == FoldChar(d) <==> SameLetter(c, d)
  {
  }

  lemma OccursExactly(s: string, part: string, i: nat)
    ensures OccursAt(Fold(s), Fold(part), i) <==> OccursUpToCase(s, part, i)
  {
    if i + |part| <= |s| {
      assert Fold(s)[i..i + |part|] == Fold(s[i..i + |part|]);
      FoldExactly(s[i..i + |part|], part);
    }
  }

  lemma FoldedContainsExactly(s: string, part: string)
    ensures Contains(Fold(s), Fold(part)) <==> exists i :: OccursUpToCase(s, part, i)
  {
    ContainsExactly(Fold(s), Fold(part));
    forall i: nat
      ensures OccursAt(Fold(s), Fold(part), i) <==> OccursUpToCase(s, part, i)
    {
      OccursExactly(s, part, i);
    }
  }

  lemma LooksAtExactly(rule: Rule, event: Fields, s: string)
    ensures LooksAt(rule, event, s) <==> s == EventField(event, rule.matchField)
  {
    if rule.matchField == "url_full" && s == EventField(event, rule.matchField) {
      assert IsText(event.urlDomain, OrEmpty(event.urlDomain)) && IsText(event.urlPath, OrEmpty(event.urlPath));
    }
  }

  lemma AppliesExactly(rule: Rule, event: Fields, regex: RegexSearch)
    ensures Applies(rule, event, regex) <==> Hits(rule, event, regex)
  {
    var s := EventField(event, rule.matchField);
    forall t
      ensures LooksAt(rule, event, t) <==> t == s
    {
      LooksAtExactly(rule, event, t);
    }
    FoldExactly(s, rule.pattern);
    FoldedContainsExactly(s, rule.pattern);
    assert LooksAt(rule, event, s);
  }

  // Rule number winner hits and decides: no hitting rule has a smaller priority, or the
  // same one and an earlier place. Without a hitting rule the event is NEUTRAL.
  ghost predicate IsDecided(event: Fields, rules: seq<Rule>, regex: RegexSearch, winner: nat, c: Classified) {
    if forall i :: 0 <= i < |rules| ==> !Hits(rules[i], event, regex) then c == Classified("NEUTRAL", None)
    else
      && winner < |rules| && Hits(rules[winner], event, regex)
      && c == Classified(rules[winner].productivity, rules[winner].categoryId)
      && forall i :: 0 <= i < |rules| && Hits(rules[i], event, regex) ==>
          rules[winner].priority < rules[i].priority || (rules[winner].priority == rules[i].priority && winner <= i)
  }

  ghost predicate IsPreserved(state: string) {
    state == "IDLE" || state == "LOCKED" || state == "BREAK"
  }

  lemma PreservedExactly(state: string)
    ensures Upper(state) in PRESERVED_STATES <==> IsPreserved(Upper(state))
    ensures IsPreserved(state) ==> Upper(state) == state
  {
  }

  // An event keeps IDLE, LOCKED or BREAK, in upper case and without a category.
  lemma PreservedIsKept(event: Fields, rules: seq<Rule>, regex: RegexSearch, state: string)
    requires IsPreserved(state) && SameUpToCase(event.state, state)
    ensures Classify(event, rules, regex) == Classified(state, None)
  {
    PreservedExactly(state);
    UpperExactly(event.state, state);
    PreservedExactly(event.state);
  }

  // Any other event gets what the deciding rule says.
  lemma ClassifyExactly(event: Fields, rules: seq<Rule>, regex: RegexSearch) returns (winner: nat)
    requires forall state :: IsPreserved(state) ==> !SameUpToCase(event.state, state)
    ensures IsDecided(event, rules, regex, winner, Classify(event, rules, regex))
  {
    winner := WinnerExactly(event, rules, regex);
    var state := Upper(event.state);
    PreservedExactly(event.state);
    assert SameUpToCase(event.state, state);
  }

  lemma WinnerExactly(event: Fields, rules: seq<Rule>, regex: RegexSearch) returns (winner: nat)
    ensures IsDecided(event, rules, regex, winner, FirstMatch(SortBy(rules, PriorityOf()), HitsOn(event, regex)))
  {
    winner := WinnerDecides(rules, HitsOn(event, regex));
    forall i | 0 <= i < |rules|
      ensures HitsOn(event, regex)(rules[i]) <==> Hits(rules[i], event, regex)
    {
      AppliesExactly(rules[i], event, regex);
    }
  }

  lemma ClassifiedState(event: Fields, rules: seq<Rule>, regex: RegexSearch)
    requires FromCategories(rules)
    ensures var c := Classify(event, rules, regex);
            if Upper(event.state) in PRESERVED_STATES then c == Classified(Upper(event.state), None)
            else c.state in PRODUCTIVITIES
  {
    var winner := WinnerDecides(rules, HitsOn(event, regex));
  }

  lemma KnownStatesAreUpper(state: string)
    requires state in PRODUCTIVITIES || state in PRESERVED_STATES
    ensures Upper(state) == state
    ensures !(state in PRODUCTIVITIES && state in PRESERVED_STATES)
  {
  }

  lemma UpperTwice(state: string)
    ensures Upper(Upper(state)) == Upper(state)
  {
  }

  // Rules look at the fields of an event, never at its state.
  lemma {:induction false} StateIsNotMatched(a: Fields, b: Fields, rules: seq<Rule>, regex: RegexSearch)
    requires b == a.(state := b.state)
    ensures FirstMatch(rules, HitsOn(a, regex)) == FirstMatch(rules, HitsOn(b, regex))
  {
    if rules != [] {
      assert EventField(a, rules[0].matchField) == EventField(b, rules[0].matchField);
      StateIsNotMatched(a, b, rules[1..], regex);
    }
  }

  // Classifying what an earlier set of rules already classified gives what the new rules
  // alone give: the outcome does not depend on history.
  lemma ReclassificationForgets(event: Fields, first: seq<Rule>, second: seq<Rule>, regex: RegexSearch)
    requires FromCategories(first)
    ensures Classify(event.(state := Classify(event, first, regex).state), second, regex)
            == Classify(event, second, regex)
  {
    ClassifiedState(event, first, regex);
    UpperTwice(event.state);
    var again := event.(state := Classify(event, first, regex).state);
    if Upper(event.state) !in PRESERVED_STATES {
      KnownStatesAreUpper(again.state);
      StateIsNotMatched(event, again, SortBy(second, PriorityOf()), regex);
    }
  }

  // --- The reclassification job ---------------------------------------------------------

  const PAGE: nat := 5000

  datatype StoredEvent = StoredEvent(id: int, tsStart: int, fields: Fields, categoryId: Option<int>)

  ghost predicate ValidTable(rows: seq<StoredEvent>) {
    && (forall i, j :: 0 <= i < j < |rows| ==> rows[i].id < rows[j].id)
    && (forall i :: 0 <= i < |rows| ==> 0 < rows[i].id)
  }

  function Reclassified(row: StoredEvent, rules: seq<Rule>, regex: RegexSearch): StoredEvent {
    var c := Classify(row.fields, rules, regex);
    row.(fields := row.fields.(state := c.state), categoryId := c.categoryId)
  }

  // Rows from the period with an id past lastId, in id order.
  function Window(rows: seq<StoredEvent>, since: int, lastId: int): seq<StoredEvent> {
    if rows == [] then []
    else Window(rows[..|rows| - 1], since, lastId)
         + (if rows[|rows| - 1].tsStart >= since && rows[|rows| - 1].id > lastId then [rows[|rows| - 1]] else [])
  }

  function SelectPage(rows: seq<StoredEvent>, since: int, lastId: int): seq<StoredEvent> {
    var matching := Window(rows, since, lastId);
    matching[..Min(PAGE, |matching|)]
  }

  datatype Update = Update(id: int, state: string, categoryId: Option<int>)

  function UpdateFor(row: StoredEvent, rules: seq<Rule>, regex: RegexSearch): Update {
    var c := Classify(row.fields, rules, regex);
    Update(row.id, c.state, c.categoryId)
  }

  // UPDATE ... WHERE id = u.id
  function Assign(rows: seq<StoredEvent>, u: Update): seq<StoredEvent> {
    seq(|rows|, i requires 0 <= i < |rows| =>
      if rows[i].id == u.id then rows[i].(fields := rows[i].fields.(state := u.state), categoryId := u.categoryId)
      else rows[i])
  }

  lemma {:induction false} WindowMembers(rows: seq<StoredEvent>, since: int, lastId: int)
    requires forall i, j :: 0 <= i < j < |rows| ==> rows[i].id < rows[j].id
    ensures forall r :: r in Window(rows, since, lastId) <==> r in rows && r.tsStart >= since && r.id > lastId
    ensures forall i, j :: 0 <= i < j < |Window(rows, since, lastId)| ==>
              Window(rows, since, lastId)[i].id < Window(rows, since, lastId)[j].id
  {
    if rows != [] {
      WindowMembers(rows[..|rows| - 1], since, lastId);
    }
  }

  // Sorted sequences of rows with the same members are equal.
  lemma {:induction false} SameMembersSameRows(a: seq<StoredEvent>, b: seq<StoredEvent>)
    requires forall i, j :: 0 <= i < j < |a| ==> a[i].id < a[j].id
    requires forall i, j :: 0 <= i < j < |b| ==> b[i].id < b[j].id
    requires forall r :: r in a <==> r in b
    ensures a == b
  {
    assert a != [] ==> a[0] in b;
    assert b != [] ==> b[0] in a;
    if a != [] {
      assert a[0] == b[0];
      assert forall r :: r in a[1..] <==> r in a && r != a[0];
      assert forall r :: r in b[1..] <==> r in b && r != b[0];
      SameMembersSameRows(a[1..], b[1..]);
    }
  }

  ghost predicate SortedIds(rows: seq<StoredEvent>) {
    forall i, j :: 0 <= i < j < |rows| ==> rows[i].id < rows[j].id
  }

  lemma AfterCursor(matching: seq<StoredEvent>, k: nat, r: StoredEvent)
    requires SortedIds(matching) && 0 < k <= |matching|
    ensures r in matching[k..] <==> r in matching && r.id > matching[k - 1].id
  {
    if r in matching {
      var i :| 0 <= i < |matching| && matching[i] == r;
      assert i >= k ==> matching[k..][i - k] == r;
      assert i < k ==> r.id <= matching[k - 1].id;
    }
  }

  // Moving the cursor to the last id of a page leaves exactly the rows after the page.
  lemma PageAdvances(rows: seq<StoredEvent>, since: int, lastId: int, k: nat)
    requires ValidTable(rows) && 0 < k <= |Window(rows, since, lastId)|
    ensures var matching := Window(rows, since, lastId);
            Window(rows, since, matching[k - 1].id) == matching[k..] && matching[k - 1].id > lastId
  {
    var matching := Window(rows, since, lastId);
    var next := matching[k - 1].id;
    WindowMembers(rows, since, lastId);
    WindowMembers(rows, since, next);
    assert matching[k - 1] in matching;
    forall r
      ensures r in matching[k..] <==> r in Window(rows, since, next)
    {
      AfterCursor(matching, k, r);
    }
    SameMembersSameRows(matching[k..], Window(rows, since, next));
  }

  // The rows of the period past the cursor that come before r.
  ghost function Ahead(rows: seq<StoredEvent>, since: int, lastId: int, r: StoredEvent): set<StoredEvent> {
    set p | p in rows && p.tsStart >= since && lastId < p.id < r.id
  }

  lemma {:induction false} MembersCount(rows: seq<StoredEvent>)
    requires SortedIds(rows)
    ensures |Members(rows)| == |rows|
  {
    if rows != [] {
      var n := |rows| - 1;
      MembersCount(rows[..n]);
      assert Members(rows) == Members(rows[..n]) + {rows[n]};
    }
  }

  lemma EarlierRows(matching: seq<StoredEvent>, i: nat, p: StoredEvent)
    requires SortedIds(matching) && i < |matching|
    ensures p in matching[..i] <==> p in matching && p.id < matching[i].id
  {
    if p in matching {
      var k :| 0 <= k < |matching| && matching[k] == p;
      assert k < i ==> matching[..i][k] == p;
    }
  }

  lemma AheadCount(rows: seq<StoredEvent>, since: int, lastId: int, i: nat)
    requires ValidTable(rows) && i < |Window(rows, since, lastId)|
    ensures |Ahead(rows, since, lastId, Window(rows, since, lastId)[i])| == i
  {
    var matching := Window(rows, since, lastId);
    WindowMembers(rows, since, lastId);
    MembersCount(matching[..i]);
    forall p
      ensures p in Ahead(rows, since, lastId, matching[i]) <==> p in Members(matching[..i])
    {
      EarlierRows(matching, i, p);
    }
    assert Ahead(rows, since, lastId, matching[i]) == Members(matching[..i]);
  }

  // A page holds the first 5000 rows of the period past the cursor.
  lemma PageExactly(rows: seq<StoredEvent>, since: int, lastId: int, r: StoredEvent)
    requires ValidTable(rows)
    ensures r in SelectPage(rows, since, lastId) <==>
              r in rows && r.tsStart >= since && r.id > lastId && |Ahead(rows, since, lastId, r)| < 5000
  {
    var matching := Window(rows, since, lastId);
    WindowMembers(rows, since, lastId);
    if r in matching {
      var i :| 0 <= i < |matching| && matching[i] == r;
      AheadCount(rows, since, lastId, i);
      assert r in SelectPage(rows, since, lastId) <==> i < 5000 by {
        assert i < Min(5000, |matching|) ==> matching[..Min(5000, |matching|)][i] == r;
      }
    }
  }

  // How far the cursor is from the last id.
  function Left(rows: seq<StoredEvent>, lastId: int): nat {
    if rows == [] then 0 else Max(0, rows[|rows| - 1].id - lastId)
  }

  // The rows that the queries from the n-th on pick: each asks the clock again where the
  // period starts, and the cursor follows the last id of the page.
  function Picked(rows: seq<StoredEvent>, starts: nat -> int, n: nat, lastId: int): seq<StoredEvent>
    requires ValidTable(rows)
    decreases Left(rows, lastId)
  {
    var page := SelectPage(rows, starts(n), lastId);
    if page == [] then []
    else
      PageIsLater(rows, starts(n), lastId);
      page + Picked(rows, starts, n + 1, page[|page| - 1].id)
  }

  lemma PageIsLater(rows: seq<StoredEvent>, since: int, lastId: int)
    requires ValidTable(rows)
    ensures var page := SelectPage(rows, since, lastId);
            && (forall r :: r in page ==> r in rows && r.tsStart >= since && r.id > lastId)
            && (page != [] ==> lastId < page[|page| - 1].id <= rows[|rows| - 1].id)
  {
    var page := SelectPage(rows, since, lastId);
    WindowMembers(rows, since, lastId);
    if page != [] {
      assert page[|page| - 1] in page;
    }
  }

  lemma PageIsSorted(rows: seq<StoredEvent>, since: int, lastId: int)
    requires ValidTable(rows)
    ensures SortedIds(SelectPage(rows, since, lastId))
  {
    WindowMembers(rows, since, lastId);
  }

  lemma LaterInWindow(rows: seq<StoredEvent>, since: int, lastId: int, r: StoredEvent)
    requires ValidTable(rows) && r in rows && r.tsStart >= since && r.id > lastId
    ensures var page := SelectPage(rows, since, lastId);
            page != [] && (r in page || r.id > page[|page| - 1].id)
  {
    var matching := Window(rows, since, lastId);
    WindowMembers(rows, since, lastId);
    AfterCursor(matching, Min(PAGE, |matching|), r);
  }

  // Every picked row belonged to the period of some query, and every row that belongs to
  // the periods of all of them is picked.
  lemma {:induction false} PickedBelong(rows: seq<StoredEvent>, starts: nat -> int, n: nat, lastId: int, r: StoredEvent)
    requires ValidTable(rows)
    ensures r in Picked(rows, starts, n, lastId) ==>
              r in rows && r.id > lastId && exists m: nat :: m >= n && r.tsStart >= starts(m)
    ensures r in rows && r.id > lastId && (forall m: nat :: m >= n ==> r.tsStart >= starts(m)) ==>
              r in Picked(rows, starts, n, lastId)
    decreases Left(rows, lastId)
  {
    var page := SelectPage(rows, starts(n), lastId);
    PageIsLater(rows, starts(n), lastId);
    if page != [] {
      PickedBelong(rows, starts, n + 1, page[|page| - 1].id, r);
    }
    if r in rows && r.id > lastId && forall m: nat :: m >= n ==> r.tsStart >= starts(m) {
      LaterInWindow(rows, starts(n), lastId, r);
    }
  }

  // Ids only grow, so no row is picked twice.
  lemma {:induction false} PickedOnce(rows: seq<StoredEvent>, starts: nat -> int, n: nat, lastId: int)
    requires ValidTable(rows)
    ensures SortedIds(Picked(rows, starts, n, lastId))
    decreases Left(rows, lastId)
  {
    var page := SelectPage(rows, starts(n), lastId);
    WindowMembers(rows, starts(n), lastId);
    PageIsLater(rows, starts(n), lastId);
    if page != [] {
      var last := page[|page| - 1].id;
      var rest := Picked(rows, starts, n + 1, last);
      PickedOnce(rows, starts, n + 1, last);
      forall r | r in rest
        ensures r.id > last
      {
        PickedBelong(rows, starts, n + 1, last, r);
      }
      SortedConcat(page, rest);
    }
  }

  lemma SortedConcat(page: seq<StoredEvent>, rest: seq<StoredEvent>)
    requires SortedIds(page) && SortedIds(rest) && page != []
    requires forall r :: r in rest ==> r.id > page[|page| - 1].id
    ensures SortedIds(page + rest)
  {
    forall i, j | 0 <= i < |page| && 0 <= j < |rest|
      ensures page[i].id < rest[j].id
    {
      assert rest[j] in rest;
    }
  }

  // With a clock that stands still exactly the rows of the period are picked, in order.
  lemma {:induction false} FixedPeriodIsPicked(rows: seq<StoredEvent>, since: int, starts: nat -> int, n: nat,
                                               lastId: int)
    requires ValidTable(rows) && forall m :: starts(m) == since
    ensures Picked(rows, starts, n, lastId) == Window(rows, since, lastId)
    decreases Left(rows, lastId)
  {
    var matching, page := Window(rows, since, lastId), SelectPage(rows, since, lastId);
    PageIsLater(rows, since, lastId);
    if page != [] {
      PageAdvances(rows, since, lastId, |page|);
      FixedPeriodIsPicked(rows, since, starts, n + 1, page[|page| - 1].id);
      assert matching == matching[..|page|] + matching[|page|..];
    }
  }

  // The table with the rows of these ids reclassified.
  function Applied(rows: seq<StoredEvent>, ids: set<int>, rules: seq<Rule>, regex: RegexSearch): seq<StoredEvent> {
    seq(|rows|, i requires 0 <= i < |rows| =>
      if rows[i].id in ids then Reclassified(rows[i], rules, regex) else rows[i])
  }

  function IdsOf(rows: seq<StoredEvent>): seq<int> {
    seq(|rows|, i requires 0 <= i < |rows| => rows[i].id)
  }

  // Rows past the cursor are untouched, so the next query sees them as they were.
  lemma WindowOfUntouched(was: seq<StoredEvent>, ids: set<int>, rules: seq<Rule>, regex: RegexSearch, since: int,
                          cursor: int)
    requires ValidTable(was) && forall id :: id in ids ==> id <= cursor
    ensures Window(Applied(was, ids, rules, regex), since, cursor) == Window(was, since, cursor)
  {
    var rows := Applied(was, ids, rules, regex);
    assert forall i :: 0 <= i < |was| ==> rows[i].id == was[i].id;
    WindowMembers(rows, since, cursor);
    WindowMembers(was, since, cursor);
    forall r
      ensures r in Window(rows, since, cursor) <==> r in Window(was, since, cursor)
    {
      if r in rows && r.id > cursor {
        var i :| 0 <= i < |rows| && rows[i] == r;
        assert was[i] == r;
      }
      if r in was && r.id > cursor {
        var i :| 0 <= i < |was| && was[i] == r;
        assert rows[i] == r;
      }
    }
    SameMembersSameRows(Window(rows, since, cursor), Window(was, since, cursor));
  }

  lemma PageOfUntouched(was: seq<StoredEvent>, rows: seq<StoredEvent>, ids: set<int>, rules: seq<Rule>,
                        regex: RegexSearch, since: int, cursor: int)
    requires ValidTable(was) && rows == Applied(was, ids, rules, regex) && forall id :: id in ids ==> id <= cursor
    ensures SelectPage(rows, since, cursor) == SelectPage(was, since, cursor)
  {
    WindowOfUntouched(was, ids, rules, regex, since, cursor);
  }

  lemma SameIdSameRow(was: seq<StoredEvent>, k: nat, r: StoredEvent)
    requires SortedIds(was) && k < |was| && r in was
    ensures was[k].id == r.id <==> was[k] == r
  {
    var m :| 0 <= m < |was| && was[m] == r;
    assert m < k ==> was[m].id < was[k].id;
    assert k < m ==> was[k].id < was[m].id;
  }

  // One update adds one row to those that are done.
  lemma AssignApplies(was: seq<StoredEvent>, ids: set<int>, rules: seq<Rule>, regex: RegexSearch, row: StoredEvent)
    requires ValidTable(was) && row in was && row.id !in ids
    ensures Assign(Applied(was, ids, rules, regex), UpdateFor(row, rules, regex))
         == Applied(was, ids + {row.id}, rules, regex)
  {
    var u := UpdateFor(row, rules, regex);
    forall k | 0 <= k < |was|
      ensures Assign(Applied(was, ids, rules, regex), u)[k] == Applied(was, ids + {row.id}, rules, regex)[k]
    {
      SameIdSameRow(was, k, row);
    }
  }

  lemma IdsConcat(a: seq<StoredEvent>, b: seq<StoredEvent>)
    ensures IdsOf(a + b) == IdsOf(a) + IdsOf(b)
    ensures Members(IdsOf(a + b)) == Members(IdsOf(a)) + Members(IdsOf(b))
  {
    assert forall id :: id in IdsOf(a) + IdsOf(b) <==> id in IdsOf(a) || id in IdsOf(b);
  }

  lemma NothingApplied(rows: seq<StoredEvent>, rules: seq<Rule>, regex: RegexSearch)
    ensures Applied(rows, {}, rules, regex) == rows
  {
  }

  // The rows that were picked before the query, and their ids, up to the cursor.
  ghost predicate DoneSoFar(was: seq<StoredEvent>, starts: nat -> int, done: seq<StoredEvent>, ids: set<int>,
                            query: nat, lastId: int)
    requires ValidTable(was)
  {
    && Picked(was, starts, 0, 0) == done + Picked(was, starts, query, lastId)
    && ids == Members(IdsOf(done)) && forall id :: id in ids ==> id <= lastId
  }

  /** activity_events with the job's progress counter and, for the proof, the ids of all
      rows the job has updated, in order. */
  class ReclassificationJob {
    var rows: seq<StoredEvent>
    var processedEvents: nat
    ghost var updated: seq<int>

    constructor (table: seq<StoredEvent>)
      ensures rows == table && processedEvents == 0 && updated == []
    {
      rows, processedEvents, updated := table, 0, [];
    }

    // The picked rows are reclassified, updated exactly once and counted once.
    method Run(starts: nat -> int, rules: seq<Rule>, regex: RegexSearch)
      requires ValidTable(rows)
      modifies this
      ensures var picked := Picked(old(rows), starts, 0, 0);
              && rows == Applied(old(rows), Members(IdsOf(picked)), rules, regex)
              && updated == old(updated) + IdsOf(picked)
              && processedEvents == old(processedEvents) + |picked|
    {
      ghost var was, done, ids: set<int> := rows, [], {};
      var lastId, query: nat := 0, 0;
      NothingApplied(was, rules, regex);
      while true
        invariant DoneSoFar(was, starts, done, ids, query, lastId) && rows == Applied(was, ids, rules, regex)
        invariant updated == old(updated) + IdsOf(done) && processedEvents == old(processedEvents) + |done|
        decreases Left(was, lastId)
      {
        var page := NextPage(starts(query), lastId, rules, regex, was, ids);
        if page == [] {
          AllDone(was, starts, done, ids, query, lastId);
          break;
        }
        NextDone(was, starts, done, ids, query, lastId, page);
        lastId := page[|page| - 1].id;
        query := query + 1;
        done, ids := done + page, ids + Members(IdsOf(page));
      }
    }

    // One round: the next page is selected, updated and counted.
    method NextPage(since: int, lastId: int, rules: seq<Rule>, regex: RegexSearch, ghost was: seq<StoredEvent>,
                    ghost ids: set<int>)
      returns (page: seq<StoredEvent>)
      requires ValidTable(was) && rows == Applied(was, ids, rules, regex) && forall id :: id in ids ==> id <= lastId
      modifies this
      ensures page == SelectPage(was, since, lastId)
      ensures page != [] ==> Left(was, page[|page| - 1].id) < Left(was, lastId)
      ensures if page == [] then unchanged(this) else rows == Applied(was, ids + Members(IdsOf(page)), rules, regex)
      ensures updated == old(updated) + IdsOf(page) && processedEvents == old(processedEvents) + |page|
    {
      PageOfUntouched(was, rows, ids, rules, regex, since, lastId);
      page := SelectPage(rows, since, lastId);
      if page != [] {
        PageIsLater(was, since, lastId);
        PageIsSorted(was, since, lastId);
        UpdatePage(page, rules, regex, was, ids, lastId);
        processedEvents := processedEvents + |page|;
      }
    }

    method UpdatePage(page: seq<StoredEvent>, rules: seq<Rule>, regex: RegexSearch, ghost was: seq<StoredEvent>,
                      ghost ids: set<int>, ghost lastId: int)
      requires ValidTable(was) && rows == Applied(was, ids, rules, regex) && SortedIds(page)
      requires forall r :: r in page ==> r in was && r.id > lastId
      requires forall id :: id in ids ==> id <= lastId
      modifies this`rows, this`updated
      ensures rows == Applied(was, ids + Members(IdsOf(page)), rules, regex)
      ensures updated == old(updated) + IdsOf(page)
    {
      assert Members(IdsOf(page[..0])) == {} && ids + {} == ids;
      for i := 0 to |page|
        invariant rows == Applied(was, ids + Members(IdsOf(page[..i])), rules, regex)
        invariant updated == old(updated) + IdsOf(page[..i])
      {
        assert page[i] in page;
        IdsSnoc(page, i);
        NotYetUpdated(page, i, ids, lastId);
        AssignApplies(was, ids + Members(IdsOf(page[..i])), rules, regex, page[i]);
        OneMoreId(ids, Members(IdsOf(page[..i])), page[i].id);
        rows := Assign(rows, UpdateFor(page[i], rules, regex));
        updated := updated + [page[i].id];
      }
      assert page[..|page|] == page;
    }
  }

  lemma IdsSnoc(page: seq<StoredEvent>, i: nat)
    requires i < |page|
    ensures IdsOf(page[..i + 1]) == IdsOf(page[..i]) + [page[i].id]
    ensures Members(IdsOf(page[..i + 1])) == Members(IdsOf(page[..i])) + {page[i].id}
  {
    assert IdsOf(page[..i + 1]) == IdsOf(page[..i]) + [page[i].id];
  }

  lemma OneMoreId(ids: set<int>, earlier: set<int>, id: int)
    ensures ids + (earlier + {id}) == ids + earlier + {id}
  {
  }

  lemma NotYetUpdated(page: seq<StoredEvent>, i: nat, ids: set<int>, lastId: int)
    requires SortedIds(page) && i < |page| && page[i].id > lastId && forall id :: id in ids ==> id <= lastId
    ensures page[i].id !in ids + Members(IdsOf(page[..i]))
  {
    var earlier := IdsOf(page[..i]);
    assert forall j :: 0 <= j < i ==> earlier[j] == page[j].id;
  }

  lemma NextDone(was: seq<StoredEvent>, starts: nat -> int, done: seq<StoredEvent>, ids: set<int>, query: nat,
                 lastId: int, page: seq<StoredEvent>)
    requires ValidTable(was) && page == SelectPage(was, starts(query), lastId) && page != []
    requires DoneSoFar(was, starts, done, ids, query, lastId)
    ensures DoneSoFar(was, starts, done + page, ids + Members(IdsOf(page)), query + 1, page[|page| - 1].id)
    ensures IdsOf(done + page) == IdsOf(done) + IdsOf(page)
  {
    IdsConcat(done, page);
    PageIsSorted(was, starts(query), lastId);
    PageIsLater(was, starts(query), lastId);
    ConcatThree(done, page, Picked(was, starts, query + 1, page[|page| - 1].id));
    assert forall j :: 0 <= j < |page| ==> IdsOf(page)[j] <= page[|page| - 1].id;
  }

  lemma AllDone(was: seq<StoredEvent>, starts: nat -> int, done: seq<StoredEvent>, ids: set<int>, query: nat,
                lastId: int)
    requires ValidTable(was) && DoneSoFar(was, starts, done, ids, query, lastId)
    requires SelectPage(was, starts(query), lastId) == []
    ensures done == Picked(was, starts, 0, 0) && ids == Members(IdsOf(done))
  {
    assert done + [] == done;
  }

  lemma ConcatThree(a: seq<StoredEvent>, b: seq<StoredEvent>, c: seq<StoredEvent>)
    ensures a + (b + c) == (a + b) + c
  {
  }

  // A later job that picks what an earlier one picked leaves no trace of it; with the same
  // rules and rows it changes nothing.
  lemma LaterJobDecides(rows: seq<StoredEvent>, earlier: set<int>, later: set<int>, first: seq<Rule>,
                        second: seq<Rule>, regex: RegexSearch)
    requires FromCategories(first) && earlier <= later
    ensures Applied(Applied(rows, earlier, first, regex), later, second, regex)
         == Applied(rows, later, second, regex)
  {
    forall i | 0 <= i < |rows|
      ensures Applied(Applied(rows, earlier, first, regex), later, second, regex)[i]
           == Applied(rows, later, second, regex)[i]
    {
      ReclassificationForgets(rows[i].fields, first, second, regex);
    }
  }
}
