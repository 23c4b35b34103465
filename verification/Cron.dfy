/**
 The report scheduler's cron search: it looks through the next 370 days, minute by
 minute, for a minute that all five fields of the expression match. Minutes are counted
 from midnight of 1 January of year 1 and instants in microseconds from there, in UTC.
 */
module Cron {
  import opened Common
  import opened StableOrder
  import opened Strings

  const MINUTE: int := 60_000_000
  const HORIZON: nat := 60 * 24 * 370

  // --- The calendar -----------------------------------------------------------------------

  datatype Date = Date(year: int, month: int, day: int)

  predicate Leap(year: int) {
    year % 4 == 0 && (year % 100 != 0 || year % 400 == 0)
  }

  function DaysIn(year: int, month: int): int {
    if month == 2 then (if Leap(year) then 29 else 28)
    else if month == 4 || month == 6 || month == 9 || month == 11 then 30
    else 31
  }

  lemma MonthLengths(year: int)
    ensures seq(12, (m: nat) => DaysIn(year, m + 1))
         == [31, if Leap(year) then 29 else 28, 31, 30, 31, 30, 31, 31, 30, 31, 30, 31]
  {
  }

  predicate IsDate(d: Date) {
    d.year >= 1 && 1 <= d.month <= 12 && 1 <= d.day <= DaysIn(d.year, d.month)
  }

  function NextDay(d: Date): Date {
    if d.day < DaysIn(d.year, d.month) then d.(day := d.day + 1)
    else if d.month < 12 then Date(d.year, d.month + 1, 1)
    else Date(d.year + 1, 1, 1)
  }

  function DateOf(days: nat): Date {
    if days == 0 then Date(1, 1, 1) else NextDay(DateOf(days - 1))
  }

  function FirstDay(year: int): int {
    if year <= 1 then 0 else FirstDay(year - 1) + 365 + if Leap(year - 1) then 1 else 0
  }

  function DaysBefore(year: int, month: int): int
    decreases month
  {
    if month <= 1 then 0 else DaysBefore(year, month - 1) + DaysIn(year, month - 1)
  }

  function DayNumber(d: Date): int
    requires IsDate(d)
  {
    FirstDay(d.year) + DaysBefore(d.year, d.month) + d.day - 1
  }

  lemma Quotients(year: int)
    requires year >= 1
    ensures year / 4 == (year - 1) / 4 + if year % 4 == 0 then 1 else 0
    ensures year / 100 == (year - 1) / 100 + if year % 100 == 0 then 1 else 0
    ensures year / 400 == (year - 1) / 400 + if year % 400 == 0 then 1 else 0
    ensures (year % 400 == 0 ==> year % 100 == 0) && (year % 100 == 0 ==> year % 4 == 0)
  {
  }

  lemma {:induction false} LeapYearsCounted(year: int)
    requires year >= 1
    ensures FirstDay(year) == 365 * (year - 1) + (year - 1) / 4 - (year - 1) / 100 + (year - 1) / 400
  {
    if year > 1 {
      LeapYearsCounted(year - 1);
      Quotients(year - 1);
    }
  }

  lemma DaysInYear(year: int)
    ensures DaysBefore(year, 13) == 365 + if Leap(year) then 1 else 0
    ensures DaysBefore(year, 2) == 31
  {
    assert DaysBefore(year, 5) == 120 + if Leap(year) then 1 else 0;
    assert DaysBefore(year, 9) == DaysBefore(year, 5) + 123;
    assert DaysBefore(year, 13) == DaysBefore(year, 9) + 122;
  }

  lemma NextDayIsNext(d: Date)
    requires IsDate(d)
    ensures IsDate(NextDay(d)) && DayNumber(NextDay(d)) == DayNumber(d) + 1
  {
    if d.day == DaysIn(d.year, d.month) && d.month == 12 {
      DaysInYear(d.year);
    }
  }

  // Stepping day by day agrees with counting days.
  lemma {:induction false} DateOfIsGregorian(days: nat)
    ensures IsDate(DateOf(days)) && DayNumber(DateOf(days)) == days
  {
    if days > 0 {
      DateOfIsGregorian(days - 1);
      NextDayIsNext(DateOf(days - 1));
    }
  }

  lemma {:induction false} FirstDayGrows(a: int, b: int)
    requires 1 <= a <= b
    ensures FirstDay(a) + 365 * (b - a) <= FirstDay(b)
    decreases b - a
  {
    if a < b {
      FirstDayGrows(a, b - 1);
    }
  }

  lemma {:induction false} DaysBeforeGrows(year: int, a: int, b: int)
    requires 1 <= a <= b
    ensures DaysBefore(year, a) + 28 * (b - a) <= DaysBefore(year, b)
    decreases b - a
  {
    if a < b {
      DaysBeforeGrows(year, a, b - 1);
    }
  }

  lemma DayWithinYear(d: Date)
    requires IsDate(d)
    ensures FirstDay(d.year) <= DayNumber(d) < FirstDay(d.year + 1)
  {
    DaysBeforeGrows(d.year, 1, d.month);
    DaysBeforeGrows(d.year, d.month + 1, 13);
    DaysInYear(d.year);
  }

  lemma EarlierYear(a: Date, b: Date)
    requires IsDate(a) && IsDate(b) && a.year < b.year
    ensures DayNumber(a) < DayNumber(b)
  {
    DayWithinYear(a);
    DayWithinYear(b);
    FirstDayGrows(a.year + 1, b.year);
  }

  lemma EarlierMonth(a: Date, b: Date)
    requires IsDate(a) && IsDate(b) && a.year == b.year && a.month < b.month
    ensures DayNumber(a) < DayNumber(b)
  {
    DaysBeforeGrows(a.year, a.month + 1, b.month);
  }

  lemma DayNumberIsInjective(a: Date, b: Date)
    requires IsDate(a) && IsDate(b) && DayNumber(a) == DayNumber(b)
    ensures a == b
  {
    if a.year != b.year {
      EarlierYear(if a.year < b.year then a else b, if a.year < b.year then b else a);
    } else if a.month != b.month {
      EarlierMonth(if a.month < b.month then a else b, if a.month < b.month then b else a);
    }
  }

  lemma DateOfInvertsDayNumber(d: Date)
    requires IsDate(d)
    ensures DayNumber(d) >= 0 && DateOf(DayNumber(d)) == d
  {
    DayWithinYear(d);
    FirstDayGrows(1, d.year);
    DateOfIsGregorian(DayNumber(d));
    DayNumberIsInjective(d, DateOf(DayNumber(d)));
  }

  // --- Evaluating an expression ---------------------------------------------------------------

  // `int` of a text that is no number raises ValueError.
  datatype Outcome = Verdict(matches: bool) | Raises

  predicate IsDigit(c: char) {
    '0' <= c <= '9'
  }

  // Python's int() on ASCII text: digits, with single underscores between them.
  function ParseDigits(s: string): Option<nat> {
    if s == "" || !IsDigit(s[|s| - 1]) then None
    else
      var digit := (s[|s| - 1] - '0') as nat;
      if |s| == 1 then Some(digit)
      else
        match ParseDigits(if s[|s| - 2] == '_' then s[..|s| - 2] else s[..|s| - 1])
        case None => None
        case Some(n) => Some(10 * n + digit)
  }

  function ParseInt(s: string): Option<int> {
    if s != "" && s[0] == '-' then
      match ParseDigits(s[1..]) case None => None case Some(n) => Some(0 - n as int)
    else ParseDigits(if s != "" && s[0] == '+' then s[1..] else s)
  }

  function PartMatches(part: string, value: int): Outcome {
    if '/' in part then StepMatches(Cut(part, '/').0, ParseInt(Cut(part, '/').1), value)
    else if '-' in part then
      var start, end := ParseInt(Cut(part, '-').0), ParseInt(Cut(part, '-').1);
      Verdict(start.Some? && end.Some? && start.value <= value <= end.value)
    else Verdict(ParseInt(part) == Some(value))
  }

  // The base is only read for a positive step, outside the handler of ValueError.
  function StepMatches(base: string, step: Option<int>, value: int): Outcome {
    if step.None? || step.value <= 0 then Verdict(false)
    else if base == "*" then Verdict(value % step.value == 0)
    else if ParseInt(base).None? then Raises
    else Verdict(ParseInt(base).value <= value && value % step.value == 0)
  }

  function AnyPartMatches(parts: seq<string>, value: int): Outcome {
    if parts == [] then Verdict(false)
    else if PartMatches(parts[0], value) == Verdict(false) then AnyPartMatches(parts[1..], value)
    else PartMatches(parts[0], value)
  }

  function FieldMatches(field: string, value: int): Outcome {
    if field == "*" then Verdict(true) else AnyPartMatches(Split(field, ','), value)
  }

  // all() over a generator stops at the first field that does not match.
  function AllMatch(fields: seq<string>, values: seq<int>): Outcome
    requires |fields| == |values|
  {
    if fields == [] then Verdict(true)
    else if FieldMatches(fields[0], values[0]) == Verdict(true) then AllMatch(fields[1..], values[1..])
    else FieldMatches(fields[0], values[0])
  }

  function Blanked(s: string): string {
    seq(|s|, i requires 0 <= i < |s| => if IsBlank(s[i]) then ' ' else s[i])
  }

  // str.split without a separator.
  function Words(s: string): seq<string> {
    Only(Split(Blanked(s), ' '), word => word != "")
  }

  // Minute, hour, day, month, and the weekday counted from Sunday.
  function Values(minute: nat): seq<int> {
    var days := minute / 1440;
    var date := DateOf(days);
    [minute % 60, minute / 60 % 24, date.day, date.month, (days % 7 + 1) % 7]
  }

  function Matches(expression: string, minute: nat): Outcome {
    var fields := Words(expression);
    if |fields| != 5 then Verdict(false) else AllMatch(fields, Values(minute))
  }

  // --- The search -------------------------------------------------------------------------------

  // Both are a ValueError to the caller.
  datatype CronError = NoRunInHorizon | BadNumber

  predicate InHorizon(instant: nat, minute: nat) {
    instant < minute * MINUTE <= instant + HORIZON * MINUTE
  }

  // The least whole minute after the instant that matches, if the search gets there.
  ghost predicate IsNextRun(expression: string, instant: nat, run: Result<nat, CronError>) {
    match run
    case Ok(minute) =>
      && InHorizon(instant, minute) && Matches(expression, minute) == Verdict(true)
      && forall m: nat :: instant < m * MINUTE && m < minute ==> Matches(expression, m) == Verdict(false)
    case Err(NoRunInHorizon) =>
      forall m: nat :: InHorizon(instant, m) ==> Matches(expression, m) == Verdict(false)
    case Err(BadNumber) =>
      exists minute: nat :: InHorizon(instant, minute) && Matches(expression, minute).Raises?
        && forall m: nat :: instant < m * MINUTE && m < minute ==> Matches(expression, m) == Verdict(false)
  }

  method NextCronAfter(expression: string, instant: nat) returns (run: Result<nat, CronError>)
    ensures IsNextRun(expression, instant, run)
  {
    var candidate: nat := instant / MINUTE + 1;
    ghost var first := candidate;
    for i := 0 to HORIZON
      invariant candidate == first + i
      invariant forall m: nat :: first <= m < candidate ==> Matches(expression, m) == Verdict(false)
    {
      var outcome := Matches(expression, candidate);
      if outcome.Raises? {
        return Err(BadNumber);
      }
      if outcome.matches {
        return Ok(candidate);
      }
      candidate := candidate + 1;
    }
    return Err(NoRunInHorizon);
  }

  // --- When a field raises -------------------------------------------------------------------------

  // A slash, a positive step and a base that is neither "*" nor a number.
  predicate BadBase(part: string) {
    && '/' in part
    && var step := ParseInt(Cut(part, '/').1);
       step.Some? && step.value > 0 && Cut(part, '/').0 != "*" && ParseInt(Cut(part, '/').0).None?
  }

  // The first part that does not simply fail is at i and raises.
  predicate RaisesAt(parts: seq<string>, value: int, i: nat)
    requires i < |parts|
  {
    BadBase(parts[i]) && forall j :: 0 <= j < i ==> PartMatches(parts[j], value) == Verdict(false)
  }

  lemma RaisesLater(parts: seq<string>, value: int, i: nat)
    requires i + 1 < |parts| && PartMatches(parts[0], value) == Verdict(false)
    ensures RaisesAt(parts, value, i + 1) <==> RaisesAt(parts[1..], value, i)
  {
    var rest := parts[1..];
    assert forall j :: 0 <= j < i ==> rest[j] == parts[j + 1];
    if RaisesAt(rest, value, i) {
      forall j | 0 <= j < i + 1
        ensures PartMatches(parts[j], value) == Verdict(false)
      {
        assert j > 0 ==> PartMatches(rest[j - 1], value) == Verdict(false);
      }
    }
  }

  ghost predicate SomePartRaises(parts: seq<string>, value: int) {
    exists i :: 0 <= i < |parts| && RaisesAt(parts, value, i)
  }

  lemma SomeLaterPartRaises(parts: seq<string>, value: int)
    requires parts != [] && PartMatches(parts[0], value) == Verdict(false)
    ensures SomePartRaises(parts, value) <==> SomePartRaises(parts[1..], value)
  {
    assert !BadBase(parts[0]);
    if i :| 0 <= i < |parts| && RaisesAt(parts, value, i) {
      RaisesLater(parts, value, i - 1);
    }
    if i :| 0 <= i < |parts[1..]| && RaisesAt(parts[1..], value, i) {
      RaisesLater(parts, value, i);
    }
  }

  lemma {:induction false} AnyPartRaisesExactly(parts: seq<string>, value: int)
    ensures AnyPartMatches(parts, value).Raises? <==> SomePartRaises(parts, value)
  {
    if parts != [] {
      if PartMatches(parts[0], value) == Verdict(false) {
        AnyPartRaisesExactly(parts[1..], value);
        SomeLaterPartRaises(parts, value);
      } else {
        assert RaisesAt(parts, value, 0) <==> PartMatches(parts[0], value).Raises?;
        assert forall i :: 0 < i < |parts| ==> !RaisesAt(parts, value, i);
      }
    }
  }

  // The field at k raises, after fields that all match.
  ghost predicate FieldRaisesAt(fields: seq<string>, values: seq<int>, k: nat)
    requires k < |fields| == |values|
  {
    && fields[k] != "*"
    && SomePartRaises(Split(fields[k], ','), values[k])
    && forall j :: 0 <= j < k ==> FieldMatches(fields[j], values[j]) == Verdict(true)
  }

  lemma FieldRaisesLater(fields: seq<string>, values: seq<int>, k: nat)
    requires k < |fields| - 1 && |fields| == |values| && FieldMatches(fields[0], values[0]) == Verdict(true)
    ensures FieldRaisesAt(fields, values, k + 1) <==> FieldRaisesAt(fields[1..], values[1..], k)
  {
    var rest, restValues := fields[1..], values[1..];
    assert forall j :: 0 <= j < k ==> rest[j] == fields[j + 1] && restValues[j] == values[j + 1];
    if FieldRaisesAt(rest, restValues, k) {
      forall j | 0 <= j < k + 1
        ensures FieldMatches(fields[j], values[j]) == Verdict(true)
      {
        assert j > 0 ==> FieldMatches(rest[j - 1], restValues[j - 1]) == Verdict(true);
      }
    }
  }

  lemma FirstFieldRaisesExactly(fields: seq<string>, values: seq<int>)
    requires |fields| == |values| && fields != []
    ensures FieldRaisesAt(fields, values, 0) <==> FieldMatches(fields[0], values[0]).Raises?
  {
    AnyPartRaisesExactly(Split(fields[0], ','), values[0]);
  }

  ghost predicate SomeFieldRaises(fields: seq<string>, values: seq<int>)
    requires |fields| == |values|
  {
    exists k :: 0 <= k < |fields| && FieldRaisesAt(fields, values, k)
  }

  lemma SomeLaterFieldRaises(fields: seq<string>, values: seq<int>)
    requires |fields| == |values| && fields != [] && FieldMatches(fields[0], values[0]) == Verdict(true)
    ensures SomeFieldRaises(fields, values) <==> SomeFieldRaises(fields[1..], values[1..])
  {
    FirstFieldRaisesExactly(fields, values);
    if k :| 0 <= k < |fields| && FieldRaisesAt(fields, values, k) {
      FieldRaisesLater(fields, values, k - 1);
    }
    if k :| 0 <= k < |fields[1..]| && FieldRaisesAt(fields[1..], values[1..], k) {
      FieldRaisesLater(fields, values, k);
    }
  }

  lemma {:induction false} AllMatchRaisesExactly(fields: seq<string>, values: seq<int>)
    requires |fields| == |values|
    ensures AllMatch(fields, values).Raises? <==> SomeFieldRaises(fields, values)
  {
    if fields != [] {
      if FieldMatches(fields[0], values[0]) == Verdict(true) {
        AllMatchRaisesExactly(fields[1..], values[1..]);
        SomeLaterFieldRaises(fields, values);
      } else {
        FirstFieldRaisesExactly(fields, values);
        assert forall k :: 0 < k < |fields| ==> !FieldRaisesAt(fields, values, k);
      }
    }
  }

  // At a minute an expression raises exactly if a field that is reached has a part that is
  // reached, with a positive step and a base that is neither "*" nor a number.
  lemma ExpressionRaisesExactly(expression: string, minute: nat)
    ensures Matches(expression, minute).Raises? <==>
              var fields := Words(expression);
              |fields| == 5 && SomeFieldRaises(fields, Values(minute))
  {
    if |Words(expression)| == 5 {
      AllMatchRaisesExactly(Words(expression), Values(minute));
    }
  }

  // An expression with more or fewer than five fields never runs.
  lemma NeedsFiveFields(expression: string, instant: nat, run: Result<nat, CronError>)
    requires |Words(expression)| != 5 && IsNextRun(expression, instant, run)
    ensures run == Err(NoRunInHorizon)
  {
  }

  // For example "a/5 * * * *": it raises at every minute, so every search fails.
  const BAD_PART: string := "a/5"
  const BAD_BASE: seq<string> := [BAD_PART, "*", "*", "*", "*"]

  lemma BadPartRaises(value: int)
    ensures PartMatches(BAD_PART, value) == Raises
  {
    assert BAD_PART == "a" + ['/'] + "5";
    CutOnce("a", '/', "5");
    assert ParseInt("5") == Some(5) && ParseInt("a") == None;
  }

  lemma BadFieldRaises(value: int)
    ensures FieldMatches(BAD_PART, value) == Raises
  {
    SplitPlain(BAD_PART, ',');
    BadPartRaises(value);
  }

  lemma FirstFieldDecides(fields: seq<string>, values: seq<int>)
    requires |fields| == |values| && fields != [] && FieldMatches(fields[0], values[0]) == Raises
    ensures AllMatch(fields, values) == Raises
  {
  }

  lemma BadExpressionRaises(minute: nat)
    ensures Matches(Join(BAD_BASE, ' '), minute) == Raises
  {
    assert forall i :: 0 <= i < |BAD_BASE| ==> IsWord(BAD_BASE[i]);
    WordsInvertJoin(BAD_BASE);
    BadFieldRaises(Values(minute)[0]);
    FirstFieldDecides(BAD_BASE, Values(minute));
  }

  lemma BadBaseRaises(instant: nat, run: Result<nat, CronError>)
    requires IsNextRun(Join(BAD_BASE, ' '), instant, run)
    ensures run == Err(BadNumber)
  {
    forall minute: nat
      ensures Matches(Join(BAD_BASE, ' '), minute) == Raises
    {
      BadExpressionRaises(minute);
    }
    var next: nat := instant / MINUTE + 1;
    assert InHorizon(instant, next) && Matches(Join(BAD_BASE, ' '), next) != Verdict(false);
  }

  // --- What well-formed expressions mean ----------------------------------------------------------

  datatype Term = At(n: nat) | Between(low: nat, high: nat) | EveryFrom(base: Option<nat>, step: nat)

  datatype FieldSpec = Any | OneOf(terms: seq<Term>)

  predicate TermMeans(term: Term, value: int) {
    match term
    case At(n) => value == n
    case Between(low, high) => low <= value <= high
    case EveryFrom(base, step) => step > 0 && value % step == 0 && (base.Some? ==> base.value <= value)
  }

  predicate AnyMeans(terms: seq<Term>, value: int) {
    exists i :: 0 <= i < |terms| && TermMeans(terms[i], value)
  }

  predicate FieldMeans(field: FieldSpec, value: int) {
    field.Any? || AnyMeans(field.terms, value)
  }

  function Digit(d: nat): char
    requires d < 10
  {
    '0' + d as char
  }

  function ShowNat(n: nat): string {
    (if n < 10 then "" else ShowNat(n / 10)) + [Digit(n % 10)]
  }

  function ShowTerm(term: Term): string {
    match term
    case At(n) => ShowNat(n)
    case Between(low, high) => ShowNat(low) + "-" + ShowNat(high)
    case EveryFrom(base, step) => (if base.None? then "*" else ShowNat(base.value)) + "/" + ShowNat(step)
  }

  function ShowTerms(terms: seq<Term>): seq<string> {
    seq(|terms|, i requires 0 <= i < |terms| => ShowTerm(terms[i]))
  }

  predicate WellFormed(field: FieldSpec) {
    field.Any? || field.terms != []
  }

  function ShowField(field: FieldSpec): string
    requires WellFormed(field)
  {
    if field.Any? then "*" else Join(ShowTerms(field.terms), ',')
  }

  ghost predicate IsNumber(s: string) {
    s != "" && forall c :: c in s ==> IsDigit(c)
  }

  lemma {:induction false} ShownDigitsParse(n: nat)
    ensures IsNumber(ShowNat(n)) && ParseDigits(ShowNat(n)) == Some(n)
  {
    var s := ShowNat(n);
    if n >= 10 {
      ShownDigitsParse(n / 10);
      assert s[..|s| - 1] == ShowNat(n / 10);
      assert s[|s| - 2] in ShowNat(n / 10);
    }
    assert s[|s| - 1] == Digit(n % 10);
  }

  lemma ShownNatParses(n: nat)
    ensures IsNumber(ShowNat(n)) && ParseInt(ShowNat(n)) == Some(n)
  {
    ShownDigitsParse(n);
    assert ShowNat(n)[0] in ShowNat(n);
  }

  // Digits, with single underscores between them.
  ghost predicate IsNumeral(s: string) {
    && s != "" && IsDigit(s[0]) && IsDigit(s[|s| - 1])
    && (forall i :: 0 <= i < |s| ==> IsDigit(s[i]) || s[i] == '_')
    && forall i :: 0 < i < |s| ==> s[i - 1] != '_' || s[i] != '_'
  }

  // The number written by the digits of a text, from left to right.
  ghost function NumberOf(s: string, before: nat): nat {
    if s == "" then before
    else NumberOf(s[1..], if IsDigit(s[0]) then 10 * before + (s[0] as nat - 48) else before)
  }

  lemma {:induction false} NumberOfNext(s: string, c: char, before: nat)
    ensures NumberOf(s + [c], before) ==
            if IsDigit(c) then 10 * NumberOf(s, before) + (c as nat - 48) else NumberOf(s, before)
  {
    if s == "" {
      assert (s + [c])[1..] == "";
    } else {
      assert (s + [c])[1..] == s[1..] + [c];
      NumberOfNext(s[1..], c, if IsDigit(s[0]) then 10 * before + (s[0] as nat - 48) else before);
    }
  }

  lemma NumeralsEnd(s: string)
    requires |s| >= 2 && IsDigit(s[|s| - 1])
    ensures IsNumeral(s) <==> IsNumeral(if s[|s| - 2] == '_' then s[..|s| - 2] else s[..|s| - 1])
  {
    var t := if s[|s| - 2] == '_' then s[..|s| - 2] else s[..|s| - 1];
    assert forall i :: 0 <= i < |t| ==> t[i] == s[i];
    if IsNumeral(s) && s[|s| - 2] == '_' {
      assert |s| >= 3 && s[|s| - 3] != '_';
    }
    if IsNumeral(t) {
      assert s[|t| - 1] == t[|t| - 1] && s[0] == t[0];
    }
  }

  // Reading from the right gives the number written from the left.
  lemma {:induction false} NumeralsParse(s: string)
    ensures ParseDigits(s) == if IsNumeral(s) then Some(NumberOf(s, 0)) else None
  {
    if |s| >= 2 && IsDigit(s[|s| - 1]) {
      var n := |s| - 1;
      var t := if s[n - 1] == '_' then s[..n - 1] else s[..n];
      NumeralsParse(t);
      NumeralsEnd(s);
      assert s == s[..n] + [s[n]];
      NumberOfNext(s[..n], s[n], 0);
      if s[n - 1] == '_' {
        assert s[..n] == t + ['_'];
        NumberOfNext(t, '_', 0);
      }
    } else if |s| == 1 {
      assert s[1..] == "";
    }
  }

  lemma SignIsRead(s: string)
    ensures ParseInt("+" + s) == ParseDigits(s)
    ensures ParseInt("-" + s) == match ParseDigits(s) case None => None case Some(n) => Some(0 - n as int)
  {
    assert ("+" + s)[1..] == s && ("-" + s)[1..] == s;
  }

  lemma NoSignIsNeeded(s: string)
    requires s == "" || (s[0] != '+' && s[0] != '-')
    ensures ParseInt(s) == ParseDigits(s)
  {
  }

  lemma NumeralHasNoSign(s: string)
    requires IsNumeral(s)
    ensures s[0] != '+' && s[0] != '-'
  {
  }

  // A numeral is the number its digits write, with a sign or without one.
  lemma NumeralIsRead(s: string)
    requires IsNumeral(s)
    ensures ParseInt(s) == Some(NumberOf(s, 0)) && ParseInt("+" + s) == Some(NumberOf(s, 0))
    ensures ParseInt("-" + s) == Some(0 - NumberOf(s, 0) as int)
  {
    NumeralsParse(s);
    SignIsRead(s);
    NumeralHasNoSign(s);
    NoSignIsNeeded(s);
  }

  // No other text is read.
  lemma OnlyNumeralsAreRead(s: string)
    ensures if s != "" && (s[0] == '+' || s[0] == '-') then ParseInt(s).Some? <==> IsNumeral(s[1..])
            else ParseInt(s).Some? <==> IsNumeral(s)
  {
    if s != "" && (s[0] == '+' || s[0] == '-') {
      NumeralsParse(s[1..]);
      SignIsRead(s[1..]);
      assert s == [s[0]] + s[1..];
    } else {
      NumeralsParse(s);
      NoSignIsNeeded(s);
    }
  }

  lemma StepTermMatches(base: Option<nat>, step: nat, value: int)
    ensures PartMatches(ShowTerm(EveryFrom(base, step)), value) == Verdict(TermMeans(EveryFrom(base, step), value))
  {
    var start := if base.None? then "*" else ShowNat(base.value);
    if base.Some? {
      ShownNatParses(base.value);
      assert start != "*" by {
        assert !IsDigit("*"[0]);
      }
    }
    ShownNatParses(step);
    var shown := start + ['/'] + ShowNat(step);
    assert shown == ShowTerm(EveryFrom(base, step)) && shown[|start|] == '/';
    CutOnce(start, '/', ShowNat(step));
  }

  lemma RangeTermMatches(low: nat, high: nat, value: int)
    ensures PartMatches(ShowTerm(Between(low, high)), value) == Verdict(TermMeans(Between(low, high), value))
  {
    ShownNatParses(low);
    ShownNatParses(high);
    var shown := ShowNat(low) + ['-'] + ShowNat(high);
    assert shown == ShowTerm(Between(low, high)) && shown[|ShowNat(low)|] == '-';
    CutOnce(ShowNat(low), '-', ShowNat(high));
  }

  lemma TermMatchesExactly(term: Term, value: int)
    ensures PartMatches(ShowTerm(term), value) == Verdict(TermMeans(term, value))
  {
    match term
    case At(n) => ShownNatParses(n);
    case Between(low, high) => RangeTermMatches(low, high, value);
    case EveryFrom(base, step) => StepTermMatches(base, step, value);
  }

  // Printed terms hold only digits, '-', '/' and '*'.
  lemma TermIsPlain(term: Term)
    ensures ShowTerm(term) != "" && ShowTerm(term) != "*"
    ensures forall c :: c in ShowTerm(term) ==> c != ',' && !IsBlank(c)
  {
    match term
    case At(n) => ShownNatParses(n);
    case Between(low, high) =>
      ShownNatParses(low);
      ShownNatParses(high);
    case EveryFrom(base, step) =>
      if base.Some? {
        ShownNatParses(base.value);
      }
      ShownNatParses(step);
  }

  lemma AnyMeansFirst(terms: seq<Term>, value: int)
    requires terms != []
    ensures AnyMeans(terms, value) <==> TermMeans(terms[0], value) || AnyMeans(terms[1..], value)
  {
    if AnyMeans(terms, value) {
      var i :| 0 <= i < |terms| && TermMeans(terms[i], value);
      assert i > 0 ==> terms[1..][i - 1] == terms[i];
    }
    if AnyMeans(terms[1..], value) {
      var i :| 0 <= i < |terms[1..]| && TermMeans(terms[1..][i], value);
      assert terms[i + 1] == terms[1..][i];
    }
  }

  lemma {:induction false} AnyTermMatches(terms: seq<Term>, value: int)
    ensures AnyPartMatches(ShowTerms(terms), value) == Verdict(AnyMeans(terms, value))
  {
    if terms != [] {
      TermMatchesExactly(terms[0], value);
      AnyTermMatches(terms[1..], value);
      assert ShowTerms(terms)[1..] == ShowTerms(terms[1..]);
      AnyMeansFirst(terms, value);
    }
  }

  // A printed field matches exactly the values it means.
  lemma FieldMatchesExactly(field: FieldSpec, value: int)
    requires WellFormed(field)
    ensures FieldMatches(ShowField(field), value) == Verdict(FieldMeans(field, value))
  {
    if field.OneOf? {
      var parts := ShowTerms(field.terms);
      forall i | 0 <= i < |parts|
        ensures ',' !in parts[i] && parts[i] != "*"
      {
        TermIsPlain(field.terms[i]);
      }
      SplitInvertsJoin(parts, ',');
      AnyTermMatches(field.terms, value);
      SplitPlain("*", ',');
      assert Split(ShowField(field), ',')[0] != Split("*", ',')[0];
    }
  }

  lemma {:induction false} JoinIsPlain(parts: seq<string>, separator: char, plain: char -> bool)
    requires |parts| >= 1 && plain(separator)
    requires forall i :: 0 <= i < |parts| ==> forall c :: c in parts[i] ==> plain(c)
    ensures forall c :: c in Join(parts, separator) ==> plain(c)
  {
    if |parts| > 1 {
      JoinIsPlain(parts[1..], separator, plain);
    }
  }

  ghost predicate IsWord(word: string) {
    word != "" && forall c :: c in word ==> !IsBlank(c)
  }

  lemma FieldIsPlain(field: FieldSpec)
    requires WellFormed(field)
    ensures IsWord(ShowField(field))
  {
    if field.OneOf? {
      var parts := ShowTerms(field.terms);
      forall i | 0 <= i < |parts|
        ensures parts[i] != "" && forall c :: c in parts[i] ==> !IsBlank(c)
      {
        TermIsPlain(field.terms[i]);
      }
      JoinIsPlain(parts, ',', c => !IsBlank(c));
    }
  }

  lemma WordsOfBlank(blank: char, rest: string)
    requires IsBlank(blank)
    ensures Words([blank] + rest) == Words(rest)
  {
    assert Blanked([blank] + rest) == [' '] + Blanked(rest);
    assert ([' '] + Blanked(rest))[1..] == Blanked(rest);
    var parts := Split(Blanked(rest), ' ');
    assert ([""] + parts)[1..] == parts;
  }

  lemma BlankedWord(word: string, rest: string)
    requires IsWord(word)
    ensures Blanked(word + rest) == word + Blanked(rest) && ' ' !in word
  {
    assert forall i :: 0 <= i < |word| ==> word[i] in word;
  }

  lemma WordsOfWord(word: string, blank: char, rest: string)
    requires IsWord(word) && IsBlank(blank)
    ensures Words(word + [blank] + rest) == [word] + Words(rest)
  {
    var parts := Split(Blanked(rest), ' ');
    assert word + [blank] + rest == word + ([blank] + rest);
    BlankedWord(word, [blank] + rest);
    assert Blanked([blank] + rest) == [' '] + Blanked(rest);
    assert word + ([' '] + Blanked(rest)) == word + [' '] + Blanked(rest);
    SplitOnce(word, ' ', Blanked(rest));
    assert ([word] + parts)[1..] == parts;
  }

  lemma LastWord(word: string)
    requires IsWord(word)
    ensures Words(word) == [word]
  {
    BlankedWord(word, "");
    assert word + "" == word && word + Blanked("") == word;
    SplitPlain(word, ' ');
    OnlyKeepsAll([word], part => part != "");
  }

  // White space of any kind and length separates words, and counts for nothing around them.
  lemma WordsExactly(word: string, blank: char, rest: string)
    requires IsWord(word) && IsBlank(blank)
    ensures Words("") == [] && Words(word) == [word]
    ensures Words([blank] + rest) == Words(rest) && Words(word + [blank] + rest) == [word] + Words(rest)
  {
    LastWord(word);
    WordsOfBlank(blank, rest);
    WordsOfWord(word, blank, rest);
    assert Split("", ' ') == [""] && [""][1..] == [];
  }

  lemma {:induction false} WordsInvertJoin(words: seq<string>)
    requires words != [] && forall i :: 0 <= i < |words| ==> IsWord(words[i])
    ensures Words(Join(words, ' ')) == words
  {
    var rest := words[1..];
    if rest == [] {
      LastWord(words[0]);
    } else {
      WordsInvertJoin(rest);
      WordsOfWord(words[0], ' ', Join(rest, ' '));
    }
  }

  predicate IsSchedule(fields: seq<FieldSpec>) {
    |fields| == 5 && forall i :: 0 <= i < |fields| ==> WellFormed(fields[i])
  }

  function ShowFields(fields: seq<FieldSpec>): seq<string>
    requires forall i :: 0 <= i < |fields| ==> WellFormed(fields[i])
  {
    seq(|fields|, i requires 0 <= i < |fields| => ShowField(fields[i]))
  }

  function ShowSchedule(fields: seq<FieldSpec>): string
    requires IsSchedule(fields)
  {
    Join(ShowFields(fields), ' ')
  }

  // A minute of a day, counted from the first of January of year 1, a Monday.
  datatype Clock = Clock(day: nat, hour: nat, minute: nat)

  predicate IsClock(c: Clock) {
    c.hour < 24 && c.minute < 60
  }

  function MinuteOf(c: Clock): nat {
    c.day * 1440 + c.hour * 60 + c.minute
  }

  // Sunday is 0 and Saturday 6.
  function Weekday(day: nat): nat {
    if day == 0 then 1 else if Weekday(day - 1) == 6 then 0 else Weekday(day - 1) + 1
  }

  // The schedule runs at the minutes whose minute, hour, day, month and weekday its fields
  // mean, in this order.
  predicate RunsAt(fields: seq<FieldSpec>, c: Clock)
    requires IsSchedule(fields)
  {
    && FieldMeans(fields[0], c.minute) && FieldMeans(fields[1], c.hour) && FieldMeans(fields[2], DateOf(c.day).day)
    && FieldMeans(fields[3], DateOf(c.day).month) && FieldMeans(fields[4], Weekday(c.day))
  }

  lemma {:induction false} WeekdayExactly(day: nat)
    ensures Weekday(day) == (day % 7 + 1) % 7
  {
    if day > 0 {
      WeekdayExactly(day - 1);
    }
  }

  lemma ClockParts(c: Clock)
    requires IsClock(c)
    ensures MinuteOf(c) % 60 == c.minute && MinuteOf(c) / 60 % 24 == c.hour && MinuteOf(c) / 1440 == c.day
  {
    assert MinuteOf(c) / 60 == c.day * 24 + c.hour;
  }

  lemma ValuesExactly(c: Clock)
    requires IsClock(c)
    ensures Values(MinuteOf(c)) == [c.minute, c.hour, DateOf(c.day).day, DateOf(c.day).month, Weekday(c.day)]
  {
    ClockParts(c);
    WeekdayExactly(c.day);
  }

  lemma ClockOf(minute: nat) returns (c: Clock)
    ensures IsClock(c) && MinuteOf(c) == minute
  {
    c := Clock(minute / 1440, minute / 60 % 24, minute % 60);
  }

  predicate AllMean(fields: seq<FieldSpec>, values: seq<int>)
    requires |fields| == |values|
  {
    forall i :: 0 <= i < |fields| ==> FieldMeans(fields[i], values[i])
  }

  lemma {:induction false} AllMatchConjunction(texts: seq<string>, values: seq<int>, means: seq<bool>)
    requires |texts| == |values| == |means|
    requires forall i :: 0 <= i < |texts| ==> FieldMatches(texts[i], values[i]) == Verdict(means[i])
    ensures AllMatch(texts, values) == Verdict(forall i :: 0 <= i < |means| ==> means[i])
  {
    if texts != [] {
      AllMatchConjunction(texts[1..], values[1..], means[1..]);
      assert means == [means[0]] + means[1..];
    }
  }

  lemma AllMatchExactly(fields: seq<FieldSpec>, values: seq<int>)
    requires |fields| == |values| && forall i :: 0 <= i < |fields| ==> WellFormed(fields[i])
    ensures AllMatch(ShowFields(fields), values) == Verdict(AllMean(fields, values))
  {
    var means := seq(|fields|, i requires 0 <= i < |fields| => FieldMeans(fields[i], values[i]));
    forall i | 0 <= i < |fields|
      ensures FieldMatches(ShowFields(fields)[i], values[i]) == Verdict(means[i])
    {
      FieldMatchesExactly(fields[i], values[i]);
    }
    AllMatchConjunction(ShowFields(fields), values, means);
  }

  lemma FiveMean(fields: seq<FieldSpec>, c: Clock)
    requires IsSchedule(fields)
    ensures AllMean(fields, [c.minute, c.hour, DateOf(c.day).day, DateOf(c.day).month, Weekday(c.day)])
       <==> RunsAt(fields, c)
  {
  }

  lemma ExpressionMatchesExactly(fields: seq<FieldSpec>, c: Clock)
    requires IsSchedule(fields) && IsClock(c)
    ensures Matches(ShowSchedule(fields), MinuteOf(c)) == Verdict(RunsAt(fields, c))
  {
    var words := ShowFields(fields);
    forall i | 0 <= i < |words|
      ensures IsWord(words[i])
    {
      FieldIsPlain(fields[i]);
    }
    WordsInvertJoin(words);
    AllMatchExactly(fields, Values(MinuteOf(c)));
    ValuesExactly(c);
    FiveMean(fields, c);
  }

  predicate Comes(instant: nat, c: Clock) {
    IsClock(c) && instant < MinuteOf(c) * 60_000_000
  }

  predicate ComesIn370Days(instant: nat, c: Clock) {
    Comes(instant, c) && MinuteOf(c) * 60_000_000 <= instant + 370 * 24 * 60 * 60_000_000
  }

  // For a well-formed schedule the search returns its next run, and raises exactly when
  // there is none in the next 370 days.
  lemma SearchIsExact(fields: seq<FieldSpec>, instant: nat, run: Result<nat, CronError>)
    requires IsSchedule(fields) && IsNextRun(ShowSchedule(fields), instant, run)
    ensures run.Ok? ==> exists c :: Comes(instant, c) && MinuteOf(c) == run.value && RunsAt(fields, c)
    ensures run.Ok? ==> forall c :: Comes(instant, c) && RunsAt(fields, c) ==> run.value <= MinuteOf(c)
    ensures run.Err? <==> forall c :: ComesIn370Days(instant, c) ==> !RunsAt(fields, c)
  {
    forall c | IsClock(c)
      ensures Matches(ShowSchedule(fields), MinuteOf(c)) == Verdict(RunsAt(fields, c))
    {
      ExpressionMatchesExactly(fields, c);
    }
    match run {
      case Ok(minute) =>
        var c := ClockOf(minute);
        assert ComesIn370Days(instant, c) && RunsAt(fields, c);
      case Err(BadNumber) =>
        var minute: nat :| InHorizon(instant, minute) && Matches(ShowSchedule(fields), minute).Raises?;
        var c := ClockOf(minute);
      case Err(NoRunInHorizon) =>
        assert forall c :: ComesIn370Days(instant, c) ==> InHorizon(instant, MinuteOf(c));
    }
  }

  // --- Where the search differs from cron ------------------------------------------------------------

  // "base/step" means the multiples of the step from the base on. That is every step-th
  // value from the base, as in cron, exactly when the base is such a multiple.
  lemma StepsAreCronSteps(base: nat, step: nat)
    requires step > 0
    ensures (forall value: int :: TermMeans(EveryFrom(Some(base), step), value) <==>
               base <= value && (value - base) % step == 0)
            <==> base % step == 0
  {
    if base % step == 0 {
      forall value: int
        ensures value % step == 0 <==> (value - base) % step == 0
      {
        MultipleShift(value, base, step);
      }
    } else {
      assert !TermMeans(EveryFrom(Some(base), step), base);
      assert (base - base) % step == 0;
    }
  }

  lemma MultipleShift(value: int, base: int, step: int)
    requires step > 0 && base % step == 0
    ensures value % step == 0 <==> (value - base) % step == 0
  {
    var k := base / step;
    if value % step == 0 {
      var q := value / step;
      assert value - base == step * (q - k);
      Multiple(step, q - k);
    }
    if (value - base) % step == 0 {
      var q := (value - base) / step;
      assert value == step * (q + k);
      Multiple(step, q + k);
    }
  }

  lemma Multiple(step: int, q: int)
    requires step > 0
    ensures (step * q) % step == 0
  {
    var d, r := (step * q) / step, (step * q) % step;
    assert step * (q - d) == r;
    assert q - d >= 1 ==> step * (q - d) >= step;
    assert q - d <= -1 ==> step * (q - d) <= -step;
  }

  predicate IsLeapDay(d: Date) {
    d.month == 2 && d.day == 29
  }

  predicate LeapMidnight(minute: nat) {
    minute % 1440 == 0 && IsLeapDay(DateOf(minute / 1440))
  }

  // "0 0 29 2 *", however it is written.
  ghost predicate RunsOnLeapDays(fields: seq<FieldSpec>)
    requires IsSchedule(fields)
  {
    forall c :: IsClock(c) ==> (RunsAt(fields, c) <==> c.hour == 0 && c.minute == 0 && IsLeapDay(DateOf(c.day)))
  }

  lemma OneValueMeans(n: nat, value: int)
    ensures FieldMeans(OneOf([At(n)]), value) <==> value == n
  {
    assert [At(n)][0] == At(n);
    assert TermMeans([At(n)][0], value) <==> value == n;
  }

  lemma LeapDayFields()
    ensures var fields := [OneOf([At(0)]), OneOf([At(0)]), OneOf([At(29)]), OneOf([At(2)]), Any];
            IsSchedule(fields) && RunsOnLeapDays(fields)
  {
    var fields := [OneOf([At(0)]), OneOf([At(0)]), OneOf([At(29)]), OneOf([At(2)]), Any];
    forall c | IsClock(c)
      ensures RunsAt(fields, c) <==> c.hour == 0 && c.minute == 0 && IsLeapDay(DateOf(c.day))
    {
      OneValueMeans(0, c.minute);
      OneValueMeans(0, c.hour);
      OneValueMeans(29, DateOf(c.day).day);
      OneValueMeans(2, DateOf(c.day).month);
    }
  }

  // Whether a 29 February lies in the 370 days after a date: the one of this leap year, if
  // it is still ahead, or the next year's, if it is at most 370 days away.
  predicate LeapDayComes(start: Date) {
    || (Leap(start.year) && start.month <= 2 && !IsLeapDay(start))
    || (Leap(start.year + 1) && (start.month >= 3 || (start.month == 2 && start.day >= 24)))
  }

  lemma LeapYearsAreApart(year: int)
    requires Leap(year)
    ensures !Leap(year + 1)
  {
  }

  lemma LeapDayNumber(leapDay: Date)
    requires IsDate(leapDay) && IsLeapDay(leapDay)
    ensures DayNumber(leapDay) == FirstDay(leapDay.year) + 59 && Leap(leapDay.year)
  {
    DaysInYear(leapDay.year);
  }

  lemma DayInYear(d: Date)
    requires IsDate(d)
    ensures d.month == 1 ==> DayNumber(d) == FirstDay(d.year) + d.day - 1
    ensures d.month == 2 ==> DayNumber(d) == FirstDay(d.year) + 30 + d.day
    ensures d.month >= 3 ==> DayNumber(d) >= FirstDay(d.year) + 59 + if Leap(d.year) then 1 else 0
    ensures DayNumber(d) < FirstDay(d.year + 1)
  {
    DayWithinYear(d);
    DaysInYear(d.year);
    if d.month >= 3 {
      DaysBeforeGrows(d.year, 3, d.month);
      assert DaysBefore(d.year, 3) == 59 + if Leap(d.year) then 1 else 0;
    }
  }

  lemma LeapDaySameYear(start: Date, leapDay: Date)
    requires IsDate(start) && IsDate(leapDay) && IsLeapDay(leapDay) && leapDay.year == start.year
    ensures DayNumber(start) < DayNumber(leapDay) <==> start.month <= 2 && !IsLeapDay(start)
    ensures DayNumber(leapDay) <= DayNumber(start) + 370
  {
    DayInYear(start);
    LeapDayNumber(leapDay);
    DayWithinYear(start);
  }

  lemma LeapDayNextYear(start: Date, leapDay: Date)
    requires IsDate(start) && IsDate(leapDay) && IsLeapDay(leapDay) && leapDay.year == start.year + 1
    ensures DayNumber(start) < DayNumber(leapDay)
    ensures DayNumber(leapDay) <= DayNumber(start) + 370 <==> start.month >= 3 || (start.month == 2 && start.day >= 24)
  {
    DayInYear(start);
    LeapDayNumber(leapDay);
    assert !Leap(start.year) by {
      if Leap(start.year) {
        LeapYearsAreApart(start.year);
      }
    }
  }

  lemma LeapDayOtherYear(start: Date, leapDay: Date)
    requires IsDate(start) && IsDate(leapDay) && IsLeapDay(leapDay)
    requires leapDay.year < start.year || leapDay.year > start.year + 1
    ensures !(DayNumber(start) < DayNumber(leapDay) <= DayNumber(start) + 370)
  {
    DayInYear(start);
    DayWithinYear(start);
    DayWithinYear(leapDay);
    LeapDayNumber(leapDay);
    if leapDay.year < start.year {
      FirstDayGrows(leapDay.year + 1, start.year);
    } else {
      FirstDayGrows(start.year + 1, start.year + 2);
      FirstDayGrows(start.year + 2, leapDay.year);
    }
  }

  lemma LeapDayImpliesComes(today: nat, days: nat)
    requires IsLeapDay(DateOf(days)) && today < days <= today + 370
    ensures LeapDayComes(DateOf(today))
  {
    DateOfIsGregorian(today);
    DateOfIsGregorian(days);
    var start, leapDay := DateOf(today), DateOf(days);
    LeapDayNumber(leapDay);
    if leapDay.year == start.year {
      LeapDaySameYear(start, leapDay);
    } else if leapDay.year == start.year + 1 {
      LeapDayNextYear(start, leapDay);
    } else {
      LeapDayOtherYear(start, leapDay);
    }
  }

  lemma LeapDayAhead(today: nat) returns (days: nat)
    requires LeapDayComes(DateOf(today))
    ensures today < days <= today + 370 && IsLeapDay(DateOf(days))
  {
    DateOfIsGregorian(today);
    var start := DateOf(today);
    var leapDay: Date;
    if Leap(start.year) && start.month <= 2 && !IsLeapDay(start) {
      leapDay := Date(start.year, 2, 29);
      LeapDaySameYear(start, leapDay);
    } else {
      leapDay := Date(start.year + 1, 2, 29);
      LeapDayNextYear(start, leapDay);
    }
    DateOfInvertsDayNumber(leapDay);
    days := DayNumber(leapDay);
  }

  lemma HorizonInDays(instant: nat, minute: nat)
    ensures InHorizon(instant, minute) ==> instant / MINUTE / 1440 <= minute / 1440 <= instant / MINUTE / 1440 + 370
    ensures minute % 1440 == 0 ==>
              (InHorizon(instant, minute) <==>
                instant / MINUTE / 1440 < minute / 1440 <= instant / MINUTE / 1440 + 370)
  {
    assert InHorizon(instant, minute) <==> instant / MINUTE < minute <= instant / MINUTE + HORIZON;
  }

  lemma MidnightClock(c: Clock)
    requires IsClock(c)
    ensures LeapMidnight(MinuteOf(c)) <==> c.hour == 0 && c.minute == 0 && IsLeapDay(DateOf(c.day))
  {
    ClockParts(c);
  }

  // The horizon is shorter than the gap between leap days: a schedule for 29 February
  // raises exactly when none comes within 370 days.
  lemma LeapDaySchedulesRaise(fields: seq<FieldSpec>, instant: nat, run: Result<nat, CronError>)
    requires IsSchedule(fields) && RunsOnLeapDays(fields) && IsNextRun(ShowSchedule(fields), instant, run)
    ensures run.Err? <==> !LeapDayComes(DateOf(instant / 60_000_000 / 1440))
  {
    SearchIsExact(fields, instant, run);
    LeapDayInHorizon(instant);
    forall c | IsClock(c)
      ensures LeapMidnight(MinuteOf(c)) <==> RunsAt(fields, c)
    {
      MidnightClock(c);
    }
    if minute: nat :| InHorizon(instant, minute) && LeapMidnight(minute) {
      var c := ClockOf(minute);
      assert ComesIn370Days(instant, c) && RunsAt(fields, c);
    }
    assert forall c :: ComesIn370Days(instant, c) ==> InHorizon(instant, MinuteOf(c));
  }

  lemma LeapDayInHorizon(instant: nat)
    ensures (exists m: nat :: InHorizon(instant, m) && LeapMidnight(m)) <==>
              LeapDayComes(DateOf(instant / MINUTE / 1440))
  {
    var today: nat := instant / MINUTE / 1440;
    forall m: nat | InHorizon(instant, m) && LeapMidnight(m)
      ensures LeapDayComes(DateOf(today))
    {
      HorizonInDays(instant, m);
      LeapDayImpliesComes(today, m / 1440);
    }
    if LeapDayComes(DateOf(today)) {
      var days := LeapDayAhead(today);
      HorizonInDays(instant, days * 1440);
      assert LeapMidnight(days * 1440);
    }
  }
}
