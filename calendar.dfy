/**
 * The month calendar's derived data and state: the type and subject
 * filters, the events grouped by day, the list of subjects, the jump to the
 * month of the earliest event, the page address that mirrors the view, the
 * swipe gesture and the component's own state fields.
 */
module CalendarView {
  import opened Base
  import opened Text
  import opened Dates
  import opened Events
  import opened EventTypes
  import opened Lists

  // ------------------------------------------------------------------ filtering

  /**
   * The filter's test: an empty selection lets every event through; a type
   * matches after normalization, a subject only as written.
   */
  predicate Matches(e: Event, selectedType: string, selectedSubject: string) {
    && (selectedType == "" || NormalizeType(e.eventType) == NormalizeType(selectedType))
    && (selectedSubject == "" || e.subject == selectedSubject)
  }

  /** filteredEvents: the events that match both selections, in their order. */
  function FilterEvents(events: seq<Event>, selectedType: string, selectedSubject: string): (r: seq<Event>)
    ensures |r| <= |events|
    ensures forall e :: e in r <==> e in events && Matches(e, selectedType, selectedSubject)
  {
    var p := (e: Event) => Matches(e, selectedType, selectedSubject);
    KeepMembers(events, p);
    Keep(events, p)
  }

  /** With no selection the filter returns the list unchanged. */
  lemma NoFilterKeepsAll(events: seq<Event>)
    ensures FilterEvents(events, "", "") == events
  {
    KeepAll(events, (e: Event) => Matches(e, "", ""));
  }

  /**
   * The filter keeps order: filtering two pieces and joining is filtering
   * the whole, and filtering again changes nothing.
   */
  lemma FilterOrder(xs: seq<Event>, ys: seq<Event>, selectedType: string, selectedSubject: string)
    ensures FilterEvents(xs + ys, selectedType, selectedSubject)
         == FilterEvents(xs, selectedType, selectedSubject) + FilterEvents(ys, selectedType, selectedSubject)
    ensures var once := FilterEvents(xs, selectedType, selectedSubject);
      FilterEvents(once, selectedType, selectedSubject) == once
  {
    var p := (e: Event) => Matches(e, selectedType, selectedSubject);
    KeepConcat(xs, ys, p);
    KeepIdempotent(xs, p);
  }

  /**
   * Selecting the filter bar's "evaluación" keeps exactly the events whose
   * type normalizes to "evaluacion", however they spell it.
   */
  lemma EvaluationSelection(e: Event, selected: string)
    requires selected == "evaluación"
    ensures Matches(e, selected, "") <==> Normalize(e.eventType) == "evaluacion"
  {
    assert Normalize(selected) == "evaluacion" by {
      EvaluationSpelling(selected);
    }
    assert |selected| == 10;
    SelectedTypeMatches(e, selected);
  }

  /** A non-empty type selection keeps the events whose type normalizes as the selection does. */
  lemma SelectedTypeMatches(e: Event, selected: string)
    requires selected != ""
    ensures Matches(e, selected, "") <==> Normalize(e.eventType) == Normalize(selected)
  {
    GuardIsRedundant(e.eventType);
    GuardIsRedundant(selected);
  }

  // ------------------------------------------------------------------ grouping by day

  /** The events whose date is `day`, in list order. */
  function OnDay(events: seq<Event>, day: string): (r: seq<Event>)
    ensures |r| <= |events|
    ensures forall e :: e in r <==> e in events && e.date == day
  {
    if events == [] then []
    else
      var init := events[..|events| - 1];
      var last := events[|events| - 1];
      assert forall e :: e in init ==> e in events;
      assert forall e :: e in events ==> e == last || e in init;
      if last.date == day then OnDay(init, day) + [last] else OnDay(init, day)
  }

  /** A date no event carries has an empty list of events. */
  lemma {:induction false} NoneOnDay(events: seq<Event>, day: string)
    requires forall e :: e in events ==> e.date != day
    ensures OnDay(events, day) == []
    decreases |events|
  {
    if events != [] {
      var init := events[..|events| - 1];
      assert forall e :: e in init ==> e in events;
      NoneOnDay(init, day);
    }
  }

  /** The events of a day in two lists joined are those of the first list, then those of the second. */
  lemma {:induction false} OnDayConcat(xs: seq<Event>, ys: seq<Event>, day: string)
    ensures OnDay(xs + ys, day) == OnDay(xs, day) + OnDay(ys, day)
    decreases |ys|
  {
    var zs := xs + ys;
    if ys == [] {
      assert zs == xs;
    } else {
      assert zs[..|zs| - 1] == xs + ys[..|ys| - 1];
      assert zs[|zs| - 1] == ys[|ys| - 1];
      OnDayConcat(xs, ys[..|ys| - 1], day);
    }
  }

  /** The dates that occur in the list. */
  function DatesOf(events: seq<Event>): set<string> {
    set e | e in events :: e.date
  }

  /** The object eventsByDate: one entry per date, holding that day's events in order. */
  function Grouped(events: seq<Event>): map<string, seq<Event>> {
    map d | d in DatesOf(events) :: OnDay(events, d)
  }

  /** Adding one event to the list adds it at the end of its day's group. */
  lemma GroupedSnoc(events: seq<Event>, e: Event)
    ensures var g := Grouped(events);
      Grouped(events + [e]) == g[e.date := (if e.date in g then g[e.date] else []) + [e]]
  {
    var xs := events + [e];
    assert xs[..|xs| - 1] == events;
    assert DatesOf(xs) == DatesOf(events) + {e.date};
    var g := Grouped(events);
    if e.date !in g {
      NoneOnDay(events, e.date);
    }
    forall d | d in DatesOf(xs)
      ensures Grouped(xs)[d] == g[e.date := (if e.date in g then g[e.date] else []) + [e]][d]
    {
    }
  }

  /** One step of the reduce: the event appended to its date's group, the group created if missing. */
  function PushEvent(grouped: map<string, seq<Event>>, e: Event): map<string, seq<Event>> {
    grouped[e.date := (if e.date in grouped then grouped[e.date] else []) + [e]]
  }

  /** The step takes the groups of a prefix to the groups of the prefix one event longer. */
  lemma GroupStep(events: seq<Event>, i: nat, grouped: map<string, seq<Event>>)
    requires i < |events| && grouped == Grouped(events[..i])
    ensures Grouped(events[..i + 1]) == PushEvent(grouped, events[i])
  {
    assert events[..i + 1] == events[..i] + [events[i]];
    GroupedSnoc(events[..i], events[i]);
  }

  /** The reducer's callback: create the date's group when missing, then push the event onto it. */
  method AddToGroup(acc: map<string, seq<Event>>, e: Event) returns (r: map<string, seq<Event>>)
    ensures r == PushEvent(acc, e)
    ensures r.Keys == acc.Keys + {e.date} && r[e.date][|r[e.date]| - 1] == e
  {
    r := acc;
    if e.date !in r {
      r := r[e.date := []];
    }
    r := r[e.date := r[e.date] + [e]];
  }

  /** eventsByDate: every event pushed onto the group of its date. */
  method GroupByDate(events: seq<Event>) returns (grouped: map<string, seq<Event>>)
    ensures grouped == Grouped(events)
  {
    grouped := map[];
    var i := 0;
    while i < |events|
      invariant 0 <= i <= |events|
      invariant grouped == Grouped(events[..i])
    {
      GroupStep(events, i, grouped);
      grouped := AddToGroup(grouped, events[i]);
      i := i + 1;
    }
    assert events[..i] == events;
  }

  /**
   * The groups split the list by date: every event sits in the group of its
   * own date and in no other, and no group is empty.
   */
  lemma GroupsPartition(events: seq<Event>)
    ensures forall d :: d in Grouped(events) ==> Grouped(events)[d] != []
    ensures forall d, e :: d in Grouped(events) && e in Grouped(events)[d] ==> e in events && e.date == d
    ensures forall e :: e in events ==> e.date in Grouped(events) && e in Grouped(events)[e.date]
  {
    forall d | d in Grouped(events)
      ensures Grouped(events)[d] != []
    {
      var e :| e in events && e.date == d;
      assert e in OnDay(events, d);
    }
  }

  /** getEventsForDay: the group of the day's "yyyy-MM-dd" key, or none. */
  function EventsForDay(grouped: map<string, seq<Event>>, day: Ymd): seq<Event>
    requires 0 <= day.year <= 9999 && IsValidYmd(day)
  {
    var key := FormatDay(day);
    if key in grouped then grouped[key] else []
  }

  /** A day shows exactly the events dated with its key, and none when no event has that date. */
  lemma DayEvents(events: seq<Event>, day: Ymd)
    requires 0 <= day.year <= 9999 && IsValidYmd(day)
    ensures EventsForDay(Grouped(events), day) == OnDay(events, FormatDay(day))
    ensures (forall e :: e in events ==> e.date != FormatDay(day)) ==> EventsForDay(Grouped(events), day) == []
  {
    var key := FormatDay(day);
    if key !in Grouped(events) {
      NoneOnDay(events, key);
    }
  }

  // ------------------------------------------------------------------ subjects

  /** `[...new Set(xs)]`: the values in order of first occurrence. */
  function Unique(xs: seq<string>): (r: seq<string>)
    ensures forall x :: x in r <==> x in xs
    ensures forall i, j :: 0 <= i < j < |r| ==> r[i] != r[j]
  {
    if xs == [] then []
    else
      var init := xs[..|xs| - 1];
      var last := xs[|xs| - 1];
      assert forall x :: x in init ==> x in xs;
      assert forall x :: x in xs ==> x == last || x in init;
      var u := Unique(init);
      if last in u then u else u + [last]
  }

  /** Each string is below every later one in code-unit order. */
  predicate StrictlySorted(xs: seq<string>) {
    forall i, j :: 0 <= i < j < |xs| ==> LexLess(xs[i], xs[j])
  }

  /** Inserting a new string into a strictly sorted list at its place. */
  function InsertString(x: string, xs: seq<string>): (r: seq<string>)
    requires StrictlySorted(xs) && x !in xs
    ensures StrictlySorted(r)
    ensures forall y :: y in r <==> y == x || y in xs
  {
    if xs == [] then [x]
    else if LexLess(x, xs[0]) then
      BelowAll(x, xs);
      [x] + xs
    else
      LexTotal(x, xs[0]);
      var rest := InsertString(x, xs[1..]);
      assert forall y :: y in xs[1..] ==> y in xs;
      assert forall y :: y in xs ==> y == xs[0] || y in xs[1..];
      assert forall j :: 1 <= j < |xs| ==> LexLess(xs[0], xs[j]);
      assert forall y :: y in rest ==> LexLess(xs[0], y);
      [xs[0]] + rest
  }

  /** A string below the head of a strictly sorted list is below all of it. */
  lemma BelowAll(x: string, xs: seq<string>)
    requires StrictlySorted(xs) && xs != [] && LexLess(x, xs[0])
    ensures forall j :: 0 <= j < |xs| ==> LexLess(x, xs[j])
  {
    forall j | 0 < j < |xs|
      ensures LexLess(x, xs[j])
    {
      LexTransitive(x, xs[0], xs[j]);
    }
  }

  /** Array.prototype.sort without a comparator, on strings that do not repeat. */
  function SortStrings(xs: seq<string>): (r: seq<string>)
    requires forall i, j :: 0 <= i < j < |xs| ==> xs[i] != xs[j]
    ensures StrictlySorted(r)
    ensures forall y :: y in r <==> y in xs
  {
    if xs == [] then []
    else
      assert forall y :: y in xs[1..] ==> y in xs;
      assert forall y :: y in xs ==> y == xs[0] || y in xs[1..];
      InsertString(xs[0], SortStrings(xs[1..]))
  }

  /** The subject of every event, in list order. */
  function SubjectColumn(events: seq<Event>): (r: seq<string>)
    ensures |r| == |events| && forall k :: 0 <= k < |events| ==> r[k] == events[k].subject
  {
    seq(|events|, k requires 0 <= k < |events| => events[k].subject)
  }

  /**
   * subjects: the distinct subjects, sorted; every subject of an event is
   * there, nothing else is, and none twice.
   */
  function Subjects(events: seq<Event>): (r: seq<string>)
    ensures StrictlySorted(r)
    ensures forall s :: s in r <==> exists e :: e in events && e.subject == s
  {
    var column := SubjectColumn(events);
    assert forall s :: s in column <==> exists e :: e in events && e.subject == s;
    SortStrings(Unique(column))
  }

  /** A strictly sorted list has no repeated string. */
  lemma SortedIsDistinct(xs: seq<string>)
    requires StrictlySorted(xs)
    ensures forall i, j :: 0 <= i < j < |xs| ==> xs[i] != xs[j]
  {
    forall i, j | 0 <= i < j < |xs|
      ensures xs[i] != xs[j]
    {
      LexIrreflexive(xs[i]);
    }
  }

  // ------------------------------------------------------------------ the earliest event's month

  /** The least non-empty date in code-unit order: the head of the sorted, filtered dates. */
  function EarliestDate(events: seq<Event>): (r: Option<string>)
    ensures r.None? <==> forall e :: e in events ==> e.date == ""
    ensures r.Some? ==> r.value != "" && exists e :: e in events && e.date == r.value
  {
    if events == [] then None
    else
      var rest := EarliestDate(events[1..]);
      var d := events[0].date;
      assert forall e :: e in events[1..] ==> e in events;
      assert forall e :: e in events ==> e == events[0] || e in events[1..];
      if d == "" then rest
      else if rest.None? || LexLess(d, rest.value) then Some(d)
      else rest
  }

  /** No non-empty date is below the earliest one. */
  lemma {:induction false} EarliestIsLeast(events: seq<Event>, e: Event)
    requires e in events && e.date != ""
    ensures EarliestDate(events).Some? && !LexLess(e.date, EarliestDate(events).value)
  {
    var d := events[0].date;
    var rest := EarliestDate(events[1..]);
    if e == events[0] {
      if rest.Some? && !LexLess(d, rest.value) {
        LexTotal(d, rest.value);
        LexIrreflexive(d);
      } else {
        LexIrreflexive(d);
      }
    } else {
      assert e in events[1..];
      EarliestIsLeast(events[1..], e);
      if d != "" && LexLess(d, rest.value) && LexLess(e.date, d) {
        LexTransitive(e.date, d, rest.value);
      }
    }
  }

  /** Some event with a readable date falls in month `m`. */
  predicate HasEventsInMonth(events: seq<Event>, m: YearMonth) {
    exists e :: e in events && ParseDay(e.date).Some? && MonthOf(ParseDay(e.date).value) == m
  }

  /**
   * The auto-navigate effect: with events and no month in the address, the
   * month of the earliest readable date becomes the view, unless the view
   * already shows an event.  None leaves the view as it is.
   */
  function AutoNavigate(events: seq<Event>, search: string, current: YearMonth): (target: Option<YearMonth>)
    ensures target.Some? ==> !Contains(search, "month=") && !HasEventsInMonth(events, current)
    ensures target.Some? ==> target.value != current && HasEventsInMonth(events, target.value)
    ensures target.Some? ==>
      && EarliestDate(events).Some? && ParseDay(EarliestDate(events).value).Some?
      && target.value == MonthOf(ParseDay(EarliestDate(events).value).value)
    ensures (&& !Contains(search, "month=") && !HasEventsInMonth(events, current)
             && EarliestDate(events).Some? && ParseDay(EarliestDate(events).value).Some?)
        ==> target.Some?
  {
    if |events| > 0 && !Contains(search, "month=") then
      match EarliestDate(events)
      case None => None
      case Some(first) =>
        match ParseDay(first)
        case None => None
        case Some(day) =>
          var e :| e in events && e.date == first;
          assert ParseDay(e.date).Some? && MonthOf(ParseDay(e.date).value) == MonthOf(day);
          assert !HasEventsInMonth(events, current) ==> current != MonthOf(day) by {
            if !HasEventsInMonth(events, current) {
              MonthCheckRedundant(events, current, first);
            }
          }
          if !HasEventsInMonth(events, current) && current != MonthOf(day) then Some(MonthOf(day))
          else None
    else None
  }

  /**
   * The month check of the effect adds nothing: when the view shows no
   * event it cannot be the earliest event's month.
   */
  lemma MonthCheckRedundant(events: seq<Event>, current: YearMonth, first: string)
    requires EarliestDate(events) == Some(first) && ParseDay(first).Some?
    requires !HasEventsInMonth(events, current)
    ensures current != MonthOf(ParseDay(first).value)
  {
    var e :| e in events && e.date == first;
    assert ParseDay(e.date).Some? && MonthOf(ParseDay(e.date).value) == MonthOf(ParseDay(first).value);
  }

  /** Once the view has moved, the effect runs again and stays put. */
  lemma AutoNavigateSettles(events: seq<Event>, search: string, current: YearMonth)
    requires AutoNavigate(events, search, current).Some?
    ensures AutoNavigate(events, search, AutoNavigate(events, search, current).value) == None
  {
  }

  // ------------------------------------------------------------------ the page address

  /** One name=value pair of the query string. */
  datatype Param = Param(key: string, value: string)

  /** URLSearchParams.get: the first value under `key`. */
  function Get(params: seq<Param>, key: string): (r: Option<string>)
    ensures r.Some? <==> exists k :: 0 <= k < |params| && params[k].key == key
  {
    if params == [] then None
    else if params[0].key == key then Some(params[0].value)
    else
      var r := Get(params[1..], key);
      assert forall k :: 1 <= k < |params| ==> params[k] == params[1..][k - 1];
      r
  }

  /** `params.get(key) || ""`. */
  function GetOrEmpty(params: seq<Param>, key: string): string {
    match Get(params, key)
    case Some(v) => v
    case None => ""
  }

  /** The pairs whose name is not `key`. */
  function Without(params: seq<Param>, key: string): (r: seq<Param>)
    ensures forall k :: k != key ==> Get(r, k) == Get(params, k)
    ensures Get(r, key) == None
  {
    if params == [] then []
    else if params[0].key == key then Without(params[1..], key)
    else [params[0]] + Without(params[1..], key)
  }

  /**
   * URLSearchParams.set: the first pair named `key` takes the value and the
   * other pairs of that name go; with no such pair one is added at the end.
   */
  function SetParam(params: seq<Param>, key: string, value: string): (r: seq<Param>)
    ensures Get(r, key) == Some(value)
    ensures forall k :: k != key ==> Get(r, k) == Get(params, k)
  {
    if params == [] then [Param(key, value)]
    else if params[0].key == key then [Param(key, value)] + Without(params[1..], key)
    else [params[0]] + SetParam(params[1..], key, value)
  }

  /** What the address records: the month shown and the two filters. */
  datatype ViewState = ViewState(month: YearMonth, selectedType: string, selectedSubject: string)

  /** A state whose month the address can hold. */
  predicate Addressable(s: ViewState) {
    0 <= s.month.year && 1 <= s.month.month <= 12
  }

  /** The query updateURL builds from the formatted month and the two filters. */
  function Query(month: string, selectedType: string, selectedSubject: string): seq<Param> {
    var withMonth := SetParam([], "month", month);
    var withType := if selectedType != "" then SetParam(withMonth, "type", selectedType) else withMonth;
    if selectedSubject != "" then SetParam(withType, "subject", selectedSubject) else withType
  }

  /** updateURL: the month always, a filter only when one is selected. */
  function UpdateUrl(s: ViewState): seq<Param>
    requires Addressable(s)
  {
    Query(FormatMonth(s.month), s.selectedType, s.selectedSubject)
  }

  /** The query holds the month always, and a filter exactly when one is selected. */
  lemma QueryKeys(month: string, selectedType: string, selectedSubject: string, key: string)
    ensures Get(Query(month, selectedType, selectedSubject), key) ==
      if key == "subject" && selectedSubject != "" then Some(selectedSubject)
      else if key == "type" && selectedType != "" then Some(selectedType)
      else if key == "month" then Some(month)
      else None
  {
    var withMonth := SetParam([], "month", month);
    assert Get(withMonth, key) == if key == "month" then Some(month) else None;
  }

  /** The address holds the month always, and a filter exactly when one is selected. */
  lemma UpdateUrlKeys(s: ViewState)
    requires Addressable(s)
    ensures Get(UpdateUrl(s), "month") == Some(FormatMonth(s.month))
    ensures Get(UpdateUrl(s), "type") == if s.selectedType != "" then Some(s.selectedType) else None
    ensures Get(UpdateUrl(s), "subject") == if s.selectedSubject != "" then Some(s.selectedSubject) else None
  {
    var m := FormatMonth(s.month);
    QueryKeys(m, s.selectedType, s.selectedSubject, "month");
    QueryKeys(m, s.selectedType, s.selectedSubject, "type");
    QueryKeys(m, s.selectedType, s.selectedSubject, "subject");
  }

  /**
   * getInitialStateFromURL: the month of the address when it reads as one,
   * otherwise the current month; the filters, "" when absent.
   */
  function ReadState(params: seq<Param>, today: YearMonth): ViewState {
    var month :=
      match Get(params, "month")
      case Some(p) =>
        if p != "" then
          match ParseMonth(p)
          case Some(m) => m
          case None => today
        else today
      case None => today;
    ViewState(month, GetOrEmpty(params, "type"), GetOrEmpty(params, "subject"))
  }

  /** An address whose month reads as `ym` and whose filters are given reads as that state. */
  lemma ReadStateOf(params: seq<Param>, today: YearMonth, ym: YearMonth, month: string)
    requires Get(params, "month") == Some(month) && month != "" && ParseMonth(month) == Some(ym)
    ensures ReadState(params, today) == ViewState(ym, GetOrEmpty(params, "type"), GetOrEmpty(params, "subject"))
  {
  }

  /** Writing the state to the address and reading it back gives the same state. */
  lemma UrlRoundTrip(s: ViewState, today: YearMonth)
    requires Addressable(s) && s.month.year <= 9999
    ensures ReadState(UpdateUrl(s), today) == s
  {
    var month := FormatMonth(s.month);
    FormatParseMonth(s.month);
    UpdateUrlKeys(s);
    ReadStateOf(UpdateUrl(s), today, s.month, month);
  }

  /**
   * The effect that keeps the address in step with the state: an address
   * that already says the same is left alone, any other is rewritten.
   */
  function SyncUrl(search: seq<Param>, s: ViewState): seq<Param>
    requires Addressable(s)
  {
    if InStep(search, s) then search else UpdateUrl(s)
  }

  /** The address already says what the state says. */
  predicate InStep(search: seq<Param>, s: ViewState)
    requires Addressable(s)
  {
    && |search| > 0
    && Get(search, "month") == Some(FormatMonth(s.month))
    && GetOrEmpty(search, "type") == s.selectedType
    && GetOrEmpty(search, "subject") == s.selectedSubject
  }

  /** After the effect the address reads back as the state, and a second run changes nothing. */
  lemma SyncUrlFaithful(search: seq<Param>, s: ViewState, today: YearMonth)
    requires Addressable(s) && s.month.year <= 9999
    ensures ReadState(SyncUrl(search, s), today) == s
    ensures SyncUrl(SyncUrl(search, s), s) == SyncUrl(search, s)
  {
    if InStep(search, s) {
      FormatParseMonth(s.month);
      ReadStateOf(search, today, s.month, FormatMonth(s.month));
    } else {
      UrlRoundTrip(s, today);
      UpdateUrlInStep(s);
    }
  }

  /** The address updateURL writes is in step with the state it was written from. */
  lemma UpdateUrlInStep(s: ViewState)
    requires Addressable(s)
    ensures InStep(UpdateUrl(s), s)
  {
    UpdateUrlKeys(s);
    var p := UpdateUrl(s);
    assert p != [] by {
      assert Get(p, "month").Some?;
    }
  }

  // ------------------------------------------------------------------ months and swipes

  function NextMonth(m: YearMonth): (r: YearMonth)
    requires 1 <= m.month <= 12
    ensures 1 <= r.month <= 12
  {
    if m.month == 12 then YearMonth(m.year + 1, 1) else YearMonth(m.year, m.month + 1)
  }

  function PreviousMonth(m: YearMonth): (r: YearMonth)
    requires 1 <= m.month <= 12
    ensures 1 <= r.month <= 12
  {
    if m.month == 1 then YearMonth(m.year - 1, 12) else YearMonth(m.year, m.month - 1)
  }

  /** Moving forward and back, or back and forward, returns to the same month. */
  lemma MonthStepsInverse(m: YearMonth)
    requires 1 <= m.month <= 12
    ensures PreviousMonth(NextMonth(m)) == m && NextMonth(PreviousMonth(m)) == m
  {
  }

  /** The minimum horizontal travel of a swipe, in pixels. */
  const MinSwipeDistance: int := 50

  /** A coordinate as the handlers test it: null and 0 are both falsy. */
  predicate Present(c: Option<int>) {
    c.Some? && c.value != 0
  }

  function Abs(x: int): nat {
    if x < 0 then -x else x
  }

  datatype Swipe = ToNext | ToPrevious | NoSwipe

  /**
   * onTouchEnd's decision, for four present coordinates: a mostly horizontal
   * move of more than 50 pixels to the left is the next month, to the right
   * the previous one.
   */
  function Classify(startX: int, endX: int, startY: int, endY: int): (s: Swipe)
    ensures s == ToNext <==> startX - endX > MinSwipeDistance && Abs(startX - endX) > Abs(startY - endY)
    ensures s == ToPrevious <==> startX - endX < -MinSwipeDistance && Abs(startX - endX) > Abs(startY - endY)
  {
    var distanceX := startX - endX;
    var distanceY := Abs(startY - endY);
    if Abs(distanceX) > distanceY && Abs(distanceX) > MinSwipeDistance then
      if distanceX > MinSwipeDistance then ToNext
      else if distanceX < -MinSwipeDistance then ToPrevious
      else NoSwipe
    else NoSwipe
  }

  /** The same move in the other direction turns the month the other way. */
  lemma SwipeReversal(startX: int, endX: int, startY: int, endY: int)
    ensures Classify(startX, endX, startY, endY) == ToNext <==> Classify(endX, startX, startY, endY) == ToPrevious
    ensures Classify(startX, endX, startY, endY) == NoSwipe <==> Classify(endX, startX, startY, endY) == NoSwipe
  {
  }

  /** A move that is at least as vertical as it is horizontal never turns the month. */
  lemma VerticalMoveIgnored(startX: int, endX: int, startY: int, endY: int)
    requires Abs(startX - endX) <= Abs(startY - endY)
    ensures Classify(startX, endX, startY, endY) == NoSwipe
  {
  }

  // ------------------------------------------------------------------ the component's state

  /** The Calendar component's state fields. */
  class CalendarState {
    var month: YearMonth
    var selectedType: string
    var selectedSubject: string
    var touchStart: Option<int>
    var touchEnd: Option<int>
    var touchStartY: Option<int>
    var touchEndY: Option<int>

    predicate Valid()
      reads this
    {
      1 <= month.month <= 12
    }

    /** The first render: the state the address describes, no touch under way. */
    constructor (params: seq<Param>, today: YearMonth)
      requires 1 <= today.month <= 12
      ensures Valid()
      ensures ViewState(month, selectedType, selectedSubject) == ReadState(params, today)
      ensures touchStart == None && touchEnd == None && touchStartY == None && touchEndY == None
    {
      var s := ReadState(params, today);
      month := s.month;
      selectedType := s.selectedType;
      selectedSubject := s.selectedSubject;
      touchStart, touchEnd, touchStartY, touchEndY := None, None, None, None;
    }

    /** onTouchStart: the end point is forgotten and the start point recorded. */
    method TouchStart(x: int, y: int)
      modifies this
      ensures touchStart == Some(x) && touchStartY == Some(y) && touchEnd == None && touchEndY == None
      ensures month == old(month) && selectedType == old(selectedType) && selectedSubject == old(selectedSubject)
    {
      touchEnd := None;
      touchEndY := None;
      touchStart := Some(x);
      touchStartY := Some(y);
    }

    /** onTouchMove: the latest point becomes the end point. */
    method TouchMove(x: int, y: int)
      modifies this
      ensures touchEnd == Some(x) && touchEndY == Some(y)
      ensures touchStart == old(touchStart) && touchStartY == old(touchStartY)
      ensures month == old(month) && selectedType == old(selectedType) && selectedSubject == old(selectedSubject)
    {
      touchEnd := Some(x);
      touchEndY := Some(y);
    }

    method GoToNextMonth()
      requires Valid()
      modifies this
      ensures Valid() && month == NextMonth(old(month))
      ensures selectedType == old(selectedType) && selectedSubject == old(selectedSubject)
      ensures touchStart == old(touchStart) && touchEnd == old(touchEnd)
      ensures touchStartY == old(touchStartY) && touchEndY == old(touchEndY)
    {
      month := NextMonth(month);
    }

    method GoToPreviousMonth()
      requires Valid()
      modifies this
      ensures Valid() && month == PreviousMonth(old(month))
      ensures selectedType == old(selectedType) && selectedSubject == old(selectedSubject)
      ensures touchStart == old(touchStart) && touchEnd == old(touchEnd)
      ensures touchStartY == old(touchStartY) && touchEndY == old(touchEndY)
    {
      month := PreviousMonth(month);
    }

    /**
     * onTouchEnd: with a coordinate missing nothing happens; otherwise the
     * swipe, if any, turns the month and the four coordinates are cleared.
     */
    method TouchEnd()
      requires Valid()
      modifies this
      ensures Valid()
      ensures selectedType == old(selectedType) && selectedSubject == old(selectedSubject)
      ensures !(Present(old(touchStart)) && Present(old(touchEnd)) && Present(old(touchStartY)) && Present(old(touchEndY))) ==>
        month == old(month) && touchStart == old(touchStart) && touchEnd == old(touchEnd)
        && touchStartY == old(touchStartY) && touchEndY == old(touchEndY)
      ensures Present(old(touchStart)) && Present(old(touchEnd)) && Present(old(touchStartY)) && Present(old(touchEndY)) ==>
        && touchStart == None && touchEnd == None && touchStartY == None && touchEndY == None
        && month == match Classify(old(touchStart).value, old(touchEnd).value, old(touchStartY).value, old(touchEndY).value)
                    case ToNext => NextMonth(old(month))
                    case ToPrevious => PreviousMonth(old(month))
                    case NoSwipe => old(month)
    {
      if !Present(touchStart) || !Present(touchEnd) || !Present(touchStartY) || !Present(touchEndY) {
        return;
      }
      var swipe := Classify(touchStart.value, touchEnd.value, touchStartY.value, touchEndY.value);
      if swipe == ToNext {
        GoToNextMonth();
      }
      if swipe == ToPrevious {
        GoToPreviousMonth();
      }
      touchStart, touchEnd, touchStartY, touchEndY := None, None, None, None;
    }

    method ChangeType(t: string)
      modifies this
      ensures selectedType == t && selectedSubject == old(selectedSubject) && month == old(month)
      ensures touchStart == old(touchStart) && touchEnd == old(touchEnd)
      ensures touchStartY == old(touchStartY) && touchEndY == old(touchEndY)
    {
      selectedType := t;
    }

    method ChangeSubject(s: string)
      modifies this
      ensures selectedSubject == s && selectedType == old(selectedType) && month == old(month)
      ensures touchStart == old(touchStart) && touchEnd == old(touchEnd)
      ensures touchStartY == old(touchStartY) && touchEndY == old(touchEndY)
    {
      selectedSubject := s;
    }

    /** handleClearFilters: both selections emptied, so the filter lets every event through. */
    method ClearFilters()
      modifies this
      ensures selectedType == "" && selectedSubject == "" && month == old(month)
      ensures touchStart == old(touchStart) && touchEnd == old(touchEnd)
      ensures touchStartY == old(touchStartY) && touchEndY == old(touchEndY)
      ensures forall events: seq<Event> {:trigger FilterEvents(events, selectedType, selectedSubject)} ::
        FilterEvents(events, selectedType, selectedSubject) == events
    {
      selectedType := "";
      selectedSubject := "";
      forall events: seq<Event>
        ensures FilterEvents(events, "", "") == events
      {
        NoFilterKeepsAll(events);
      }
    }

    /** The auto-navigate effect applied to the view. */
    method AutoNavigateEffect(events: seq<Event>, search: string)
      requires Valid()
      modifies this
      ensures Valid()
      ensures month == match AutoNavigate(events, search, old(month))
                       case Some(m) => m
                       case None => old(month)
      ensures selectedType == old(selectedType) && selectedSubject == old(selectedSubject)
      ensures touchStart == old(touchStart) && touchEnd == old(touchEnd)
      ensures touchStartY == old(touchStartY) && touchEndY == old(touchEndY)
    {
      var target := AutoNavigate(events, search, month);
      if target.Some? {
        month := target.value;
      }
    }
  }
}
