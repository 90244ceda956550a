/**
 * The list of upcoming events: the events on or after today, sorted by day
 * in the chosen direction, each with a badge that says how far away it is,
 * and the few pieces of text and state around the list.  Today is a
 * parameter: the day the clock reads when the list is drawn.
 */
module ListView {
  import opened Base
  import opened Text
  import opened Dates
  import opened Events
  import opened EventTypes
  import opened Lists

  // ------------------------------------------------------------------ type colour and label

  /**
   * The list's getEventColor: the same switch as the day cell's, behind the
   * guarded normalization; it colours every type as the day cell does.
   */
  function EventColorInList(eventType: string): (c: string)
    ensures c == EventColor(eventType)
  {
    GuardIsRedundant(eventType);
    ColorOfNormalized(NormalizeType(eventType))
  }

  /** The list's formatEventType; it labels every type as the day cell does. */
  function FormatTypeInList(eventType: string): (shown: string)
    ensures shown == FormatEventType(eventType)
  {
    GuardIsRedundant(eventType);
    LabelOfNormalized(NormalizeType(eventType), eventType)
  }

  // ------------------------------------------------------------------ upcoming events

  /** An event whose date reads as a day that is today or later. */
  predicate Upcoming(e: Event, today: Ymd)
    requires IsValidYmd(today)
  {
    && e.date != ""
    && ParseDay(e.date).Some?
    && DayNumber(ParseDay(e.date).value) >= DayNumber(today)
  }

  /** "Today or later" is the calendar order: the event's day is not before today. */
  lemma UpcomingIsNotBefore(e: Event, today: Ymd)
    requires IsValidYmd(today)
    ensures Upcoming(e, today) <==> ParseDay(e.date).Some? && !Before(ParseDay(e.date).value, today)
  {
    if ParseDay(e.date).Some? {
      DayNumberOrder(ParseDay(e.date).value, today);
    }
  }

  datatype SortOrder = Ascending | Descending

  /** The sort key: the day number, negated for the descending order. */
  function SortKey(order: SortOrder): Event -> int {
    (e: Event) =>
      match ParseDay(e.date)
      case Some(d) => if order == Ascending then DayNumber(d) else -DayNumber(d)
      case None => 0
  }

  /** processedEvents: the upcoming events, stably sorted by day. */
  function ProcessedEvents(events: seq<Event>, today: Ymd, order: SortOrder): (r: seq<Event>)
    requires IsValidYmd(today)
    ensures |r| <= |events|
    ensures forall e :: e in r <==> e in events && Upcoming(e, today)
    ensures SortedBy(r, SortKey(order))
    ensures multiset(r) == multiset(Keep(events, (e: Event) => Upcoming(e, today)))
  {
    var upcoming := (e: Event) => Upcoming(e, today);
    var future := Keep(events, upcoming);
    KeepMembers(events, upcoming);
    var r := StableSort(future, SortKey(order));
    assert forall e :: e in r <==> e in multiset(r);
    r
  }

  /** The day an upcoming event falls on. */
  function DayOf(e: Event): Ymd
    requires ParseDay(e.date).Some?
  {
    ParseDay(e.date).value
  }

  /** `a` may come before `b`: both dates read, and their days are in the chosen direction. */
  predicate InDayOrder(order: SortOrder, a: Event, b: Event) {
    && ParseDay(a.date).Some? && ParseDay(b.date).Some?
    && (order == Ascending ==> DayNumber(DayOf(a)) <= DayNumber(DayOf(b)))
    && (order == Descending ==> DayNumber(DayOf(a)) >= DayNumber(DayOf(b)))
  }

  /** The list is ordered by day, earliest first or latest first. */
  lemma ProcessedEventsOrdered(events: seq<Event>, today: Ymd, order: SortOrder)
    requires IsValidYmd(today)
    ensures var r := ProcessedEvents(events, today, order);
      forall i, j :: 0 <= i < j < |r| ==> InDayOrder(order, r[i], r[j])
  {
    var r := ProcessedEvents(events, today, order);
    forall i, j | 0 <= i < j < |r|
      ensures InDayOrder(order, r[i], r[j])
    {
      assert r[i] in r && r[j] in r;
      KeyOrder(order, r[i], r[j]);
    }
  }

  /** For two readable dates, the sort key compares their days in the chosen direction. */
  lemma KeyOrder(order: SortOrder, a: Event, b: Event)
    requires ParseDay(a.date).Some? && ParseDay(b.date).Some?
    requires SortKey(order)(a) <= SortKey(order)(b)
    ensures InDayOrder(order, a, b)
  {
  }

  /**
   * The sort is stable: events of the same day keep the order they have
   * among the upcoming events, in either direction.
   */
  lemma ProcessedEventsStable(events: seq<Event>, today: Ymd, order: SortOrder, k: int)
    requires IsValidYmd(today)
    ensures var key := SortKey(order);
      Keep(ProcessedEvents(events, today, order), WithKey(key, k))
        == Keep(Keep(events, (e: Event) => Upcoming(e, today)), WithKey(key, k))
  {
    SortStable(Keep(events, (e: Event) => Upcoming(e, today)), SortKey(order), k);
  }

  // ------------------------------------------------------------------ the relative badge

  /** The small text beside an event and its colour class. */
  datatype Badge = Badge(text: string, color: string)

  const TodayBadge: Badge := Badge("Hoy", "text-blue-400")
  const TomorrowBadge: Badge := Badge("Mañana", "text-yellow-400")

  /** "En n días". */
  function InDays(n: nat): string {
    "En " + NatToString(n) + " días"
  }

  /**
   * getRelativeDateInfo: nothing for an unreadable or past date; "Hoy",
   * "Mañana", then "En n días", green within a week and grey beyond.
   */
  function RelativeDateInfo(date: string, today: Ymd): (r: Option<Badge>)
    requires IsValidYmd(today)
    ensures r.Some? <==> ParseDay(date).Some? && DayNumber(ParseDay(date).value) >= DayNumber(today)
  {
    match ParseDay(date)
    case None => None
    case Some(d) =>
      var daysDiff := DayNumber(d) - DayNumber(today);
      if daysDiff < 0 then None
      else if daysDiff == 0 then Some(TodayBadge)
      else if daysDiff == 1 then Some(TomorrowBadge)
      else if daysDiff <= 7 then Some(Badge(InDays(daysDiff), "text-green-400"))
      else Some(Badge(InDays(daysDiff), "text-gray-400"))
  }

  /** Every event of the list gets a badge: the list and the badge agree on what is upcoming. */
  lemma BadgeForEveryListedEvent(events: seq<Event>, today: Ymd, order: SortOrder, e: Event)
    requires IsValidYmd(today) && e in ProcessedEvents(events, today, order)
    ensures RelativeDateInfo(e.date, today).Some?
  {
  }

  /** Today's date reads "Hoy" and tomorrow's "Mañana". */
  lemma TodayAndTomorrow(today: Ymd)
    requires IsValidYmd(today) && 0 <= today.year < 9999
    ensures RelativeDateInfo(FormatDay(today), today) == Some(TodayBadge)
    ensures RelativeDateInfo(FormatDay(NextDay(today)), today) == Some(TomorrowBadge)
  {
    TodayBadgeOf(today);
    TomorrowBadgeOf(today);
  }

  lemma TodayBadgeOf(today: Ymd)
    requires IsValidYmd(today) && 0 <= today.year <= 9999
    ensures RelativeDateInfo(FormatDay(today), today) == Some(TodayBadge)
  {
    FormatParseDay(today);
  }

  lemma TomorrowBadgeOf(today: Ymd)
    requires IsValidYmd(today) && 0 <= today.year < 9999
    ensures RelativeDateInfo(FormatDay(NextDay(today)), today) == Some(TomorrowBadge)
  {
    var tomorrow := NextDay(today);
    NextDayNumber(today);
    FormatParseDay(tomorrow);
    TomorrowAtDistance(FormatDay(tomorrow), today);
  }

  lemma TomorrowAtDistance(date: string, today: Ymd)
    requires IsValidYmd(today) && ParseDay(date).Some?
    requires DayNumber(ParseDay(date).value) == DayNumber(today) + 1
    ensures RelativeDateInfo(date, today) == Some(TomorrowBadge)
  {
  }

  /** A day two to seven days ahead is green, a later one grey, and both name the distance. */
  lemma BadgeDistance(date: string, today: Ymd)
    requires IsValidYmd(today) && ParseDay(date).Some?
    requires DayNumber(ParseDay(date).value) - DayNumber(today) >= 2
    ensures var n := DayNumber(ParseDay(date).value) - DayNumber(today);
      && RelativeDateInfo(date, today).Some?
      && RelativeDateInfo(date, today).value.text == InDays(n)
      && (RelativeDateInfo(date, today).value.color == "text-green-400" <==> n <= 7)
      && DigitsValue(NatToString(n)) == n
  {
    NatToStringValue(DayNumber(ParseDay(date).value) - DayNumber(today));
  }

  // ------------------------------------------------------------------ texts and state

  /** The header of a non-empty list: "1 evento próximo", "n eventos próximos". */
  function CountLabel(n: nat): string {
    Counted(n, "evento próximo", "eventos próximos")
  }

  /** The header reads back the number of listed events, in the singular exactly when there is one. */
  lemma CountLabelReadsBack(n: nat)
    ensures var r, k := CountLabel(n), |NatToString(n)|;
      && k < |r| && AllDigits(r[..k]) && DigitsValue(r[..k]) == n && r[k] == ' '
      && (r[k + 1..] == "evento próximo" <==> n == 1)
      && (r[k + 1..] == "eventos próximos" <==> n != 1)
  {
    CountedReadsBack(n, "evento próximo", "eventos próximos");
  }

  const AdjustFiltersHint: string := "Intenta ajustar los filtros para ver más eventos."
  const NothingAheadHint: string := "No hay eventos programados a partir de hoy."

  /** The hint under an empty list. */
  function EmptyHint(selectedType: string, selectedSubject: string): (hint: string)
    ensures hint == AdjustFiltersHint <==> selectedType != "" || selectedSubject != ""
  {
    if selectedType != "" || selectedSubject != "" then AdjustFiltersHint else NothingAheadHint
  }

  function Flip(order: SortOrder): (r: SortOrder)
    ensures r != order
  {
    if order == Ascending then Descending else Ascending
  }

  /** Two presses of the sort button restore the order. */
  lemma FlipTwice(order: SortOrder)
    ensures Flip(Flip(order)) == order
  {
  }

  /** Reversing the direction reverses the comparison of every two listed events. */
  lemma FlipReversesKeys(order: SortOrder, a: Event, b: Event)
    requires ParseDay(a.date).Some? && ParseDay(b.date).Some?
    ensures SortKey(order)(a) <= SortKey(order)(b) <==> SortKey(Flip(order))(b) <= SortKey(Flip(order))(a)
  {
  }

  /** The ListView component's state: the sort direction and the open event. */
  class ListPanel {
    var sortOrder: SortOrder
    var expandedEvent: Option<nat>

    constructor ()
      ensures sortOrder == Ascending && expandedEvent == None
    {
      sortOrder := Ascending;
      expandedEvent := None;
    }

    /** The sort button: the other direction. */
    method ToggleSort()
      modifies this
      ensures sortOrder == Flip(old(sortOrder)) && expandedEvent == old(expandedEvent)
    {
      sortOrder := if sortOrder == Ascending then Descending else Ascending;
    }

    /** A click on an event opens it, or closes it when it is the open one. */
    method ToggleExpanded(index: nat)
      modifies this
      ensures expandedEvent == if old(expandedEvent) == Some(index) then None else Some(index)
      ensures sortOrder == old(sortOrder)
    {
      expandedEvent := if expandedEvent == Some(index) then None else Some(index);
    }
  }
}
