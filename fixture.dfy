/**
 * The fixed list of academic events the calendar falls back on when the
 * sheet cannot be read, and what holds of it: its dates, its types, its
 * order, its days and its subjects.
 */
module Fixture {
  import opened Text
  import opened Dates
  import opened Events
  import opened EventTypes
  import opened CalendarView

  /** academicEvents: seven events, in date order. */
  const AcademicEvents: seq<Event> := [
    Event("2025-01-15", "Evaluación Matemática I", "evaluación", "Matemática I",
          "Examen parcial sobre funciones cuadráticas y ecuaciones de segundo grado"),
    Event("2025-01-20", "TP Algoritmos y Estructuras de Datos", "tp", "Algoritmos y Estructuras de Datos",
          "Implementar árboles binarios de búsqueda y realizar análisis de complejidad"),
    Event("2025-01-25", "Tarea Programación Web", "tarea", "Programación Web",
          "Realizar función cuadrática de 10 ejercicios. Entregar código fuente y resultados"),
    Event("2025-01-28", "Evaluación Física II", "evaluación", "Física II",
          "Examen sobre electromagnetismo y circuitos eléctricos"),
    Event("2025-02-03", "TP Base de Datos", "tp", "Base de Datos",
          "Diseñar e implementar un sistema de gestión de biblioteca con MySQL"),
    Event("2025-02-03", "Examen Base de Datos", "evaluación", "Base de Datos",
          "Examen teórico sobre normalización, índices y optimización de consultas"),
    Event("2025-02-10", "Tarea Inglés Técnico", "tarea", "Inglés Técnico",
          "Traducir documento técnico sobre inteligencia artificial (5 páginas)")
  ]

  /** The dates of the list, one per event. */
  const FixtureDates: seq<string> :=
    ["2025-01-15", "2025-01-20", "2025-01-25", "2025-01-28", "2025-02-03", "2025-02-03", "2025-02-10"]

  /** The list has seven events, and these are their dates. */
  lemma FixtureShape(evts: seq<Event>)
    requires evts == AcademicEvents
    ensures |evts| == 7
    ensures forall k :: 0 <= k < 7 ==> evts[k].date == FixtureDates[k]
  {
  }

  /** Every date has the shape yyyy-MM-dd and names a day of the calendar. */
  lemma FixtureDatesReadable(evts: seq<Event>)
    requires evts == AcademicEvents
    ensures forall e :: e in evts ==> IsIsoShape(e.date) && ParseDay(e.date).Some?
  {
    forall e | e in evts
      ensures IsIsoShape(e.date) && ParseDay(e.date).Some?
    {
      assert e.date in FixtureDates;
      ReadableDate(e.date);
    }
  }

  /** A date of the list reads as a day of January or February 2025. */
  lemma ReadableDate(s: string)
    requires s in FixtureDates
    ensures IsIsoShape(s) && ParseDay(s).Some?
  {
    var k :| 0 <= k < 7 && FixtureDates[k] == s;
    assert s[..5] == "2025-" && s[5] == '0' && (s[6] == '1' || s[6] == '2') && s[7] == '-';
    assert s[8] in "012" && s[9] in "0358" && s[8..] != "00";
    EarlyDay2025(s);
  }

  /** "2025-0M-DD" with M being 1 or 2 and DD a day 01..28 names a day of the calendar. */
  lemma EarlyDay2025(s: string)
    requires |s| == 10 && s[..5] == "2025-" && s[5] == '0' && (s[6] == '1' || s[6] == '2') && s[7] == '-'
    requires s[8] in "012" && s[9] in "0358" && s[8..] != "00"
    ensures IsIsoShape(s) && ParseDay(s).Some?
  {
    var y := s[..4];
    assert y == "2025";
    assert AllDigits(y);
    FourDigits(y);
    TwoDigits(s[5..7]);
    TwoDigits(s[8..]);
    assert IsIsoShape(s);
    var d := IsoFields(s);
    assert d.year == 2025 && 1 <= d.month <= 2 && 1 <= d.day <= 28;
  }

  lemma FourDigits(s: string)
    requires |s| == 4 && AllDigits(s)
    ensures DigitsValue(s) == DigitValue(s[0]) * 1000 + DigitValue(s[1]) * 100 + DigitValue(s[2]) * 10 + DigitValue(s[3])
  {
    var p1, p2, p3 := s[..1], s[..2], s[..3];
    assert p1[..0] == [];
    assert DigitsValue(p1) == DigitValue(s[0]);
    assert p2[..1] == p1;
    assert DigitsValue(p2) == DigitValue(s[0]) * 10 + DigitValue(s[1]);
    assert p3[..2] == p2;
    assert DigitsValue(p3) == DigitsValue(p2) * 10 + DigitValue(s[2]);
    assert s[..3] == p3;
  }

  lemma TwoDigits(s: string)
    requires |s| == 2 && AllDigits(s)
    ensures DigitsValue(s) == DigitValue(s[0]) * 10 + DigitValue(s[1])
  {
    var p1 := s[..1];
    assert p1[..0] == [];
    assert DigitsValue(p1) == DigitValue(s[0]);
    assert s[..1] == p1;
  }

  /** The types of the list, one per event. */
  const FixtureTypeNames: seq<string> := ["evaluación", "tp", "tarea", "evaluación", "tp", "evaluación", "tarea"]

  /** Every type is "evaluación", "tp" or "tarea", and each is a known type of the views. */
  lemma FixtureTypes(evts: seq<Event>)
    requires evts == AcademicEvents
    ensures forall e :: e in evts ==> e.eventType in {"evaluación", "tp", "tarea"}
    ensures forall e :: e in evts ==> EventColor(e.eventType) != OtherColor && FormatEventType(e.eventType) != e.eventType
  {
    assert forall k :: 0 <= k < 7 ==> evts[k].eventType == FixtureTypeNames[k];
    forall e | e in evts
      ensures e.eventType in {"evaluación", "tp", "tarea"}
      ensures EventColor(e.eventType) != OtherColor && FormatEventType(e.eventType) != e.eventType
    {
      var k :| 0 <= k < 7 && evts[k] == e;
      KnownType(FixtureTypeNames[k]);
    }
  }

  /** The three types of the list get a label of their own and a colour other than grey. */
  lemma KnownType(t: string)
    requires t in {"evaluación", "tp", "tarea"}
    ensures EventColor(t) != OtherColor && FormatEventType(t) != t
  {
    if t == "evaluación" {
      KnownOption(t, EvaluationLabel, EvaluationColor);
      assert EvaluationLabel[0] != t[0];
    } else if t == "tp" {
      KnownOption(t, PracticalLabel, PracticalColor);
      assert PracticalLabel[0] != t[0];
    } else {
      KnownOption(t, AssignmentLabel, AssignmentColor);
      assert AssignmentLabel[0] != t[0];
    }
  }

  /** `a` comes first in the code-unit order, or equals `b`. */
  predicate LexAtMost(a: string, b: string) {
    a == b || LexLess(a, b)
  }

  /** Two strings that agree up to `k` and differ there are ordered by that code unit. */
  lemma {:induction false} FirstDifference(a: string, b: string, k: nat)
    requires k < |a| && k < |b| && a[k] < b[k]
    requires forall i :: 0 <= i < k ==> a[i] == b[i]
    ensures LexLess(a, b)
    decreases k
  {
    if k > 0 {
      assert a[0] == b[0];
      FirstDifference(a[1..], b[1..], k - 1);
    }
  }

  /** Consecutive dates of the list never decrease. */
  lemma NextDateNotEarlier(ds: seq<string>, k: nat)
    requires ds == FixtureDates && k + 1 < |ds|
    ensures LexAtMost(ds[k], ds[k + 1])
  {
    if k == 4 {
    } else {
      var j := if k == 0 || k == 5 then 8 else if k == 3 then 6 else 9;
      assert forall i :: 0 <= i < j ==> ds[k][i] == ds[k + 1][i];
      FirstDifference(ds[k], ds[k + 1], j);
    }
  }

  /** A list whose neighbours are in order is in order throughout. */
  lemma {:induction false} ChainInOrder(ds: seq<string>, i: nat, j: nat)
    requires forall k :: 0 <= k < |ds| - 1 ==> LexAtMost(ds[k], ds[k + 1])
    requires i <= j < |ds|
    ensures LexAtMost(ds[i], ds[j])
    decreases j - i
  {
    if i < j {
      ChainInOrder(ds, i + 1, j);
      if ds[i] != ds[i + 1] && ds[i + 1] != ds[j] {
        LexTransitive(ds[i], ds[i + 1], ds[j]);
      }
    }
  }

  /** The dates never decrease along the list. */
  lemma FixtureInDateOrder(evts: seq<Event>)
    requires evts == AcademicEvents
    ensures forall i, j :: 0 <= i < j < |evts| ==> !LexLess(evts[j].date, evts[i].date)
  {
    var ds := FixtureDates;
    FixtureShape(evts);
    forall k | 0 <= k < |ds| - 1
      ensures LexAtMost(ds[k], ds[k + 1])
    {
      NextDateNotEarlier(ds, k);
    }
    forall i, j | 0 <= i < j < |evts|
      ensures !LexLess(evts[j].date, evts[i].date)
    {
      ChainInOrder(ds, i, j);
      LexTotal(ds[i], ds[j]);
    }
  }

  /** Six days have events; the shared day holds the practical work, then the exam. */
  lemma FixtureGroups(evts: seq<Event>)
    requires evts == AcademicEvents
    ensures |evts| == 7 && evts[4].date == evts[5].date == "2025-02-03"
    ensures |Grouped(evts).Keys| == 6
    ensures evts[4].date in Grouped(evts) && Grouped(evts)[evts[4].date] == [evts[4], evts[5]]
    ensures evts[4].title == "TP Base de Datos" && evts[5].title == "Examen Base de Datos"
  {
    FixtureShape(evts);
    GroupsOfDates(evts);
  }

  /** Seven events on six days, the fifth and sixth sharing theirs, make six groups. */
  lemma GroupsOfDates(evts: seq<Event>)
    requires |evts| == 7 && evts[4].date == evts[5].date
    requires forall i, j :: 0 <= i < j < 7 && !(i == 4 && j == 5) ==> evts[i].date != evts[j].date
    ensures |Grouped(evts).Keys| == 6
    ensures evts[4].date in Grouped(evts) && Grouped(evts)[evts[4].date] == [evts[4], evts[5]]
  {
    var d := evts[4].date;
    var days := [evts[0].date, evts[1].date, evts[2].date, evts[3].date, evts[4].date, evts[6].date];
    assert DatesOf(evts) == set x | x in days by {
      forall x | x in DatesOf(evts)
        ensures x in days
      {
        var k :| 0 <= k < 7 && evts[k].date == x;
      }
    }
    DistinctCount(days);
    assert Grouped(evts).Keys == DatesOf(evts);
    SharedDay(evts, d);
  }

  /** The events of the day only the fifth and sixth events fall on are those two, in order. */
  lemma SharedDay(evts: seq<Event>, d: string)
    requires |evts| == 7 && evts[4].date == d && evts[5].date == d
    requires evts[0].date != d && evts[1].date != d && evts[2].date != d && evts[3].date != d && evts[6].date != d
    ensures OnDay(evts, d) == [evts[4], evts[5]]
  {
    var front, pair, back := evts[..4], [evts[4], evts[5]], evts[6..];
    assert OnDay(front, d) == [] by {
      assert forall e :: e in front ==> e == evts[0] || e == evts[1] || e == evts[2] || e == evts[3];
      NoneOnDay(front, d);
    }
    assert OnDay(back, d) == [] by {
      assert back == [evts[6]];
      NoneOnDay(back, d);
    }
    assert OnDay(front + pair, d) == pair by {
      OnDayConcat(front, pair, d);
      BothOnDay(evts[4], evts[5], d);
    }
    assert evts == (front + pair) + back;
    OnDayConcat(front + pair, back, d);
  }

  lemma BothOnDay(a: Event, b: Event, d: string)
    requires a.date == d && b.date == d
    ensures OnDay([a, b], d) == [a, b]
  {
    assert [a, b][..1] == [a] && [a][..0] == [];
  }

  /** A list of distinct strings has as many elements as it has members. */
  lemma {:induction false} DistinctCount(xs: seq<string>)
    requires forall i, j :: 0 <= i < j < |xs| ==> xs[i] != xs[j]
    ensures |set x | x in xs| == |xs|
  {
    if xs != [] {
      var init, last := xs[..|xs| - 1], xs[|xs| - 1];
      DistinctCount(init);
      var before := set x | x in init;
      assert last !in before by {
        assert forall i :: 0 <= i < |init| ==> init[i] == xs[i] != xs[|xs| - 1];
      }
      assert (set x | x in xs) == before + {last} by {
        assert xs == init + [last];
      }
    }
  }

  /** Six subjects: "Base de Datos" is shared by two events. */
  lemma FixtureSubjects(evts: seq<Event>)
    requires evts == AcademicEvents
    ensures |Subjects(evts)| == 6
    ensures evts[4].subject == evts[5].subject == "Base de Datos"
  {
    SubjectCount(evts);
  }

  /** Seven events with six subjects, the fifth and sixth sharing theirs, list six subjects. */
  lemma SubjectCount(evts: seq<Event>)
    requires |evts| == 7 && evts[4].subject == evts[5].subject
    requires forall i, j :: 0 <= i < j < 7 && !(i == 4 && j == 5) ==> evts[i].subject != evts[j].subject
    ensures |Subjects(evts)| == 6
  {
    var r := Subjects(evts);
    var names := [evts[0].subject, evts[1].subject, evts[2].subject, evts[3].subject, evts[4].subject, evts[6].subject];
    SameSubjects(evts, names);
    SortedIsDistinct(r);
    assert forall i, j :: 0 <= i < j < 6 ==> names[i] != names[j] by {
      forall i, j | 0 <= i < j < 6
        ensures names[i] != names[j]
      {
        var i', j' := if i < 5 then i else 6, if j < 5 then j else 6;
        assert names[i] == evts[i'].subject && names[j] == evts[j'].subject;
      }
    }
    SameMembersSameLength(r, names);
  }

  /** Two lists without repetitions and with the same members have the same length. */
  lemma SameMembersSameLength(xs: seq<string>, ys: seq<string>)
    requires forall i, j :: 0 <= i < j < |xs| ==> xs[i] != xs[j]
    requires forall i, j :: 0 <= i < j < |ys| ==> ys[i] != ys[j]
    requires forall x :: x in xs <==> x in ys
    ensures |xs| == |ys|
  {
    assert (set x | x in xs) == (set x | x in ys);
    DistinctCount(xs);
    DistinctCount(ys);
  }

  /** The subjects listed are the subjects of the events. */
  lemma SameSubjects(evts: seq<Event>, names: seq<string>)
    requires |evts| == 7 && evts[4].subject == evts[5].subject
    requires names == [evts[0].subject, evts[1].subject, evts[2].subject, evts[3].subject, evts[4].subject, evts[6].subject]
    ensures forall x :: x in Subjects(evts) <==> x in names
  {
    var r := Subjects(evts);
    forall x | x in r
      ensures x in names
    {
      var e :| e in evts && e.subject == x;
      var k :| 0 <= k < 7 && evts[k] == e;
    }
    forall k | 0 <= k < 6
      ensures names[k] in r
    {
      var i := if k < 5 then k else 6;
      assert evts[i] in evts && evts[i].subject == names[k];
    }
  }
}
