/**
 * What the views make of an event's type: the normalization they compare
 * with, the colour of the event's dot and the label shown for the type.
 * The day cell and the list view carry the same two switches; the filter
 * bar offers the types a user can select.
 */
module EventTypes {
  import opened Text

  // ------------------------------------------------------------------ normalization

  /**
   * normalizeType of the calendar and the list view: a missing or empty type
   * gives "", anything else the event-type normalization.
   */
  function NormalizeType(t: string): (r: string)
    ensures InNormalForm(r)
    ensures t == "" ==> r == ""
  {
    if t == "" then "" else Normalize(t)
  }

  /**
   * The day cell's normalizeType has no guard for the empty type; the guard
   * changes nothing, because "" normalizes to "".
   */
  lemma GuardIsRedundant(t: string)
    ensures NormalizeType(t) == Normalize(t)
  {
    if t == "" {
      NormalFormIsFixed(t);
    }
  }

  /** Lower-casing first does not change the normalization. */
  lemma NormalizeLowered(s: string)
    ensures Normalize(Lower(s)) == Normalize(s)
  {
    assert Lower(Lower(s)) == Lower(s);
  }

  /** A text whose lower-case form is already normal normalizes to that form. */
  lemma LowerIsNormal(s: string)
    requires InNormalForm(Lower(s))
    ensures Normalize(s) == Lower(s)
  {
    NormalizeLowered(s);
    NormalFormIsFixed(Lower(s));
  }

  // ------------------------------------------------------------------ the two switches

  const EvaluationColor: string := "bg-red-500"
  const PracticalColor: string := "bg-blue-500"
  const AssignmentColor: string := "bg-green-500"
  const OtherColor: string := "bg-gray-500"

  /** The switch of getEventColor, applied to a normalized type. */
  function ColorOfNormalized(n: string): string {
    if n == "evaluacion" || n == "evaluación" then EvaluationColor
    else if n == "tp" then PracticalColor
    else if n == "tarea" then AssignmentColor
    else OtherColor
  }

  /** getEventColor: the colour class of an event's dot. */
  function EventColor(eventType: string): (c: string)
    ensures c in {EvaluationColor, PracticalColor, AssignmentColor, OtherColor}
  {
    ColorOfNormalized(Normalize(eventType))
  }

  /**
   * The case "evaluación" of both switches is never taken: a normalized type
   * holds no accented letter.
   */
  lemma AccentedCaseUnreachable(eventType: string)
    ensures Normalize(eventType) != "evaluación"
  {
    var accented := "evaluación";
    assert IsPrecomposed(accented[8]);
  }

  /** Each colour belongs to exactly one normalized type, grey to all the others. */
  lemma ColorClasses(eventType: string)
    ensures EventColor(eventType) == EvaluationColor <==> Normalize(eventType) == "evaluacion"
    ensures EventColor(eventType) == PracticalColor <==> Normalize(eventType) == "tp"
    ensures EventColor(eventType) == AssignmentColor <==> Normalize(eventType) == "tarea"
    ensures EventColor(eventType) == OtherColor <==> Normalize(eventType) !in {"evaluacion", "tp", "tarea"}
  {
    AccentedCaseUnreachable(eventType);
  }

  const EvaluationLabel: string := "Evaluación"
  const PracticalLabel: string := "TP"
  const AssignmentLabel: string := "Tarea"

  /** The switch of formatEventType, on the normalized type and the type as written. */
  function LabelOfNormalized(n: string, eventType: string): string {
    if n == "evaluacion" || n == "evaluación" then EvaluationLabel
    else if n == "tp" then PracticalLabel
    else if n == "tarea" then AssignmentLabel
    else eventType
  }

  /** formatEventType: the label of a known type, the type as written otherwise. */
  function FormatEventType(eventType: string): (shown: string)
    ensures shown == eventType || shown in {EvaluationLabel, PracticalLabel, AssignmentLabel}
    ensures Normalize(eventType) == "evaluacion" ==> shown == EvaluationLabel
    ensures Normalize(eventType) == "tp" ==> shown == PracticalLabel
    ensures Normalize(eventType) == "tarea" ==> shown == AssignmentLabel
    ensures Normalize(eventType) !in {"evaluacion", "tp", "tarea"} ==> shown == eventType
  {
    AccentedCaseUnreachable(eventType);
    LabelOfNormalized(Normalize(eventType), eventType)
  }

  // ------------------------------------------------------------------ spellings

  /** "evaluación", in any case, normalizes to "evaluacion". */
  lemma EvaluationSpelling(s: string)
    requires s == "evaluación" || s == "Evaluación"
    ensures Normalize(s) == "evaluacion"
  {
    var a, b := EvaluationPieces();
    var t := a + ['ó'] + b;
    if s == "Evaluación" {
      assert s == ['E'] + t[1..];
      LowerCapital('E', t[1..]);
    }
    assert Lower(s) == t;
    NormalizeLowered(s);
    NormalizeOneAccent(a, 'ó', b);
    assert Decompose('ó')[0] == 'o';
  }

  /** "evaluación" is a plain part, the letter ó and a plain part; "evaluacion" the same with o. */
  lemma EvaluationPieces() returns (a: string, b: string)
    ensures a != [] && b != [] && InNormalForm(a) && InNormalForm(b)
    ensures a + ['ó'] + b == "evaluación" && a + ['o'] + b == "evaluacion"
  {
    a, b := "evaluaci", "n";
    LowerAsciiIsNormal(a);
    LowerAsciiIsNormal(b);
  }

  /** Lower-casing a capitalized word lowers only its first letter. */
  lemma LowerCapital(c: char, rest: string)
    requires forall x :: x in rest ==> !IsUpper(x)
    ensures Lower([c] + rest) == [LowerChar(c)] + rest
  {
    var s := [c] + rest;
    forall i | 1 <= i < |s|
      ensures Lower(s)[i] == rest[i - 1]
    {
      assert s[i] == rest[i - 1] && rest[i - 1] in rest;
    }
  }

  /** The unaccented spellings of the known types, in any case, normalize to the lower-case spelling. */
  lemma PlainSpelling(s: string, n: string)
    requires (s, n) in {("evaluacion", "evaluacion"), ("tp", "tp"), ("TP", "tp"),
                        ("tarea", "tarea"), ("Tarea", "tarea")}
    ensures Normalize(s) == n
  {
    assert Lower(s) == n;
    LowerAsciiIsNormal(n);
    LowerIsNormal(s);
  }

  /** A label names the type it was made from: it normalizes back to it. */
  lemma LabelNormalizesBack(eventType: string)
    ensures Normalize(eventType) in {"evaluacion", "tp", "tarea"} ==>
      Normalize(FormatEventType(eventType)) == Normalize(eventType)
  {
    AccentedCaseUnreachable(eventType);
    var n := Normalize(eventType);
    if n == "evaluacion" {
      EvaluationSpelling(EvaluationLabel);
    } else if n == "tp" {
      PlainSpelling(PracticalLabel, "tp");
    } else if n == "tarea" {
      PlainSpelling(AssignmentLabel, "tarea");
    }
  }

  /** Formatting a label again leaves it as it is, and a label keeps its dot's colour. */
  lemma FormatIdempotent(eventType: string)
    ensures FormatEventType(FormatEventType(eventType)) == FormatEventType(eventType)
    ensures EventColor(FormatEventType(eventType)) == EventColor(eventType)
  {
    LabelNormalizesBack(eventType);
    AccentedCaseUnreachable(eventType);
  }

  // ------------------------------------------------------------------ the filter bar's types

  /** One choice of the type filter: the value selected, its caption and its colour. */
  datatype TypeOption = TypeOption(value: string, caption: string, bgClass: string)

  /** The filter bar's eventTypes, "" meaning every type. */
  const TypeOptions: seq<TypeOption> := [
    TypeOption("", "Todos", "bg-gray-600"),
    TypeOption("evaluación", "Evaluación", "bg-red-500"),
    TypeOption("tp", "TP", "bg-blue-500"),
    TypeOption("tarea", "Tarea", "bg-green-500")
  ]

  /** A selectable type's label and colour are the ones the events of that type get. */
  lemma OptionAgrees(o: TypeOption)
    requires o in TypeOptions[1..]
    ensures FormatEventType(o.value) == o.caption && EventColor(o.value) == o.bgClass
  {
    KnownOption(o.value, o.caption, o.bgClass);
  }

  lemma KnownOption(value: string, caption: string, bgClass: string)
    requires (value, caption, bgClass) in {("evaluación", EvaluationLabel, EvaluationColor),
                                          ("tp", PracticalLabel, PracticalColor),
                                          ("tarea", AssignmentLabel, AssignmentColor)}
    ensures FormatEventType(value) == caption && EventColor(value) == bgClass
  {
    if value == "evaluación" {
      EvaluationSpelling(value);
    } else if value == "tp" {
      PlainSpelling(value, "tp");
    } else {
      PlainSpelling(value, "tarea");
    }
    KnownTypeMappings(value);
  }

  /** The label and colour of the three known types. */
  lemma KnownTypeMappings(t: string)
    ensures Normalize(t) == "evaluacion" ==> FormatEventType(t) == EvaluationLabel && EventColor(t) == EvaluationColor
    ensures Normalize(t) == "tp" ==> FormatEventType(t) == PracticalLabel && EventColor(t) == PracticalColor
    ensures Normalize(t) == "tarea" ==> FormatEventType(t) == AssignmentLabel && EventColor(t) == AssignmentColor
  {
  }

  /** The normalized forms of the three types the filter bar offers, in its order. */
  const KnownTypes: seq<string> := ["evaluacion", "tp", "tarea"]

  /** The selectable types normalize to the three known types, each to a different one. */
  lemma OptionsNormalize(i: nat, j: nat)
    requires 1 <= i < |TypeOptions| && 1 <= j < |TypeOptions|
    ensures Normalize(TypeOptions[i].value) in KnownTypes
    ensures Normalize(TypeOptions[i].value) == Normalize(TypeOptions[j].value) <==> i == j
  {
    var a, b := i - 1, j - 1;
    assert Normalize(TypeOptions[i].value) == KnownTypes[a] by {
      OptionNormal(i);
    }
    assert Normalize(TypeOptions[j].value) == KnownTypes[b] by {
      OptionNormal(j);
    }
    KnownTypesDistinct(a, b);
  }

  lemma KnownTypesDistinct(a: nat, b: nat)
    requires a < |KnownTypes| && b < |KnownTypes|
    ensures KnownTypes[a] == KnownTypes[b] <==> a == b
  {
    var lengths := [10, 2, 5];
    assert forall k :: 0 <= k < 3 ==> |KnownTypes[k]| == lengths[k];
  }

  lemma OptionNormal(k: nat)
    requires 1 <= k < |TypeOptions|
    ensures Normalize(TypeOptions[k].value) == KnownTypes[k - 1]
  {
    if k == 1 {
      EvaluationSpelling(TypeOptions[k].value);
    } else if k == 2 {
      PlainSpelling(TypeOptions[k].value, "tp");
    } else {
      PlainSpelling(TypeOptions[k].value, "tarea");
    }
  }
}
