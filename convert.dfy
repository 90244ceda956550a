/**
 * The conversion of one sheet row into an event: columns found by synonym,
 * the date brought to "yyyy-MM-dd", the type normalized, a row without
 * date, title or type dropped.
 */
module Convert {
  import opened Base
  import opened Text
  import opened Dates
  import opened Csv
  import opened Events

  // ------------------------------------------------------------------ columns by synonym

  const DateKeys: seq<string> := ["date", "fecha", "fecha evento"]
  const TitleKeys: seq<string> := ["title", "titulo", "título", "nombre"]
  const TypeKeys: seq<string> := ["type", "tipo", "tipo evento"]
  const SubjectKeys: seq<string> := ["subject", "materia", "asignatura"]
  const DescriptionKeys: seq<string> := ["description", "descripcion", "descripción", "detalle"]

  /** `k.toLowerCase().trim()`. */
  function ColumnName(k: string): string {
    Trim(Lower(k))
  }

  /** The column name of every key of the row, in key order. */
  function ColumnNames(row: Row): (names: seq<string>)
    ensures |names| == |row|
    ensures forall j :: 0 <= j < |row| ==> names[j] == ColumnName(row[j].key)
  {
    seq(|row|, j requires 0 <= j < |row| => ColumnName(row[j].key))
  }

  /** Array.prototype.findIndex with an equality test. */
  function IndexOf<T(==)>(xs: seq<T>, x: T): (r: Option<nat>)
    ensures r.Some? ==> r.value < |xs| && xs[r.value] == x
    ensures r.Some? ==> forall j :: 0 <= j < r.value ==> xs[j] != x
    ensures r.None? ==> x !in xs
  {
    if xs == [] then None
    else if xs[0] == x then Some(0)
    else
      var rest := IndexOf(xs[1..], x);
      assert forall j :: 1 <= j < |xs| ==> xs[j] == xs[1..][j - 1];
      match rest
      case Some(j) => Some(j + 1)
      case None => None
  }

  /**
   * `Object.keys(row).find((k) => k.toLowerCase().trim() === key.toLowerCase().trim())`:
   * the position of the first key that names the column.
   */
  function FindKey(row: Row, key: string): (r: Option<nat>)
    ensures r.Some? ==> r.value < |row| && ColumnName(row[r.value].key) == ColumnName(key)
    ensures r.Some? ==> forall j :: 0 <= j < r.value ==> ColumnName(row[j].key) != ColumnName(key)
    ensures r.None? ==> forall j :: 0 <= j < |row| ==> ColumnName(row[j].key) != ColumnName(key)
  {
    IndexOf(ColumnNames(row), ColumnName(key))
  }

  /** `row[k]`, with an absent property read as the (equally falsy) empty string. */
  function Property(row: Row, k: string): string {
    match Lookup(row, k)
    case Some(v) => v
    case None => ""
  }

  /**
   * getValue: for each synonym in order, the first key naming it; the
   * trimmed value of the first synonym whose key and value are both
   * non-empty, or "" when there is none.
   */
  function Resolve(row: Row, keys: seq<string>): string {
    if keys == [] then ""
    else
      match FindKey(row, keys[0])
      case Some(i) =>
        var k := row[i].key;
        if k != "" && Property(row, k) != "" then Trim(Property(row, k)) else Resolve(row, keys[1..])
      case None => Resolve(row, keys[1..])
  }

  /** Synonym `key` picks a column with a non-empty value. */
  predicate Usable(row: Row, key: string) {
    match FindKey(row, key)
    case Some(i) => row[i].key != "" && row[i].value != ""
    case None => false
  }

  /** The first key naming a column is the first entry with that exact name, so reading it gives its value. */
  lemma FirstKeyValue(row: Row, key: string)
    requires FindKey(row, key).Some?
    ensures Property(row, row[FindKey(row, key).value].key) == row[FindKey(row, key).value].value
  {
    var i := FindKey(row, key).value;
    forall j | 0 <= j < i ensures row[j].key != row[i].key {
      assert ColumnName(row[j].key) != ColumnName(row[i].key);
    }
    LookupFirst(row, i);
  }

  /** A usable first synonym answers getValue. */
  lemma ResolveAnswer(row: Row, keys: seq<string>)
    requires keys != [] && Usable(row, keys[0])
    ensures Resolve(row, keys) == Trim(row[FindKey(row, keys[0]).value].value)
  {
    FirstKeyValue(row, keys[0]);
  }

  /** Any other first synonym is skipped. */
  lemma ResolveSkip(row: Row, keys: seq<string>)
    requires keys != [] && !Usable(row, keys[0])
    ensures Resolve(row, keys) == Resolve(row, keys[1..])
  {
    if FindKey(row, keys[0]).Some? {
      FirstKeyValue(row, keys[0]);
    }
  }

  /** Synonyms that are not usable are passed over. */
  lemma {:induction false} ResolveSkipAll(row: Row, keys: seq<string>, j: nat)
    requires j <= |keys|
    requires forall l :: 0 <= l < j ==> !Usable(row, keys[l])
    ensures Resolve(row, keys) == Resolve(row, keys[j..])
    decreases j
  {
    if j > 0 {
      ResolveSkip(row, keys);
      ResolveSkipAll(row, keys[1..], j - 1);
      assert keys[1..][j - 1..] == keys[j..];
    }
  }

  /** getValue returns the trimmed value of the first usable synonym. */
  lemma ResolveFirstUsable(row: Row, keys: seq<string>, j: nat)
    requires j < |keys| && Usable(row, keys[j])
    requires forall l :: 0 <= l < j ==> !Usable(row, keys[l])
    ensures Resolve(row, keys) == Trim(row[FindKey(row, keys[j]).value].value)
  {
    ResolveSkipAll(row, keys, j);
    ResolveAnswer(row, keys[j..]);
  }

  /** With no usable synonym getValue returns "". */
  lemma ResolveNoneUsable(row: Row, keys: seq<string>)
    requires forall l :: 0 <= l < |keys| ==> !Usable(row, keys[l])
    ensures Resolve(row, keys) == ""
  {
    ResolveSkipAll(row, keys, |keys|);
  }

  /**
   * Only the spelling of the headers up to case and surrounding white space
   * matters: two rows with the same values under headers that name the same
   * columns give the same answer.
   */
  lemma {:induction false} ResolveIgnoresCase(row1: Row, row2: Row, keys: seq<string>)
    requires |row1| == |row2|
    requires forall i :: 0 <= i < |row1| ==> row1[i].value == row2[i].value
    requires forall i :: 0 <= i < |row1| ==> ColumnName(row1[i].key) == ColumnName(row2[i].key)
    requires forall l :: 0 <= l < |keys| ==> ColumnName(keys[l]) != ""
    ensures Resolve(row1, keys) == Resolve(row2, keys)
    decreases |keys|
  {
    if keys != [] {
      UsableIgnoresCase(row1, row2, keys[0]);
      if Usable(row1, keys[0]) {
        ResolveAnswer(row1, keys);
        ResolveAnswer(row2, keys);
      } else {
        ResolveSkip(row1, keys);
        ResolveSkip(row2, keys);
        ResolveIgnoresCase(row1, row2, keys[1..]);
      }
    }
  }

  lemma UsableIgnoresCase(row1: Row, row2: Row, key: string)
    requires |row1| == |row2|
    requires forall i :: 0 <= i < |row1| ==> row1[i].value == row2[i].value
    requires forall i :: 0 <= i < |row1| ==> ColumnName(row1[i].key) == ColumnName(row2[i].key)
    requires ColumnName(key) != ""
    ensures Usable(row1, key) == Usable(row2, key)
    ensures Usable(row1, key) ==> FindKey(row1, key) == FindKey(row2, key)
  {
    FindKeyIgnoresCase(row1, row2, key);
    var found := FindKey(row1, key);
    if found.Some? {
      NamedKeyNonEmpty(row1[found.value].key, key);
      NamedKeyNonEmpty(row2[found.value].key, key);
    }
  }

  lemma FindKeyIgnoresCase(row1: Row, row2: Row, key: string)
    requires |row1| == |row2|
    requires forall i :: 0 <= i < |row1| ==> ColumnName(row1[i].key) == ColumnName(row2[i].key)
    ensures FindKey(row1, key) == FindKey(row2, key)
  {
    assert ColumnNames(row1) == ColumnNames(row2);
  }

  /** A header that names a non-blank synonym is itself non-empty, so the `foundKey &&` test never fails. */
  lemma NamedKeyNonEmpty(k: string, key: string)
    requires ColumnName(k) == ColumnName(key) != ""
    ensures k != ""
  {
  }

  /** getValue: the synonym loop with its early return. */
  method GetValue(row: Row, keys: seq<string>) returns (value: string)
    ensures value == Resolve(row, keys)
  {
    var n := 0;
    while n < |keys|
      invariant 0 <= n <= |keys|
      invariant Resolve(row, keys) == Resolve(row, keys[n..])
    {
      var found := FindKey(row, keys[n]);
      assert keys[n..][1..] == keys[n + 1..];
      if found.Some? {
        var foundKey := row[found.value].key;
        if foundKey != "" && Property(row, foundKey) != "" {
          return Trim(Property(row, foundKey));
        }
      }
      n := n + 1;
    }
    return "";
  }

  // ------------------------------------------------------------------ dates

  predicate IsSeparator(c: char) {
    c == '-' || c == '/'
  }

  /**
   * One layout of /^\d{1,2}[-\/]\d{1,2}[-\/]\d{4}$/: `dw` day digits, a
   * separator, `mw` month digits, a separator, four year digits.
   */
  predicate DmyLayout(s: string, dw: nat, mw: nat) {
    && 1 <= dw <= 2 && 1 <= mw <= 2 && |s| == dw + mw + 6
    && AllDigits(s[..dw]) && IsSeparator(s[dw])
    && AllDigits(s[dw + 1..dw + 1 + mw]) && IsSeparator(s[dw + 1 + mw])
    && AllDigits(s[dw + mw + 2..])
  }

  /** The day-month-year pattern, either separator in either place. */
  predicate IsDmyShape(s: string) {
    DmyLayout(s, 1, 1) || DmyLayout(s, 1, 2) || DmyLayout(s, 2, 1) || DmyLayout(s, 2, 2)
  }

  /** `s.split(/[-\/]/)`. */
  function SplitDate(s: string): (parts: seq<string>)
    ensures |parts| >= 1
  {
    if s == [] then [[]]
    else
      var rest := SplitDate(s[1..]);
      if IsSeparator(s[0]) then [[]] + rest else [[s[0]] + rest[0]] + rest[1..]
  }

  lemma {:induction false} SplitDatePlain(s: string)
    requires forall i :: 0 <= i < |s| ==> !IsSeparator(s[i])
    ensures SplitDate(s) == [s]
  {
    if s != [] {
      SplitDatePlain(s[1..]);
      assert [s[0]] + s[1..] == s;
    }
  }

  lemma {:induction false} SplitDateAt(a: string, c: char, b: string)
    requires forall i :: 0 <= i < |a| ==> !IsSeparator(a[i])
    requires IsSeparator(c)
    ensures SplitDate(a + [c] + b) == [a] + SplitDate(b)
  {
    if a == [] {
      assert ([c] + b)[1..] == b;
    } else {
      SplitDateAt(a[1..], c, b);
      assert (a + [c] + b)[1..] == a[1..] + [c] + b;
      assert [a[0]] + a[1..] == a;
    }
  }

  /** A day-month-year date splits into its day, month and year digits. */
  lemma DmyParts(s: string, dw: nat, mw: nat)
    requires DmyLayout(s, dw, mw)
    ensures SplitDate(s) == [s[..dw], s[dw + 1..dw + 1 + mw], s[dw + mw + 2..]]
  {
    var d, m, y := s[..dw], s[dw + 1..dw + 1 + mw], s[dw + mw + 2..];
    assert s == d + [s[dw]] + (m + [s[dw + 1 + mw]] + y);
    SplitDateAt(d, s[dw], m + [s[dw + 1 + mw]] + y);
    SplitDateAt(m, s[dw + 1 + mw], y);
    SplitDatePlain(y);
  }

  function DmyWidths(s: string): (w: (nat, nat))
    requires IsDmyShape(s)
    ensures DmyLayout(s, w.0, w.1)
  {
    if DmyLayout(s, 1, 1) then (1, 1)
    else if DmyLayout(s, 1, 2) then (1, 2)
    else if DmyLayout(s, 2, 1) then (2, 1)
    else (2, 2)
  }

  /** `String(n)` for any integer. */
  function IntString(n: int): string {
    if n < 0 then "-" + NatToString(-n) else NatToString(n)
  }

  /** The `${year}-${month}-${day}` string built from a parsed date's local fields. */
  function FormatLocal(d: Ymd): string {
    IntString(d.year) + "-" + PadZeros(IntString(d.month), 2) + "-" + PadZeros(IntString(d.day), 2)
  }

  /**
   * The date normalization: an ISO date is kept, a day-month-year date is
   * reordered and zero-padded, anything else goes through the general date
   * parser `engine` (its local year, month 1..12 and day), None when that
   * parser gives up.
   */
  function NormalizeDate(date: string, engine: string -> Option<Ymd>): Option<string> {
    if IsIsoShape(date) then Some(date)
    else if IsDmyShape(date) then
      var w := DmyWidths(date);
      DmyParts(date, w.0, w.1);
      var parts := SplitDate(date);
      Some(parts[2] + "-" + PadZeros(parts[1], 2) + "-" + PadZeros(parts[0], 2))
    else
      match engine(date)
      case Some(d) => Some(FormatLocal(d))
      case None => None
  }

  /** An ISO-shaped date is kept as it is, whatever the general parser would say. */
  lemma IsoDateKept(date: string, engine: string -> Option<Ymd>)
    requires IsIsoShape(date)
    ensures NormalizeDate(date, engine) == Some(date)
  {
  }

  /** The day-month-year pattern never accepts an ISO date: its year field would need a separator. */
  lemma DmyIsNotIso(date: string, dw: nat, mw: nat)
    requires DmyLayout(date, dw, mw)
    ensures !IsIsoShape(date)
  {
    if |date| == 10 {
      assert dw == 2 && mw == 2;
      assert IsDigit(date[6..][1]) && date[6..][1] == date[7];
    }
  }

  /** The widths of the day and month fields are determined by the string. */
  lemma DmyWidthsUnique(date: string, dw: nat, mw: nat)
    requires DmyLayout(date, dw, mw)
    ensures DmyWidths(date) == (dw, mw)
  {
    var w := DmyWidths(date);
    DmyParts(date, dw, mw);
    DmyParts(date, w.0, w.1);
  }

  /**
   * A day-month-year date becomes year, zero-padded month and zero-padded
   * day: an ISO-shaped string whose numbers are the ones written.
   */
  lemma DmyReordered(date: string, dw: nat, mw: nat, engine: string -> Option<Ymd>)
    requires DmyLayout(date, dw, mw)
    ensures NormalizeDate(date, engine).Some?
    ensures var r := NormalizeDate(date, engine).value;
      && r == date[dw + mw + 2..] + "-" + PadZeros(date[dw + 1..dw + 1 + mw], 2) + "-" + PadZeros(date[..dw], 2)
      && IsIsoShape(r)
      && IsoFields(r) == Ymd(DigitsValue(date[dw + mw + 2..]), DigitsValue(date[dw + 1..dw + 1 + mw]), DigitsValue(date[..dw]))
  {
    DmyNormalized(date, dw, mw, engine);
    ReorderedIso(date[dw + mw + 2..], date[dw + 1..dw + 1 + mw], date[..dw]);
  }

  lemma DmyNormalized(date: string, dw: nat, mw: nat, engine: string -> Option<Ymd>)
    requires DmyLayout(date, dw, mw)
    ensures NormalizeDate(date, engine)
         == Some(date[dw + mw + 2..] + "-" + PadZeros(date[dw + 1..dw + 1 + mw], 2) + "-" + PadZeros(date[..dw], 2))
  {
    DmyIsNotIso(date, dw, mw);
    DmyWidthsUnique(date, dw, mw);
    DmyParts(date, dw, mw);
  }

  /** "15/01/2025" becomes "2025-01-15". */
  lemma DmyExample(date: string, engine: string -> Option<Ymd>)
    requires date == "15/01/2025"
    ensures NormalizeDate(date, engine) == Some("2025-01-15")
  {
    ExampleLayout(date, 2, 2, "15", "01");
    DmyNormalized(date, 2, 2, engine);
    ExamplePieces("2025", "01", "15", "2025-01-15");
  }

  /** "5-3-2025" becomes "2025-03-05": single digits are zero-padded. */
  lemma DmyPaddedExample(date: string, engine: string -> Option<Ymd>)
    requires date == "5-3-2025"
    ensures NormalizeDate(date, engine) == Some("2025-03-05")
  {
    ExampleLayout(date, 1, 1, "5", "3");
    DmyNormalized(date, 1, 1, engine);
    ExamplePieces("2025", "3", "5", "2025-03-05");
  }

  lemma ExampleLayout(date: string, dw: nat, mw: nat, d: string, m: string)
    requires (date, dw, mw, d, m) == ("15/01/2025", 2, 2, "15", "01") || (date, dw, mw, d, m) == ("5-3-2025", 1, 1, "5", "3")
    ensures DmyLayout(date, dw, mw)
    ensures date[..dw] == d && date[dw + 1..dw + 1 + mw] == m && date[dw + mw + 2..] == "2025"
  {
    if dw == 2 {
      assert date[..2] == d && date[3..5] == m && date[6..] == "2025";
    } else {
      assert date[..1] == d && date[2..3] == m && date[4..] == "2025";
    }
  }

  lemma ExamplePieces(y: string, m: string, d: string, iso: string)
    requires (y, m, d, iso) == ("2025", "01", "15", "2025-01-15") || (y, m, d, iso) == ("2025", "3", "5", "2025-03-05")
    ensures y + "-" + PadZeros(m, 2) + "-" + PadZeros(d, 2) == iso
  {
  }

  lemma ReorderedIso(y: string, m: string, d: string)
    requires |y| == 4 && 1 <= |m| <= 2 && 1 <= |d| <= 2
    requires AllDigits(y) && AllDigits(m) && AllDigits(d)
    ensures var r := y + "-" + PadZeros(m, 2) + "-" + PadZeros(d, 2);
      IsIsoShape(r) && IsoFields(r) == Ymd(DigitsValue(y), DigitsValue(m), DigitsValue(d))
  {
    PadZerosValue(m, 2);
    PadZerosValue(d, 2);
    IsoPieces(y, PadZeros(m, 2), PadZeros(d, 2));
  }

  /**
   * A date the general parser reads as a day of a four-digit year comes out
   * as that day's ISO string.
   */
  lemma EngineDateFormatted(date: string, engine: string -> Option<Ymd>)
    requires !IsIsoShape(date) && !IsDmyShape(date)
    requires engine(date).Some?
    requires 1000 <= engine(date).value.year <= 9999 && IsValidYmd(engine(date).value)
    ensures NormalizeDate(date, engine) == Some(FormatDay(engine(date).value))
  {
    var d := engine(date).value;
    FourDigits(d.year);
  }

  lemma FourDigits(y: nat)
    requires 1000 <= y <= 9999
    ensures |NatToString(y)| == 4
  {
    assert |NatToString(y / 10)| == 3 by {
      assert |NatToString(y / 100)| == 2;
    }
  }

  // ------------------------------------------------------------------ rows to events

  /**
   * The checks and normalizations of convertRowToEvent once the five
   * columns are read: None without date, title or type, with a date no
   * parser reads, or with a date that names no calendar day.
   */
  function ConvertFields(date: string, title: string, eventType: string, subject: string, description: string,
                         engine: string -> Option<Ymd>): (r: Option<Event>)
    ensures r.Some? ==> ParseDay(r.value.date).Some?
    ensures r.Some? ==> InNormalForm(r.value.eventType)
    ensures r.Some? ==> date != "" && title != "" && eventType != ""
    ensures r.Some? ==> r.value.title == title && r.value.subject == subject && r.value.description == description
    ensures r.Some? <==>
      date != "" && title != "" && eventType != ""
      && NormalizeDate(date, engine).Some? && ParseDay(NormalizeDate(date, engine).value).Some?
    ensures r.Some? ==> r.value.date == NormalizeDate(date, engine).value && r.value.eventType == Normalize(eventType)
  {
    if date == "" || title == "" || eventType == "" then None
    else
      match NormalizeDate(date, engine)
      case None => None
      case Some(normalized) =>
        if ParseDay(normalized).None? then None
        else Some(Event(normalized, title, Normalize(eventType), subject, description))
  }

  /** convertRowToEvent: the five columns read by synonym, then checked and normalized. */
  function ConvertRow(row: Row, engine: string -> Option<Ymd>): (r: Option<Event>)
    ensures r.Some? ==> ParseDay(r.value.date).Some? && InNormalForm(r.value.eventType)
    ensures r.Some? <==>
      var date := Resolve(row, DateKeys);
      date != "" && Resolve(row, TitleKeys) != "" && Resolve(row, TypeKeys) != ""
      && NormalizeDate(date, engine).Some? && ParseDay(NormalizeDate(date, engine).value).Some?
    ensures r.Some? ==>
      r.value == Event(NormalizeDate(Resolve(row, DateKeys), engine).value, Resolve(row, TitleKeys),
                       Normalize(Resolve(row, TypeKeys)), Resolve(row, SubjectKeys), Resolve(row, DescriptionKeys))
  {
    ConvertFields(Resolve(row, DateKeys), Resolve(row, TitleKeys), Resolve(row, TypeKeys),
                  Resolve(row, SubjectKeys), Resolve(row, DescriptionKeys), engine)
  }

  /**
   * A valid ISO date with a title and a type is kept, with its date
   * unchanged and its type normalized.
   */
  lemma IsoRowKept(date: string, title: string, eventType: string, subject: string, description: string,
                   engine: string -> Option<Ymd>)
    requires IsIsoShape(date) && ParseDay(date).Some?
    requires title != "" && eventType != ""
    ensures ConvertFields(date, title, eventType, subject, description, engine)
         == Some(Event(date, title, Normalize(eventType), subject, description))
  {
  }

  /** A row whose date the general parser rejects is dropped. */
  lemma UnreadableDateDropped(date: string, title: string, eventType: string, subject: string, description: string,
                              engine: string -> Option<Ymd>)
    requires !IsIsoShape(date) && !IsDmyShape(date) && engine(date).None?
    ensures ConvertFields(date, title, eventType, subject, description, engine).None?
  {
  }

  /** A day-month-year date that names a calendar day is kept, reordered. */
  lemma DmyRowKept(date: string, dw: nat, mw: nat, title: string, eventType: string, subject: string,
                   description: string, engine: string -> Option<Ymd>)
    requires DmyLayout(date, dw, mw) && title != "" && eventType != ""
    requires IsValidYmd(Ymd(DigitsValue(date[dw + mw + 2..]), DigitsValue(date[dw + 1..dw + 1 + mw]), DigitsValue(date[..dw])))
    ensures ConvertFields(date, title, eventType, subject, description, engine).Some?
    ensures ParseDay(ConvertFields(date, title, eventType, subject, description, engine).value.date)
         == Some(Ymd(DigitsValue(date[dw + mw + 2..]), DigitsValue(date[dw + 1..dw + 1 + mw]), DigitsValue(date[..dw])))
  {
    var ymd := Ymd(DigitsValue(date[dw + mw + 2..]), DigitsValue(date[dw + 1..dw + 1 + mw]), DigitsValue(date[..dw]));
    assert NormalizeDate(date, engine).Some? && ParseDay(NormalizeDate(date, engine).value) == Some(ymd) by {
      DmyReordered(date, dw, mw, engine);
    }
    assert date != "" by {
      assert |date| >= 8;
    }
  }

  /** The emitted type is already normalized: normalizing it again changes nothing. */
  lemma EventTypeStable(row: Row, engine: string -> Option<Ymd>)
    requires ConvertRow(row, engine).Some?
    ensures Normalize(ConvertRow(row, engine).value.eventType) == ConvertRow(row, engine).value.eventType
  {
    NormalFormIsFixed(ConvertRow(row, engine).value.eventType);
  }

  /**
   * The presence check looks at the type before normalization, so a type
   * cell holding only a combining accent passes it and the event is emitted
   * with an empty type.
   */
  lemma LoneMarkGivesEmptyType(date: string, title: string, eventType: string, subject: string, description: string,
                               engine: string -> Option<Ymd>)
    requires eventType == [Acute]
    requires IsIsoShape(date) && ParseDay(date).Some? && title != ""
    ensures ConvertFields(date, title, eventType, subject, description, engine).Some?
    ensures ConvertFields(date, title, eventType, subject, description, engine).value.eventType == ""
  {
    LoneMark(eventType);
  }

  lemma LoneMark(s: string)
    requires s == [Acute]
    ensures Normalize(s) == ""
  {
    assert Lower(s) == s;
    assert Nfd(s) == s by {
      assert Nfd(s) == Decompose(Acute) + Nfd([]);
    }
    assert StripMarks(s) == [] by {
      assert StripMarks(s) == StripMarks([]);
    }
  }
}
