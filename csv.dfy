/**
 * The CSV reader of src/services/googleSheets.js: the text is cut into lines
 * at every LF, blank lines are dropped, the first line names the columns and
 * every other line becomes a row that maps each column name to a field.
 *
 * A line is cut into fields by a character scan with a quote mode: a quote
 * toggles the mode, a doubled quote inside quotes stands for one quote, and
 * a comma ends a field only outside quotes.  Because lines are cut before
 * the scan, a quoted field cannot hold a line break (unlike section 2 of
 * RFC 4180).
 */
module Csv {
  import opened Base
  import opened Text

  // ------------------------------------------------------------------ one line

  /**
   * The untrimmed fields that the scan of `s` in quote mode `inQuotes`
   * produces; the first element continues the field being read.
   */
  function Scan(s: string, inQuotes: bool): (fields: seq<string>)
    ensures |fields| >= 1
    decreases |s|
  {
    if s == [] then [[]]
    else if s[0] == '"' then
      if inQuotes && |s| > 1 && s[1] == '"' then Prepend(['"'], Scan(s[2..], true))
      else Scan(s[1..], !inQuotes)
    else if s[0] == ',' && !inQuotes then [[]] + Scan(s[1..], false)
    else Prepend([s[0]], Scan(s[1..], inQuotes))
  }

  /** Puts `prefix` in front of the first field. */
  function Prepend(prefix: string, fields: seq<string>): (r: seq<string>)
    requires |fields| >= 1
    ensures |r| == |fields| && r[0] == prefix + fields[0] && r[1..] == fields[1..]
  {
    [prefix + fields[0]] + fields[1..]
  }

  function TrimAll(fields: seq<string>): (r: seq<string>)
    ensures |r| == |fields| && forall k :: 0 <= k < |r| ==> r[k] == Trim(fields[k])
  {
    seq(|fields|, k requires 0 <= k < |fields| => Trim(fields[k]))
  }

  /** The fields parseCSVLine returns for a line: the scan from outside quotes, each field trimmed. */
  function Fields(line: string): seq<string> {
    TrimAll(Scan(line, false))
  }

  /** parseCSVLine: the character loop with its quote mode. */
  method ParseLine(line: string) returns (result: seq<string>)
    ensures result == Fields(line)
  {
    result := [];
    var current := "";
    var inQuotes := false;
    var i := 0;
    ghost var raw: seq<string> := [];
    assert line[0..] == line;
    PrependEmpty(Scan(line, false));
    while i < |line|
      invariant 0 <= i <= |line|
      invariant result == TrimAll(raw)
      invariant Scan(line, false) == raw + Prepend(current, Scan(line[i..], inQuotes))
    {
      var c := line[i];
      ScanStep(line, i, inQuotes);
      if c == '"' {
        if inQuotes && i + 1 < |line| && line[i + 1] == '"' {
          PrependTwice(current, ['"'], Scan(line[i + 2..], true));
          current := current + ['"'];
          i := i + 1;
        } else {
          inQuotes := !inQuotes;
        }
      } else if c == ',' && !inQuotes {
        EndOfField(raw, current, Scan(line[i + 1..], false));
        TrimAllSnoc(raw, current);
        raw := raw + [current];
        result := result + [Trim(current)];
        current := "";
      } else {
        PrependTwice(current, [c], Scan(line[i + 1..], inQuotes));
        current := current + [c];
      }
      i := i + 1;
    }
    assert line[i..] == [];
    assert Prepend(current, Scan([], inQuotes)) == [current] by {
      assert current + [] == current;
    }
    TrimAllSnoc(raw, current);
    raw := raw + [current];
    result := result + [Trim(current)];
  }

  lemma TrimAllSnoc(fields: seq<string>, last: string)
    ensures TrimAll(fields + [last]) == TrimAll(fields) + [Trim(last)]
  {
  }

  /** One step of the scan at index `i`, in the four cases of the loop body. */
  lemma ScanStep(line: string, i: nat, inQuotes: bool)
    requires i < |line|
    ensures line[i] == '"' && inQuotes && i + 1 < |line| && line[i + 1] == '"' ==>
      Scan(line[i..], inQuotes) == Prepend(['"'], Scan(line[i + 2..], true))
    ensures line[i] == '"' && !(inQuotes && i + 1 < |line| && line[i + 1] == '"') ==>
      Scan(line[i..], inQuotes) == Scan(line[i + 1..], !inQuotes)
    ensures line[i] == ',' && !inQuotes ==>
      Scan(line[i..], inQuotes) == [[]] + Scan(line[i + 1..], false)
    ensures line[i] != '"' && !(line[i] == ',' && !inQuotes) ==>
      Scan(line[i..], inQuotes) == Prepend([line[i]], Scan(line[i + 1..], inQuotes))
  {
    var rest := line[i..];
    assert rest[0] == line[i] && rest[1..] == line[i + 1..];
    if i + 1 < |line| {
      assert rest[1] == line[i + 1] && rest[2..] == line[i + 2..];
    }
  }

  /** An unquoted comma closes the field being read and starts an empty one. */
  lemma EndOfField(raw: seq<string>, current: string, tail: seq<string>)
    requires |tail| >= 1
    ensures raw + Prepend(current, [[]] + tail) == (raw + [current]) + Prepend([], tail)
  {
    PrependEmpty(tail);
    assert current + [] == current;
    assert Prepend(current, [[]] + tail) == [current] + tail;
  }

  lemma PrependEmpty(fields: seq<string>)
    requires |fields| >= 1
    ensures Prepend([], fields) == fields
  {
    assert [] + fields[0] == fields[0];
    assert [fields[0]] + fields[1..] == fields;
  }

  lemma PrependTwice(a: string, b: string, fields: seq<string>)
    requires |fields| >= 1
    ensures Prepend(a, Prepend(b, fields)) == Prepend(a + b, fields)
  {
    assert a + (b + fields[0]) == (a + b) + fields[0];
  }

  // ------------------------------------------------------------------ what the scan promises

  /** The commas of `s` that stand outside quotes, when every quote simply toggles the mode. */
  function Separators(s: string, inQuotes: bool): nat {
    if s == [] then 0
    else
      (if s[0] == ',' && !inQuotes then 1 else 0)
      + Separators(s[1..], if s[0] == '"' then !inQuotes else inQuotes)
  }

  /**
   * A line has one field more than it has unquoted commas: a doubled quote
   * inside quotes does not change which commas count.
   */
  lemma {:induction false} FieldCount(s: string, inQuotes: bool)
    ensures |Scan(s, inQuotes)| == Separators(s, inQuotes) + 1
    decreases |s|
  {
    if s != [] {
      if s[0] == '"' && inQuotes && |s| > 1 && s[1] == '"' {
        FieldCount(s[2..], true);
        assert s[1..][1..] == s[2..];
      } else {
        FieldCount(s[1..], if s[0] == '"' then !inQuotes else inQuotes);
      }
    }
  }

  /** Inside quotes, every quote of a field value is written twice. */
  function Escape(x: string): string {
    if x == [] then [] else (if x[0] == '"' then ['"', '"'] else [x[0]]) + Escape(x[1..])
  }

  /** A field value wrapped in quotes, with its quotes doubled. */
  function Quote(x: string): string {
    ['"'] + Escape(x) + ['"']
  }

  /** Inside quotes a doubled quote is one quote of the field. */
  lemma ScanDoubledQuote(tail: string)
    ensures Scan(['"', '"'] + tail, true) == Prepend(['"'], Scan(tail, true))
  {
    var s := ['"', '"'] + tail;
    assert s[0] == '"' && s[1] == '"' && s[2..] == tail;
  }

  /** Inside quotes any other character is part of the field. */
  lemma ScanOrdinaryChar(c: char, tail: string)
    requires c != '"'
    ensures Scan([c] + tail, true) == Prepend([c], Scan(tail, true))
  {
    var s := [c] + tail;
    assert s[0] == c && s[1..] == tail;
  }

  /** Inside quotes an escaped value scans to the value, whatever follows it. */
  lemma {:induction false} ScanEscapedPrefix(x: string, t: string)
    ensures Scan(Escape(x) + t, true) == Prepend(x, Scan(t, true))
    decreases |x|
  {
    if x == [] {
      assert Escape(x) + t == t;
      PrependEmpty(Scan(t, true));
    } else {
      ScanEscapedPrefix(x[1..], t);
      EscapedStep(x, t);
      PrependTwice([x[0]], x[1..], Scan(t, true));
      assert [x[0]] + x[1..] == x;
    }
  }

  /** One character of an escaped value, in front of the rest. */
  lemma EscapedStep(x: string, t: string)
    requires x != []
    ensures Scan(Escape(x) + t, true) == Prepend([x[0]], Scan(Escape(x[1..]) + t, true))
  {
    var tail := Escape(x[1..]) + t;
    if x[0] == '"' {
      assert Escape(x) + t == ['"', '"'] + tail;
      ScanDoubledQuote(tail);
    } else {
      assert Escape(x) + t == [x[0]] + tail;
      ScanOrdinaryChar(x[0], tail);
    }
  }

  /** Scanning an escaped value and its closing quote inside quotes reads the value back. */
  lemma ScanEscaped(x: string, rest: string)
    requires rest == [] || rest[0] != '"'
    ensures Scan(Escape(x) + ['"'] + rest, true) == Prepend(x, Scan(rest, false))
  {
    var t := ['"'] + rest;
    assert Escape(x) + ['"'] + rest == Escape(x) + t;
    ScanEscapedPrefix(x, t);
    assert t[0] == '"' && t[1..] == rest;
    assert Scan(t, true) == Scan(rest, false);
  }

  /** One row written with every field quoted. */
  function JoinQuoted(xs: seq<string>): string
    requires |xs| >= 1
  {
    if |xs| == 1 then Quote(xs[0]) else Quote(xs[0]) + [','] + JoinQuoted(xs[1..])
  }

  /**
   * Writing values with every field quoted (commas and quotes included) and
   * scanning the line gives the values back.
   */
  lemma {:induction false} QuotedRoundTrip(xs: seq<string>)
    requires |xs| >= 1
    ensures Scan(JoinQuoted(xs), false) == xs
    decreases |xs|
  {
    var x := xs[0];
    var line := JoinQuoted(xs);
    var rest := if |xs| == 1 then [] else [','] + JoinQuoted(xs[1..]);
    assert line == ['"'] + (Escape(x) + ['"'] + rest);
    assert line[1..] == Escape(x) + ['"'] + rest;
    ScanEscaped(x, rest);
    if |xs| == 1 {
      assert Scan(rest, false) == [[]];
      assert x + [] == x;
    } else {
      QuotedRoundTrip(xs[1..]);
      assert rest[1..] == JoinQuoted(xs[1..]);
      assert Scan(rest, false) == [[]] + xs[1..];
      assert x + [] == x;
      assert [x] + xs[1..] == xs;
    }
  }

  /** A quoted value keeps its commas and its quotes come back single: the fields of the line are the trimmed values. */
  lemma QuotedFields(xs: seq<string>)
    requires |xs| >= 1
    ensures Fields(JoinQuoted(xs)) == TrimAll(xs)
  {
    QuotedRoundTrip(xs);
  }

  /** Text without quotes or commas, outside quotes, is read as it stands. */
  lemma {:induction false} ScanPlain(x: string, rest: string)
    requires '"' !in x && ',' !in x
    ensures Scan(x + rest, false) == Prepend(x, Scan(rest, false))
    decreases |x|
  {
    if x == [] {
      assert x + rest == rest;
      PrependEmpty(Scan(rest, false));
    } else {
      assert (x + rest)[0] == x[0] && (x + rest)[1..] == x[1..] + rest;
      ScanPlain(x[1..], rest);
      PrependTwice([x[0]], x[1..], Scan(rest, false));
      assert [x[0]] + x[1..] == x;
    }
  }

  /** A line without any quote is split at every comma. */
  lemma {:induction false} UnquotedLineIsSplit(line: string)
    requires '"' !in line
    ensures Scan(line, false) == Split(line, ',')
    decreases |line|
  {
    if line != [] {
      UnquotedLineIsSplit(line[1..]);
    }
  }

  // ------------------------------------------------------------------ header and rows

  /** The replacement /^"|"$/g by nothing: one leading and one trailing quote go. */
  function StripQuotes(s: string): (r: string)
    ensures |r| <= |s|
    ensures '"' !in s ==> r == s
    ensures |s| >= 2 && s[0] == '"' && s[|s| - 1] == '"' ==> r == s[1..|s| - 1]
    ensures |s| >= 1 && s[0] == '"' && (|s| == 1 || s[|s| - 1] != '"') ==> r == s[1..]
    ensures |s| >= 1 && s[0] != '"' && s[|s| - 1] == '"' ==> r == s[..|s| - 1]
  {
    var a := if |s| > 0 && s[0] == '"' then s[1..] else s;
    if |a| > 0 && a[|a| - 1] == '"' then a[..|a| - 1] else a
  }

  /** One key of a JavaScript object and its value. */
  datatype Entry = Entry(key: string, value: string)

  /**
   * A row object: its own keys in insertion order.  No key repeats: setting
   * a key that is already there replaces its value and keeps its place.
   */
  type Row = seq<Entry>

  function Keys(row: Row): (ks: seq<string>)
    ensures |ks| == |row| && forall k :: 0 <= k < |row| ==> ks[k] == row[k].key
  {
    if row == [] then [] else [row[0].key] + Keys(row[1..])
  }

  /** No key appears twice. */
  predicate Distinct(ks: seq<string>) {
    forall i, j :: 0 <= i < j < |ks| ==> ks[i] != ks[j]
  }

  /** `row[key]`, or None when the object has no such key. */
  function Lookup(row: Row, key: string): Option<string> {
    if row == [] then None
    else if row[0].key == key then Some(row[0].value)
    else Lookup(row[1..], key)
  }

  /** Reading the key of an entry that no earlier entry shares gives that entry's value. */
  lemma {:induction false} LookupFirst(row: Row, i: nat)
    requires i < |row|
    requires forall j :: 0 <= j < i ==> row[j].key != row[i].key
    ensures Lookup(row, row[i].key) == Some(row[i].value)
    decreases i
  {
    if i > 0 {
      LookupFirst(row[1..], i - 1);
    }
  }

  /** The assignment `row[key] = value`. */
  function Put(row: Row, key: string, value: string): (r: Row)
    ensures |r| == |row| || |r| == |row| + 1
  {
    if row == [] then [Entry(key, value)]
    else if row[0].key == key then [Entry(key, value)] + row[1..]
    else [row[0]] + Put(row[1..], key, value)
  }

  /** After the assignment the key reads as the value, and every other key as before. */
  lemma {:induction false} PutLookup(row: Row, key: string, value: string)
    ensures Lookup(Put(row, key, value), key) == Some(value)
    ensures forall k :: k != key ==> Lookup(Put(row, key, value), k) == Lookup(row, k)
    decreases |row|
  {
    var r := Put(row, key, value);
    if row != [] && row[0].key != key {
      PutLookup(row[1..], key, value);
      assert r[0] == row[0] && r[1..] == Put(row[1..], key, value);
    } else if row != [] {
      assert r[0].key == key && r[1..] == row[1..];
    }
  }

  /** A new key goes to the end of the key order; an existing one keeps its place. */
  lemma {:induction false} PutKeys(row: Row, key: string, value: string)
    ensures key in Keys(row) ==> Keys(Put(row, key, value)) == Keys(row)
    ensures key !in Keys(row) ==> Keys(Put(row, key, value)) == Keys(row) + [key]
    decreases |row|
  {
    if row != [] {
      var r, ks := Put(row, key, value), Keys(row);
      assert ks == [row[0].key] + Keys(row[1..]);
      if row[0].key != key {
        PutKeys(row[1..], key, value);
        assert r == [row[0]] + Put(row[1..], key, value);
        assert Keys(r) == [row[0].key] + Keys(Put(row[1..], key, value));
      } else {
        assert r == [Entry(key, value)] + row[1..];
        assert Keys(r) == [key] + Keys(row[1..]);
      }
    }
  }

  /** The assignment keeps the keys of a row distinct. */
  lemma PutDistinct(row: Row, key: string, value: string)
    requires Distinct(Keys(row))
    ensures Distinct(Keys(Put(row, key, value)))
  {
    PutKeys(row, key, value);
  }

  /** `values[index] || ""`: a missing trailing field reads as the empty string. */
  function Cell(values: seq<string>, index: nat): string {
    if index < |values| then values[index] else ""
  }

  /** The row that `headers.forEach` builds from one line's fields. */
  function RowOf(headers: seq<string>, values: seq<string>): Row
    decreases |headers|
  {
    if headers == [] then []
    else
      var n := |headers| - 1;
      Put(RowOf(headers[..n], values), headers[n], StripQuotes(Cell(values, n)))
  }

  /** The forEach over the header names, assigning one key per header. */
  method BuildRow(headers: seq<string>, values: seq<string>) returns (row: Row)
    ensures row == RowOf(headers, values)
  {
    row := [];
    var index := 0;
    while index < |headers|
      invariant 0 <= index <= |headers|
      invariant row == RowOf(headers[..index], values)
    {
      var value := Cell(values, index);
      value := StripQuotes(value);
      assert headers[..index + 1][..index] == headers[..index];
      row := Put(row, headers[index], value);
      index := index + 1;
    }
    assert headers[..index] == headers;
  }

  /** The header names in order of first appearance. */
  function FirstOccurrences(headers: seq<string>): seq<string>
    decreases |headers|
  {
    if headers == [] then []
    else
      var n := |headers| - 1;
      var before := FirstOccurrences(headers[..n]);
      if headers[n] in headers[..n] then before else before + [headers[n]]
  }

  /** The keys of a row are the distinct header names, in order of first appearance. */
  lemma RowKeys(headers: seq<string>, values: seq<string>)
    ensures Keys(RowOf(headers, values)) == FirstOccurrences(headers)
    ensures Distinct(Keys(RowOf(headers, values)))
    ensures forall k :: k in Keys(RowOf(headers, values)) <==> k in headers
  {
    RowKeyOrder(headers, values);
    FirstOccurrencesDistinct(headers);
  }

  lemma {:induction false} RowKeyOrder(headers: seq<string>, values: seq<string>)
    ensures Keys(RowOf(headers, values)) == FirstOccurrences(headers)
    decreases |headers|
  {
    if headers != [] {
      var n := |headers| - 1;
      RowKeyOrder(headers[..n], values);
      FirstOccurrencesDistinct(headers[..n]);
      PutKeys(RowOf(headers[..n], values), headers[n], StripQuotes(Cell(values, n)));
    }
  }

  /** The first occurrences hold every header name once. */
  lemma {:induction false} FirstOccurrencesDistinct(headers: seq<string>)
    ensures Distinct(FirstOccurrences(headers))
    ensures forall k :: k in FirstOccurrences(headers) <==> k in headers
    decreases |headers|
  {
    if headers != [] {
      var n := |headers| - 1;
      FirstOccurrencesDistinct(headers[..n]);
      assert headers == headers[..n] + [headers[n]];
    }
  }

  /** The last position at which `key` names a column. */
  function LastIndex(headers: seq<string>, key: string): (j: nat)
    requires key in headers
    ensures j < |headers| && headers[j] == key
    ensures forall i :: j < i < |headers| ==> headers[i] != key
  {
    var n := |headers| - 1;
    if headers[n] == key then n
    else
      assert key in headers[..n] by {
        var i :| 0 <= i < |headers| && headers[i] == key;
        assert headers[..n][i] == key;
      }
      LastIndex(headers[..n], key)
  }

  /**
   * A header name maps to the field at its last column (a later duplicate
   * overwrites an earlier one), quotes stripped, "" when the line is short;
   * any other name is absent.
   */
  lemma {:induction false} RowLookup(headers: seq<string>, values: seq<string>, key: string)
    ensures key !in headers ==> Lookup(RowOf(headers, values), key) == None
    ensures key in headers ==>
      Lookup(RowOf(headers, values), key) == Some(StripQuotes(Cell(values, LastIndex(headers, key))))
    decreases |headers|
  {
    if headers == [] {
    } else {
      var n := |headers| - 1;
      var front := headers[..n];
      var before := RowOf(front, values);
      assert RowOf(headers, values) == Put(before, headers[n], StripQuotes(Cell(values, n)));
      PutLookup(before, headers[n], StripQuotes(Cell(values, n)));
      if key != headers[n] {
        RowLookup(front, values, key);
        assert key in headers <==> key in front by {
          assert headers == front + [headers[n]];
        }
        if key in headers {
          assert LastIndex(headers, key) == LastIndex(front, key);
        }
      }
    }
  }

  /** With distinct header names, column `j` maps to field `j`, or to "" past the end of a short line. */
  lemma ColumnValue(headers: seq<string>, values: seq<string>, j: nat)
    requires Distinct(headers) && j < |headers|
    ensures Lookup(RowOf(headers, values), headers[j]) == Some(StripQuotes(Cell(values, j)))
    ensures j >= |values| ==> Lookup(RowOf(headers, values), headers[j]) == Some("")
  {
    RowLookup(headers, values, headers[j]);
  }

  // ------------------------------------------------------------------ the whole text

  /** `csvText.split("\n").filter((line) => line.trim() !== "")`. */
  function Lines(text: string): seq<string> {
    NonBlank(Split(text, '\n'))
  }

  /** The lines hold no LF and none is blank. */
  lemma LinesProperties(text: string)
    ensures forall k :: 0 <= k < |Lines(text)| ==> '\n' !in Lines(text)[k] && Trim(Lines(text)[k]) != []
  {
    var pieces := Split(text, '\n');
    NonBlankKeeps(pieces);
    forall k | 0 <= k < |Lines(text)| ensures '\n' !in Lines(text)[k] {
      var j :| 0 <= j < |pieces| && pieces[j] == Lines(text)[k];
    }
  }

  /** The filter on `line.trim() !== ""`. */
  function NonBlank(pieces: seq<string>): (r: seq<string>)
    ensures |r| <= |pieces|
  {
    if pieces == [] then []
    else if Trim(pieces[0]) == [] then NonBlank(pieces[1..])
    else [pieces[0]] + NonBlank(pieces[1..])
  }

  /** The filter keeps only non-blank pieces, and drops them all exactly when every piece is blank. */
  lemma NonBlankKeeps(pieces: seq<string>)
    ensures forall k :: 0 <= k < |NonBlank(pieces)| ==> NonBlank(pieces)[k] in pieces && Trim(NonBlank(pieces)[k]) != []
    ensures (forall k :: 0 <= k < |pieces| ==> Trim(pieces[k]) == []) <==> NonBlank(pieces) == []
  {
    NonBlankKept(pieces);
    NonBlankEmpty(pieces);
    assert (forall k :: 0 <= k < |pieces| ==> Trim(pieces[k]) == []) <==> (forall x :: x in pieces ==> Trim(x) == []);
  }

  lemma {:induction false} NonBlankKept(pieces: seq<string>)
    ensures forall x :: x in NonBlank(pieces) ==> x in pieces && Trim(x) != []
    decreases |pieces|
  {
    if pieces != [] {
      NonBlankKept(pieces[1..]);
      assert forall x :: x in pieces[1..] ==> x in pieces;
    }
  }

  lemma {:induction false} NonBlankEmpty(pieces: seq<string>)
    ensures (forall x :: x in pieces ==> Trim(x) == []) <==> NonBlank(pieces) == []
    decreases |pieces|
  {
    if pieces != [] {
      var head, tail := pieces[0], pieces[1..];
      if Trim(head) == [] {
        assert NonBlank(pieces) == NonBlank(tail);
        NonBlankEmpty(tail);
        assert forall x :: x in pieces <==> x == head || x in tail;
      } else {
        assert NonBlank(pieces) == [head] + NonBlank(tail);
        assert head in pieces;
      }
    }
  }

  /** The column names: the header line's fields with a leftover quote stripped at each end. */
  function Headers(line: string): (names: seq<string>)
    ensures |names| == |Fields(line)|
  {
    var fields := Fields(line);
    seq(|fields|, k requires 0 <= k < |fields| => StripQuotes(fields[k]))
  }

  /** One row per data line, all under the same column names. */
  function RowsOf(headers: seq<string>, lines: seq<string>): (rows: seq<Row>)
    ensures |rows| == |lines|
    ensures forall i :: 0 <= i < |lines| ==> rows[i] == RowOf(headers, Fields(lines[i]))
  {
    seq(|lines|, i requires 0 <= i < |lines| => RowOf(headers, Fields(lines[i])))
  }

  lemma SliceSnoc<T>(s: seq<T>, lo: nat, hi: nat)
    requires lo <= hi < |s|
    ensures s[lo..hi + 1] == s[lo..hi] + [s[hi]]
  {
  }

  lemma RowsOfSnoc(headers: seq<string>, lines: seq<string>, line: string)
    ensures RowsOf(headers, lines + [line]) == RowsOf(headers, lines) + [RowOf(headers, Fields(line))]
  {
  }

  /** The rows parseCSV returns for a text. */
  function CsvRows(text: string): (rows: seq<Row>)
    ensures |rows| == if |Lines(text)| == 0 then 0 else |Lines(text)| - 1
  {
    var lines := Lines(text);
    if |lines| == 0 then [] else RowsOf(Headers(lines[0]), lines[1..])
  }

  /** parseCSV: the header line, then one row per remaining line. */
  method ParseCsv(csvText: string) returns (data: seq<Row>)
    ensures data == CsvRows(csvText)
  {
    var lines := Lines(csvText);
    if |lines| == 0 {
      return [];
    }
    var headers := HeaderNames(lines[0]);
    data := ParseRows(headers, lines);
  }

  /** The header line's fields, a leftover quote stripped at each end. */
  method HeaderNames(line: string) returns (headers: seq<string>)
    ensures headers == Headers(line)
  {
    var headerLine := ParseLine(line);
    headers := seq(|headerLine|, k requires 0 <= k < |headerLine| => StripQuotes(headerLine[k]));
  }

  /** The loop over the data lines: one row per line after the first. */
  method ParseRows(headers: seq<string>, lines: seq<string>) returns (data: seq<Row>)
    requires |lines| >= 1
    ensures data == RowsOf(headers, lines[1..])
  {
    data := [];
    var i := 1;
    while i < |lines|
      invariant 1 <= i <= |lines|
      invariant data == RowsOf(headers, lines[1..i])
    {
      var values := ParseLine(lines[i]);
      var row := BuildRow(headers, values);
      assert data + [row] == RowsOf(headers, lines[1..i + 1]) by {
        RowsOfSnoc(headers, lines[1..i], lines[i]);
        SliceSnoc(lines, 1, i);
      }
      data := data + [row];
      i := i + 1;
    }
    assert lines[1..i] == lines[1..];
  }

  /** Text with no non-blank line has no rows. */
  lemma BlankTextHasNoRows(text: string)
    requires forall k :: 0 <= k < |Split(text, '\n')| ==> Trim(Split(text, '\n')[k]) == []
    ensures CsvRows(text) == []
  {
    NonBlankKeeps(Split(text, '\n'));
  }

  /** Every row has exactly the distinct column names as keys. */
  lemma RowShape(text: string, i: nat)
    requires i < |CsvRows(text)|
    ensures Keys(CsvRows(text)[i]) == FirstOccurrences(Headers(Lines(text)[0]))
    ensures forall k :: k in Keys(CsvRows(text)[i]) <==> k in Headers(Lines(text)[0])
  {
    var lines := Lines(text);
    assert CsvRows(text)[i] == RowOf(Headers(lines[0]), Fields(lines[1..][i]));
    RowKeys(Headers(lines[0]), Fields(lines[1..][i]));
  }
}
