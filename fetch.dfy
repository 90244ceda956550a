/**
 * fetchEventsFromGoogleSheet over an abstract network: the answers the
 * three candidate addresses would give are an input, and the loop over
 * them, the sniff for CSV, the parse and the conversion are modelled.
 */
module SheetFetch {
  import opened Base
  import opened Text
  import opened Dates
  import opened Csv
  import opened Events
  import opened Convert

  const SheetId: string := "2PACX-1vTzGJ8fZJ0jl7ivdqAYZk2YmAaOBqmjm7rA932tMkES-xqONk7vqLJXnlDjYIICAbm8A2orUW-zuhGK"

  /** The published-sheet addresses, tried in this order. */
  const CandidateUrls: seq<string> := [
    "https://docs.google.com/spreadsheets/d/e/" + SheetId + "/pub?output=csv",
    "https://docs.google.com/spreadsheets/d/e/" + SheetId + "/pub?gid=0&single=true&output=csv",
    "https://docs.google.com/spreadsheets/d/" + SheetId + "/export?format=csv&gid=0"
  ]

  /** What one attempt gives: an exception with its message, or an HTTP status and the body text. */
  datatype Response = Threw(message: string) | Answered(status: int, body: string)

  /** `response.ok`. */
  predicate IsOk(status: int) {
    200 <= status <= 299
  }

  /**
   * The sniff: a non-blank text without "<!DOCTYPE" that holds a comma and a
   * line break.  `text.trim().length > 0` is written as `!IsBlank(text)`,
   * which TrimBlank shows to be the same test.
   */
  predicate LooksLikeCsv(text: string) {
    && text != ""
    && !Contains(text, "<!DOCTYPE")
    && !IsBlank(text)
    && Contains(text, ",")
    && Contains(text, "\n")
  }

  /** An attempt that ends the loop. */
  predicate Accepted(r: Response) {
    r.Answered? && IsOk(r.status) && LooksLikeCsv(r.body)
  }

  /** The position of the first element that satisfies `p`. */
  function FirstWhere<T>(xs: seq<T>, p: T -> bool): (r: Option<nat>)
    ensures r.Some? ==> r.value < |xs| && p(xs[r.value])
    ensures r.Some? ==> forall j :: 0 <= j < r.value ==> !p(xs[j])
    ensures r.None? ==> forall j :: 0 <= j < |xs| ==> !p(xs[j])
  {
    if xs == [] then None
    else if p(xs[0]) then Some(0)
    else
      var rest := FirstWhere(xs[1..], p);
      assert forall j :: 1 <= j < |xs| ==> xs[j] == xs[1..][j - 1];
      match rest
      case Some(j) => Some(j + 1)
      case None => None
  }

  lemma FirstWhereAt<T>(xs: seq<T>, p: T -> bool, i: nat)
    requires i < |xs| && p(xs[i])
    requires forall j :: 0 <= j < i ==> !p(xs[j])
    ensures FirstWhere(xs, p) == Some(i)
  {
  }

  /** The first attempt that ends the loop, if any. */
  function FirstAccepted(rs: seq<Response>): Option<nat> {
    FirstWhere(rs, Accepted)
  }

  /** The attempts the loop makes: up to and including the accepted one, or all of them. */
  function Tried(rs: seq<Response>): seq<Response> {
    match FirstAccepted(rs)
    case Some(i) => rs[..i + 1]
    case None => rs
  }

  /** The body of the last successful (`ok`) answer, sniffed or not. */
  function LastOkBody(rs: seq<Response>): (r: Option<string>)
    ensures r.Some? <==> exists j :: 0 <= j < |rs| && rs[j].Answered? && IsOk(rs[j].status)
  {
    if rs == [] then None
    else
      var last := rs[|rs| - 1];
      if last.Answered? && IsOk(last.status) then Some(last.body)
      else
        var r := LastOkBody(rs[..|rs| - 1]);
        assert forall j :: 0 <= j < |rs| - 1 ==> rs[..|rs| - 1][j] == rs[j];
        r
  }

  /** The message of the last exception. */
  function LastThrown(rs: seq<Response>): (r: Option<string>)
    ensures r.Some? <==> exists j :: 0 <= j < |rs| && rs[j].Threw?
  {
    if rs == [] then None
    else
      var last := rs[|rs| - 1];
      if last.Threw? then Some(last.message)
      else
        var r := LastThrown(rs[..|rs| - 1]);
        assert forall j :: 0 <= j < |rs| - 1 ==> rs[..|rs| - 1][j] == rs[j];
        r
  }

  /** One more attempt: its answer or exception becomes the last one seen, if it is of that kind. */
  lemma PrefixStep(rs: seq<Response>, i: nat)
    requires i < |rs|
    ensures var r := rs[i];
      && LastOkBody(rs[..i + 1]) == (if r.Answered? && IsOk(r.status) then Some(r.body) else LastOkBody(rs[..i]))
      && LastThrown(rs[..i + 1]) == (if r.Threw? then Some(r.message) else LastThrown(rs[..i]))
  {
    assert rs[..i + 1][..i] == rs[..i];
  }

  /**
   * The loop over the candidate addresses: every `ok` answer's body is kept
   * as the text, every exception's message as the last error, and the loop
   * stops at the first answer that passes the sniff.
   */
  method TryCandidates(responses: seq<Response>) returns (csvText: Option<string>, lastError: Option<string>, successful: Option<nat>)
    requires |responses| == |CandidateUrls|
    ensures successful == FirstAccepted(responses)
    ensures csvText == LastOkBody(Tried(responses))
    ensures lastError == LastThrown(Tried(responses))
  {
    csvText, lastError, successful := None, None, None;
    var i := 0;
    while i < |CandidateUrls|
      invariant 0 <= i <= |responses|
      invariant forall j :: 0 <= j < i ==> !Accepted(responses[j])
      invariant csvText == LastOkBody(responses[..i])
      invariant lastError == LastThrown(responses[..i])
    {
      PrefixStep(responses, i);
      match responses[i] {
        case Threw(message) =>
          lastError := Some(message);
        case Answered(status, body) =>
          if IsOk(status) {
            csvText := Some(body);
            if LooksLikeCsv(body) {
              successful := Some(i);
              FirstWhereAt(responses, Accepted, i);
              return;
            }
          }
      }
      i := i + 1;
    }
    assert responses[..i] == responses;
  }

  /** The loop stops at an answer that passed the sniff, and that answer's body is the text parsed. */
  lemma AcceptedBodyParsed(responses: seq<Response>)
    requires FirstAccepted(responses).Some?
    ensures LastOkBody(Tried(responses)) == Some(responses[FirstAccepted(responses).value].body)
    ensures LooksLikeCsv(LastOkBody(Tried(responses)).value)
  {
  }

  /**
   * With no answer passing the sniff, the body of the last `ok` answer is
   * still kept, so a rejected page (an HTML error page, say) goes on to be
   * parsed.
   */
  lemma RejectedBodyKept(responses: seq<Response>, k: nat)
    requires FirstAccepted(responses).None?
    requires k < |responses| && responses[k].Answered? && IsOk(responses[k].status)
    requires forall j :: k < j < |responses| ==> !(responses[j].Answered? && IsOk(responses[j].status))
    ensures LastOkBody(Tried(responses)) == Some(responses[k].body)
  {
    LastOkBodyAt(responses, k);
  }

  lemma {:induction false} LastOkBodyAt(rs: seq<Response>, k: nat)
    requires k < |rs| && rs[k].Answered? && IsOk(rs[k].status)
    requires forall j :: k < j < |rs| ==> !(rs[j].Answered? && IsOk(rs[j].status))
    ensures LastOkBody(rs) == Some(rs[k].body)
    decreases |rs|
  {
    if k < |rs| - 1 {
      LastOkBodyAt(rs[..|rs| - 1], k);
    }
  }

  /** A failing status is never recorded as an error: only exceptions are. */
  lemma StatusIsNotAnError(responses: seq<Response>)
    requires forall j :: 0 <= j < |responses| ==> responses[j].Answered?
    ensures LastThrown(Tried(responses)) == None
  {
  }

  // ------------------------------------------------------------------ from text to events

  /** The three ways the service fails. */
  datatype FetchError = Unreachable(reason: Option<string>) | EmptySheet | NoValidEvents

  const UnreachableText: string := "No se pudo acceder al Google Sheet. Verifica que esté publicado públicamente."
  const EmptySheetText: string := "El Google Sheet está vacío o no tiene datos válidos."
  const NoValidEventsText: string := "No se encontraron eventos válidos en el Google Sheet. Verifica el formato de los datos."

  /** The thrown error's `message`: the last exception's message unless that is missing or empty. */
  function Message(e: FetchError): (m: string)
    ensures m != ""
    ensures e.Unreachable? && e.reason.Some? && e.reason.value != "" ==> m == e.reason.value
  {
    match e
    case Unreachable(reason) =>
      if reason.Some? && reason.value != "" then reason.value else UnreachableText
    case EmptySheet => EmptySheetText
    case NoValidEvents => NoValidEventsText
  }

  /** `xs.map(f).filter((y) => y !== null)`. */
  function FilterMap<T, U>(xs: seq<T>, f: T -> Option<U>): (ys: seq<U>)
    ensures |ys| <= |xs|
  {
    if xs == [] then []
    else
      var rest := FilterMap(xs[1..], f);
      match f(xs[0])
      case Some(y) => [y] + rest
      case None => rest
  }

  /** The first element is converted, or dropped, ahead of the rest. */
  lemma FilterMapCons<T, U>(x: T, xs: seq<T>, f: T -> Option<U>)
    ensures FilterMap([x] + xs, f) == (if f(x).Some? then [f(x).value] else []) + FilterMap(xs, f)
  {
    var s := [x] + xs;
    assert s[0] == x && s[1..] == xs;
  }

  /**
   * What the filter keeps: only values some element converts to, and
   * nothing exactly when no element converts.
   */
  lemma {:induction false} FilterMapKeeps<T, U>(xs: seq<T>, f: T -> Option<U>)
    ensures forall y :: y in FilterMap(xs, f) ==> exists j :: 0 <= j < |xs| && f(xs[j]) == Some(y)
    ensures FilterMap(xs, f) == [] <==> forall j :: 0 <= j < |xs| ==> f(xs[j]).None?
    decreases |xs|
  {
    if xs != [] {
      FilterMapKeeps(xs[1..], f);
      assert xs == [xs[0]] + xs[1..];
      FilterMapCons(xs[0], xs[1..], f);
      assert forall j :: 1 <= j < |xs| ==> xs[j] == xs[1..][j - 1];
    }
  }

  /**
   * The filter works element by element, in order: filtering two pieces
   * and joining the results is filtering the whole.
   */
  lemma {:induction false} FilterMapConcat<T, U>(xs: seq<T>, ys: seq<T>, f: T -> Option<U>)
    ensures FilterMap(xs + ys, f) == FilterMap(xs, f) + FilterMap(ys, f)
    decreases |xs|
  {
    if xs == [] {
      assert xs + ys == ys;
    } else {
      FilterMapConcat(xs[1..], ys, f);
      assert xs + ys == [xs[0]] + (xs[1..] + ys);
      assert xs == [xs[0]] + xs[1..];
      FilterMapCons(xs[0], xs[1..] + ys, f);
      FilterMapCons(xs[0], xs[1..], f);
    }
  }

  /** `rows.map(convertRowToEvent).filter((event) => event !== null)`. */
  function ConvertAll(rows: seq<Row>, engine: string -> Option<Ymd>): (events: seq<Event>)
    ensures |events| <= |rows|
    ensures forall e :: e in events ==> ParseDay(e.date).Some? && InNormalForm(e.eventType)
    ensures events == [] <==> forall k :: 0 <= k < |rows| ==> ConvertRow(rows[k], engine).None?
  {
    var convert := (row: Row) => ConvertRow(row, engine);
    var events := FilterMap(rows, convert);
    assert forall e :: e in events ==> ParseDay(e.date).Some? && InNormalForm(e.eventType) by {
      forall e | e in events
        ensures ParseDay(e.date).Some? && InNormalForm(e.eventType)
      {
        FilterMapKeeps(rows, convert);
        var j :| 0 <= j < |rows| && convert(rows[j]) == Some(e);
      }
    }
    assert events == [] <==> forall k :: 0 <= k < |rows| ==> ConvertRow(rows[k], engine).None? by {
      FilterMapKeeps(rows, convert);
    }
    events
  }

  /**
   * What the service returns once the loop is over: no text (or an empty
   * one) fails as unreachable, no rows as an empty sheet, no convertible row
   * as no valid events; otherwise the converted events.
   */
  function Outcome(csvText: Option<string>, lastError: Option<string>, engine: string -> Option<Ymd>): (r: Result<seq<Event>, FetchError>)
    ensures r.Failure? && r.error.Unreachable? <==> csvText.None? || csvText.value == ""
    ensures r.Failure? && r.error.Unreachable? ==> r.error.reason == lastError
    ensures r.Failure? && r.error == EmptySheet <==> csvText.Some? && csvText.value != "" && CsvRows(csvText.value) == []
    ensures r.Success? ==> r.value != [] && r.value == ConvertAll(CsvRows(csvText.value), engine)
    ensures r.Success? <==>
      csvText.Some? && csvText.value != "" && CsvRows(csvText.value) != []
      && ConvertAll(CsvRows(csvText.value), engine) != []
    ensures r == Failure(NoValidEvents) <==>
      csvText.Some? && csvText.value != "" && CsvRows(csvText.value) != []
      && ConvertAll(CsvRows(csvText.value), engine) == []
  {
    if csvText.None? || csvText.value == "" then Failure(Unreachable(lastError))
    else
      var rows := CsvRows(csvText.value);
      if rows == [] then Failure(EmptySheet)
      else
        var events := ConvertAll(rows, engine);
        if events == [] then Failure(NoValidEvents) else Success(events)
  }

  /**
   * fetchEventsFromGoogleSheet: the candidate loop, then the checks on the
   * text, the parse and the conversion.
   */
  method FetchEventsFromSheet(responses: seq<Response>, engine: string -> Option<Ymd>)
    returns (result: Result<seq<Event>, FetchError>)
    requires |responses| == |CandidateUrls|
    ensures result == Outcome(LastOkBody(Tried(responses)), LastThrown(Tried(responses)), engine)
  {
    var csvText, lastError, successful := TryCandidates(responses);
    if csvText.None? || csvText.value == "" {
      return Failure(Unreachable(lastError));
    }
    var rows := ParseCsv(csvText.value);
    if |rows| == 0 {
      return Failure(EmptySheet);
    }
    var events := ConvertAll(rows, engine);
    if |events| == 0 {
      return Failure(NoValidEvents);
    }
    return Success(events);
  }

  /** A text with only a header line, or only blank lines, is an empty sheet. */
  lemma HeaderOnlyIsEmpty(text: string, engine: string -> Option<Ymd>, lastError: Option<string>)
    requires text != "" && |Lines(text)| <= 1
    ensures Outcome(Some(text), lastError, engine) == Failure(EmptySheet)
  {
  }
}
