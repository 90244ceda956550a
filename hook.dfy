/**
 * useGoogleSheetEvents: the four pieces of state the calendar reads while
 * its events load, and how one fetch moves them.  The fetch itself is
 * SheetFetch's, over the responses the network gave; a failure falls back
 * on the fixed list of events.
 */
module EventsHook {
  import opened Base
  import opened Dates
  import opened Events
  import opened SheetFetch
  import opened Fixture

  const ErrorPrefix: string := "No se pudo cargar desde Google Sheet: "
  const ErrorSuffix: string := ". Usando datos de respaldo."

  /** The error shown over the fallback: the failure's message between a fixed opening and closing. */
  function FallbackError(e: FetchError): (text: string)
    ensures |text| > |ErrorPrefix| + |ErrorSuffix|
    ensures text[..|ErrorPrefix|] == ErrorPrefix && text[|text| - |ErrorSuffix|..] == ErrorSuffix
    ensures text[|ErrorPrefix|..|text| - |ErrorSuffix|] == Message(e)
  {
    ErrorPrefix + Message(e) + ErrorSuffix
  }

  /** Two failures show the same error exactly when their messages are the same. */
  lemma FallbackErrorNamesCause(e1: FetchError, e2: FetchError)
    ensures FallbackError(e1) == FallbackError(e2) <==> Message(e1) == Message(e2)
  {
    var t1, t2 := FallbackError(e1), FallbackError(e2);
    if t1 == t2 {
      assert t1[|ErrorPrefix|..|t1| - |ErrorSuffix|] == t2[|ErrorPrefix|..|t2| - |ErrorSuffix|];
    }
  }

  /** The hook's state. */
  class EventsState {
    var events: seq<Event>
    var loading: bool
    var error: Option<string>
    var usingFallback: bool

    /** The fallback is in use exactly when an error is shown, and then the events are the fixed list. */
    predicate Valid()
      reads this
    {
      && (usingFallback <==> error.Some?)
      && (usingFallback ==> events == AcademicEvents)
    }

    /** The first render: no events yet, loading, no error, no fallback. */
    constructor ()
      ensures Valid()
      ensures events == [] && loading && error == None && !usingFallback
    {
      events := [];
      loading := true;
      error := None;
      usingFallback := false;
    }

    /** The start of fetchEvents: loading, the error and the fallback cleared, the events kept. */
    method Begin()
      modifies this
      ensures Valid()
      ensures loading && error == None && !usingFallback && events == old(events)
    {
      loading := true;
      error := None;
      usingFallback := false;
    }

    /**
     * The end of fetchEvents: the fetched events replace the old ones, or on
     * a failure the fixed list does, with the fallback flag and the error;
     * either way loading ends.
     */
    method Settle(outcome: Result<seq<Event>, FetchError>)
      requires error == None && !usingFallback
      modifies this
      ensures Valid() && !loading
      ensures outcome.Success? ==> events == outcome.value && error == None && !usingFallback
      ensures outcome.Failure? ==>
        events == AcademicEvents && usingFallback && error == Some(FallbackError(outcome.error))
    {
      if outcome.Success? {
        events := outcome.value;
      } else {
        events := AcademicEvents;
        usingFallback := true;
        error := Some(FallbackError(outcome.error));
      }
      loading := false;
    }

    /**
     * fetchEvents (also the hook's refetch): one load from the sheet.  The
     * state it leaves depends only on the responses, not on an earlier
     * load, and the calendar always has events afterwards.
     */
    method FetchEvents(responses: seq<Response>, engine: string -> Option<Ymd>)
      requires |responses| == |CandidateUrls|
      modifies this
      ensures Valid() && !loading && events != []
      ensures var outcome := Outcome(LastOkBody(Tried(responses)), LastThrown(Tried(responses)), engine);
        && (outcome.Success? ==> events == outcome.value && error == None && !usingFallback)
        && (outcome.Failure? ==>
              events == AcademicEvents && usingFallback && error == Some(FallbackError(outcome.error)))
    {
      Begin();
      var outcome := FetchEventsFromSheet(responses, engine);
      Settle(outcome);
      FixtureShape(AcademicEvents);
    }
  }
}
