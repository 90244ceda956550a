/**
 * One cell of the month grid: whether its modal of events is open, and the
 * count shown under the day number.  The cell colours and labels its events
 * with the switches of EventTypes (its normalizeType has no guard, which
 * GuardIsRedundant shows to be the same normalization).
 */
module DayCell {
  import opened Base
  import opened Text
  import opened Events

  /** handleCellClick: a click opens the modal when the day has events, and does nothing otherwise. */
  function Click(isModalOpen: bool, events: seq<Event>): (open: bool)
    ensures open <==> isModalOpen || events != []
  {
    if |events| > 0 then true else isModalOpen
  }

  /** The modal's onClose. */
  function Close(isModalOpen: bool): (open: bool)
    ensures !open
  {
    false
  }

  /** What the user can do to a cell. */
  datatype CellAction = ClickCell | CloseModal

  /** The modal's state after a series of actions, from a closed modal. */
  function Run(events: seq<Event>, actions: seq<CellAction>): (open: bool)
    ensures open ==> events != []
    ensures open <==> events != [] && actions != [] && actions[|actions| - 1] == ClickCell
    decreases |actions|
  {
    if actions == [] then false
    else
      var before := Run(events, actions[..|actions| - 1]);
      assert actions == actions[..|actions| - 1] + [actions[|actions| - 1]];
      match actions[|actions| - 1]
      case ClickCell => Click(before, events)
      case CloseModal => Close(before)
  }

  /**
   * The count under the day number: nothing for an empty day, otherwise the
   * count and "evento" or "eventos".
   */
  function CountLabel(events: seq<Event>): (r: Option<string>)
    ensures r.Some? <==> events != []
  {
    if |events| > 0 then Some(Counted(|events|, "evento", "eventos")) else None
  }

  /** The label reads back the number of events, and says "evento" exactly when there is one. */
  lemma CountLabelReadsBack(events: seq<Event>)
    requires events != []
    ensures var r, k := CountLabel(events).value, |NatToString(|events|)|;
      && k < |r| && AllDigits(r[..k]) && DigitsValue(r[..k]) == |events| && r[k] == ' '
      && (r[k + 1..] == "evento" <==> |events| == 1)
      && (r[k + 1..] == "eventos" <==> |events| != 1)
  {
    CountedReadsBack(|events|, "evento", "eventos");
  }
}
