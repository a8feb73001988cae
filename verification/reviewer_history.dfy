/**
  The personnel detail page of one request: the decision history it keeps
  in local state and `handleAction`, which appends the reviewer's decision.
  The page never changes the request it displays. `toLocaleDateString()`
  arrives as a parameter; the file picker's answer arrives as an event.
 */
module ReviewerHistory {
  import opened Common
  import opened Requests

  /** The two actions of the page: "validé" or "rejeté". */
  datatype Decision = Validated | Rejected

  function DecisionLabel(d: Decision): string {
    match d
    case Validated => "validé"
    case Rejected => "rejeté"
  }

  datatype HistoryEntry = HistoryEntry(name: string, decision: Decision, reason: string, date: string)

  /** The page's state: the request it was opened on, the history, the reason
      input and the name of the attached file. */
  datatype Details = Details(
    request: Request,
    history: seq<HistoryEntry>,
    reasonText: string,
    uploadedFile: Option<string>)

  const InitialHistory: seq<HistoryEntry> := [
    HistoryEntry("Admin", Validated, "Vérifié OK", "06/10/2025"),
    HistoryEntry("Professeur", Rejected, "Info manquante", "07/10/2025")
  ]

  function Open(request: Request): (d: Details)
    ensures d.request == request && d.history == InitialHistory
    ensures |d.history| == 2 && d.reasonText == "" && d.uploadedFile == None
  {
    Details(request, InitialHistory, "", None)
  }

  const MissingReasonAlert := Alert(Error, "Veuillez indiquer la raison.")

  function DecisionAlert(action: Decision): Alert {
    Alert(Success, "Document " + DecisionLabel(action) + " !")
  }

  /** `handleAction`: an empty reason raises an error and changes nothing;
      any other reason, blank ones included, appends one entry signed "Vous"
      at the end of the history and clears the reason and the attached file. */
  function HandleAction(d: Details, action: Decision, today: string): (r: (Details, Alert))
    ensures d.reasonText == "" ==> r == (d, MissingReasonAlert)
    ensures d.reasonText != "" ==>
      && |r.0.history| == |d.history| + 1
      && r.0.history[..|d.history|] == d.history
      && r.0.history[|d.history|] == HistoryEntry("Vous", action, d.reasonText, today)
      && r.0.reasonText == "" && r.0.uploadedFile == None
      && r.1 == DecisionAlert(action)
    ensures r.0.request == d.request
  {
    if d.reasonText == "" then (d, MissingReasonAlert)
    else
      var entry := HistoryEntry("Vous", action, d.reasonText, today);
      (Details(d.request, d.history + [entry], "", None), DecisionAlert(action))
  }

  /** A reason made of spaces is accepted as it is. */
  lemma BlankReasonAccepted(d: Details, action: Decision, today: string)
    requires d.reasonText == "   "
    ensures HandleAction(d, action, today).1.kind == Success
    ensures HandleAction(d, action, today).0.history[|d.history|].reason == "   "
  {
  }

  /** The colour of an entry's status: green for "validé", red otherwise. */
  function EntryColour(e: HistoryEntry): (c: string)
    ensures c == "#059669" <==> DecisionLabel(e.decision) == "validé"
    ensures c == "#b91c1c" <==> DecisionLabel(e.decision) != "validé"
  {
    if e.decision == Validated then "#059669" else "#b91c1c"
  }

  // Sessions on the page

  datatype Event =
    | EditReason(text: string)
    | FilePicked(name: string)
    | Act(action: Decision, today: string)

  function Step(d: Details, e: Event): Details {
    match e
    case EditReason(t) => d.(reasonText := t)
    case FilePicked(n) => d.(uploadedFile := Some(n))
    case Act(a, today) => HandleAction(d, a, today).0
  }

  function Run(d: Details, events: seq<Event>): Details
    decreases |events|
  {
    if |events| == 0 then d else Run(Step(d, events[0]), events[1..])
  }

  /** How many of the events are decisions the page accepts. */
  function Accepted(d: Details, events: seq<Event>): nat
    decreases |events|
  {
    if |events| == 0 then 0
    else
      var n := if events[0].Act? && d.reasonText != "" then 1 else 0;
      n + Accepted(Step(d, events[0]), events[1..])
  }

  /** The history only grows, one entry per accepted decision, never losing
      or reordering earlier ones, and the displayed request never changes:
      there is no guard against deciding twice and no status update. */
  lemma {:induction false} HistoryAppendOnly(d: Details, events: seq<Event>)
    ensures var r := Run(d, events);
      && |r.history| == |d.history| + Accepted(d, events)
      && r.history[..|d.history|] == d.history
      && r.request == d.request
    decreases |events|
  {
    if |events| > 0 {
      var d' := Step(d, events[0]);
      HistoryAppendOnly(d', events[1..]);
      assert d'.history[..|d.history|] == d.history;
      var r := Run(d, events);
      assert r.history[..|d.history|] == r.history[..|d'.history|][..|d.history|];
    }
  }

  /** Deciding twice in a row, with a reason each time, records both decisions. */
  lemma RepeatedDecisionsAppend(d: Details, a1: Decision, a2: Decision, t1: string, t2: string, reason: string)
    requires d.reasonText != "" && reason != ""
    ensures var r := Run(d, [Act(a1, t1), EditReason(reason), Act(a2, t2)]);
      && r.history == d.history + [HistoryEntry("Vous", a1, d.reasonText, t1), HistoryEntry("Vous", a2, reason, t2)]
      && r.request.status == d.request.status
  {
    var d1 := Step(d, Act(a1, t1));
    var d2 := Step(d1, EditReason(reason));
    var d3 := Step(d2, Act(a2, t2));
    assert Run(d, [Act(a1, t1), EditReason(reason), Act(a2, t2)]) == Run(d1, [EditReason(reason), Act(a2, t2)]);
    assert Run(d1, [EditReason(reason), Act(a2, t2)]) == Run(d2, [Act(a2, t2)]);
    assert Run(d2, [Act(a2, t2)]) == Run(d3, []);
  }
}
