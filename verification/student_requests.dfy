/**
  The student's request form: the ordered validation chain of
  `validateAndSubmit`, the newest-first request list it feeds, the id
  counter, the reset of the form, and the "Annuler" cancellation.
  The 1.5 s submission delay is taken as instantaneous; `Date.now()`,
  `toLocaleDateString()` and `String(getFullYear())` arrive as parameters.
 */
module StudentRequests {
  import opened Common
  import opened Text
  import opened Filtering
  import opened Requests

  const DocumentTypes: seq<string> := [
    "Attestation d'inscription",
    "Attestation de réussite",
    "Bulletin",
    "Convention",
    "Autre"
  ]

  /** The value `idCounterRef` starts from; ids use the pre-incremented value. */
  const FirstCounter: nat := 1000

  /** The four input fields, as the text the widgets hold. */
  datatype Form = Form(docType: string, year: string, copies: string, reason: string)

  /** The screen's state: the form, the request list (newest first) and the id counter. */
  datatype Screen = Screen(form: Form, requests: seq<Request>, counter: nat)

  /** The form as it is on opening and after each successful submit;
      `thisYear` is the text of the current year, `String(currentYear)`,
      which is also the first of the year chips. */
  function DefaultForm(thisYear: string): (f: Form)
    ensures f.docType == DocumentTypes[0] && f.copies == "1" && f.reason == ""
    ensures f.year == thisYear
  {
    Form(DocumentTypes[0], thisYear, "1", "")
  }

  function InitialScreen(thisYear: string): Screen {
    Screen(DefaultForm(thisYear), [], FirstCounter)
  }

  // Validation

  /** The checks of `validateAndSubmit`, in the order they run. */
  datatype Check = TypeMissing | YearMissing | CopiesInvalid | ReasonTooShort

  const CheckOrder: seq<Check> := [TypeMissing, YearMissing, CopiesInvalid, ReasonTooShort]

  /** The copies test: `Number(copies)` is NaN or below 1. */
  predicate CopiesRejected(copies: string) {
    var n := ParseNumber(copies);
    n.NaN? || n.value < 1
  }

  /** The reason test: fewer than three UTF-16 code units once trimmed. */
  predicate ReasonRejected(reason: string) {
    Utf16Length(Trim(reason)) < 3
  }

  /** Whether the form fails check `c` on its own. */
  predicate Fails(f: Form, c: Check) {
    match c
    case TypeMissing => f.docType == ""
    case YearMissing => f.year == ""
    case CopiesInvalid => CopiesRejected(f.copies)
    case ReasonTooShort => ReasonRejected(f.reason)
  }

  /** The test `validateAndSubmit` applies to form `f`. */
  function FailsOn(f: Form): Check -> bool {
    c => Fails(f, c)
  }

  /** `checks[k]` fails and every check before it passes. */
  predicate FirstFailingAt<C>(fails: C -> bool, checks: seq<C>, k: int) {
    0 <= k < |checks| && fails(checks[k]) && forall i :: 0 <= i < k ==> !fails(checks[i])
  }

  /** Runs `checks` in order and stops at the first that fails. */
  function FirstFailing<C(==)>(fails: C -> bool, checks: seq<C>): (r: Option<C>)
    ensures r.None? <==> forall i :: 0 <= i < |checks| ==> !fails(checks[i])
    ensures r.Some? ==> exists k :: FirstFailingAt(fails, checks, k) && checks[k] == r.value
    decreases |checks|
  {
    if |checks| == 0 then None
    else if fails(checks[0]) then
      assert FirstFailingAt(fails, checks, 0);
      Some(checks[0])
    else
      var r := FirstFailing(fails, checks[1..]);
      assert forall i :: 1 <= i < |checks| ==> checks[i] == checks[1..][i - 1];
      if r.Some? then
        var k :| FirstFailingAt(fails, checks[1..], k) && checks[1..][k] == r.value;
        assert FirstFailingAt(fails, checks, k + 1);
        r
      else r
  }

  /** The outcome of the checks of `validateAndSubmit` on form `f`. */
  function FirstFailure(f: Form): Option<Check> {
    FirstFailing(FailsOn(f), CheckOrder)
  }

  /** On four checks, the chain picks the first that fails, in order. */
  lemma FirstOfFour<C>(fails: C -> bool, c0: C, c1: C, c2: C, c3: C)
    ensures FirstFailing(fails, [c0, c1, c2, c3]) ==
      if fails(c0) then Some(c0)
      else if fails(c1) then Some(c1)
      else if fails(c2) then Some(c2)
      else if fails(c3) then Some(c3)
      else None
  {
    var checks := [c0, c1, c2, c3];
    var r := FirstFailing(fails, checks);
    if r.Some? {
      var k :| FirstFailingAt(fails, checks, k) && checks[k] == r.value;
      assert 0 < k ==> !fails(checks[0]);
      assert 1 < k ==> !fails(checks[1]);
      assert 2 < k ==> !fails(checks[2]);
    } else {
      assert !fails(checks[0]) && !fails(checks[1]);
      assert !fails(checks[2]) && !fails(checks[3]);
    }
  }

  /** `validateAndSubmit`'s guard clauses, one after the other. */
  lemma FirstFailureChain(f: Form)
    ensures FirstFailure(f) ==
      if f.docType == "" then Some(TypeMissing)
      else if f.year == "" then Some(YearMissing)
      else if CopiesRejected(f.copies) then Some(CopiesInvalid)
      else if ReasonRejected(f.reason) then Some(ReasonTooShort)
      else None
  {
    var fails := FailsOn(f);
    FirstOfFour(fails, TypeMissing, YearMissing, CopiesInvalid, ReasonTooShort);
    assert fails(TypeMissing) == (f.docType == "");
    assert fails(YearMissing) == (f.year == "");
    assert fails(CopiesInvalid) == CopiesRejected(f.copies);
    assert fails(ReasonTooShort) == ReasonRejected(f.reason);
  }

  /** The checks run type, year, copies, reason, and the first failure wins. */
  lemma ValidationOrder(f: Form)
    ensures FirstFailure(f) == Some(TypeMissing) <==> f.docType == ""
    ensures FirstFailure(f) == Some(YearMissing) <==> f.docType != "" && f.year == ""
    ensures FirstFailure(f) == Some(CopiesInvalid) <==>
      f.docType != "" && f.year != "" && CopiesRejected(f.copies)
    ensures FirstFailure(f) == Some(ReasonTooShort) <==>
      f.docType != "" && f.year != "" && !CopiesRejected(f.copies) && ReasonRejected(f.reason)
    ensures FirstFailure(f) == None <==>
      f.docType != "" && f.year != "" && !CopiesRejected(f.copies) && !ReasonRejected(f.reason)
  {
    FirstFailureChain(f);
  }

  /** The alert each failed check raises: an error for a missing type or
      year, a warning for the copies, a hint for the reason; never a success. */
  function CheckAlert(c: Check): (a: Alert)
    ensures a.kind == Error <==> c == TypeMissing || c == YearMissing
    ensures a.kind == Warning <==> c == CopiesInvalid
    ensures a.kind == Info <==> c == ReasonTooShort
  {
    match c
    case TypeMissing => Alert(Error, "Sélectionnez le type de document.")
    case YearMissing => Alert(Error, "Indiquez l'année scolaire.")
    case CopiesInvalid => Alert(Warning, "Le nombre d'exemplaires doit être au moins 1.")
    case ReasonTooShort => Alert(Info, "Expliquez brièvement la raison (au moins 3 caractères).")
  }

  const SubmittedAlert := Alert(Success, "Votre demande a été envoyée !")

  /** A reason that starts and ends with a visible character is rejected
      exactly when its `length` is below three; a character outside the Basic
      Multilingual Plane counts twice, so only Basic Multilingual Plane
      reasons need three characters. */
  lemma VisibleReasonLength(reason: string)
    requires reason != [] && !IsWhite(reason[0]) && !IsWhite(reason[|reason| - 1])
    ensures ReasonRejected(reason) <==> Utf16Length(reason) < 3
    ensures (forall i :: 0 <= i < |reason| ==> Units(reason[i]) == 1) ==> (ReasonRejected(reason) <==> |reason| < 3)
  {
    TrimVisibleEnds(reason);
    Utf16LengthBmp(reason);
  }

  /** Two emoji make a reason of `length` 4, which is accepted. */
  lemma TwoEmojiReasonAccepted()
    ensures !ReasonRejected("\U{1F600}\U{1F600}")
  {
    var reason := "\U{1F600}\U{1F600}";
    assert !IsWhite(reason[0]) && !IsWhite(reason[1]);
    VisibleReasonLength(reason);
    assert reason[1..][1..] == [];
  }

  /** White space typed around the reason never counts towards its length. */
  lemma ReasonPaddingIgnored(a: string, reason: string, b: string)
    requires AllWhite(a) && AllWhite(b)
    ensures ReasonRejected(a + reason + b) <==> ReasonRejected(reason)
  {
    TrimIgnoresPadding(a, reason, b);
  }

  // Submit

  /** `validateAndSubmit`: on the first failing check, its alert and nothing
      else; otherwise a new "en cours" request at the head of the list, the
      counter advanced, the form back to its defaults and a success alert. */
  function Submit(sc: Screen, thisYear: string, now: int, today: string): (r: (Screen, Alert))
    ensures FirstFailure(sc.form).Some? ==> r.0 == sc && r.1 == CheckAlert(FirstFailure(sc.form).value)
    ensures r.1.kind == Success <==> FirstFailure(sc.form).None?
    ensures r.1.kind == Success ==>
      && |r.0.requests| == |sc.requests| + 1
      && r.0.requests[1..] == sc.requests
      && r.0.requests[0] == Request(Generated(now, sc.counter + 1), sc.form.docType, sc.form.year,
           ParseNumber(sc.form.copies).value, Trim(sc.form.reason), EnCours, today)
      && r.0.requests[0].copies >= 1 && Utf16Length(r.0.requests[0].reason) >= 3
      && r.0.counter == sc.counter + 1
      && r.0.form == DefaultForm(thisYear)
  {
    match FirstFailure(sc.form)
    case Some(c) => (sc, CheckAlert(c))
    case None =>
      var f := sc.form;
      ValidationOrder(f);
      var serial := sc.counter + 1;
      var req := Request(Generated(now, serial), f.docType, f.year,
                         ParseNumber(f.copies).value, Trim(f.reason), EnCours, today);
      var requests := [req] + sc.requests;
      assert requests[1..] == sc.requests;
      (Screen(DefaultForm(thisYear), requests, serial), SubmittedAlert)
  }

  // Cancel

  const CancelRefusedAlert := Alert(Error, "Vous ne pouvez annuler qu'une demande en cours.")

  /** The "Annuler" button of the card showing `req`: refused with an error
      unless `req` is "en cours"; otherwise every entry with its id is
      dropped and the others stay in order. No alert on success. */
  function Cancel(sc: Screen, req: Request): (r: (Screen, Option<Alert>))
    ensures req.status != EnCours ==> r == (sc, Some(CancelRefusedAlert))
    ensures req.status == EnCours ==>
      && r.1 == None
      && r.0.form == sc.form && r.0.counter == sc.counter
      && IsSubsequence(r.0.requests, sc.requests)
      && (forall x :: x in r.0.requests <==> x in sc.requests && x.id != req.id)
      && (forall x :: multiset(r.0.requests)[x] == if x.id != req.id then multiset(sc.requests)[x] else 0)
  {
    if req.status != EnCours then (sc, Some(CancelRefusedAlert))
    else
      var keep := (x: Request) => x.id != req.id;
      FilterCounts(sc.requests, keep);
      (sc.(requests := Filter(sc.requests, keep)), None)
  }

  // Form edits

  /** What the user can do on the screen. */
  datatype Event =
    | SelectType(docType: string)
    | SelectYear(year: string)
    | EditCopies(copies: string)
    | EditReason(reason: string)
    | PressSubmit(now: int, today: string)
    | PressCancel(req: Request)

  function Step(sc: Screen, thisYear: string, e: Event): Screen {
    match e
    case SelectType(t) => sc.(form := sc.form.(docType := t))
    case SelectYear(y) => sc.(form := sc.form.(year := y))
    case EditCopies(c) => sc.(form := sc.form.(copies := c))
    case EditReason(s) => sc.(form := sc.form.(reason := s))
    case PressSubmit(now, today) => Submit(sc, thisYear, now, today).0
    case PressCancel(req) => Cancel(sc, req).0
  }

  function Run(sc: Screen, thisYear: string, events: seq<Event>): Screen
    decreases |events|
  {
    if |events| == 0 then sc else Run(Step(sc, thisYear, events[0]), thisYear, events[1..])
  }

  // Invariant

  function Serial(r: Request): int {
    if r.id.Generated? then r.id.serial else -1
  }

  /** What the screen keeps true of its list: every request is "en cours",
      carries a generated id drawn from the counter, and the list is ordered
      newest first, so that no two requests share a serial. */
  predicate Valid(sc: Screen) {
    && sc.counter >= FirstCounter
    && (forall i :: 0 <= i < |sc.requests| ==>
          && sc.requests[i].status == EnCours
          && sc.requests[i].id.Generated?
          && FirstCounter < sc.requests[i].id.serial <= sc.counter)
    && StrictlyDecreasing(sc.requests, Serial)
  }

  lemma InitialValid(thisYear: string)
    ensures Valid(InitialScreen(thisYear))
  {
  }

  /** Putting a request drawn from the next serial in front of a valid list
      keeps it valid. */
  lemma PrependKeepsValid(sc: Screen, next: Screen)
    requires Valid(sc)
    requires |next.requests| == |sc.requests| + 1 && next.requests[1..] == sc.requests
    requires next.requests[0].status == EnCours && next.requests[0].id.Generated?
    requires next.requests[0].id.serial == sc.counter + 1 && next.counter == sc.counter + 1
    ensures Valid(next)
  {
    forall i | 0 < i < |next.requests|
      ensures next.requests[i].status == EnCours && next.requests[i].id.Generated?
      ensures FirstCounter < next.requests[i].id.serial <= next.counter
    {
      assert next.requests[i] == sc.requests[i - 1];
    }
    forall i, j | 0 <= i < j < |next.requests| ensures Serial(next.requests[i]) > Serial(next.requests[j]) {
      assert next.requests[j] == sc.requests[j - 1];
      if i > 0 {
        assert next.requests[i] == sc.requests[i - 1];
      }
    }
  }

  lemma SubmitPreservesValid(sc: Screen, thisYear: string, now: int, today: string)
    requires Valid(sc)
    ensures Valid(Submit(sc, thisYear, now, today).0)
  {
    if FirstFailure(sc.form).None? {
      PrependKeepsValid(sc, Submit(sc, thisYear, now, today).0);
    }
  }

  /** Deleting requests from a valid list, counter untouched, keeps it valid. */
  lemma DeletionKeepsValid(sc: Screen, next: Screen)
    requires Valid(sc)
    requires next.counter == sc.counter && IsSubsequence(next.requests, sc.requests)
    ensures Valid(next)
  {
    SubsequenceKeepsOrder(next.requests, sc.requests, Serial);
    SubsequenceMembers(next.requests, sc.requests);
    forall i | 0 <= i < |next.requests|
      ensures next.requests[i].status == EnCours && next.requests[i].id.Generated?
      ensures FirstCounter < next.requests[i].id.serial <= next.counter
    {
      assert next.requests[i] in sc.requests;
    }
  }

  lemma CancelPreservesValid(sc: Screen, req: Request)
    requires Valid(sc)
    ensures Valid(Cancel(sc, req).0)
  {
    if req.status == EnCours {
      DeletionKeepsValid(sc, Cancel(sc, req).0);
    }
  }

  lemma StepPreservesValid(sc: Screen, thisYear: string, e: Event)
    requires Valid(sc)
    ensures Valid(Step(sc, thisYear, e))
  {
    match e {
      case PressSubmit(now, today) => SubmitPreservesValid(sc, thisYear, now, today);
      case PressCancel(req) => CancelPreservesValid(sc, req);
      case _ =>
    }
  }

  lemma {:induction false} RunPreservesValid(sc: Screen, thisYear: string, events: seq<Event>)
    requires Valid(sc)
    ensures Valid(Run(sc, thisYear, events))
    decreases |events|
  {
    if |events| > 0 {
      StepPreservesValid(sc, thisYear, events[0]);
      RunPreservesValid(Step(sc, thisYear, events[0]), thisYear, events[1..]);
    }
  }

  /** Whatever the user does, every listed request is "en cours" and the
      serials of the ids are pairwise distinct. */
  lemma SessionInvariant(thisYear: string, events: seq<Event>)
    ensures var sc := Run(InitialScreen(thisYear), thisYear, events);
      && (forall i :: 0 <= i < |sc.requests| ==> sc.requests[i].status == EnCours)
      && (forall i, j :: 0 <= i < j < |sc.requests| ==> sc.requests[i].id != sc.requests[j].id)
  {
    InitialValid(thisYear);
    RunPreservesValid(InitialScreen(thisYear), thisYear, events);
    var sc := Run(InitialScreen(thisYear), thisYear, events);
    forall i, j | 0 <= i < j < |sc.requests| ensures sc.requests[i].id != sc.requests[j].id {
      assert Serial(sc.requests[i]) > Serial(sc.requests[j]);
    }
  }

  /** On a valid screen, cancelling a listed request always removes it. */
  lemma CancelListedSucceeds(sc: Screen, req: Request)
    requires Valid(sc) && req in sc.requests
    ensures Cancel(sc, req).1 == None
    ensures req !in Cancel(sc, req).0.requests
    ensures |Cancel(sc, req).0.requests| == |sc.requests| - 1
  {
    var k :| 0 <= k < |sc.requests| && sc.requests[k] == req;
    var keep := (x: Request) => x.id != req.id;
    forall i | 0 <= i < |sc.requests| && i != k ensures keep(sc.requests[i]) {
      if i < k {
        assert Serial(sc.requests[i]) > Serial(req);
      } else {
        assert Serial(req) > Serial(sc.requests[i]);
      }
    }
    FilterDropsOne(sc.requests, keep, k);
  }

  // Year chips

  /** The year chips: this year and the five before it, newest first. */
  function YearChoices(currentYear: int): (r: seq<string>)
    ensures |r| == 6
    ensures forall i :: 0 <= i < 6 ==> r[i] == IntToString(currentYear - i)
  {
    seq(6, i requires 0 <= i < 6 => IntToString(currentYear - i))
  }

  /** A session opened with `thisYear := String(currentYear)` starts with
      the first chip selected. */
  lemma DefaultYearIsFirstChip(currentYear: int)
    ensures InitialScreen(IntToString(currentYear)).form.year == YearChoices(currentYear)[0]
    ensures InitialScreen(IntToString(currentYear)).form.year in YearChoices(currentYear)
  {
  }

  /** No two chips name the same year. */
  lemma YearChoicesDistinct(currentYear: int, i: int, j: int)
    requires 0 <= i < j < 6
    ensures YearChoices(currentYear)[i] != YearChoices(currentYear)[j]
  {
    IntToStringDistinct(currentYear - i, currentYear - j);
  }
}
