/**
  The notification lists of the personnel and student screens. Both derive
  what they show from a fixed list with the same test: a status chip ("Tous"
  or one exact status) and a search text matched, ignoring case, inside the
  title or the subtitle. The student screen adds an "Afficher toutes" footer.
 */
module Notifications {
  import opened Text
  import opened Filtering

  datatype Notification = Notification(id: string, title: string, subtitle: string, status: string, date: string)

  /** The chip that admits every status. */
  const AllStatuses := "Tous"

  /** The selected chip and the search text. */
  datatype Selection = Selection(status: string, query: string)

  const DefaultSelection := Selection(AllStatuses, "")

  predicate StatusAdmits(selected: string, n: Notification) {
    selected == AllStatuses || n.status == selected
  }

  predicate TextAdmits(query: string, n: Notification) {
    IncludesIgnoringCase(n.title, query) || IncludesIgnoringCase(n.subtitle, query)
  }

  /** Both tests together, as the argument of `filter`. */
  function Admits(sel: Selection): Notification -> bool {
    n => StatusAdmits(sel.status, n) && TextAdmits(sel.query, n)
  }

  /** The `filtered` list: the notifications that pass both tests, in their order. */
  function Visible(items: seq<Notification>, sel: Selection): (r: seq<Notification>)
    ensures IsSubsequence(r, items)
    ensures forall n :: n in r <==> n in items && StatusAdmits(sel.status, n) && TextAdmits(sel.query, n)
  {
    Filter(items, Admits(sel))
  }

  /** Filtering what is shown again with the same selection shows the same list. */
  lemma VisibleIdempotent(items: seq<Notification>, sel: Selection)
    ensures Visible(Visible(items, sel), sel) == Visible(items, sel)
  {
    FilterIdempotent(items, Admits(sel));
  }

  /** With "Tous" and an empty search, every notification is shown. */
  lemma DefaultShowsAll(items: seq<Notification>)
    ensures Visible(items, DefaultSelection) == items
  {
    forall i | 0 <= i < |items| ensures TextAdmits("", items[i]) {
      EmptyQueryMatches(items[i].title);
    }
    FilterAllPass(items, Admits(DefaultSelection));
  }

  /** With an empty search, a notification shows exactly when the chip admits it. */
  lemma EmptyQueryFiltersByStatus(items: seq<Notification>, status: string)
    ensures forall i :: 0 <= i < |items| ==> (Admits(Selection(status, ""))(items[i]) <==> StatusAdmits(status, items[i]))
  {
    forall i | 0 <= i < |items| ensures TextAdmits("", items[i]) {
      EmptyQueryMatches(items[i].title);
    }
  }

  // Personnel screen

  const PersonnelNotifications: seq<Notification> := [
    Notification("1", "Demande envoyée", "Attestation d'inscription", "En attente", "2025-09-28 14:30"),
    Notification("2", "Demande validée", "Bulletin S2 2025", "Validé", "2025-09-27 10:15"),
    Notification("3", "Demande rejetée", "Attestation de réussite", "Rejeté", "2025-09-25 16:45")
  ]

  /** A card is highlighted as new when its status is "En attente", that is
      when the "En attente" chip would list it. */
  function IsNew(n: Notification): (b: bool)
    ensures b <==> StatusAdmits("En attente", n)
  {
    n.status == "En attente"
  }

  /** On opening, all three notifications show, and only the first is highlighted. */
  lemma PersonnelOpening()
    ensures Visible(PersonnelNotifications, DefaultSelection) == PersonnelNotifications
    ensures |PersonnelNotifications| == 3
    ensures forall i :: 0 <= i < 3 ==> (IsNew(PersonnelNotifications[i]) <==> i == 0)
  {
    DefaultShowsAll(PersonnelNotifications);
  }

  // Student screen

  const StudentNotifications: seq<Notification> := [
    Notification("1", "Demande envoyée", "Attestation d'inscription", "En attente", "2025-09-28 14:30"),
    Notification("2", "Demande validée", "Bulletin S2 2025", "Validé", "2025-09-27 10:15"),
    Notification("3", "Demande rejetée", "Attestation de réussite", "Rejeté", "2025-09-25 16:45"),
    Notification("4", "Demande rejetée", "Attestation de réussite", "Rejeté", "2025-09-25 16:45"),
    Notification("5", "Demande rejetée", "Attestation de réussite", "Rejeté", "2025-09-25 16:45"),
    Notification("6", "Demande rejetée", "Attestation de réussite", "Rejeté", "2025-09-25 16:45"),
    Notification("7", "Demande rejetée", "Attestation de réussite", "Rejeté", "2025-09-25 16:45")
  ]

  /** The "Afficher toutes" footer shows when the list hides something. */
  function ShowAllVisible(sel: Selection): (b: bool)
    ensures b <==> exists i :: 0 <= i < |StudentNotifications| && !Admits(sel)(StudentNotifications[i])
  {
    FilterShorterIff(StudentNotifications, Admits(sel));
    |Visible(StudentNotifications, sel)| < |StudentNotifications|
  }

  /** Pressing the footer: `setQuery("") || setStatus("Tous")` runs both
      setters, since the first returns undefined. */
  function PressShowAll(sel: Selection): (r: Selection)
    ensures r == Selection(AllStatuses, "")
    ensures Visible(StudentNotifications, r) == StudentNotifications
    ensures !ShowAllVisible(r)
  {
    DefaultShowsAll(StudentNotifications);
    DefaultSelection
  }

  /** The "Rejeté" chip with no search lists ids 3 to 7, in order. */
  lemma RejectedChip()
    ensures Visible(StudentNotifications, Selection("Rejeté", "")) == StudentNotifications[2..]
  {
    EmptyQueryFiltersByStatus(StudentNotifications, "Rejeté");
    FilterKeepsSuffix(StudentNotifications, Admits(Selection("Rejeté", "")), 2);
  }
}
