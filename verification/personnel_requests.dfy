/**
  The personnel list of requests to process: a fixed pair of placeholder
  requests, each card showing a shortened reason and the copies caption.
 */
module PersonnelRequests {
  import opened Text
  import opened Requests

  /** The placeholder list the screen starts from and never updates. */
  const Placeholders: seq<Request> := [
    Request(Fixed("1"), "Attestation d'inscription", "2025", 1,
            "Besoin pour inscription universitaire", EnCours, "05/10/2025"),
    Request(Fixed("2"), "Bulletin", "2024", 2,
            "Dossier administratif", EnCours, "04/10/2025")
  ]

  /** The longest reason shown in full. */
  const PreviewLength := 40

  /** The reason as a card shows it: unchanged up to 40 characters, otherwise
      its first 40 characters followed by "...". */
  function ReasonPreview(reason: string): (r: string)
    ensures |reason| <= PreviewLength ==> r == reason
    ensures |reason| > PreviewLength ==> |r| == PreviewLength + 3 && r[PreviewLength..] == "..."
    ensures |r| <= PreviewLength + 3
    ensures StartsWith(r, reason[..if |reason| <= PreviewLength then |reason| else PreviewLength])
  {
    if |reason| > PreviewLength then reason[..PreviewLength] + "..." else reason
  }

  /** Both placeholders are "en cours", and both reasons are short enough to show whole. */
  lemma PlaceholdersShownWhole()
    ensures |Placeholders| == 2
    ensures forall i :: 0 <= i < |Placeholders| ==> Placeholders[i].status == EnCours
    ensures forall i :: 0 <= i < |Placeholders| ==>
      ReasonPreview(Placeholders[i].reason) == Placeholders[i].reason
  {
  }

  /** The second placeholder asks for two copies, so its caption is plural. */
  lemma PlaceholderCaptions()
    ensures CopiesCaption(Placeholders[0].copies) == "1 copie"
    ensures CopiesCaption(Placeholders[1].copies) == "2 copies"
  {
    assert Decimal(1) == "1" && Decimal(2) == "2";
  }
}
