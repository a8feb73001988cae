/**
  The document request record shared by the student form and the personnel
  list (`Req` in both screens), and the "N copie(s)" caption both print.
 */
module Requests {
  import opened Text

  /** `RequestStatus`: "en cours" | "validé" | "rejeté". */
  datatype Status = EnCours | Valide | Rejete

  /** Request ids are strings. The form builds them as `r-<Date.now()>-<counter>`,
      which is kept here as its two numbers; the placeholder data uses fixed labels. */
  datatype RequestId = Generated(stamp: int, serial: nat) | Fixed(text: string)

  datatype Request = Request(
    id: RequestId,
    docType: string,
    year: string,
    copies: nat,
    reason: string,
    status: Status,
    submittedAt: string)

  /** `{copies} copie{copies > 1 ? "s" : ""}`. */
  function CopiesCaption(copies: nat): (r: string)
    ensures StartsWith(r, Decimal(copies) + " copie")
    ensures r == Decimal(copies) + " copie" || r == Decimal(copies) + " copies"
    ensures |r| == |Decimal(copies)| + 6 || |r| == |Decimal(copies)| + 7
    ensures r[|r| - 1] == 's' <==> copies > 1
  {
    Decimal(copies) + " copie" + (if copies > 1 then "s" else "")
  }
}
