/**
  The two document lists of the student side: the documents screen, which
  searches titles and types, and the dashboard, which combines a type chip
  with a search on titles only.
 */
module Documents {
  import opened Text
  import opened Filtering

  // Documents screen

  /** `DocStatus`: "validé" | "rejeté". */
  datatype DocStatus = Valide | Rejete

  datatype DocumentItem = DocumentItem(id: string, title: string, docType: string, date: string, status: DocStatus)

  const AllDocuments: seq<DocumentItem> := [
    DocumentItem("d1", "Certificat de scolarité", "PDF", "2025-09-18", Valide),
    DocumentItem("d2", "Relevé de notes S2", "PDF", "2025-07-02", Valide),
    DocumentItem("d3", "Attestation de stage", "PDF", "2025-05-14", Rejete),
    DocumentItem("d4", "Diplôme Bac", "PDF", "2024-06-20", Valide),
    DocumentItem("d5", "Certificat médical", "PDF", "2025-08-11", Rejete)
  ]

  /** The search test of the documents screen: title or type, ignoring case. */
  function MatchesSearch(search: string): DocumentItem -> bool {
    (d: DocumentItem) => IncludesIgnoringCase(d.title, search) || IncludesIgnoringCase(d.docType, search)
  }

  /** What the search effect stores in `filteredDocs`; the status plays no part. */
  function SearchResults(docs: seq<DocumentItem>, search: string): (r: seq<DocumentItem>)
    ensures IsSubsequence(r, docs)
    ensures forall d :: d in r <==>
      (d in docs && (IncludesIgnoringCase(d.title, search) || IncludesIgnoringCase(d.docType, search)))
  {
    Filter(docs, MatchesSearch(search))
  }

  /** The "no document" card shows exactly when no document matches. */
  function ShowsEmptyState(docs: seq<DocumentItem>, search: string): (b: bool)
    ensures b <==> forall i :: 0 <= i < |docs| ==> !MatchesSearch(search)(docs[i])
  {
    FilterEmptyIff(docs, MatchesSearch(search));
    SearchResults(docs, search) == []
  }

  /** An empty search lists every document, as the screen does on opening. */
  lemma EmptySearchListsAll(docs: seq<DocumentItem>)
    ensures SearchResults(docs, "") == docs
  {
    forall i | 0 <= i < |docs| ensures MatchesSearch("")(docs[i]) {
      EmptyQueryMatches(docs[i].title);
    }
    FilterAllPass(docs, MatchesSearch(""));
  }

  /** Every type is "PDF" and case is ignored, so "pdf" lists all five. */
  lemma PdfSearchListsAll()
    ensures SearchResults(AllDocuments, "pdf") == AllDocuments
  {
    assert Lower("PDF") == "pdf" && Lower("pdf") == "pdf";
    assert StartsWith("pdf", "pdf");
    forall i | 0 <= i < |AllDocuments| ensures MatchesSearch("pdf")(AllDocuments[i]) {
      assert AllDocuments[i].docType == "PDF";
    }
    FilterAllPass(AllDocuments, MatchesSearch("pdf"));
  }

  /** A rejected document that matches the search is still listed. */
  lemma RejectedDocumentListed()
    ensures AllDocuments[2].status == Rejete
    ensures AllDocuments[2] in SearchResults(AllDocuments, "stage")
  {
    assert AllDocuments[2].title[15..20] == "stage";
    ExactOccurrenceMatches(AllDocuments[2].title, 15, "stage");
  }

  // Student dashboard

  datatype DashboardDoc = DashboardDoc(id: string, docType: string, title: string, date: string)

  const DashboardDocs: seq<DashboardDoc> := [
    DashboardDoc("1", "Attestation", "Attestation scolaire 2025", "2025-09-01"),
    DashboardDoc("2", "Bulletin", "Bulletin de notes semestre 1", "2025-08-15"),
    DashboardDoc("3", "Convention", "Convention de stage", "2025-09-10")
  ]

  /** The chips of the dashboard; "All" admits every type. */
  const FilterTypes: seq<string> := ["All", "Attestation", "Bulletin", "Convention"]

  function DashboardAdmits(filter: string, search: string): DashboardDoc -> bool {
    (d: DashboardDoc) => (filter == "All" || d.docType == filter) && IncludesIgnoringCase(d.title, search)
  }

  /** `filteredDocs` of the dashboard: the chip on the type, the search on the
      title alone, both required, original order kept. */
  function DashboardResults(docs: seq<DashboardDoc>, filter: string, search: string): (r: seq<DashboardDoc>)
    ensures IsSubsequence(r, docs)
    ensures forall d :: d in r <==>
      (d in docs && (filter == "All" || d.docType == filter) && IncludesIgnoringCase(d.title, search))
  {
    Filter(docs, DashboardAdmits(filter, search))
  }

  /** With the default chip and no search, all three documents show. */
  lemma DashboardDefaultsListAll()
    ensures DashboardResults(DashboardDocs, "All", "") == DashboardDocs
  {
    forall i | 0 <= i < |DashboardDocs| ensures DashboardAdmits("All", "")(DashboardDocs[i]) {
      EmptyQueryMatches(DashboardDocs[i].title);
    }
    FilterAllPass(DashboardDocs, DashboardAdmits("All", ""));
  }

  /** The "Convention" chip alone lists document "3" only. */
  lemma ConventionChip()
    ensures "Convention" in FilterTypes
    ensures DashboardResults(DashboardDocs, "Convention", "") == [DashboardDocs[2]]
    ensures DashboardDocs[2].id == "3"
  {
    EmptyQueryMatches(DashboardDocs[2].title);
    FilterKeepsSuffix(DashboardDocs, DashboardAdmits("Convention", ""), 2);
    assert DashboardDocs[2..] == [DashboardDocs[2]];
  }
}
