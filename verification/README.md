# MobileUI request and filter rules, in Dafny

This project models the decision rules of a school-administration mobile
app in which students, parents and staff request and track official
documents. The app itself is React Native screens. The rules are lifted out
of those screens as pure functions from explicit state to a new state plus
an outcome: an alert (success, error, warning, info) or a route to
navigate to.

- `StudentRequests`: the student's request form. Validation runs as an
  ordered chain where the first failing check wins. Each new request goes to
  the head of the list. The form resets to its defaults. Ids come from a
  counter that starts at 1000. "Annuler" cancels only a request that is
  "en cours". The year chips are also here.
- `ReviewerHistory`: the personnel detail page. `handleAction` appends the
  reviewer's decision to the page's local history.
- `PersonnelRequests`: the personnel list, with its two placeholder requests
  and the 40-character reason preview.
- `Requests`: the request record both screens share, and the
  "N copie(s)" caption.
- `Notifications`: the notification lists of both sides. Each combines a
  status chip with a case-insensitive search. The student side also has the
  "Afficher toutes" footer.
- `Documents`: the student documents screen (search on title or type) and
  the student dashboard (type chip plus search on the title only).
- `Login`: the three password-recovery validators and where each popup
  leads once dismissed.
- `Onboarding`: the three-slide pager.
- `Text`, `Filtering`, `Common`: the JavaScript primitives the rules use.
  These are `trim`, `toLowerCase`, `includes`, `String(n)`, `Number(s)` and
  `Array.prototype.filter`, plus the shared alert and route vocabulary.

Inputs the screens read from their environment are parameters:
`Date.now()` (`now`), `toLocaleDateString()` (`today`),
`getFullYear()` (`currentYear`) and its text `String(currentYear)`
(`thisYear`).

Reviewer decisions are looser than one might expect, and the model keeps
them as the code has them:
- Reviewer decisions need only a non-empty reason. There is no trim and no
  minimum of three characters.
- Nothing stops a second decision on the same request.
- A decision never changes the request's status. It only appends to the
  page's history.

## Model

| member | source | states |
|---|---|---|
| Text.TrimShape | pages/Student/RequestsScreen.tsx:95 | `trim` leaves the slice of the text between white space at either end; the slice starts and ends with a visible character and is empty iff the text is all white space |
| Text.TrimIgnoresPadding | pages/Student/RequestsScreen.tsx:95 | white space added before and after a text never changes what `trim` returns |
| Text.LowerChar | pages/Student/DocumentsScreen.tsx:51-52 | `toLowerCase` moves a capital 32 code points up to its small letter, leaves every other character alone and leaves no capital behind |
| Text.Lower | pages/Student/DocumentsScreen.tsx:51-52 | `toLowerCase` keeps the length, lowers each character in place and leaves no capital in the text |
| Text.IncludesIgnoringCase | pages/personnel/NotificationsScreen.tsx:59-60 | `hay.toLowerCase().includes(q.toLowerCase())` holds exactly when the lowered query occurs at some position of the lowered text |
| Text.ContainsIff | pages/personnel/NotificationsScreen.tsx:59-60 | the `includes` search holds exactly when the query occurs at some position of the text |
| Text.ExactOccurrenceMatches | pages/Student/DocumentsScreen.tsx:50-52 | a query that occurs as typed in a text passes the lower-cased `includes` search |
| Text.ParseNumber | pages/Student/RequestsScreen.tsx:92-93 | `Number(copies)` gives 0 for a blank text; it gives a number exactly when the trimmed text is all digits, and NaN otherwise; the number of a non-empty digit run is its decimal value, leading zeros and surrounding white space ignored |
| Text.ParseDecimal | pages/Student/RequestsScreen.tsx:62 | parsing the rendering of a count, such as the default "1", gives back that count |
| Filtering.Filter | pages/personnel/NotificationsScreen.tsx:56-61 | `filter` returns an order-preserving subsequence; an element is in it iff it is in the source and passes the test |
| Filtering.FilterCounts | pages/Student/RequestsScreen.tsx:256 | each passing element is kept as often as it occurs in the source; failing ones never |
| Filtering.FilterIdempotent | pages/personnel/NotificationsScreen.tsx:56-61 | filtering the output again with the same test returns the same list |
| Filtering.SubsequenceKeepsOrder | pages/Student/RequestsScreen.tsx:256 | removing requests keeps a newest-first list newest first |
| Text.Decimal | pages/personnel/RequestsScreen.tsx:116 | `String(n)` of a count is a non-empty run of digits with no leading zero |
| Text.IntToString | pages/Student/RequestsScreen.tsx:148 | `String(i)` is the digits of the magnitude, with no leading zero, which read back as the magnitude, after a minus sign exactly when i is negative |
| Text.Utf16LengthBmp | pages/Student/RequestsScreen.tsx:95 | `length` equals the number of characters exactly when every character lies in the Basic Multilingual Plane |
| Text.TrimUtf16Length | pages/Login/CodeVerification.tsx:22 | trimming never adds UTF-16 code units |
| Text.TakeUnits | pages/Login/CodeVerification.tsx:68 | the result is the longest prefix of the text that fits in the budget of UTF-16 code units; a text within the budget is kept whole |
| Requests.CopiesCaption | pages/personnel/RequestsScreen.tsx:116 | the caption is exactly the number followed by " copie" or " copies", ending in "s" iff copies > 1 |
| StudentRequests.FirstFailing | pages/Student/RequestsScreen.tsx:89-96 | the checks run in order; the result is the first check that fails, or none exactly when every check passes |
| StudentRequests.FirstOfFour | pages/Student/RequestsScreen.tsx:89-96 | on four checks, the chain returns the first failing one in order, or none |
| StudentRequests.FirstFailureChain | pages/Student/RequestsScreen.tsx:89-96 | the form's outcome is the chain of guard clauses: type, then year, then copies, then reason |
| StudentRequests.ValidationOrder | pages/Student/RequestsScreen.tsx:89-96 | empty type gives an error; else empty year gives an error; else NaN or copies < 1 gives a warning; else a trimmed reason under 3 UTF-16 code units gives info |
| StudentRequests.CheckAlert | pages/Student/RequestsScreen.tsx:90-96 | a missing type or year raises an error, invalid copies a warning and a short reason an info alert; a failed check never raises a success |
| StudentRequests.VisibleReasonLength | pages/Student/RequestsScreen.tsx:95 | a reason with visible first and last characters is refused iff its `length` in UTF-16 code units is below 3; for a reason inside the Basic Multilingual Plane, iff it has fewer than 3 characters |
| StudentRequests.TwoEmojiReasonAccepted | pages/Student/RequestsScreen.tsx:95 | a reason of two emoji has `length` 4 and passes the check |
| StudentRequests.ReasonPaddingIgnored | pages/Student/RequestsScreen.tsx:95 | white space typed around a reason never changes whether it is refused |
| StudentRequests.Submit | pages/Student/RequestsScreen.tsx:89-117 | a failed check gives its alert and changes nothing; a success prepends exactly one "en cours" request (chosen type and year, parsed copies ≥ 1, trimmed reason of ≥ 3 UTF-16 code units, id from the incremented counter), keeps the old list behind it, advances the counter by one and resets the form to the first type, this year, "1" copy and an empty reason (lines 60-63) |
| StudentRequests.Cancel | pages/Student/RequestsScreen.tsx:249-257 | a request that is not "en cours" gives an error and the list is unchanged; otherwise every entry with its id is removed, the others stay in order, each as many times as before, and nothing else changes |
| StudentRequests.InitialValid | pages/Student/RequestsScreen.tsx:64-70 | the empty list and the counter at 1000 satisfy the screen invariant |
| StudentRequests.PrependKeepsValid | pages/Student/RequestsScreen.tsx:100-109 | a request with the next serial put in front of a valid list keeps it valid |
| StudentRequests.SubmitPreservesValid | pages/Student/RequestsScreen.tsx:100-110 | a submit keeps every request "en cours" and the list strictly ordered by id serial, newest first |
| StudentRequests.CancelPreservesValid | pages/Student/RequestsScreen.tsx:250-256 | a cancel keeps the same invariant |
| StudentRequests.SessionInvariant | pages/Student/RequestsScreen.tsx:101-110 | after any sequence of edits, submits and cancels, every listed request is "en cours" and no two share an id |
| StudentRequests.CancelListedSucceeds | pages/Student/RequestsScreen.tsx:250-256 | on a reachable screen, cancelling a listed request always succeeds and removes exactly that one entry |
| StudentRequests.YearChoices | pages/Student/RequestsScreen.tsx:148 | six chips; chip i reads `String(currentYear - i)` |
| StudentRequests.DefaultYearIsFirstChip | pages/Student/RequestsScreen.tsx:50-61 | a screen opened with `thisYear = String(currentYear)` starts on the first year chip |
| StudentRequests.YearChoicesDistinct | pages/Student/RequestsScreen.tsx:148 | no two year chips are equal |
| ReviewerHistory.Open | pages/personnel/frames/DetailsPage.tsx:23-29 | the page opens on the request it was given, with exactly the two initial history entries, an empty reason and no attached file |
| ReviewerHistory.HandleAction | pages/personnel/frames/DetailsPage.tsx:52-61 | an empty reason gives an error and changes nothing; otherwise exactly one entry {"Vous", action, reason, date} is appended after the unchanged earlier ones, and the reason and attached file are cleared; the displayed request never changes |
| ReviewerHistory.BlankReasonAccepted | pages/personnel/frames/DetailsPage.tsx:53 | a reason of spaces alone is accepted and recorded as typed |
| ReviewerHistory.EntryColour | pages/personnel/frames/DetailsPage.tsx:117 | an entry is green iff its status is "validé", red otherwise |
| ReviewerHistory.HistoryAppendOnly | pages/personnel/frames/DetailsPage.tsx:52-61 | over any session the history grows by exactly one entry per accepted decision and keeps its earlier entries as a prefix; the request's status is never modified |
| ReviewerHistory.RepeatedDecisionsAppend | pages/personnel/frames/DetailsPage.tsx:52-61 | two decisions in a row, with no terminal-state guard, both append |
| PersonnelRequests.ReasonPreview | pages/personnel/RequestsScreen.tsx:118 | a reason of ≤ 40 characters is shown unchanged; a longer one is shown as its first 40 characters plus "...", 43 in all; the preview never exceeds 43 characters and starts with a prefix of the reason |
| PersonnelRequests.PlaceholdersShownWhole | pages/personnel/RequestsScreen.tsx:34-56 | the fixed list holds two "en cours" requests, and both reasons are shown whole |
| PersonnelRequests.PlaceholderCaptions | pages/personnel/RequestsScreen.tsx:116 | the placeholders read "1 copie" and "2 copies" |
| Notifications.Visible | pages/Student/NotificationsScreen.tsx:58-63 | the shown list is an order-preserving subsequence; a notification is shown iff "Tous" or its exact status is selected AND the query occurs, case ignored, in its title or subtitle |
| Notifications.VisibleIdempotent | pages/personnel/NotificationsScreen.tsx:56-61 | applying the same selection to the shown list shows the same list |
| Notifications.DefaultShowsAll | pages/personnel/NotificationsScreen.tsx:30-31 | with "Tous" and an empty query every notification is shown |
| Notifications.EmptyQueryFiltersByStatus | pages/Student/NotificationsScreen.tsx:58-63 | with an empty query, a notification is shown iff the chip admits its status |
| Notifications.IsNew | pages/personnel/NotificationsScreen.tsx:79 | a card is highlighted as new iff the "En attente" chip would list it |
| Notifications.PersonnelOpening | pages/personnel/NotificationsScreen.tsx:23-31 | the personnel screen opens on all three notifications; only the "En attente" one is highlighted as new (line 79) |
| Notifications.ShowAllVisible | pages/Student/NotificationsScreen.tsx:167 | "Afficher toutes" shows iff some notification is filtered out, that is iff fewer than all seven are shown |
| Notifications.PressShowAll | pages/Student/NotificationsScreen.tsx:169 | the button resets the selection to "Tous" with an empty query, so all seven show and the button disappears |
| Notifications.RejectedChip | pages/Student/NotificationsScreen.tsx:22-30 | the "Rejeté" chip with an empty query shows ids 3 to 7, in order |
| Documents.SearchResults | pages/Student/DocumentsScreen.tsx:49-55 | the result is an order-preserving subsequence; a document is kept iff the query occurs, case ignored, in its title or its type; the status is not consulted |
| Documents.ShowsEmptyState | pages/Student/DocumentsScreen.tsx:106 | the empty-state card shows iff no document matches |
| Documents.EmptySearchListsAll | pages/Student/DocumentsScreen.tsx:46-55 | an empty search lists every document, the same as the list on opening |
| Documents.PdfSearchListsAll | pages/Student/DocumentsScreen.tsx:25-31 | "pdf" lists all five documents, because every type is "PDF" and case is ignored |
| Documents.RejectedDocumentListed | pages/Student/DocumentsScreen.tsx:50-53 | a "rejeté" document matching the search is still listed |
| Documents.DashboardResults | pages/Student/StudentScreen.tsx:20-23 | the result is an order-preserving subsequence; a document is kept iff the chip is "All" or equals its type, AND the query occurs, case ignored, in its title (the type is not searched) |
| Documents.DashboardDefaultsListAll | pages/Student/StudentScreen.tsx:15-23 | "All" with no search lists all three documents |
| Documents.ConventionChip | pages/Student/StudentScreen.tsx:5-23 | the "Convention" chip with no search lists document "3" alone |
| Login.Dismiss | pages/Login/ResetPassword.tsx:124-128 | dismissing the popup navigates iff it showed a success; ForgotPassword.tsx:110-115 and CodeVerification.tsx:107-111 use the same rule |
| Login.SendLink | pages/Login/ForgotPassword.tsx:21-30 | an address succeeds iff it holds a non-white character; there is no format check |
| Login.SendLinkPopup | pages/Login/ForgotPassword.tsx:101-107 | the popup reads "Lien envoyé" with the link text iff the address was accepted, and "Erreur" with the request for an address iff it was refused |
| Login.SendLinkIgnoresPadding | pages/Login/ForgotPassword.tsx:22 | white space around the address never changes the outcome |
| Login.CapCode | pages/Login/CodeVerification.tsx:68 | the field keeps the longest prefix of what was typed that fits in 6 UTF-16 code units; a text of at most 6 units is kept whole |
| Login.Verify | pages/Login/CodeVerification.tsx:21-29 | a code succeeds iff its trimmed `length`, in UTF-16 code units, is at least 4; it is compared with nothing |
| Login.VerifyPopup | pages/Login/CodeVerification.tsx:98-104 | the popup reads "Succès" with the confirmation iff the code passed, and "Erreur" with the request for a valid code iff it failed |
| Login.VisibleCodeLength | pages/Login/CodeVerification.tsx:22 | a code with visible first and last characters passes iff its `length` is at least 4 |
| Login.VerifyIgnoresPadding | pages/Login/CodeVerification.tsx:22 | white space around the code never changes the outcome |
| Login.AcceptedCodeLength | pages/Login/CodeVerification.tsx:63-71 | a code typed into the capped field and accepted has a trimmed length between 4 and 6 UTF-16 code units |
| Login.LettersAccepted | pages/Login/CodeVerification.tsx:22-28 | a code of letters is accepted; there is no digit check |
| Login.TwoEmojiCodeAccepted | pages/Login/CodeVerification.tsx:22 | two emoji make a code of `length` 4, which is accepted |
| Login.Reset | pages/Login/ResetPassword.tsx:22-36 | either field empty gives an error; different fields give an error; success iff both are non-empty and equal, with no trimming |
| Login.ResetMessage | pages/Login/ResetPassword.tsx:118-122 | the popup shows the success text iff the reset succeeded; after a failure, the mismatch text iff the fields differ and "remplir tous les champs" iff they are equal |
| Login.ResetMessages | pages/Login/ResetPassword.tsx:117-123 | the mismatch text shows iff the fields differ, one empty field included; "remplir tous les champs" shows iff both are empty |
| Login.RecoveryRoutes | pages/Login/ForgotPassword.tsx:110-115 | dismissing each popup leads on exactly when its check passed: to CodeVerification (ForgotPassword.tsx:113), to ResetPassword (CodeVerification.tsx:110) and to Login (ResetPassword.tsx:127) |
| Login.BlankPasswordsAccepted | pages/Login/ResetPassword.tsx:22-36 | two equal whitespace-only passwords succeed, and dismissing then goes to Login |
| Onboarding.Next | pages/Onboarding/onboarding.tsx:28-34 | before the last slide the index goes up by one with no navigation; on the last slide it stays put and navigates to Login |
| Onboarding.Indicators | pages/Onboarding/onboarding.tsx:51-60 | one dot per slide, and on a slide exactly the dot at the current index is active |
| Onboarding.Press | pages/Onboarding/onboarding.tsx:28-34 | from slide c, n presses reach slide c + n with no navigation while c + n < 3; otherwise they stop on the last slide and navigate to Login |
| Onboarding.NextStaysInRange | pages/Onboarding/onboarding.tsx:25-34 | from any slide, "next" keeps the index on a slide |
| Onboarding.ThirdPressNavigates | pages/Onboarding/onboarding.tsx:6-34 | starting from slide 0, the first navigation happens on exactly the third press; exactly one indicator is lit throughout |

## Left out

- Animation is not modelled: LayoutAnimation, Animated fades and staggers, and modal transitions. It is cosmetic and float-valued.
- The timers are not modelled: the 1500 ms submission delay and the 1800 ms alert auto-hide. A submit is modelled as instantaneous, and an alert is the returned value. The loading overlay, and edits made during the delay, are not modelled.
- `Date.now()`, `toLocaleDateString()` and `getFullYear()` are not modelled. They are parameters.
- Request ids are strings of the form `r-<stamp>-<counter>`. They are kept as the pair of numbers, since that rendering is one-to-one. The placeholder ids are kept as their text.
- Text.ParseNumber: models `Number()` only on white space and decimal digits. JavaScript also accepts signs, fractions ("2.5" passes the copies check), hexadecimal, the `0b` and `0o` prefixes, exponents and "Infinity" (which passes the copies check); all of these are NaN here. Digit runs above 2^53 are exact here, while JavaScript rounds them to the nearest double. A number-pad field rarely produces any of this.
- Text.Decimal: `String(n)` switches to exponent notation from 1e21 on, which would change the copies caption; the model always prints plain digits.
- Login.CapCode: a surrogate pair that would straddle the sixth code unit is dropped whole, as Android's length filter does, because a string here cannot hold half of a pair. A platform that keeps the lone high surrogate is not modelled.
- Text.LowerChar: models `toLowerCase` for the Latin-1 range only (A–Z and À–Þ except ×). Characters outside it are left unchanged. Multi-character lowerings are not modelled.
- PersonnelRequests.ReasonPreview: counts Unicode scalar values. JavaScript's `length` and `substring` count UTF-16 code units, so the two differ for characters outside the Basic Multilingual Plane.
- The file picker of the detail page is not modelled. `DocumentPicker.getDocumentAsync` is foreign and asynchronous. Its result enters only as the `FilePicked` event.
- Navigation libraries are not modelled. Routes are returned values. The detail-page navigation from the personnel list and the "Retour" links are not modelled.
- The static dashboards, the parent screens, the personnel documents screen, the splash screen, `Login.tsx` (no validation), the tab navigators and the app shell are not modelled. They hold no decision rules.
- The icon and detail fields of notifications are not modelled. Neither takes part in filtering.
