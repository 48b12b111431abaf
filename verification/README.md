# ScholarArchive filter cascade and document retrieval, in Dafny

This project models the logic of the `ScholarArchive` page of the study-material
archive front end: four cascading selectors (branch, semester, category, subject), the
subject options derived from a static branch → semester → subjects table, the gate that
issues a document retrieval once all four selectors are set, the handling of the
retrieval's result, opening a document in the inline viewer, and the page numbers the
viewer renders once it knows the page count.

The page is modelled as an immutable state record and one pure transition per event:

- `Catalog`: the static table `subjectsMapping` and the derived subject list.
- `Filters`: the four selections, the selector update and the completeness gate.
- `Pages`: the list of page numbers rendered for a known page count.
- `Archive`: the state, the events (`Choose`, `Respond`, `OpenPdf`, `DocumentLoaded`)
  and their transitions. A selector event is followed, atomically, by the two effects
  of the page: the subject recomputation (when branch or semester moved) and the
  retrieval trigger (when any of the four moved). A retrieval is split into two
  events: issuing it appends its four parameters to a request log, and
  `Respond(i, outcome)` later settles request number `i` of that log, applying its
  outcome to whatever the state is then. A click can only land on a card of the
  current list, and the load report only arrives while a document is open; events
  outside these bounds cannot happen and leave the state alone.
- `ArchiveProperties`: invariants of every reachable state.
- `Divergences`: behaviour of the page as written that a stricter design would forbid
  (stale subject after a semester change, last-arriving response wins, a page count
  that outlives its document).

The HTTP transport, the remote endpoint and the console logging are not modelled:
the request log stands for the outgoing calls and `Respond` for their completion, with
the outcome (rejection, null body, body with or without a `pdfs` field) as a parameter.
The PDF rendering library is not modelled either: its load-success callback is the
`DocumentLoaded` event, with the page count as a parameter.

The page as written differs from a cleaner design of the same flow in several ways,
and the model follows the page:

- changing the branch or the semester does not clear the chosen subject; only the
  subject options are recomputed (`Divergences.StaleSubjectSurvivesSemesterChange`);
- a response is applied whichever request it answers; there is no request sequence
  number, so a late answer to an older request replaces the list fetched for the
  current selection (`Divergences.LateResponseOverwritesNewerList`,
  `Divergences.LastArrivalWins`);
- opening a document does not reset the page count, and a load report is not matched
  against the open document (`Divergences.PageCountOutlivesDocument`);
- there is no close operation: once shown, the modal flag stays set
  (`ArchiveProperties.ModalNeverCloses`);
- a response whose `pdfs` field is absent empties the list, while a null response body
  makes reading the field throw inside the `try`, so it is handled like a failure and
  changes nothing.

## Model

| member | source | states |
|---|---|---|
| Catalog.DeriveSubjects | src/pages/ScholarArchive.jsx:159-165 | branch other than cs or an empty semester gives no subjects; cs with semester 6 gives exactly spm, da, ml, cc, cd and with semester 4 exactly coa, os, sbms, afl, pdc, wt, in table order; any other semester gives none; a non-empty list is always the table's row |
| Catalog.DeriveMatchesTable | src/pages/ScholarArchive.jsx:133-138 | the derived list is non-empty exactly when the table has the (branch, semester) entry, and then equals that entry |
| Filters.Selection.With | src/pages/ScholarArchive.jsx:211-234 | a selector's change handler sets its own field to the reported value and leaves the other three as they were |
| Filters.CompleteIffNoFieldEmpty | src/pages/ScholarArchive.jsx:168 | the retrieval gate holds exactly when none of the four selectors is empty |
| Pages.PageNumbers | src/pages/ScholarArchive.jsx:282-284 | for a page count n the viewer renders n page numbers, the i-th being i + 1 |
| Pages.PageNumbersAscending | src/pages/ScholarArchive.jsx:282-284 | the rendered page numbers are strictly ascending |
| Pages.PageNumbersCoverPages | src/pages/ScholarArchive.jsx:282-284 | a page number is rendered exactly when it lies in 1..n |
| Archive.Init | src/pages/ScholarArchive.jsx:141-149 | the page starts with empty selections, no subjects, no documents, no open document, the modal hidden, no page count and no request issued |
| Archive.Choose | src/pages/ScholarArchive.jsx:159-185 | a selector sets only its own field; an unchanged value changes nothing; a changed branch or semester recomputes the subject options, a changed category or subject leaves them; a retrieval is issued exactly when the value changed and all four are set, and its parameters are the four current values; documents and viewer state are untouched |
| Archive.Resolve | src/pages/ScholarArchive.jsx:187-193 | a successful body replaces the document list with its pdfs, or with the empty list when the field is absent, and clears the open document, leaving selections, options, modal flag and page count alone; a failure or a null body leaves the whole state unchanged |
| Archive.DocumentUrl | src/pages/ScholarArchive.jsx:271 | the URL handed to the viewer is the fixed base URL followed by the card's path, and the path can be read back from it |
| Archive.Open | src/pages/ScholarArchive.jsx:151-154 | opening a card sets the open document to that card's URL and shows the modal; selections, options, documents, requests and the page count are unchanged |
| Archive.Loaded | src/pages/ScholarArchive.jsx:156-158 | the load callback sets the page count to the reported value and changes nothing else |
| Archive.Step | src/pages/ScholarArchive.jsx:151-193 | each event extends the request log by at most one entry and never rewrites it; only selector events issue retrievals and only responses change the document list; a response to a request never issued, a click on a card not in the list, and a load report with no document open change nothing |
| ArchiveProperties.InitInvariant | src/pages/ScholarArchive.jsx:141-149 | the initial state satisfies the page invariant |
| ArchiveProperties.StepKeepsInvariant | src/pages/ScholarArchive.jsx:151-193 | every event preserves: options equal the derivation from the current branch and semester, every issued request had four non-empty values, an open document sits in a shown modal and is the URL of a card of the current list, a known page count belongs to a shown modal |
| ArchiveProperties.RunKeepsInvariant | src/pages/ScholarArchive.jsx:151-193 | any event sequence preserves the page invariant |
| ArchiveProperties.ReachableInvariant | src/pages/ScholarArchive.jsx:159-171 | every reachable state satisfies the page invariant |
| ArchiveProperties.SubjectsDependOnlyOnBranchAndSemester | src/pages/ScholarArchive.jsx:165 | two reachable states with the same branch and semester have the same subject options, whatever else differs |
| ArchiveProperties.OpenDocumentIsListed | src/pages/ScholarArchive.jsx:187-190 | in every reachable state an open document is the base URL followed by the path of a card in the current list, because a successful response that replaces the list also closes the open document |
| ArchiveProperties.RunExtendsRequests | src/pages/ScholarArchive.jsx:167-171 | the request log only grows, and a sequence without selector events issues nothing |
| ArchiveProperties.ModalNeverCloses | src/pages/ScholarArchive.jsx:148-154 | once the modal is shown no event sequence hides it again |
| ArchiveProperties.LoadedPagesAreOneToN | src/pages/ScholarArchive.jsx:282-284 | after a load report of n pages the page count is n and the pages rendered are exactly 1..n in order |
| Divergences.StaleSubjectSurvivesSemesterChange | src/pages/ScholarArchive.jsx:159-171 | choosing cs, 6, notes, ml and then semester 4 keeps subject ml, which semester 4 does not list, and issues a retrieval for (cs, 4, notes, ml) |
| Divergences.LateResponseOverwritesNewerList | src/pages/ScholarArchive.jsx:173-193 | from the initial page: request 0 for (cs, 6, notes, ml), then request 1 for (cs, 6, notes, cc); request 1 is answered, then request 0; the page ends with cc selected and the list of the ml answer |
| Divergences.LastArrivalWins | src/pages/ScholarArchive.jsx:187-193 | of two successful responses to issued requests the later arrival sets the document list, whichever of the requests they answer |
| Divergences.PageCountOutlivesDocument | src/pages/ScholarArchive.jsx:151-158 | for two listed cards, after opening the second the first document's page count remains, and a load report arriving after the second open is recorded for it |

## Left out

- The styled-component definitions (src/pages/ScholarArchive.jsx:12-130) and the JSX markup around the selectors, the card list and the viewer (src/pages/ScholarArchive.jsx:201-291): presentation only, apart from the change handlers (modelled by `Choose`), the card click (modelled by `OpenPdf`, limited to listed cards), the viewer mount (which limits load reports to an open document) and the page list (modelled by `PageNumbers`).
- Archive.Choose: accepts any string for every selector, while the page offers only "" and "cs" for branch, "", "6" and "4" for semester, "", "notes" and "pyq" for category, and "" or a member of the current subject options for subject (src/pages/ScholarArchive.jsx:211-239); every property of the model holds for all strings, so it covers the offered ones.
- Which requests have already settled is not recorded, so the model lets a request be answered more than once; the page's handler has no such record either and would apply a repeated answer the same way.
- The axios call, the endpoint URL and `console.log`/`console.error`: I/O, represented by the request log and the `Respond` event.
- The PDF library's `Document`/`Page` rendering and its worker setup (src/pages/ScholarArchive.jsx:4-10): a foreign library, represented by the `DocumentLoaded` event.
- The render while the page count is still `null` (src/pages/ScholarArchive.jsx:282): JavaScript's `new Array(null)` has length one, a host-language quirk; page lists are stated only for a known count.
- A `pdfs` field that is present but falsy or not an array: the model's body carries either a list or nothing.
- Semester values that name inherited JavaScript object properties (such as `toString`), which would make the table lookup return a non-list: the selector never offers them.
- React's scheduling and batching: each event is one atomic transition followed by its effects.
- Commented-out code (src/pages/ScholarArchive.jsx:175-177, 195-198, 243-259, 264-270, 272): not live behaviour.
- src/pages/AboutUs.jsx: a static roster with no logic.
