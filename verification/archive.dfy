/** The archive page's state and its transitions: the four selectors with the
    subject-derivation and retrieval-trigger effects that follow them, the
    resolution of a retrieval, opening a document and the viewer's load report.
    Every event is one atomic transition; effects run at its end. */
module Archive {
  import opened Options
  import opened Catalog
  import opened Filters

  /** The prefix `openPdf` puts before a document's relative path. */
  const BaseUrl: string := "https://api.kiitwallah.live/api/resources"

  /** One card of the document list, as the retrieval service reports it. */
  datatype PdfRef = PdfRef(name: string, url: string)

  /** The decoded body of a successful retrieval; `pdfs` is `None` when the field is
      absent or null. */
  datatype Body = Body(pdfs: Option<seq<PdfRef>>)

  /** How a retrieval ends: the transport rejects, or it resolves with a body that
      may itself be null (`data == None`). */
  datatype Outcome = Failed | Succeeded(data: Option<Body>)

  datatype State = State(
    sel: Selection,               // the four selectors
    subjects: seq<string>,        // the derived subject options
    pdfs: seq<PdfRef>,            // the document list shown as cards
    selectedPdf: Option<string>,  // the URL of the open document, if any
    showModal: bool,
    numPages: Option<nat>,        // the page count last reported by the viewer
    requests: seq<Selection>      // parameters of every retrieval issued so far, oldest first
  )

  datatype Event =
    | Choose(field: Field, value: string)        // a selector reports a value
    | Respond(request: nat, outcome: Outcome)    // retrieval number `request` (0-based) settles
    | OpenPdf(card: PdfRef)                      // a document card is clicked
    | DocumentLoaded(pages: nat)                 // the viewer reports the page count

  /** The state on first render, after the mount effects have run. */
  function Init(): (s: State)
    ensures s.sel == NoSelection && s.subjects == DeriveSubjects("", "")
    ensures s.pdfs == [] && s.selectedPdf == None && !s.showModal && s.numPages == None
    ensures s.requests == []
  {
    State(NoSelection, [], [], None, false, None, [])
  }

  /** A selector event. A value equal to the current one changes no state, so no
      effect runs. Otherwise the subject list is recomputed if branch or semester
      moved, and a retrieval with the four current values is issued if all four are
      set. Nothing downstream of the changed selector is cleared. */
  function Choose(s: State, f: Field, v: string): (t: State)
    ensures v == s.sel.Get(f) ==> t == s
    ensures t.sel == s.sel.With(f, v)
    ensures v != s.sel.Get(f) && (f == Branch || f == Semester)
            ==> t.subjects == DeriveSubjects(t.sel.branch, t.sel.semester)
    ensures f == Category || f == Subject ==> t.subjects == s.subjects
    ensures |t.requests| > |s.requests| <==> v != s.sel.Get(f) && Complete(t.sel)
    ensures t.requests == s.requests || t.requests == s.requests + [t.sel]
    ensures t.pdfs == s.pdfs && t.selectedPdf == s.selectedPdf
    ensures t.showModal == s.showModal && t.numPages == s.numPages
  {
    if v == s.sel.Get(f) then s
    else
      var sel := s.sel.With(f, v);
      var subjects := if f == Branch || f == Semester
                      then DeriveSubjects(sel.branch, sel.semester) else s.subjects;
      var requests := if Complete(sel) then s.requests + [sel] else s.requests;
      s.(sel := sel, subjects := subjects, requests := requests)
  }

  /** A retrieval settles. A body whose `pdfs` field is present replaces the list
      wholesale; an absent or null field empties it; either way the open document is
      dropped. A rejection, or a null body (reading its `pdfs` throws inside the same
      `try`), is only logged. The handler does not check which request it answers. */
  function Resolve(s: State, outcome: Outcome): (t: State)
    ensures outcome.Succeeded? && outcome.data.Some? ==>
              t.pdfs == outcome.data.value.pdfs.GetOr([]) && t.selectedPdf == None
              && t.sel == s.sel && t.subjects == s.subjects && t.requests == s.requests
              && t.showModal == s.showModal && t.numPages == s.numPages
    ensures outcome.Failed? || outcome.data.None? ==> t == s
  {
    match outcome
    case Succeeded(Some(body)) => s.(pdfs := body.pdfs.GetOr([]), selectedPdf := None)
    case _ => s
  }

  /** The URL `openPdf` receives for a card. */
  function DocumentUrl(card: PdfRef): (u: string)
    ensures |u| == |BaseUrl| + |card.url|
    ensures u[..|BaseUrl|] == BaseUrl && u[|BaseUrl|..] == card.url
  {
    BaseUrl + card.url
  }

  /** Clicking a card opens it in the viewer; the previous page count is kept. */
  function Open(s: State, card: PdfRef): (t: State)
    ensures t.selectedPdf.Some? && t.selectedPdf.value == DocumentUrl(card)
    ensures t.showModal
    ensures t.sel == s.sel && t.subjects == s.subjects && t.pdfs == s.pdfs
    ensures t.numPages == s.numPages && t.requests == s.requests
  {
    s.(selectedPdf := Some(DocumentUrl(card)), showModal := true)
  }

  /** The viewer's load-success callback records the page count it reports. */
  function Loaded(s: State, n: nat): (t: State)
    ensures t.numPages == Some(n)
    ensures t.sel == s.sel && t.subjects == s.subjects && t.pdfs == s.pdfs
    ensures t.selectedPdf == s.selectedPdf && t.showModal == s.showModal
    ensures t.requests == s.requests
  {
    s.(numPages := Some(n))
  }

  /** One event. A response settles an issued request; a click can only land on a card
      of the current list (the cards are rendered from it); the viewer, and with it its
      load callback, only exists while a document is open. Events outside these bounds
      cannot occur and leave the state alone. Only a selector event issues a retrieval,
      and the request log only ever grows by one. */
  function Step(s: State, e: Event): (t: State)
    ensures s.requests <= t.requests && |t.requests| <= |s.requests| + 1
    ensures !e.Choose? ==> t.requests == s.requests
    ensures !e.Respond? ==> t.pdfs == s.pdfs
    ensures e.Respond? && e.request >= |s.requests| ==> t == s
    ensures e.OpenPdf? && e.card !in s.pdfs ==> t == s
    ensures e.DocumentLoaded? && s.selectedPdf.None? ==> t == s
  {
    match e
    case Choose(f, v) => Choose(s, f, v)
    case Respond(request, outcome) => if request < |s.requests| then Resolve(s, outcome) else s
    case OpenPdf(card) => if card in s.pdfs then Open(s, card) else s
    case DocumentLoaded(n) => if s.selectedPdf.Some? then Loaded(s, n) else s
  }

  /** The events applied in order. */
  function Run(s: State, es: seq<Event>): (t: State)
    decreases |es|
  {
    if es == [] then s else Run(Step(s, es[0]), es[1..])
  }
}
