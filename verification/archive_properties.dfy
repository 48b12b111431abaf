/** Properties of the archive page over whole event sequences. */
module ArchiveProperties {
  import opened Options
  import opened Catalog
  import opened Filters
  import opened Pages
  import opened Archive

  /** The subject options are the table row of the current branch and semester. */
  predicate SubjectsDerived(s: State)
  {
    s.subjects == DeriveSubjects(s.sel.branch, s.sel.semester)
  }

  /** Every retrieval ever issued carried four non-empty values. */
  predicate RequestsComplete(s: State)
  {
    forall i :: 0 <= i < |s.requests| ==> Complete(s.requests[i])
  }

  /** An open document is shown in the modal and is the URL of a card of the current
      list; a known page count belongs to a viewer that has been shown. */
  predicate ViewerConsistent(s: State)
  {
    && (s.selectedPdf.Some? ==> s.showModal && exists c :: c in s.pdfs && s.selectedPdf.value == DocumentUrl(c))
    && (s.numPages.Some? ==> s.showModal)
  }

  predicate Invariant(s: State)
  {
    SubjectsDerived(s) && RequestsComplete(s) && ViewerConsistent(s)
  }

  lemma InitInvariant()
    ensures Invariant(Init())
  {
  }

  /** Every event keeps the invariant. */
  lemma StepKeepsInvariant(s: State, e: Event)
    requires Invariant(s)
    ensures Invariant(Step(s, e))
  {
  }

  lemma {:induction false} RunKeepsInvariant(s: State, es: seq<Event>)
    requires Invariant(s)
    ensures Invariant(Run(s, es))
    decreases |es|
  {
    if es != [] {
      StepKeepsInvariant(s, es[0]);
      RunKeepsInvariant(Step(s, es[0]), es[1..]);
    }
  }

  /** In every reachable state the subject options are the table row of the current
      branch and semester, every issued retrieval had all four values set, and an
      open document sits in a shown modal. */
  lemma ReachableInvariant(es: seq<Event>)
    ensures Invariant(Run(Init(), es))
  {
    InitInvariant();
    RunKeepsInvariant(Init(), es);
  }

  /** The subject options depend on nothing but branch and semester: two reachable
      states that agree on those two agree on the options, whatever category,
      subject, documents or viewer state they hold. */
  lemma SubjectsDependOnlyOnBranchAndSemester(es1: seq<Event>, es2: seq<Event>)
    requires Run(Init(), es1).sel.branch == Run(Init(), es2).sel.branch
    requires Run(Init(), es1).sel.semester == Run(Init(), es2).sel.semester
    ensures Run(Init(), es1).subjects == Run(Init(), es2).subjects
  {
    ReachableInvariant(es1);
    ReachableInvariant(es2);
  }

  /** The open document is always one of the cards currently listed: a successful
      response, which replaces the list, also closes the document it might not hold. */
  lemma OpenDocumentIsListed(es: seq<Event>)
    ensures var s := Run(Init(), es);
            s.selectedPdf.Some? ==> exists c :: c in s.pdfs && s.selectedPdf.value == DocumentUrl(c)
  {
    ReachableInvariant(es);
  }

  /** The request log is append-only, and only selector events extend it. */
  lemma {:induction false} RunExtendsRequests(s: State, es: seq<Event>)
    ensures s.requests <= Run(s, es).requests
    ensures (forall i :: 0 <= i < |es| ==> !es[i].Choose?) ==> Run(s, es).requests == s.requests
    decreases |es|
  {
    if es != [] {
      RunExtendsRequests(Step(s, es[0]), es[1..]);
      assert forall i :: 0 <= i < |es[1..]| ==> es[1..][i] == es[i + 1];
    }
  }

  /** There is no way to close the viewer: once the modal is shown it stays shown. */
  lemma {:induction false} ModalNeverCloses(s: State, es: seq<Event>)
    requires s.showModal
    ensures Run(s, es).showModal
    decreases |es|
  {
    if es != [] {
      ModalNeverCloses(Step(s, es[0]), es[1..]);
    }
  }

  /** After the viewer reports `n` pages, the page count is `n` and the pages
      rendered are 1, 2, ..., n in ascending order. */
  lemma LoadedPagesAreOneToN(s: State, n: nat)
    ensures Loaded(s, n).numPages == Some(n)
    ensures |PageNumbers(Loaded(s, n).numPages.value)| == n
    ensures forall i :: 0 <= i < n ==> PageNumbers(Loaded(s, n).numPages.value)[i] == i + 1
    ensures forall k: nat :: k in PageNumbers(Loaded(s, n).numPages.value) <==> 1 <= k <= n
  {
    PageNumbersCoverPages(n);
  }
}
