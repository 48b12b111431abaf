/** Behaviour of the archive page that a stricter design would rule out: a subject
    that survives a semester change, a late response that overwrites a newer one, and
    a page count that outlives the document it was reported for. Each is stated as
    the page actually behaves. */
module Divergences {
  import opened Options
  import opened Catalog
  import opened Filters
  import opened Archive

  /** Running `es1 + es2` is running `es1`, then `es2`. */
  lemma {:induction false} RunAppend(s: State, es1: seq<Event>, es2: seq<Event>)
    ensures Run(s, es1 + es2) == Run(Run(s, es1), es2)
    decreases |es1|
  {
    if es1 == [] {
      assert es1 + es2 == es2;
    } else {
      assert (es1 + es2)[0] == es1[0];
      assert (es1 + es2)[1..] == es1[1..] + es2;
      RunAppend(Step(s, es1[0]), es1[1..], es2);
    }
  }

  /** Running a sequence of one, two or three events applies them one by one. */
  lemma RunShort(s: State, es: seq<Event>)
    requires 1 <= |es| <= 3
    ensures |es| == 1 ==> Run(s, es) == Step(s, es[0])
    ensures |es| == 2 ==> Run(s, es) == Step(Step(s, es[0]), es[1])
    ensures |es| == 3 ==> Run(s, es) == Step(Step(Step(s, es[0]), es[1]), es[2])
  {
    var s1 := Step(s, es[0]);
    assert Run(s, es) == Run(s1, es[1..]);
    if |es| >= 2 {
      var s2 := Step(s1, es[1]);
      assert Run(s1, es[1..]) == Run(s2, es[2..]);
      if |es| == 3 {
        assert Run(s2, es[2..]) == Run(Step(s2, es[2]), []);
      }
    }
  }

  /** Choose cs, semester 6, notes and ml: the fourth choice issues request 0. */
  const Narrowing: seq<Event> :=
    [Choose(Branch, "cs"), Choose(Semester, "6"), Choose(Category, "notes"), Choose(Subject, "ml")]

  const Cs6Ml: Selection := Selection("cs", "6", "notes", "ml")

  /** The state after `Narrowing`: options of semester 6, one request for ml, nothing
      retrieved yet. */
  lemma NarrowingRun()
    ensures Run(Init(), Narrowing)
            == Init().(sel := Cs6Ml, subjects := SixthSemester, requests := [Cs6Ml])
  {
    var s1 := Init().(sel := Selection("cs", "", "", ""));
    var s2 := s1.(sel := Selection("cs", "6", "", ""), subjects := SixthSemester);
    var s3 := s2.(sel := Selection("cs", "6", "notes", ""));
    var s4 := s3.(sel := Cs6Ml, requests := [Cs6Ml]);
    assert Step(Init(), Narrowing[0]) == s1;
    assert Step(s1, Narrowing[1]) == s2;
    assert Step(s2, Narrowing[2]) == s3;
    assert Step(s3, Narrowing[3]) == s4;
    RunAppend(Init(), Narrowing[..3], [Narrowing[3]]);
    assert Narrowing == Narrowing[..3] + [Narrowing[3]];
    RunShort(Init(), Narrowing[..3]);
    RunShort(s3, [Narrowing[3]]);
  }

  /** Switching from semester 6 to semester 4 keeps the subject ml although semester
      4 does not list it, and issues a retrieval for it. */
  lemma StaleSubjectSurvivesSemesterChange()
    ensures var s := Run(Init(), Narrowing + [Choose(Semester, "4")]);
            && s.sel == Selection("cs", "4", "notes", "ml")
            && "ml" !in s.subjects
            && s.requests == [Cs6Ml, Selection("cs", "4", "notes", "ml")]
  {
    NarrowingRun();
    RunAppend(Init(), Narrowing, [Choose(Semester, "4")]);
    var s4 := Run(Init(), Narrowing);
    RunShort(s4, [Choose(Semester, "4")]);
    assert "ml" !in FourthSemester;
  }

  const MlNotes: seq<PdfRef> := [PdfRef("ML notes", "/ml.pdf")]
  const CcNotes: seq<PdfRef> := [PdfRef("CC notes", "/cc.pdf")]

  /** After `Narrowing`, switch the subject to cc (request 1); request 1 is answered
      first, then the older request 0. */
  const LateResponse: seq<Event> :=
    Narrowing + [Choose(Subject, "cc"),
                 Respond(1, Succeeded(Some(Body(Some(CcNotes))))),
                 Respond(0, Succeeded(Some(Body(Some(MlNotes)))))]

  /** The late answer to the ml request overwrites the cc list although cc is what is
      selected: the page shows ml documents under a cc selection. */
  lemma LateResponseOverwritesNewerList()
    ensures var s := Run(Init(), LateResponse);
            && s.sel == Selection("cs", "6", "notes", "cc")
            && s.requests == [Cs6Ml, Selection("cs", "6", "notes", "cc")]
            && s.pdfs == MlNotes
  {
    var tail := LateResponse[4..];
    assert LateResponse == Narrowing + tail;
    NarrowingRun();
    RunAppend(Init(), Narrowing, tail);
    RunShort(Run(Init(), Narrowing), tail);
  }

  /** Whatever issued requests two responses answer, the one that arrives last decides
      the document list: there is no check that it answers the newest request. */
  lemma LastArrivalWins(s: State, first: nat, second: nat, a: seq<PdfRef>, b: seq<PdfRef>)
    requires first < |s.requests| && second < |s.requests|
    ensures Run(s, [Respond(first, Succeeded(Some(Body(Some(a))))),
                    Respond(second, Succeeded(Some(Body(Some(b)))))]).pdfs == b
  {
    RunShort(s, [Respond(first, Succeeded(Some(Body(Some(a))))),
                 Respond(second, Succeeded(Some(Body(Some(b)))))]);
  }

  /** Opening a second listed document keeps the page count reported for the first,
      and a load report that arrives after the second open is recorded whichever
      document it came from. */
  lemma PageCountOutlivesDocument(s: State, d1: PdfRef, d2: PdfRef, n: nat)
    requires d1 in s.pdfs && d2 in s.pdfs
    ensures var t := Run(s, [OpenPdf(d1), DocumentLoaded(n), OpenPdf(d2)]);
            t.selectedPdf == Some(DocumentUrl(d2)) && t.numPages == Some(n)
    ensures var t := Run(s, [OpenPdf(d1), OpenPdf(d2), DocumentLoaded(n)]);
            t.selectedPdf == Some(DocumentUrl(d2)) && t.numPages == Some(n)
  {
    RunShort(s, [OpenPdf(d1), DocumentLoaded(n), OpenPdf(d2)]);
    RunShort(s, [OpenPdf(d1), OpenPdf(d2), DocumentLoaded(n)]);
  }
}
