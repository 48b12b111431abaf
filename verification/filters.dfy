/** The four filter selections of the archive page. */
module Filters {

  /** The four selectors, in the order the page lays them out. */
  datatype Field = Branch | Semester | Category | Subject

  /** The selections; each starts as the empty string ("nothing chosen"). The same
      record is the parameter set of a retrieval request. */
  datatype Selection = Selection(branch: string, semester: string, category: string, subject: string) {

    function Get(f: Field): (v: string)
    {
      match f
      case Branch => branch
      case Semester => semester
      case Category => category
      case Subject => subject
    }

    /** The selection after the selector `f` reports `v`. */
    function With(f: Field, v: string): (r: Selection)
      ensures r.Get(f) == v
      ensures forall g :: g != f ==> r.Get(g) == Get(g)
    {
      match f
      case Branch => this.(branch := v)
      case Semester => this.(semester := v)
      case Category => this.(category := v)
      case Subject => this.(subject := v)
    }
  }

  const NoSelection: Selection := Selection("", "", "", "")

  /** The retrieval gate: every selection is non-empty (JavaScript truthiness of a string). */
  predicate Complete(sel: Selection)
  {
    sel.branch != "" && sel.semester != "" && sel.category != "" && sel.subject != ""
  }

  /** The gate is exactly "no selector is left empty". */
  lemma CompleteIffNoFieldEmpty(sel: Selection)
    ensures Complete(sel) <==> forall f: Field :: sel.Get(f) != ""
  {
    if forall f: Field :: sel.Get(f) != "" {
      assert sel.Get(Branch) != "" && sel.Get(Semester) != "";
      assert sel.Get(Category) != "" && sel.Get(Subject) != "";
    }
  }
}
