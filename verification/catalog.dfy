/** The static branch -> semester -> subjects table of the archive page and the
    subject list derived from a (branch, semester) pair. */
module Catalog {

  /** The only branch the table populates. */
  const SupportedBranch: string := "cs"

  const SixthSemester: seq<string> := ["spm", "da", "ml", "cc", "cd"]
  const FourthSemester: seq<string> := ["coa", "os", "sbms", "afl", "pdc", "wt"]

  /** `subjectsMapping`: read-only, never changed at run time. */
  const SubjectsMapping: map<string, map<string, seq<string>>> :=
    map[SupportedBranch := map["6" := SixthSemester, "4" := FourthSemester]]

  /** The subjects listed for `semester` of the supported branch, empty when the
      table has no such semester (the `|| []` fallback). */
  function Lookup(semester: string): (r: seq<string>)
  {
    var semesters := SubjectsMapping[SupportedBranch];
    if semester in semesters then semesters[semester] else []
  }

  /** The subject list the page derives whenever branch or semester changes. */
  function DeriveSubjects(branch: string, semester: string): (r: seq<string>)
    ensures branch != SupportedBranch || semester == "" ==> r == []
    ensures branch == SupportedBranch && semester == "6" ==> r == ["spm", "da", "ml", "cc", "cd"]
    ensures branch == SupportedBranch && semester == "4" ==> r == ["coa", "os", "sbms", "afl", "pdc", "wt"]
    ensures semester != "4" && semester != "6" ==> r == []
    ensures r != [] ==> branch in SubjectsMapping && semester in SubjectsMapping[branch]
                        && r == SubjectsMapping[branch][semester]
  {
    if branch == SupportedBranch && semester != "" then Lookup(semester) else []
  }

  /** Every (branch, semester) pair the table knows yields exactly its table row,
      so the derivation and the table agree in both directions. */
  lemma DeriveMatchesTable(branch: string, semester: string)
    ensures branch in SubjectsMapping && semester in SubjectsMapping[branch]
            <==> DeriveSubjects(branch, semester) != []
    ensures branch in SubjectsMapping && semester in SubjectsMapping[branch]
            ==> DeriveSubjects(branch, semester) == SubjectsMapping[branch][semester]
  {
  }
}
