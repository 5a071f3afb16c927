/** `ExtensionProjectService`: the listing of extension projects and deletion. */
module ExtensionProjects {
  import opened Base
  import opened Sequences
  import opened Text
  import opened Listing
  import opened Domain

  /** The search matches the title or the coordinator's login. */
  predicate MatchesSearch(p: ExtensionProject, term: string)
  {
    Mentions(p.title, term) || (p.coordinator.Some? && Mentions(p.coordinator.value, term))
  }

  function SearchBy(term: string): ExtensionProject -> bool { p => MatchesSearch(p, term) }

  /** A project without a status matches no status filter. */
  function HasStatus(st: ProjectStatus): ExtensionProject -> bool { (p: ExtensionProject) => p.status == Some(st) }

  /** Whether a listing with these parameters shows `p`. */
  predicate Selected(p: ExtensionProject, search: Option<string>, status: Option<string>)
  {
    && (SearchTerm(search).None? || MatchesSearch(p, SearchTerm(search).value))
    && (ProjectStatusFilter(status).None? || p.status == Some(ProjectStatusFilter(status).value))
  }

  function SelectedBy(search: Option<string>, status: Option<string>): ExtensionProject -> bool
  {
    (p: ExtensionProject) => Selected(p, search, status)
  }

  /** `findAll(search, status)` over the table contents: the selected projects, in table order. */
  function FindAll(rows: seq<ExtensionProject>, search: Option<string>, status: Option<string>): (r: seq<ExtensionProject>)
    ensures r == Filter(SelectedBy(search, status), rows)
    ensures IsSubsequence(r, rows)
    ensures forall k :: 0 <= k < |r| ==> Selected(r[k], search, status)
    ensures forall k :: 0 <= k < |rows| && Selected(rows[k], search, status) ==> rows[k] in r
  {
    var term := SearchTerm(search);
    var st := ProjectStatusFilter(status);
    var searchFilter := if term.Some? then Some(SearchBy(term.value)) else None;
    var statusFilter := if st.Some? then Some(HasStatus(st.value)) else None;
    FilterAgree(Admitted(searchFilter, statusFilter), SelectedBy(search, status), rows);
    Narrow(rows, searchFilter, statusFilter)
  }

  /** A recognised status filter drops every project whose status is unset. */
  lemma StatuslessProjectsFilteredOut(rows: seq<ExtensionProject>, search: Option<string>, status: string)
    requires ParseProjectStatus(Upper(status)).Some? && StatusWord(Some(status)).Some?
    ensures forall p :: p in FindAll(rows, search, Some(status)) ==> p.status.Some?
  {
    var r := FindAll(rows, search, Some(status));
    forall p | p in r
      ensures p.status.Some?
    {
      var k :| 0 <= k < |r| && r[k] == p;
      assert Selected(r[k], search, Some(status));
    }
  }

  datatype Error = ProjectNotFound

  /** `ExtensionProjectService` over the shared extension projects table. */
  class ExtensionProjectService {
    const projects: ExtensionProjectRepository

    constructor(projects: ExtensionProjectRepository)
      ensures this.projects == projects
    {
      this.projects := projects;
    }

    /** `delete(id)`: removes the project with that id, or fails when there is none. */
    method Delete(id: Id) returns (r: Result<(), Error>)
      requires projects.Valid()
      modifies projects
      ensures projects.Valid()
      ensures r.Failure? <==> forall p :: p in old(projects.rows) ==> p.id != id
      ensures r.Failure? ==> projects.rows == old(projects.rows)
      ensures r.Success? ==> |projects.rows| == |old(projects.rows)| - 1
      ensures forall p :: p in projects.rows <==> p in old(projects.rows) && p.id != id
    {
      var found := FindFirst(HasKey(ExtensionId, id), projects.rows);
      if found.None? {
        assert forall p :: p in projects.rows ==> HasKey(ExtensionId, id)(p) == (p.id == id);
        return Failure(ProjectNotFound);
      }
      RemoveAtUnique(ExtensionId, projects.rows, found.value);
      projects.rows := RemoveAt(projects.rows, found.value);
      r := Success(());
    }
  }
}
