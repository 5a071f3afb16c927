/** `ResearchProjectService`: the listing of research projects, deletion and
    the status change a coordinator makes. */
module ResearchProjects {
  import opened Base
  import opened Sequences
  import opened Text
  import opened Listing
  import opened Domain

  /** The search matches the title or the lead researcher's login. */
  predicate MatchesSearch(p: ResearchProject, term: string)
  {
    Mentions(p.title, term) || (p.leadResearcher.Some? && Mentions(p.leadResearcher.value, term))
  }

  function SearchBy(term: string): ResearchProject -> bool { p => MatchesSearch(p, term) }
  function HasStatus(st: ProjectStatus): ResearchProject -> bool { (p: ResearchProject) => p.status == st }

  /** Whether a listing with these parameters shows `p`. */
  predicate Selected(p: ResearchProject, search: Option<string>, status: Option<string>)
  {
    && (SearchTerm(search).None? || MatchesSearch(p, SearchTerm(search).value))
    && (ProjectStatusFilter(status).None? || p.status == ProjectStatusFilter(status).value)
  }

  function SelectedBy(search: Option<string>, status: Option<string>): ResearchProject -> bool
  {
    (p: ResearchProject) => Selected(p, search, status)
  }

  /** `findAll(search, status)` over the table contents: the selected projects, in table order. */
  function FindAll(rows: seq<ResearchProject>, search: Option<string>, status: Option<string>): (r: seq<ResearchProject>)
    ensures r == Filter(SelectedBy(search, status), rows)
    ensures IsSubsequence(r, rows)
    ensures forall k :: 0 <= k < |r| ==> Selected(r[k], search, status)
    ensures forall k :: 0 <= k < |rows| && Selected(rows[k], search, status) ==> rows[k] in r
  {
    var term := SearchTerm(search);
    var st := ProjectStatusFilter(status);
    var searchFilter := if term.Some? then Some(SearchBy(term.value)) else None;
    var statusFilter := if st.Some? then Some(HasStatus(st.value)) else None;
    FilterAgree(Admitted(searchFilter, statusFilter), SelectedBy(search, status), rows);
    Narrow(rows, searchFilter, statusFilter)
  }

  /** A status the enumeration does not know filters nothing. */
  lemma UnknownStatusIgnored(rows: seq<ResearchProject>, search: Option<string>, status: string)
    requires ParseProjectStatus(Upper(status)).None?
    ensures FindAll(rows, search, Some(status)) == FindAll(rows, search, None)
  {
  }

  datatype Error = ProjectNotFound | InvalidStatus

  /** `ResearchProjectService` over the shared research projects table. */
  class ResearchProjectService {
    const projects: ResearchProjectRepository

    constructor(projects: ResearchProjectRepository)
      ensures this.projects == projects
    {
      this.projects := projects;
    }

    /** `delete(id)`: removes the project with that id, or fails when there is none. */
    method Delete(id: Id) returns (r: Result<(), Error>)
      requires projects.Valid()
      modifies projects
      ensures projects.Valid()
      ensures r.Failure? <==> forall p :: p in old(projects.rows) ==> p.id != id
      ensures r.Failure? ==> r.error == ProjectNotFound && projects.rows == old(projects.rows)
      ensures r.Success? ==> |projects.rows| == |old(projects.rows)| - 1
      ensures forall p :: p in projects.rows <==> p in old(projects.rows) && p.id != id
    {
      var found := FindFirst(HasKey(ResearchId, id), projects.rows);
      if found.None? {
        assert forall p :: p in projects.rows ==> HasKey(ResearchId, id)(p) == (p.id == id);
        return Failure(ProjectNotFound);
      }
      RemoveAtUnique(ResearchId, projects.rows, found.value);
      projects.rows := RemoveAt(projects.rows, found.value);
      r := Success(());
    }

    /** `updateProjectStatus(id, name)`: the project must exist, then the name,
        upper-cased, must be a status; the project gets that status and is returned. */
    method UpdateProjectStatus(id: Id, name: string) returns (r: Result<ResearchProject, Error>)
      requires projects.Valid()
      modifies projects
      ensures projects.Valid()
      ensures r.Failure? ==> projects.rows == old(projects.rows)
      ensures (forall p :: p in old(projects.rows) ==> p.id != id) ==> r == Failure(ProjectNotFound)
      ensures (exists p :: p in old(projects.rows) && p.id == id) && ParseProjectStatus(Upper(name)).None? ==>
        r == Failure(InvalidStatus)
      ensures (exists p :: p in old(projects.rows) && p.id == id) && ParseProjectStatus(Upper(name)).Some? ==>
        r.Success? && r.value.status == ParseProjectStatus(Upper(name)).value
      ensures r.Success? ==>
        && ProjectStatusName(r.value.status) == Upper(name)
        && r.value.id == id
        && exists i :: 0 <= i < |old(projects.rows)| && old(projects.rows)[i].id == id
             && projects.rows == old(projects.rows)[i := r.value]
             && r.value == old(projects.rows)[i].(status := r.value.status)
    {
      var found := FindFirst(HasKey(ResearchId, id), projects.rows);
      if found.None? {
        assert forall p :: p in projects.rows ==> HasKey(ResearchId, id)(p) == (p.id == id);
        return Failure(ProjectNotFound);
      }
      var i := found.value;
      var st := ParseProjectStatus(Upper(name));
      if st.None? {
        return Failure(InvalidStatus);
      }
      var after := projects.rows[i].(status := st.value);
      ReplaceKeepsUnique(ResearchId, projects.rows, i, after);
      projects.rows := projects.rows[i := after];
      r := Success(after);
    }
  }
}
