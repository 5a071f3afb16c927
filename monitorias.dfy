/** `MonitoriaService`: the coordinators' and the students' listings of
    monitorias, the dashboard statistics and deletion. */
module Monitorias {
  import opened Base
  import opened Sequences
  import opened Text
  import opened Listing
  import opened Domain
  import Enrollment

  /** The search matches the title, the professor's first name or the subject name. */
  predicate MatchesSearch(m: Monitoria, term: string)
  {
    || Mentions(m.title, term)
    || (m.professor.Some? && Mentions(m.professor.value.firstName, term))
    || (m.subject.Some? && Mentions(m.subject.value, term))
  }

  function SearchBy(term: string): Monitoria -> bool { m => MatchesSearch(m, term) }
  function HasStatus(st: MonitoriaStatus): Monitoria -> bool { (m: Monitoria) => m.statusMonitoria == st }

  /** Whether a listing with these parameters shows `m`. */
  predicate Selected(m: Monitoria, search: Option<string>, status: Option<string>)
  {
    && (SearchTerm(search).None? || MatchesSearch(m, SearchTerm(search).value))
    && (MonitoriaStatusFilter(status).None? || m.statusMonitoria == MonitoriaStatusFilter(status).value)
  }

  function SelectedBy(search: Option<string>, status: Option<string>): Monitoria -> bool
  {
    (m: Monitoria) => Selected(m, search, status)
  }

  /** `findAll(search, status)` over the table contents: the selected monitorias, in table order. */
  function FindAll(rows: seq<Monitoria>, search: Option<string>, status: Option<string>): (r: seq<Monitoria>)
    ensures r == Filter(SelectedBy(search, status), rows)
    ensures IsSubsequence(r, rows)
    ensures forall k :: 0 <= k < |r| ==> Selected(r[k], search, status)
    ensures forall k :: 0 <= k < |rows| && Selected(rows[k], search, status) ==> rows[k] in r
  {
    var term := SearchTerm(search);
    var st := MonitoriaStatusFilter(status);
    var searchFilter := if term.Some? then Some(SearchBy(term.value)) else None;
    var statusFilter := if st.Some? then Some(HasStatus(st.value)) else None;
    FilterAgree(Admitted(searchFilter, statusFilter), SelectedBy(search, status), rows);
    Narrow(rows, searchFilter, statusFilter)
  }

  /** A status the enumeration does not know filters nothing: the listing is
      the one without a status. */
  lemma UnknownStatusIgnored(rows: seq<Monitoria>, search: Option<string>, status: string)
    requires ParseMonitoriaStatus(Upper(status)).None?
    ensures FindAll(rows, search, Some(status)) == FindAll(rows, search, None)
  {
  }

  /** "TODOS" in any letter case selects every status. */
  lemma AllStatusesWord(rows: seq<Monitoria>, search: Option<string>, status: string)
    requires Upper(status) == "TODOS"
    ensures FindAll(rows, search, Some(status)) == FindAll(rows, search, None)
  {
    assert Upper("TODOS") == "TODOS";
    EqualsIgnoreCaseIffUpper(status, "TODOS");
  }

  /** `findAllForStudent(search)`: only approved monitorias, then the search. */
  function FindAllForStudent(rows: seq<Monitoria>, search: Option<string>): (r: seq<Monitoria>)
    ensures forall k :: 0 <= k < |r| ==> r[k].statusMonitoria == Aprovada
  {
    var approved := Filter(HasStatus(Aprovada), rows);
    var term := SearchTerm(search);
    if term.Some? then Filter(SearchBy(term.value), approved) else approved
  }

  /** The students' listing is the coordinators' listing restricted to APROVADA. */
  lemma {:induction false} ForStudentIsApprovedListing(rows: seq<Monitoria>, search: Option<string>)
    ensures FindAllForStudent(rows, search) == FindAll(rows, search, Some("APROVADA"))
  {
    var approved := Some("APROVADA");
    assert !IsBlank("APROVADA");
    assert Upper("APROVADA") == "APROVADA";
    assert MonitoriaStatusFilter(approved) == Some(Aprovada);
    var term := SearchTerm(search);
    if term.Some? {
      FilterCommutes(HasStatus(Aprovada), SearchBy(term.value), rows);
    }
  }

  /** `MonitoriaStatisticsDTO`. */
  datatype Statistics = Statistics(openMonitorias: nat, activeMonitors: nat, pendingCandidates: nat)

  predicate IsOpen(m: Monitoria)
  {
    m.statusMonitoria != Cancelada && m.statusMonitoria != Rejeitada
  }

  function HasApplicationStatus(st: Enrollment.Status): Enrollment.Application -> bool
  {
    (a: Enrollment.Application) => a.status == st
  }

  /** `getMonitoriaStatistics` over the monitorias and the candidacies tables. */
  function GetStatistics(ms: seq<Monitoria>, candidacies: seq<Enrollment.Application>): (s: Statistics)
    ensures s.openMonitorias <= |ms|
    ensures s.openMonitorias == Count(HasStatus(Pendente), ms) + Count(HasStatus(Aprovada), ms)
    ensures s.activeMonitors == Count(HasApplicationStatus(Enrollment.Aprovada), candidacies)
    ensures s.pendingCandidates == Count(HasApplicationStatus(Enrollment.Pendente), candidacies)
    ensures s.activeMonitors + s.pendingCandidates <= |candidacies|
  {
    CountSplit(IsOpen, HasStatus(Pendente), HasStatus(Aprovada), ms);
    CountDisjoint(HasApplicationStatus(Enrollment.Aprovada), HasApplicationStatus(Enrollment.Pendente), candidacies);
    Statistics(Count(IsOpen, ms),
               Count(HasApplicationStatus(Enrollment.Aprovada), candidacies),
               Count(HasApplicationStatus(Enrollment.Pendente), candidacies))
  }

  datatype Error = MonitoriaNotFound

  /** The deletion half of `MonitoriaService`, over the shared table. */
  class MonitoriaService {
    const monitorias: MonitoriaRepository

    constructor(monitorias: MonitoriaRepository)
      ensures this.monitorias == monitorias
    {
      this.monitorias := monitorias;
    }

    /** `delete(id)`: removes the monitoria with that id, or fails when there is none. */
    method Delete(id: Id) returns (r: Result<(), Error>)
      requires monitorias.Valid()
      modifies monitorias
      ensures monitorias.Valid()
      ensures r.Failure? <==> forall m :: m in old(monitorias.rows) ==> m.id != id
      ensures r.Failure? ==> monitorias.rows == old(monitorias.rows)
      ensures r.Success? ==> |monitorias.rows| == |old(monitorias.rows)| - 1
      ensures forall m :: m in monitorias.rows <==> m in old(monitorias.rows) && m.id != id
    {
      var found := FindFirst(HasKey(MonitoriaId, id), monitorias.rows);
      if found.None? {
        assert forall m :: m in monitorias.rows ==> HasKey(MonitoriaId, id)(m) == (m.id == id);
        return Failure(MonitoriaNotFound);
      }
      RemoveAtUnique(MonitoriaId, monitorias.rows, found.value);
      monitorias.rows := RemoveAt(monitorias.rows, found.value);
      r := Success(());
    }
  }
}
