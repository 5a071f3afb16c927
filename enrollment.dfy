/** Applications of students to opportunities: the candidacies to a monitoria
    and the enrolments in research and extension projects. The three services
    share one lifecycle, PENDENTE -> APROVADA | REJEITADA | CANCELADA, with
    re-application after a cancellation or a rejection; they differ only in
    whether cancelling an already cancelled application is an error. */
module Enrollment {
  import opened Base
  import opened Sequences

  /** `StatusCandidatura` / `StatusInscricaoProjeto`. */
  datatype Status = Pendente | Aprovada | Rejeitada | Cancelada

  /** Which of the three services: candidacies to a monitoria, enrolments in a
      research project, enrolments in an extension project. */
  datatype Family = MonitoriaCandidacy | ResearchEnrolment | ExtensionEnrolment

  /** One application row; `submittedAt` is the application timestamp. */
  datatype Application = Application(id: Id, opportunity: Id, student: Id, status: Status, submittedAt: int)

  /** The runtime exceptions the services throw, by message. */
  datatype Error =
    | OpportunityNotFound
    | StudentNotFound
    | ApplicationNotFound
    | AlreadyApproved
    | AlreadyPending
    | AlreadyCancelled

  function PairOf(a: Application): (Id, Id) { (a.opportunity, a.student) }
  function ApplicationId(a: Application): Id { a.id }
  function ForOpportunity(opp: Id): Application -> bool { (a: Application) => a.opportunity == opp }
  function ForStudent(student: Id): Application -> bool { (a: Application) => a.student == student }

  /** An application that blocks a new one: pending or approved. */
  predicate IsActive(a: Application)
  {
    a.status == Pendente || a.status == Aprovada
  }

  /** What `apply` does to the (opportunity, student) pair's existing record,
      if any: the status the record ends in, or the error. */
  function ApplyStep(current: Option<Status>): (r: Result<Status, Error>)
    ensures r.Success? <==> current == None || current == Some(Cancelada) || current == Some(Rejeitada)
    ensures r.Success? ==> r.value == Pendente
    ensures r == Failure(AlreadyApproved) <==> current == Some(Aprovada)
    ensures r == Failure(AlreadyPending) <==> current == Some(Pendente)
  {
    match current
    case None => Success(Pendente)
    case Some(Aprovada) => Failure(AlreadyApproved)
    case Some(Pendente) => Failure(AlreadyPending)
    case Some(Cancelada) => Success(Pendente)
    case Some(Rejeitada) => Success(Pendente)
  }

  /** What `cancel` does to an existing record's status. Only the monitoria
      service refuses to cancel twice; the project services set CANCELADA again. */
  function CancelStep(family: Family, current: Status): (r: Result<Status, Error>)
    ensures r.Success? <==> current == Pendente || current == Rejeitada || (current == Cancelada && family != MonitoriaCandidacy)
    ensures r.Success? ==> r.value == Cancelada
    ensures r == Failure(AlreadyApproved) <==> current == Aprovada
    ensures r == Failure(AlreadyCancelled) <==> current == Cancelada && family == MonitoriaCandidacy
  {
    match current
    case Aprovada => Failure(AlreadyApproved)
    case Cancelada => if family == MonitoriaCandidacy then Failure(AlreadyCancelled) else Success(Cancelada)
    case Pendente => Success(Cancelada)
    case Rejeitada => Success(Cancelada)
  }

  /** Any record a cancel leaves behind can be applied for again, and a
      successful apply always leaves an active record that a second apply refuses. */
  lemma CancelThenApply(family: Family, current: Status)
    requires CancelStep(family, current).Success?
    ensures ApplyStep(Some(CancelStep(family, current).value)) == Success(Pendente)
    ensures ApplyStep(Some(ApplyStep(Some(CancelStep(family, current).value)).value)) == Failure(AlreadyPending)
  {
  }

  /** The candidacies table (`candidaturas_monitoria`, or the enrolments table of
      a project family): at most one record per (opportunity, student) pair. */
  class ApplicationRepository {
    var rows: seq<Application>
    var nextId: Id

    ghost predicate Valid()
      reads this
    {
      && UniqueBy(PairOf, rows)
      && UniqueBy(ApplicationId, rows)
      && forall i :: 0 <= i < |rows| ==> rows[i].id < nextId
    }

    constructor()
      ensures Valid() && rows == []
    {
      rows := [];
      nextId := 0;
    }

    /** `findBy<Opportunity>AndAluno`: the position of the pair's record. */
    function Lookup(opp: Id, student: Id): (r: Option<nat>)
      reads this
      requires Valid()
      ensures r.Some? ==> r.value < |rows| && rows[r.value].opportunity == opp && rows[r.value].student == student
      ensures r.None? ==> forall i :: 0 <= i < |rows| ==> !(rows[i].opportunity == opp && rows[i].student == student)
    {
      FindFirst(HasKey(PairOf, (opp, student)), rows)
    }
  }

  /** One of the three application services. `clock` stands for the
      `LocalDateTime.now()` the service reads; it only moves forward. */
  class EnrollmentService {
    const family: Family
    const applications: ApplicationRepository
    var clock: int

    ghost predicate Valid()
      reads this, applications
    {
      && applications.Valid()
      && forall i :: 0 <= i < |applications.rows| ==> applications.rows[i].submittedAt <= clock
    }

    constructor(family: Family, applications: ApplicationRepository, now: int)
      requires applications.Valid()
      requires forall i :: 0 <= i < |applications.rows| ==> applications.rows[i].submittedAt <= now
      ensures Valid() && this.family == family && this.applications == applications && clock == now
    {
      this.family := family;
      this.applications := applications;
      clock := now;
    }

    /** `candidatar` / `inscrever`. `opportunities` and `users` are the ids the
        opportunity table and the user table hold. */
    method Apply(opp: Id, student: Id, opportunities: set<Id>, users: set<Id>) returns (r: Result<Application, Error>)
      requires Valid()
      modifies this, applications
      ensures Valid() && clock >= old(clock)
      ensures opp !in opportunities ==> r == Failure(OpportunityNotFound)
      ensures opp in opportunities && student !in users ==> r == Failure(StudentNotFound)
      ensures r.Failure? ==> applications.rows == old(applications.rows) && applications.nextId == old(applications.nextId)
      ensures opp in opportunities && student in users && old(applications.Lookup(opp, student)).None? ==>
        && r.Success?
        && r.value == Application(old(applications.nextId), opp, student, Pendente, clock)
        && clock > old(clock)
        && applications.rows == old(applications.rows) + [r.value]
      ensures opp in opportunities && student in users && old(applications.Lookup(opp, student)).Some? ==>
        var i := old(applications.Lookup(opp, student)).value;
        var before := old(applications.rows)[i];
        && (ApplyStep(Some(before.status)).Failure? ==> r == Failure(ApplyStep(Some(before.status)).error))
        && (ApplyStep(Some(before.status)).Success? ==>
              && r == Success(before.(status := Pendente, submittedAt := clock))
              && clock > before.submittedAt
              && applications.rows == old(applications.rows)[i := r.value]
              && applications.nextId == old(applications.nextId))
    {
      if opp !in opportunities {
        return Failure(OpportunityNotFound);
      }
      if student !in users {
        return Failure(StudentNotFound);
      }
      var found := applications.Lookup(opp, student);
      if found.Some? {
        var i := found.value;
        var before := applications.rows[i];
        var step := ApplyStep(Some(before.status));
        if step.Failure? {
          return Failure(step.error);
        }
        clock := clock + 1;
        var after := before.(status := Pendente, submittedAt := clock);
        ReplaceKeepsUnique(PairOf, applications.rows, i, after);
        ReplaceKeepsUnique(ApplicationId, applications.rows, i, after);
        applications.rows := applications.rows[i := after];
        return Success(after);
      }
      clock := clock + 1;
      var created := Application(applications.nextId, opp, student, Pendente, clock);
      AppendKeepsUnique(PairOf, applications.rows, created);
      AppendKeepsUnique(ApplicationId, applications.rows, created);
      applications.rows := applications.rows + [created];
      applications.nextId := applications.nextId + 1;
      r := Success(created);
    }

    /** `cancelarCandidatura` / `cancelarInscricao`. */
    method Cancel(opp: Id, student: Id, opportunities: set<Id>, users: set<Id>) returns (r: Result<(), Error>)
      requires Valid()
      modifies applications
      ensures Valid()
      ensures applications.nextId == old(applications.nextId)
      ensures opp !in opportunities ==> r == Failure(OpportunityNotFound)
      ensures opp in opportunities && student !in users ==> r == Failure(StudentNotFound)
      ensures opp in opportunities && student in users && old(applications.Lookup(opp, student)).None? ==>
        r == Failure(ApplicationNotFound)
      ensures r.Failure? ==> applications.rows == old(applications.rows)
      ensures opp in opportunities && student in users && old(applications.Lookup(opp, student)).Some? ==>
        var i := old(applications.Lookup(opp, student)).value;
        var before := old(applications.rows)[i];
        && (CancelStep(family, before.status).Failure? ==> r == Failure(CancelStep(family, before.status).error))
        && (CancelStep(family, before.status).Success? ==>
              r.Success? && applications.rows == old(applications.rows)[i := before.(status := Cancelada)])
    {
      if opp !in opportunities {
        return Failure(OpportunityNotFound);
      }
      if student !in users {
        return Failure(StudentNotFound);
      }
      var found := applications.Lookup(opp, student);
      if found.None? {
        return Failure(ApplicationNotFound);
      }
      var i := found.value;
      var before := applications.rows[i];
      var step := CancelStep(family, before.status);
      if step.Failure? {
        return Failure(step.error);
      }
      var after := before.(status := Cancelada);
      ReplaceKeepsUnique(PairOf, applications.rows, i, after);
      ReplaceKeepsUnique(ApplicationId, applications.rows, i, after);
      applications.rows := applications.rows[i := after];
      r := Success(());
    }

    /** `checkCandidaturaStatus` / `checkInscricaoStatus`: whether the student
        holds a pending or approved application to the opportunity. It looks
        nothing else up, so it never fails. */
    function HasActiveApplication(opp: Id, student: Id): (b: bool)
      reads this, applications
      requires Valid()
      ensures b <==> exists i :: 0 <= i < |applications.rows| && applications.rows[i].opportunity == opp
                                 && applications.rows[i].student == student && IsActive(applications.rows[i])
    {
      var found := applications.Lookup(opp, student);
      found.Some? && IsActive(applications.rows[found.value])
    }

    /** `findCandidaturasByMonitoria` / `findInscricoesBy<Project>`. */
    function ApplicationsOf(opp: Id, opportunities: set<Id>): (r: Result<seq<Application>, Error>)
      reads this, applications
      ensures r.Failure? <==> opp !in opportunities
      ensures r.Failure? ==> r.error == OpportunityNotFound
      ensures r.Success? ==> IsSubsequence(r.value, applications.rows)
      ensures r.Success? ==> forall k :: 0 <= k < |r.value| ==> r.value[k].opportunity == opp
      ensures r.Success? ==> forall a :: a in applications.rows && a.opportunity == opp ==> a in r.value
    {
      if opp !in opportunities then Failure(OpportunityNotFound)
      else
        FilterIsSubsequence(ForOpportunity(opp), applications.rows);
        Success(Filter(ForOpportunity(opp), applications.rows))
    }

    /** `findCandidaturasByAluno` / `findInscricoesByAluno`. */
    function ApplicationsBy(student: Id, users: set<Id>): (r: Result<seq<Application>, Error>)
      reads this, applications
      ensures r.Failure? <==> student !in users
      ensures r.Failure? ==> r.error == StudentNotFound
      ensures r.Success? ==> IsSubsequence(r.value, applications.rows)
      ensures r.Success? ==> forall k :: 0 <= k < |r.value| ==> r.value[k].student == student
      ensures r.Success? ==> forall a :: a in applications.rows && a.student == student ==> a in r.value
    {
      if student !in users then Failure(StudentNotFound)
      else
        FilterIsSubsequence(ForStudent(student), applications.rows);
        Success(Filter(ForStudent(student), applications.rows))
    }

    /** `findProjectsByAluno`: the opportunity of each of the student's
        applications, whatever its status, one per application. */
    function OpportunitiesOf(student: Id): (r: seq<Id>)
      reads this, applications
      ensures |r| == Count(ForStudent(student), applications.rows)
      ensures forall k :: 0 <= k < |r| ==> r[k] == Filter(ForStudent(student), applications.rows)[k].opportunity
      ensures forall k :: 0 <= k < |r| ==> exists a :: a in applications.rows && a.student == student && a.opportunity == r[k]
      ensures forall a :: a in applications.rows && a.student == student ==> a.opportunity in r
    {
      var mine := Filter(ForStudent(student), applications.rows);
      var r := seq(|mine|, k requires 0 <= k < |mine| => mine[k].opportunity);
      assert forall k :: 0 <= k < |r| ==> mine[k] in applications.rows && mine[k].student == student && mine[k].opportunity == r[k];
      assert forall a :: a in applications.rows && a.student == student ==> a in mine;
      r
    }
  }
}
