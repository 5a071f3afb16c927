/** The three kinds of opportunity a student can apply to (a teaching-assistant
    "monitoria", a research project and an extension project), their status
    enumerations and the repositories that hold them. */
module Domain {
  import opened Base
  import opened Sequences

  /** `StatusMonitoria`. */
  datatype MonitoriaStatus = Pendente | Aprovada | Rejeitada | Cancelada

  /** `ProjectStatus`, shared by research and extension projects. */
  datatype ProjectStatus = Aberto | Analise | Completo | Cancelado

  /** The constant name of a monitoria status, as `Enum.name()` spells it. */
  function MonitoriaStatusName(st: MonitoriaStatus): string
  {
    match st
    case Pendente => "PENDENTE"
    case Aprovada => "APROVADA"
    case Rejeitada => "REJEITADA"
    case Cancelada => "CANCELADA"
  }

  /** `StatusMonitoria.valueOf(name)`: the constant with exactly that name, or
      `None` where Java throws `IllegalArgumentException`. */
  function ParseMonitoriaStatus(name: string): (r: Option<MonitoriaStatus>)
    ensures r.Some? ==> MonitoriaStatusName(r.value) == name
    ensures r.None? ==> forall st :: MonitoriaStatusName(st) != name
  {
    if name == "PENDENTE" then Some(Pendente)
    else if name == "APROVADA" then Some(Aprovada)
    else if name == "REJEITADA" then Some(Rejeitada)
    else if name == "CANCELADA" then Some(Cancelada)
    else None
  }

  /** The constant name of a project status. */
  function ProjectStatusName(st: ProjectStatus): string
  {
    match st
    case Aberto => "ABERTO"
    case Analise => "ANALISE"
    case Completo => "COMPLETO"
    case Cancelado => "CANCELADO"
  }

  /** `ProjectStatus.valueOf(name)`. */
  function ParseProjectStatus(name: string): (r: Option<ProjectStatus>)
    ensures r.Some? ==> ProjectStatusName(r.value) == name
    ensures r.None? ==> forall st :: ProjectStatusName(st) != name
  {
    if name == "ABERTO" then Some(Aberto)
    else if name == "ANALISE" then Some(Analise)
    else if name == "COMPLETO" then Some(Completo)
    else if name == "CANCELADO" then Some(Cancelado)
    else None
  }

  /** Parsing a constant's own name gives the constant back, for both enumerations. */
  lemma StatusNamesRoundTrip(m: MonitoriaStatus, p: ProjectStatus)
    ensures ParseMonitoriaStatus(MonitoriaStatusName(m)) == Some(m)
    ensures ParseProjectStatus(ProjectStatusName(p)) == Some(p)
  {
  }

  /** The professor responsible for a monitoria, as far as the listings use it:
      the first name and the login of the linked user account, if any. */
  datatype ProfessorRef = ProfessorRef(firstName: string, userLogin: Option<string>)

  /** A monitoria; `subject` is the name of the linked discipline and
      `inicialDate` the start day (days since the epoch), both optional. */
  datatype Monitoria = Monitoria(
    id: Id,
    title: string,
    statusMonitoria: MonitoriaStatus,
    professor: Option<ProfessorRef>,
    subject: Option<string>,
    inicialDate: Option<int>)

  /** A research project; `leadResearcher` is the lead researcher's login. */
  datatype ResearchProject = ResearchProject(
    id: Id,
    title: string,
    status: ProjectStatus,
    leadResearcher: Option<string>,
    researchLine: Option<string>,
    startDate: Option<int>)

  /** An extension project; its status column is nullable. */
  datatype ExtensionProject = ExtensionProject(
    id: Id,
    title: string,
    status: Option<ProjectStatus>,
    coordinator: Option<string>,
    location: Option<string>,
    startDate: Option<int>)

  function MonitoriaId(m: Monitoria): Id { m.id }
  function ResearchId(p: ResearchProject): Id { p.id }
  function ExtensionId(p: ExtensionProject): Id { p.id }

  /** The `monitorias` table, shared by every service that reads or writes it. */
  class MonitoriaRepository {
    var rows: seq<Monitoria>

    ghost predicate Valid()
      reads this
    {
      UniqueBy(MonitoriaId, rows)
    }

    constructor(rows: seq<Monitoria>)
      requires UniqueBy(MonitoriaId, rows)
      ensures Valid() && this.rows == rows
    {
      this.rows := rows;
    }
  }

  /** The `research_projects` table. */
  class ResearchProjectRepository {
    var rows: seq<ResearchProject>

    ghost predicate Valid()
      reads this
    {
      UniqueBy(ResearchId, rows)
    }

    constructor(rows: seq<ResearchProject>)
      requires UniqueBy(ResearchId, rows)
      ensures Valid() && this.rows == rows
    {
      this.rows := rows;
    }
  }

  /** The `extension_projects` table. */
  class ExtensionProjectRepository {
    var rows: seq<ExtensionProject>

    ghost predicate Valid()
      reads this
    {
      UniqueBy(ExtensionId, rows)
    }

    constructor(rows: seq<ExtensionProject>)
      requires UniqueBy(ExtensionId, rows)
      ensures Valid() && this.rows == rows
    {
      this.rows := rows;
    }
  }
}
