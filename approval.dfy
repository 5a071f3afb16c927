/** The coordinators' approval queue: monitorias awaiting approval and research
    and extension projects still open, shown as one list of approval items, and
    the approve / reject decisions that take an item off the queue. */
module Approval {
  import opened Base
  import opened Sequences
  import opened Text
  import opened Domain

  /** The three kinds of item, with their tags "MONITORIA", "PESQUISA", "EXTENSAO". */
  datatype Kind = MonitoriaItem | ResearchItem | ExtensionItem

  function KindTag(k: Kind): string
  {
    match k
    case MonitoriaItem => "MONITORIA"
    case ResearchItem => "PESQUISA"
    case ExtensionItem => "EXTENSAO"
  }

  /** `ApprovalItemDTO`; `submittedAt` in seconds since the epoch. */
  datatype ApprovalItem = ApprovalItem(
    id: Id,
    title: string,
    kind: string,
    creatorName: string,
    departmentOrArea: string,
    submittedAt: int,
    currentStatus: string)

  datatype ApprovalError = InvalidType | NotFound

  const SecondsPerDay: int := 86400

  /** The displayed text of an optional field. */
  function OrNotAvailable(s: Option<string>): (r: string)
    ensures s.Some? ==> r == s.value
    ensures s.None? ==> r == "N/A"
  {
    if s.Some? then s.value else "N/A"
  }

  /** `date.atStartOfDay()` of an optional start day, or the current instant `now`. */
  function StartOfDay(day: Option<int>, now: int): (r: int)
    ensures day.Some? ==> r == day.value * SecondsPerDay && r % SecondsPerDay == 0
    ensures day.None? ==> r == now
  {
    if day.Some? then day.value * SecondsPerDay else now
  }

  function CreatorOf(m: Monitoria): Option<string>
  {
    if m.professor.Some? then m.professor.value.userLogin else None
  }

  function MapMonitoria(m: Monitoria, now: int): ApprovalItem
  {
    ApprovalItem(m.id, m.title, "MONITORIA", OrNotAvailable(CreatorOf(m)), OrNotAvailable(m.subject),
                 StartOfDay(m.inicialDate, now), "PENDENTE")
  }

  function MapResearch(p: ResearchProject, now: int): ApprovalItem
  {
    ApprovalItem(p.id, p.title, "PESQUISA", OrNotAvailable(p.leadResearcher), OrNotAvailable(p.researchLine),
                 StartOfDay(p.startDate, now), "PENDENTE")
  }

  function MapExtension(p: ExtensionProject, now: int): ApprovalItem
  {
    ApprovalItem(p.id, p.title, "EXTENSAO", OrNotAvailable(p.coordinator), OrNotAvailable(p.location),
                 StartOfDay(p.startDate, now), "PENDENTE")
  }

  function MonitoriaMapper(now: int): Monitoria -> ApprovalItem { m => MapMonitoria(m, now) }
  function ResearchMapper(now: int): ResearchProject -> ApprovalItem { p => MapResearch(p, now) }
  function ExtensionMapper(now: int): ExtensionProject -> ApprovalItem { p => MapExtension(p, now) }

  /** The entities the queue shows: monitorias in PENDENTE, projects in ABERTO. */
  predicate MonitoriaAwaits(m: Monitoria) { m.statusMonitoria == Pendente }
  predicate ResearchAwaits(p: ResearchProject) { p.status == Aberto }
  predicate ExtensionAwaits(p: ExtensionProject) { p.status == Some(Aberto) }

  /** `getPendingApprovals` over the contents of the three tables: the awaiting
      monitorias, then the open research projects, then the open extension
      projects, each group in table order. */
  function PendingItems(ms: seq<Monitoria>, rs: seq<ResearchProject>, es: seq<ExtensionProject>, now: int): (r: seq<ApprovalItem>)
    ensures |r| == Count(MonitoriaAwaits, ms) + Count(ResearchAwaits, rs) + Count(ExtensionAwaits, es)
    ensures forall k :: 0 <= k < |r| ==> r[k].currentStatus == "PENDENTE"
  {
    Map(MonitoriaMapper(now), Filter(MonitoriaAwaits, ms))
    + Map(ResearchMapper(now), Filter(ResearchAwaits, rs))
    + Map(ExtensionMapper(now), Filter(ExtensionAwaits, es))
  }

  /** The position of a kind's group in the queue. */
  function KindRank(tag: string): nat
  {
    if tag == "MONITORIA" then 0 else if tag == "PESQUISA" then 1 else 2
  }

  /** An item tagged MONITORIA is in the queue exactly when it is the item of an
      awaiting monitoria. */
  lemma PendingMonitoriaItems(ms: seq<Monitoria>, rs: seq<ResearchProject>, es: seq<ExtensionProject>, now: int)
    ensures forall it :: it in PendingItems(ms, rs, es, now) && it.kind == "MONITORIA" <==>
      exists m :: m in ms && MonitoriaAwaits(m) && it == MapMonitoria(m, now)
  {
    var a := Map(MonitoriaMapper(now), Filter(MonitoriaAwaits, ms));
    var b := Map(ResearchMapper(now), Filter(ResearchAwaits, rs));
    var c := Map(ExtensionMapper(now), Filter(ExtensionAwaits, es));
    assert PendingItems(ms, rs, es, now) == a + b + c;
    assert forall k :: 0 <= k < |b| ==> b[k].kind == "PESQUISA";
    assert forall k :: 0 <= k < |c| ==> c[k].kind == "EXTENSAO";
    MapFilterMembers(MonitoriaMapper(now), MonitoriaAwaits, ms);
  }

  /** An item tagged PESQUISA is in the queue exactly when it is the item of an
      open research project. */
  lemma PendingResearchItems(ms: seq<Monitoria>, rs: seq<ResearchProject>, es: seq<ExtensionProject>, now: int)
    ensures forall it :: it in PendingItems(ms, rs, es, now) && it.kind == "PESQUISA" <==>
      exists p :: p in rs && ResearchAwaits(p) && it == MapResearch(p, now)
  {
    var a := Map(MonitoriaMapper(now), Filter(MonitoriaAwaits, ms));
    var b := Map(ResearchMapper(now), Filter(ResearchAwaits, rs));
    var c := Map(ExtensionMapper(now), Filter(ExtensionAwaits, es));
    assert PendingItems(ms, rs, es, now) == a + b + c;
    assert forall k :: 0 <= k < |a| ==> a[k].kind == "MONITORIA";
    assert forall k :: 0 <= k < |c| ==> c[k].kind == "EXTENSAO";
    MapFilterMembers(ResearchMapper(now), ResearchAwaits, rs);
  }

  /** An item tagged EXTENSAO is in the queue exactly when it is the item of an
      open extension project. */
  lemma PendingExtensionItems(ms: seq<Monitoria>, rs: seq<ResearchProject>, es: seq<ExtensionProject>, now: int)
    ensures forall it :: it in PendingItems(ms, rs, es, now) && it.kind == "EXTENSAO" <==>
      exists p :: p in es && ExtensionAwaits(p) && it == MapExtension(p, now)
  {
    var a := Map(MonitoriaMapper(now), Filter(MonitoriaAwaits, ms));
    var b := Map(ResearchMapper(now), Filter(ResearchAwaits, rs));
    var c := Map(ExtensionMapper(now), Filter(ExtensionAwaits, es));
    assert PendingItems(ms, rs, es, now) == a + b + c;
    assert forall k :: 0 <= k < |a| ==> a[k].kind == "MONITORIA";
    assert forall k :: 0 <= k < |b| ==> b[k].kind == "PESQUISA";
    MapFilterMembers(ExtensionMapper(now), ExtensionAwaits, es);
  }

  /** The queue is grouped by kind: monitorias first, then research, then extension. */
  lemma PendingItemsGrouped(ms: seq<Monitoria>, rs: seq<ResearchProject>, es: seq<ExtensionProject>, now: int)
    ensures var r := PendingItems(ms, rs, es, now);
      forall i, j :: 0 <= i < j < |r| ==> KindRank(r[i].kind) <= KindRank(r[j].kind)
  {
    var a := Map(MonitoriaMapper(now), Filter(MonitoriaAwaits, ms));
    var b := Map(ResearchMapper(now), Filter(ResearchAwaits, rs));
    var c := Map(ExtensionMapper(now), Filter(ExtensionAwaits, es));
    var r := PendingItems(ms, rs, es, now);
    assert r == a + b + c;
    forall k | 0 <= k < |r|
      ensures KindRank(r[k].kind) == (if k < |a| then 0 else if k < |a| + |b| then 1 else 2)
    {
      if k < |a| {
        assert r[k] == a[k];
      } else if k < |a| + |b| {
        assert r[k] == b[k - |a|];
      } else {
        assert r[k] == c[k - |a| - |b|];
      }
    }
  }

  /** Each group of the queue is the items of its table's awaiting rows, in the
      order those rows have in the table. */
  lemma PendingItemsKeepTableOrder(ms: seq<Monitoria>, rs: seq<ResearchProject>, es: seq<ExtensionProject>, now: int)
    ensures var r := PendingItems(ms, rs, es, now);
      var nm := Count(MonitoriaAwaits, ms);
      var nr := Count(ResearchAwaits, rs);
      && r[..nm] == Map(MonitoriaMapper(now), Filter(MonitoriaAwaits, ms))
      && r[nm..nm + nr] == Map(ResearchMapper(now), Filter(ResearchAwaits, rs))
      && r[nm + nr..] == Map(ExtensionMapper(now), Filter(ExtensionAwaits, es))
    ensures IsSubsequence(Filter(MonitoriaAwaits, ms), ms)
    ensures IsSubsequence(Filter(ResearchAwaits, rs), rs)
    ensures IsSubsequence(Filter(ExtensionAwaits, es), es)
  {
    var a := Map(MonitoriaMapper(now), Filter(MonitoriaAwaits, ms));
    var b := Map(ResearchMapper(now), Filter(ResearchAwaits, rs));
    var c := Map(ExtensionMapper(now), Filter(ExtensionAwaits, es));
    var r := PendingItems(ms, rs, es, now);
    assert r == a + b + c;
    assert r[..|a|] == a;
    assert r[|a|..|a| + |b|] == b;
    assert r[|a| + |b|..] == c;
    FilterIsSubsequence(MonitoriaAwaits, ms);
    FilterIsSubsequence(ResearchAwaits, rs);
    FilterIsSubsequence(ExtensionAwaits, es);
  }

  /** No string matches two different tags, ignoring case. */
  lemma TagsExclusive(t: string)
    ensures !(EqualsIgnoreCase("MONITORIA", t) && EqualsIgnoreCase("PESQUISA", t))
    ensures !(EqualsIgnoreCase("MONITORIA", t) && EqualsIgnoreCase("EXTENSAO", t))
    ensures !(EqualsIgnoreCase("PESQUISA", t) && EqualsIgnoreCase("EXTENSAO", t))
  {
    if |t| == 8 {
      assert EqualsIgnoreCase("PESQUISA", t) ==> UpperChar(t[0]) == 'P';
      assert EqualsIgnoreCase("EXTENSAO", t) ==> UpperChar(t[0]) == 'E';
    }
  }

  /** The kind a request names: the tags compared ignoring case, as
      `equalsIgnoreCase` does; a missing type matches none. */
  function ParseKind(tag: Option<string>): (r: Option<Kind>)
    ensures forall k :: r == Some(k) <==> tag.Some? && EqualsIgnoreCase(KindTag(k), tag.value)
  {
    if tag.None? then None
    else
    TagsExclusive(tag.value);
    if EqualsIgnoreCase("MONITORIA", tag.value) then Some(MonitoriaItem)
    else if EqualsIgnoreCase("PESQUISA", tag.value) then Some(ResearchItem)
    else if EqualsIgnoreCase("EXTENSAO", tag.value) then Some(ExtensionItem)
    else None
  }

  /** Each item's own tag names its kind, in any letter case. */
  lemma TagsRoundTrip(k: Kind)
    ensures ParseKind(Some(KindTag(k))) == Some(k)
    ensures ParseKind(Some(Lower(KindTag(k)))) == Some(k)
  {
    CaseFoldingIgnored(KindTag(k));
  }

  /** A decided monitoria or project leaves the queue; the other kinds' groups stay as they were. */
  lemma DecidedMonitoriaLeavesQueue(ms: seq<Monitoria>, rs: seq<ResearchProject>, es: seq<ExtensionProject>, now: int, i: nat, st: MonitoriaStatus)
    requires UniqueBy(MonitoriaId, ms) && i < |ms| && st != Pendente
    ensures forall it :: it in PendingItems(ms[i := ms[i].(statusMonitoria := st)], rs, es, now) ==>
      !(it.kind == "MONITORIA" && it.id == ms[i].id)
  {
    var ms' := ms[i := ms[i].(statusMonitoria := st)];
    PendingMonitoriaItems(ms', rs, es, now);
    forall it | it in PendingItems(ms', rs, es, now) && it.kind == "MONITORIA"
      ensures it.id != ms[i].id
    {
      var m :| m in ms' && MonitoriaAwaits(m) && it == MapMonitoria(m, now);
      var k :| 0 <= k < |ms'| && ms'[k] == m;
      assert k != i;
    }
  }

  lemma DecidedResearchLeavesQueue(ms: seq<Monitoria>, rs: seq<ResearchProject>, es: seq<ExtensionProject>, now: int, i: nat, st: ProjectStatus)
    requires UniqueBy(ResearchId, rs) && i < |rs| && st != Aberto
    ensures forall it :: it in PendingItems(ms, rs[i := rs[i].(status := st)], es, now) ==>
      !(it.kind == "PESQUISA" && it.id == rs[i].id)
  {
    var rs' := rs[i := rs[i].(status := st)];
    PendingResearchItems(ms, rs', es, now);
    forall it | it in PendingItems(ms, rs', es, now) && it.kind == "PESQUISA"
      ensures it.id != rs[i].id
    {
      var p :| p in rs' && ResearchAwaits(p) && it == MapResearch(p, now);
      var k :| 0 <= k < |rs'| && rs'[k] == p;
      assert k != i;
    }
  }

  lemma DecidedExtensionLeavesQueue(ms: seq<Monitoria>, rs: seq<ResearchProject>, es: seq<ExtensionProject>, now: int, i: nat, st: ProjectStatus)
    requires UniqueBy(ExtensionId, es) && i < |es| && st != Aberto
    ensures forall it :: it in PendingItems(ms, rs, es[i := es[i].(status := Some(st))], now) ==>
      !(it.kind == "EXTENSAO" && it.id == es[i].id)
  {
    var es' := es[i := es[i].(status := Some(st))];
    PendingExtensionItems(ms, rs, es', now);
    forall it | it in PendingItems(ms, rs, es', now) && it.kind == "EXTENSAO"
      ensures it.id != es[i].id
    {
      var p :| p in es' && ExtensionAwaits(p) && it == MapExtension(p, now);
      var k :| 0 <= k < |es'| && es'[k] == p;
      assert k != i;
    }
  }

  /** `ApprovalService`, over the three shared tables. */
  class ApprovalService {
    const monitorias: MonitoriaRepository
    const research: ResearchProjectRepository
    const extension: ExtensionProjectRepository

    ghost predicate Valid()
      reads this, monitorias, research, extension
    {
      monitorias.Valid() && research.Valid() && extension.Valid()
    }

    constructor(monitorias: MonitoriaRepository, research: ResearchProjectRepository, extension: ExtensionProjectRepository)
      requires monitorias.Valid() && research.Valid() && extension.Valid()
      ensures Valid()
      ensures this.monitorias == monitorias && this.research == research && this.extension == extension
    {
      this.monitorias := monitorias;
      this.research := research;
      this.extension := extension;
    }

    /** `approveItem`: a monitoria becomes APROVADA, a project goes to ANALISE. */
    method ApproveItem(id: Id, tag: Option<string>) returns (r: Result<(), ApprovalError>)
      requires Valid()
      modifies monitorias, research, extension
      ensures Valid()
      ensures ParseKind(tag).None? ==> r == Failure(InvalidType)
      ensures r.Failure? ==> unchanged(monitorias, research, extension)
      ensures ParseKind(tag) == Some(MonitoriaItem) ==>
        Decided(old(monitorias.rows), monitorias.rows, MonitoriaId, id, (m: Monitoria) => m.(statusMonitoria := Aprovada), r)
        && unchanged(research, extension)
      ensures ParseKind(tag) == Some(ResearchItem) ==>
        Decided(old(research.rows), research.rows, ResearchId, id, (p: ResearchProject) => p.(status := Analise), r)
        && unchanged(monitorias, extension)
      ensures ParseKind(tag) == Some(ExtensionItem) ==>
        Decided(old(extension.rows), extension.rows, ExtensionId, id, (p: ExtensionProject) => p.(status := Some(Analise)), r)
        && unchanged(monitorias, research)
    {
      var kind := ParseKind(tag);
      if kind == Some(MonitoriaItem) {
        r := DecideMonitoria(id, Aprovada);
      } else if kind == Some(ResearchItem) {
        r := DecideResearch(id, Analise);
      } else if kind == Some(ExtensionItem) {
        r := DecideExtension(id, Analise);
      } else {
        r := Failure(InvalidType);
      }
    }

    /** `rejectItem`: a monitoria becomes REJEITADA, a project CANCELADO. */
    method RejectItem(id: Id, tag: Option<string>) returns (r: Result<(), ApprovalError>)
      requires Valid()
      modifies monitorias, research, extension
      ensures Valid()
      ensures ParseKind(tag).None? ==> r == Failure(InvalidType)
      ensures r.Failure? ==> unchanged(monitorias, research, extension)
      ensures ParseKind(tag) == Some(MonitoriaItem) ==>
        Decided(old(monitorias.rows), monitorias.rows, MonitoriaId, id, (m: Monitoria) => m.(statusMonitoria := Rejeitada), r)
        && unchanged(research, extension)
      ensures ParseKind(tag) == Some(ResearchItem) ==>
        Decided(old(research.rows), research.rows, ResearchId, id, (p: ResearchProject) => p.(status := Cancelado), r)
        && unchanged(monitorias, extension)
      ensures ParseKind(tag) == Some(ExtensionItem) ==>
        Decided(old(extension.rows), extension.rows, ExtensionId, id, (p: ExtensionProject) => p.(status := Some(Cancelado)), r)
        && unchanged(monitorias, research)
    {
      var kind := ParseKind(tag);
      if kind == Some(MonitoriaItem) {
        r := DecideMonitoria(id, Rejeitada);
      } else if kind == Some(ResearchItem) {
        r := DecideResearch(id, Cancelado);
      } else if kind == Some(ExtensionItem) {
        r := DecideExtension(id, Cancelado);
      } else {
        r := Failure(InvalidType);
      }
    }

    method DecideMonitoria(id: Id, st: MonitoriaStatus) returns (r: Result<(), ApprovalError>)
      requires Valid()
      modifies monitorias
      ensures Valid()
      ensures r.Failure? ==> unchanged(monitorias)
      ensures Decided(old(monitorias.rows), monitorias.rows, MonitoriaId, id, (m: Monitoria) => m.(statusMonitoria := st), r)
    {
      var found := FindFirst(HasKey(MonitoriaId, id), monitorias.rows);
      if found.None? {
        return Failure(NotFound);
      }
      var i := found.value;
      var after := monitorias.rows[i].(statusMonitoria := st);
      ReplaceKeepsUnique(MonitoriaId, monitorias.rows, i, after);
      monitorias.rows := monitorias.rows[i := after];
      r := Success(());
    }

    method DecideResearch(id: Id, st: ProjectStatus) returns (r: Result<(), ApprovalError>)
      requires Valid()
      modifies research
      ensures Valid()
      ensures r.Failure? ==> unchanged(research)
      ensures Decided(old(research.rows), research.rows, ResearchId, id, (p: ResearchProject) => p.(status := st), r)
    {
      var found := FindFirst(HasKey(ResearchId, id), research.rows);
      if found.None? {
        return Failure(NotFound);
      }
      var i := found.value;
      var after := research.rows[i].(status := st);
      ReplaceKeepsUnique(ResearchId, research.rows, i, after);
      research.rows := research.rows[i := after];
      r := Success(());
    }

    method DecideExtension(id: Id, st: ProjectStatus) returns (r: Result<(), ApprovalError>)
      requires Valid()
      modifies extension
      ensures Valid()
      ensures r.Failure? ==> unchanged(extension)
      ensures Decided(old(extension.rows), extension.rows, ExtensionId, id, (p: ExtensionProject) => p.(status := Some(st)), r)
    {
      var found := FindFirst(HasKey(ExtensionId, id), extension.rows);
      if found.None? {
        return Failure(NotFound);
      }
      var i := found.value;
      var after := extension.rows[i].(status := Some(st));
      ReplaceKeepsUnique(ExtensionId, extension.rows, i, after);
      extension.rows := extension.rows[i := after];
      r := Success(());
    }
  }

  /** The outcome of a decision on the table `before`: no row with that id means
      `NotFound` and no change; otherwise exactly that row is rewritten by `update`. */
  ghost predicate Decided<T>(before: seq<T>, after: seq<T>, key: T -> Id, id: Id, update: T -> T, r: Result<(), ApprovalError>)
  {
    match FindFirst(HasKey(key, id), before)
    case None => r == Failure(NotFound) && after == before
    case Some(i) => r == Success(()) && after == before[i := update(before[i])]
  }
}
