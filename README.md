# CEPEX system: a Dafny model of its service layer

The CEPEX system is a Spring Boot back end. Coordinators, professors and students use it to run
monitorias (teaching-assistant positions), research projects and extension projects. This project
models its service layer as plain Dafny:

- **Applications** (`Enrollment`). Students apply to an opportunity and may cancel. There are three
  services: candidacies to a monitoria, and enrolments in research and extension projects. They share
  one lifecycle: PENDENTE, then APROVADA, REJEITADA or CANCELADA. A student may apply again after a
  cancellation or a rejection. Only the monitoria service refuses to cancel an application that is
  already cancelled. The applications table is a class injected into the service, which keeps at most
  one record per (opportunity, student) pair.
- **Approval queue** (`Approval`). The queue lists the monitorias in PENDENTE and the projects in ABERTO
  as approval items, grouped by kind. Approving or rejecting an item rewrites exactly one row of the
  table its type tag names.
- **Listings and statistics** (`Listing`, `Monitorias`, `ResearchProjects`, `ExtensionProjects`). These
  are the `findAll(search, status)` filters, the students' listing of approved monitorias, the monitoria
  dashboard counts, project deletion and the research-project status update.
- **Registration with unique columns** (`Registry`, `People`, `Courses`, `Disciplines`). A person's RA,
  CPF and email are each unique. A course's name is unique. A discipline's name is unique within its
  course. `Registry.Save` is the repository write: it overwrites the row with the same id, or appends
  the row under a fresh id.
- **Accounts** (`Users`, `UserManagement`). This covers the authorities each role is granted, the
  account flags, the mapping of a form's "tipo" to a role, the per-role counts and account
  administration.

Tables are sequences of rows. A row's primary key is an `Id`. A newly generated id is drawn from a
counter `nextId` rather than being a random UUID. Where the source asks a repository whether an
opportunity or user exists, the model takes the set of ids that table holds as a parameter. The
current time is either a `clock` field that only moves forward (application timestamps) or a `now`
parameter (approval items, in seconds). The password encoder is a parameter `encode`. Letter case is
mapped on ASCII letters only.

## Model

| member | source | states |
|---|---|---|
| Enrollment.ApplyStep | src/main/java/com/biopark/cepex_system/service/CandidaturaMonitoriaService.java:41-63 | An apply succeeds, leaving PENDENTE, exactly when the pair has no record or its record is CANCELADA or REJEITADA. It fails as already approved exactly for APROVADA, and as already pending exactly for PENDENTE. |
| Enrollment.CancelStep | src/main/java/com/biopark/cepex_system/service/CandidaturaMonitoriaService.java:90-101 | A cancel succeeds, leaving CANCELADA, exactly for PENDENTE, REJEITADA, or CANCELADA outside the monitoria service. It fails on APROVADA. It fails as already cancelled exactly for CANCELADA in the monitoria service. |
| Enrollment.CancelThenApply | src/main/java/com/biopark/cepex_system/service/InscricaoResearchProjectService.java:49-96 | After any successful cancel the student can apply again, and the record is then PENDENTE. A second apply is refused as already pending. |
| Enrollment.ApplicationRepository.Lookup | src/main/java/com/biopark/cepex_system/service/CandidaturaMonitoriaService.java:41 | It finds the position of the record for (opportunity, student), or reports that no record has that pair. |
| Enrollment.EnrollmentService.Apply | src/main/java/com/biopark/cepex_system/service/CandidaturaMonitoriaService.java:33-64 | The opportunity is checked first, then the student. A failure changes nothing. A new pair is appended as PENDENTE under a fresh id with a later timestamp. A cancelled or rejected record is reset in place to PENDENTE with a new timestamp. The pair stays unique. |
| Enrollment.EnrollmentService.Cancel | src/main/java/com/biopark/cepex_system/service/InscricaoExtensionProjectService.java:72-88 | The opportunity, student and record are checked in that order, with the not-found errors. CancelStep decides the outcome. On success only that record becomes CANCELADA. A failure changes nothing. |
| Enrollment.EnrollmentService.HasActiveApplication | src/main/java/com/biopark/cepex_system/service/CandidaturaMonitoriaService.java:112-117 | True exactly when the student holds a PENDENTE or APROVADA application to the opportunity. |
| Enrollment.EnrollmentService.ApplicationsOf | src/main/java/com/biopark/cepex_system/service/InscricaoResearchProjectService.java:110-114 | It fails exactly for an unknown opportunity. Otherwise it returns, in table order, exactly the applications to that opportunity. |
| Enrollment.EnrollmentService.ApplicationsBy | src/main/java/com/biopark/cepex_system/service/CandidaturaMonitoriaService.java:126-130 | It fails exactly for an unknown student. Otherwise it returns, in table order, exactly that student's applications. |
| Enrollment.EnrollmentService.OpportunitiesOf | src/main/java/com/biopark/cepex_system/service/InscricaoResearchProjectService.java:129-134 | Entry k is the opportunity of the student's k-th application in table order, whatever its status. Every entry is the opportunity of one of their applications, and every such opportunity appears. |
| Approval.OrNotAvailable | src/main/java/com/biopark/cepex_system/service/ApprovalService.java:70-74 | A missing field is shown as "N/A", and a present field as itself. |
| Approval.StartOfDay | src/main/java/com/biopark/cepex_system/service/ApprovalService.java:90-106 | A start date becomes the first second of that day. A missing date becomes the current instant. |
| Approval.PendingItems | src/main/java/com/biopark/cepex_system/service/ApprovalService.java:41-64 | The queue has one item per PENDENTE monitoria and per ABERTO project, and every item's status is PENDENTE. |
| Approval.PendingMonitoriaItems | src/main/java/com/biopark/cepex_system/service/ApprovalService.java:43-46 | An item tagged MONITORIA is in the queue exactly when it is the mapped item of a PENDENTE monitoria. |
| Approval.PendingResearchItems | src/main/java/com/biopark/cepex_system/service/ApprovalService.java:49-52 | An item tagged PESQUISA is in the queue exactly when it is the mapped item of an ABERTO research project. |
| Approval.PendingExtensionItems | src/main/java/com/biopark/cepex_system/service/ApprovalService.java:55-58 | An item tagged EXTENSAO is in the queue exactly when it is the mapped item of an ABERTO extension project. |
| Approval.PendingItemsGrouped | src/main/java/com/biopark/cepex_system/service/ApprovalService.java:61-63 | Monitorias come first in the queue, then research projects, then extension projects. |
| Approval.PendingItemsKeepTableOrder | src/main/java/com/biopark/cepex_system/service/ApprovalService.java:41-64 | Each group of the queue is the mapped items of its table's awaiting rows, in the order those rows have in the table. |
| Approval.TagsExclusive | src/main/java/com/biopark/cepex_system/service/ApprovalService.java:134-144 | No string matches two different type tags, ignoring case. |
| Approval.ParseKind | src/main/java/com/biopark/cepex_system/service/ApprovalService.java:133-152 | A request names a kind exactly when its type equals that kind's tag, ignoring case. A missing type names none. |
| Approval.TagsRoundTrip | src/main/java/com/biopark/cepex_system/service/ApprovalService.java:134-144 | Each kind's tag, as written or in lower case, names that kind. |
| Approval.DecidedMonitoriaLeavesQueue | src/main/java/com/biopark/cepex_system/service/ApprovalService.java:133-138 | A monitoria whose status leaves PENDENTE is no longer in the queue. |
| Approval.DecidedResearchLeavesQueue | src/main/java/com/biopark/cepex_system/service/ApprovalService.java:139-143 | A research project whose status leaves ABERTO is no longer in the queue. |
| Approval.DecidedExtensionLeavesQueue | src/main/java/com/biopark/cepex_system/service/ApprovalService.java:144-148 | An extension project whose status leaves ABERTO is no longer in the queue. |
| Approval.ApprovalService.ApproveItem | src/main/java/com/biopark/cepex_system/service/ApprovalService.java:133-152 | An unknown tag fails as an invalid type, and an unknown id fails as not found. Neither failure changes anything. Otherwise the monitoria becomes APROVADA, or the project becomes ANALISE, and no other row or table changes. |
| Approval.ApprovalService.RejectItem | src/main/java/com/biopark/cepex_system/service/ApprovalService.java:158-177 | As for approval, but the monitoria becomes REJEITADA, or the project becomes CANCELADO. |
| Approval.ApprovalService.DecideMonitoria | src/main/java/com/biopark/cepex_system/service/ApprovalService.java:135-138 | The monitoria with that id gets the new status. If there is none, the call fails as not found and changes nothing. |
| Approval.ApprovalService.DecideResearch | src/main/java/com/biopark/cepex_system/service/ApprovalService.java:140-143 | The research project with that id gets the new status. If there is none, the call fails as not found and changes nothing. |
| Approval.ApprovalService.DecideExtension | src/main/java/com/biopark/cepex_system/service/ApprovalService.java:145-148 | The extension project with that id gets the new status. If there is none, the call fails as not found and changes nothing. |
| Listing.SearchTerm | src/main/java/com/biopark/cepex_system/service/MonitoriaService.java:37-38 | The search applies exactly when it is present and not blank. The term is then the trimmed, lower-cased search, which is non-empty. |
| Listing.StatusWord | src/main/java/com/biopark/cepex_system/service/MonitoriaService.java:46-48 | The status filter applies exactly when the status is present, not blank and not "TODOS" in any case. The word looked up is the upper-cased status. |
| Listing.Narrow | src/main/java/com/biopark/cepex_system/service/ExtensionProjectService.java:36-57 | The search filter followed by the status filter is one pass of the combined filter: every admitted row is kept in table order, duplicates included, and no other row. |
| Listing.MonitoriaStatusFilter | src/main/java/com/biopark/cepex_system/service/MonitoriaService.java:46-56 | A status filters exactly when its upper-cased name is a monitoria status. An unknown name is ignored. |
| Monitorias.FindAll | src/main/java/com/biopark/cepex_system/service/MonitoriaService.java:34-59 | It is the table filtered by the selection: in table order, every monitoria that matches the search and the status, and no other. The search looks at the title, the professor's first name and the subject. |
| Monitorias.UnknownStatusIgnored | src/main/java/com/biopark/cepex_system/service/MonitoriaService.java:52-55 | A status that is not a monitoria status gives the same listing as no status. |
| Monitorias.AllStatusesWord | src/main/java/com/biopark/cepex_system/service/MonitoriaService.java:46 | A status that reads "TODOS" in any letter case gives the same listing as no status. |
| Monitorias.FindAllForStudent | src/main/java/com/biopark/cepex_system/service/MonitoriaService.java:61-79 | The students see only APROVADA monitorias. |
| Monitorias.ForStudentIsApprovedListing | src/main/java/com/biopark/cepex_system/service/MonitoriaService.java:61-79 | The students' listing equals the coordinators' listing with status APROVADA, for every search. |
| Monitorias.GetStatistics | src/main/java/com/biopark/cepex_system/service/MonitoriaService.java:94-115 | Open monitorias are those that are PENDENTE or APROVADA, and they number at most all monitorias. Active monitors are the APROVADA candidacies and pending candidates the PENDENTE ones; together they number at most all candidacies. |
| Monitorias.MonitoriaService.Delete | src/main/java/com/biopark/cepex_system/service/MonitoriaService.java:86-92 | It fails exactly when no monitoria has the id, and then changes nothing. Otherwise it removes exactly that one monitoria. |
| Listing.ProjectStatusFilter | src/main/java/com/biopark/cepex_system/service/ResearchProjectService.java:33-56 | A status filters research or extension projects exactly when its upper-cased name is a project status. An unknown name is ignored. |
| ResearchProjects.FindAll | src/main/java/com/biopark/cepex_system/service/ResearchProjectService.java:33-56 | It is the table filtered by the selection: in table order, every project that matches the search and the status, and no other. The search looks at the title and the lead researcher's login. |
| ResearchProjects.UnknownStatusIgnored | src/main/java/com/biopark/cepex_system/service/ResearchProjectService.java:33-56 | An unknown status gives the same listing as no status. |
| ResearchProjects.ResearchProjectService.Delete | src/main/java/com/biopark/cepex_system/service/ResearchProjectService.java:63-69 | It fails as not found exactly when no project has the id, and then changes nothing. Otherwise it removes exactly that project. |
| ResearchProjects.ResearchProjectService.UpdateProjectStatus | src/main/java/com/biopark/cepex_system/service/ResearchProjectService.java:72-83 | An unknown id fails first. A name that is not a status, upper-cased, fails next. A failure changes nothing. An existing id with a valid name always succeeds: only that project's status changes, to the named one, and the updated project is returned. |
| ExtensionProjects.FindAll | src/main/java/com/biopark/cepex_system/service/ExtensionProjectService.java:36-57 | It is the table filtered by the selection: in table order, every project that matches the search and the status, and no other. The search looks at the title and the coordinator. |
| ExtensionProjects.StatuslessProjectsFilteredOut | src/main/java/com/biopark/cepex_system/service/ExtensionProjectService.java:36-57 | Under a status filter, a project with no status never appears. |
| ExtensionProjects.ExtensionProjectService.Delete | src/main/java/com/biopark/cepex_system/service/ExtensionProjectService.java:65-71 | It fails exactly when no project has the id, and then changes nothing. Otherwise it removes exactly that project. |
| Registry.FindById | src/main/java/com/biopark/cepex_system/service/CourseService.java:57-58 | It finds a row carrying the id, or reports that no row carries it. |
| Registry.Save | src/main/java/com/biopark/cepex_system/service/CourseService.java:43 | A row whose id is present is overwritten in place. Otherwise the row is appended under an id no row holds. The other rows are kept, and ids stay unique. |
| Registry.RemoveById | src/main/java/com/biopark/cepex_system/service/StudentService.java:107-111 | Deleting a row by id removes exactly the rows with that id, which is one row, and keeps ids unique. |
| Registry.ConflictIff | src/main/java/com/biopark/cepex_system/service/StudentService.java:36-51 | On a table with a unique column, the duplicate guard fires exactly when a row with a different id holds the value. |
| Registry.SaveKeepsUnique | src/main/java/com/biopark/cepex_system/service/CourseService.java:33-44 | A save that passes the duplicate guard keeps the column unique. |
| Domain.ParseMonitoriaStatus | src/main/java/com/biopark/cepex_system/service/MonitoriaService.java:48 | It yields the monitoria status with exactly that name, or none when no status has that name. |
| Domain.ParseProjectStatus | src/main/java/com/biopark/cepex_system/domain/project/ResearchProject.java:87-92 | It yields the project status with exactly that name, or none when no status has that name. |
| Domain.StatusNamesRoundTrip | src/main/java/com/biopark/cepex_system/domain/project/ExtensionProject.java:66-71 | Parsing a status's name gives that status back. |
| People.Validate | src/main/java/com/biopark/cepex_system/service/StudentService.java:34-55 | The first column that collides with another person decides the error, in the order RA, CPF, email. There is no error exactly when none collides. |
| People.ValidateIff | src/main/java/com/biopark/cepex_system/service/ProfessorService.java:34-55 | When the keys are unique, a save passes exactly when no person with a different id shares its RA, CPF or email. |
| People.SameKeysKeepUnique | src/main/java/com/biopark/cepex_system/service/StudentService.java:120-126 | Rewriting a person without changing RA, CPF or email keeps all three unique. |
| People.PersonService.Save | src/main/java/com/biopark/cepex_system/service/StudentService.java:34-55 | A failed check returns its error and changes nothing. Otherwise the person is written by the repository save. Unique RA, CPF and email stay unique. |
| People.PersonService.Delete | src/main/java/com/biopark/cepex_system/service/ProfessorService.java:93-97 | It fails as not found exactly when no person has the id. Otherwise it removes exactly that person, and the keys stay unique. |
| People.PersonService.UpdateStatus | src/main/java/com/biopark/cepex_system/service/ProfessorService.java:106-112 | An unknown id gives nothing and changes nothing. Otherwise only that person's active flag changes, and the person is returned. |
| Courses.DuplicateNameIff | src/main/java/com/biopark/cepex_system/service/CourseService.java:34-41 | When names are unique, the guard fires exactly when a course with a different id has the name. |
| Courses.CourseService.Save | src/main/java/com/biopark/cepex_system/service/CourseService.java:33-44 | A duplicate name fails and changes nothing. Otherwise the course is written by the repository save, and names stay unique. |
| Courses.CourseService.Delete | src/main/java/com/biopark/cepex_system/service/CourseService.java:55-61 | It fails as not found exactly when no course has the id. Otherwise it removes exactly that course. |
| Courses.CourseService.FindActiveCourses | src/main/java/com/biopark/cepex_system/service/CourseService.java:68-70 | It returns, in table order, exactly the active courses. |
| Disciplines.Validate | src/main/java/com/biopark/cepex_system/service/DisciplineService.java:31-47 | A discipline whose course has no id fails first. Then a discipline whose name is taken in that course by another discipline fails. |
| Disciplines.DuplicateNameIff | src/main/java/com/biopark/cepex_system/service/DisciplineService.java:38-44 | The duplicate error arises exactly when another discipline of the same course has the name. The same name in another course is allowed. |
| Disciplines.DisciplineService.Save | src/main/java/com/biopark/cepex_system/service/DisciplineService.java:31-47 | A guard failure returns its error and changes nothing. Otherwise the discipline is written by the repository save, and names stay unique per course. |
| Disciplines.DisciplineService.Delete | src/main/java/com/biopark/cepex_system/service/DisciplineService.java:62-68 | It fails as not found exactly when no discipline has the id. Otherwise it removes exactly that discipline. |
| Disciplines.DisciplineService.FindByCourseId | src/main/java/com/biopark/cepex_system/service/DisciplineService.java:53-55 | It returns, in table order, exactly the disciplines of that course. |
| Users.Register | src/main/java/com/biopark/cepex_system/domain/user/User.java:59-65 | A new account is unsaved and enabled, and its username is the login. Its email, password and role are the given ones. |
| Users.Authorities | src/main/java/com/biopark/cepex_system/domain/user/User.java:69-81 | Every account holds ROLE_USER. Its role's own authority comes first, and only for administrators, professors and students. |
| Users.AuthoritiesSeparateRoles | src/main/java/com/biopark/cepex_system/domain/user/User.java:72-80 | No role is granted another role's authority. |
| Users.UsableIffEnabled | src/main/java/com/biopark/cepex_system/domain/user/User.java:97-116 | All four account checks pass exactly when the status column is set. |
| UserManagement.RoleForNewUser | src/main/java/com/biopark/cepex_system/service/UserService.java:105 | The role is STUDENT exactly when the tipo is "Aluno" in any case. Otherwise it is PROFESSOR. |
| UserManagement.RoleForUpdate | src/main/java/com/biopark/cepex_system/service/UserService.java:127-131 | "Aluno" gives STUDENT and "Professor" gives PROFESSOR, in any case. Any other tipo keeps the current role. |
| UserManagement.TipoMappingsAgree | src/main/java/com/biopark/cepex_system/service/UserService.java:103-134 | Where the tipo names a kind, creating and updating give the same role. |
| UserManagement.RolesPartitionUsers | src/main/java/com/biopark/cepex_system/service/UserService.java:62-69 | Every user has exactly one of the five roles, so the five counts add up to the number of users. |
| UserManagement.GetUserRoleCounts | src/main/java/com/biopark/cepex_system/service/UserService.java:62-69 | Each field is the number of users with that role: STUDENT, PROFESSOR, COORDENATION, SECRETARY. Together they account for every user who is not an administrator. |
| UserManagement.UserService.CreateNewUser | src/main/java/com/biopark/cepex_system/service/UserService.java:103-111 | The account is enabled, has the encoded password and the tipo's role, and is appended under a fresh id. |
| UserManagement.UserService.UpdateUser | src/main/java/com/biopark/cepex_system/service/UserService.java:120-134 | An unknown id fails and changes nothing. Otherwise only the login, email and role (through RoleForUpdate) of that user change. |
| UserManagement.UserService.UpdateStatus | src/main/java/com/biopark/cepex_system/service/UserService.java:73-79 | An unknown id gives nothing. Otherwise only that user's status changes. |
| UserManagement.UserService.UpdateRole | src/main/java/com/biopark/cepex_system/service/UserService.java:83-89 | An unknown id gives nothing. Otherwise only that user's role changes. |
| UserManagement.UserService.Delete | src/main/java/com/biopark/cepex_system/service/UserService.java:54-60 | It fails exactly when no user has the id. Otherwise it removes exactly that user. |

## Left out

- Controllers, the security filter chain, JWT tokens, authentication and password-reset flows: they sit outside the service layer.
- Password hashing: the encoder is a parameter, `encode`.
- `AvaliacaoPlataformaService`: it averages ratings in floating point.
- Paging (`findAllPaginated`), and the plain `findAll`/`findById`/`findByRa`/... finders: each only forwards to the repository.
- The plain `save` of monitorias and projects: each only forwards to the repository, which `Registry.Save` models.
- Transactions, concurrency and database constraints on columns beyond those the services check, such as the user login and email.
- Logging.
- Letter case is mapped on ASCII letters only. Java's `toLowerCase`, `toUpperCase` and `equalsIgnoreCase` also map other letters.
- A null string passed where the source would throw a `NullPointerException`, such as the status in `updateProjectStatus`, is not modelled. Optional parameters are `Option`.
- Columns the services never read or write (descriptions, team sets, dates other than the ones the queue shows) are not modelled.
- Monitorias, research projects and extension projects are keyed by plain ids. Students, professors, courses, disciplines and users are `Registry` entities whose id is absent until saved.
- The enumerations `StatusMonitoria`, `StatusCandidatura` and `StatusInscricaoProjeto` are not part of this model's sources. Their constants PENDENTE, APROVADA, REJEITADA and CANCELADA are taken from the services' uses.
- Monitorias.GetStatistics: the link between open monitorias and the PENDENTE and APROVADA counts assumes those four monitoria statuses.
- Enrollment.EnrollmentService.Apply: the timestamp is a counter that rises by one per apply, not the wall clock.
- Approval.StartOfDay: dates are whole days since the epoch, and instants are whole seconds. Time zones are not modelled.
- Approval.PendingItems: which tables exist is fixed at three, and the item's creator for a monitoria is the professor's login.

Where the service code and the behaviour the surrounding tests expect differ, the model follows the code:
- The approval tests expect the queue item of an open project to show "ABERTO" as its current status; the service shows "PENDENTE" for every item.
- A monitoria test expects a search on the professor's full name.
- Research and extension enrolments that are already CANCELADA can be cancelled again without error.
