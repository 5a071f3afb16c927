/** `DisciplineService`: disciplines, each attached to a course, whose names are
    unique within their course. */
module Disciplines {
  import opened Base
  import opened Sequences
  import opened Registry

  /** The course a discipline points at; its id is `None` for an unsaved course. */
  datatype CourseRef = CourseRef(id: Option<Id>)

  /** The columns of a discipline row; `course` is `None` when no course is attached. */
  datatype DisciplineData = DisciplineData(name: string, active: bool, course: Option<CourseRef>)

  type Discipline = Entity<DisciplineData>

  function CourseIdOf(d: DisciplineData): Option<Id>
  {
    if d.course.Some? then d.course.value.id else None
  }

  /** The key `findByNameAndCourseId` looks up. */
  function NameInCourse(d: DisciplineData): (string, Option<Id>) { (d.name, CourseIdOf(d)) }

  datatype Error = MissingCourse | DuplicateName | DisciplineNotFound

  /** The `save` guards: first a course with an id must be attached, then no other
      discipline (different id) of that course may have the name. */
  function Validate(rows: seq<Discipline>, x: Discipline): (r: Option<Error>)
    ensures r == Some(MissingCourse) <==> CourseIdOf(x.data).None?
    ensures r == Some(DuplicateName) <==> CourseIdOf(x.data).Some? && Conflict(rows, NameInCourse, x)
    ensures r.None? <==> CourseIdOf(x.data).Some? && !Conflict(rows, NameInCourse, x)
  {
    if CourseIdOf(x.data).None? then Some(MissingCourse)
    else if Conflict(rows, NameInCourse, x) then Some(DuplicateName)
    else None
  }

  /** On a table where names are unique per course, the duplicate check fails
      exactly when another discipline of the same course has the name; the
      same name in another course is allowed. */
  lemma DuplicateNameIff(rows: seq<Discipline>, x: Discipline)
    requires UniqueBy(ColumnKey(NameInCourse), rows)
    requires CourseIdOf(x.data).Some?
    ensures Validate(rows, x) == Some(DuplicateName) <==>
      exists j :: 0 <= j < |rows| && rows[j].data.name == x.data.name
                  && CourseIdOf(rows[j].data) == CourseIdOf(x.data) && rows[j].id != x.id
  {
    ConflictIff(rows, NameInCourse, x);
  }

  function InCourse(courseId: Id): Discipline -> bool
  {
    (d: Discipline) => CourseIdOf(d.data) == Some(courseId)
  }

  class DisciplineService {
    var rows: seq<Discipline>
    var nextId: Id

    ghost predicate Valid()
      reads this
    {
      WellKeyed(rows, nextId)
    }

    constructor()
      ensures Valid() && rows == []
    {
      rows := [];
      nextId := 0;
    }

    /** `save(discipline)`: the course guard, the duplicate guard, then the write. */
    method Save(x: Discipline) returns (r: Result<Discipline, Error>)
      requires Valid()
      modifies this
      ensures Valid()
      ensures Validate(old(rows), x).Some? ==>
        r == Failure(Validate(old(rows), x).value) && rows == old(rows) && nextId == old(nextId)
      ensures Validate(old(rows), x).None? ==>
        var s := Registry.Save(old(rows), x, old(nextId));
        r == Success(s.entity) && rows == s.rows && nextId == s.nextId
      ensures old(UniqueBy(ColumnKey(NameInCourse), rows)) ==> UniqueBy(ColumnKey(NameInCourse), rows)
    {
      var err := Validate(rows, x);
      if err.Some? {
        return Failure(err.value);
      }
      if UniqueBy(ColumnKey(NameInCourse), rows) {
        SaveKeepsUnique(rows, NameInCourse, x, nextId);
      }
      var s := Registry.Save(rows, x, nextId);
      rows, nextId := s.rows, s.nextId;
      r := Success(s.entity);
    }

    /** `delete(id)`: fails for an unknown id, otherwise that discipline goes. */
    method Delete(id: Id) returns (r: Result<(), Error>)
      requires Valid()
      modifies this
      ensures Valid() && nextId == old(nextId)
      ensures r.Failure? <==> forall d :: d in old(rows) ==> d.id != Some(id)
      ensures r.Failure? ==> r.error == DisciplineNotFound && rows == old(rows)
      ensures forall d :: d in rows <==> d in old(rows) && d.id != Some(id)
      ensures old(UniqueBy(ColumnKey(NameInCourse), rows)) ==> UniqueBy(ColumnKey(NameInCourse), rows)
    {
      var found := FindById(rows, id);
      if found.None? {
        return Failure(DisciplineNotFound);
      }
      RemoveById(rows, nextId, found.value);
      if UniqueBy(ColumnKey(NameInCourse), rows) {
        RemoveAtUnique(ColumnKey(NameInCourse), rows, found.value);
      }
      rows := RemoveAt(rows, found.value);
      r := Success(());
    }

    /** `findByCourseId(courseId)`: exactly the disciplines of that course, in table order. */
    function FindByCourseId(courseId: Id): (r: seq<Discipline>)
      reads this
      ensures IsSubsequence(r, rows)
      ensures forall k :: 0 <= k < |r| ==> CourseIdOf(r[k].data) == Some(courseId)
      ensures forall d :: d in rows && CourseIdOf(d.data) == Some(courseId) ==> d in r
    {
      FilterIsSubsequence(InCourse(courseId), rows);
      Filter(InCourse(courseId), rows)
    }
  }
}
