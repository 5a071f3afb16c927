/** `CourseService`: courses, whose names are unique, and the list of active courses. */
module Courses {
  import opened Base
  import opened Sequences
  import opened Registry

  /** The columns of a course row. */
  datatype CourseData = CourseData(name: string, semesters: int, active: bool)

  type Course = Entity<CourseData>

  function Name(d: CourseData): string { d.name }

  datatype Error = DuplicateName | CourseNotFound

  /** The `save` guard on a table with unique names: it fails exactly when another
      course (different id) has `x`'s name, so re-saving a course under its own name passes. */
  lemma DuplicateNameIff(rows: seq<Course>, x: Course)
    requires UniqueBy(ColumnKey(Name), rows)
    ensures Conflict(rows, Name, x) <==>
      exists j :: 0 <= j < |rows| && rows[j].data.name == x.data.name && rows[j].id != x.id
  {
    ConflictIff(rows, Name, x);
  }

  function IsActive(c: Course): bool { c.data.active }

  class CourseService {
    var rows: seq<Course>
    var nextId: Id

    ghost predicate Valid()
      reads this
    {
      WellKeyed(rows, nextId)
    }

    constructor()
      ensures Valid() && rows == []
    {
      rows := [];
      nextId := 0;
    }

    /** `save(course)`: refused when another course has the name, else written. */
    method Save(x: Course) returns (r: Result<Course, Error>)
      requires Valid()
      modifies this
      ensures Valid()
      ensures Conflict(old(rows), Name, x) ==> r == Failure(DuplicateName) && rows == old(rows) && nextId == old(nextId)
      ensures !Conflict(old(rows), Name, x) ==>
        var s := Registry.Save(old(rows), x, old(nextId));
        r == Success(s.entity) && rows == s.rows && nextId == s.nextId
      ensures old(UniqueBy(ColumnKey(Name), rows)) ==> UniqueBy(ColumnKey(Name), rows)
    {
      if Conflict(rows, Name, x) {
        return Failure(DuplicateName);
      }
      if UniqueBy(ColumnKey(Name), rows) {
        SaveKeepsUnique(rows, Name, x, nextId);
      }
      var s := Registry.Save(rows, x, nextId);
      rows, nextId := s.rows, s.nextId;
      r := Success(s.entity);
    }

    /** `delete(id)`: not found for an unknown id, otherwise that course goes. */
    method Delete(id: Id) returns (r: Result<(), Error>)
      requires Valid()
      modifies this
      ensures Valid() && nextId == old(nextId)
      ensures r.Failure? <==> forall c :: c in old(rows) ==> c.id != Some(id)
      ensures r.Failure? ==> r.error == CourseNotFound && rows == old(rows)
      ensures forall c :: c in rows <==> c in old(rows) && c.id != Some(id)
      ensures old(UniqueBy(ColumnKey(Name), rows)) ==> UniqueBy(ColumnKey(Name), rows)
    {
      var found := FindById(rows, id);
      if found.None? {
        return Failure(CourseNotFound);
      }
      RemoveById(rows, nextId, found.value);
      if UniqueBy(ColumnKey(Name), rows) {
        RemoveAtUnique(ColumnKey(Name), rows, found.value);
      }
      rows := RemoveAt(rows, found.value);
      r := Success(());
    }

    /** `findActiveCourses`: exactly the active courses, in table order. */
    function FindActiveCourses(): (r: seq<Course>)
      reads this
      ensures IsSubsequence(r, rows)
      ensures forall k :: 0 <= k < |r| ==> r[k].data.active
      ensures forall c :: c in rows && c.data.active ==> c in r
    {
      FilterIsSubsequence(IsActive, rows);
      Filter(IsActive, rows)
    }
  }
}
