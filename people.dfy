/** `StudentService` and `ProfessorService`: registration of students and
    professors, whose RA, CPF and email must each belong to one person only. The
    two services are the same code over two tables, so one class models both;
    a student's `status` column and a professor's `active` column are `active` here. */
module People {
  import opened Base
  import opened Sequences
  import opened Registry

  /** The columns of a student or professor row that the services read or write. */
  datatype PersonData = PersonData(firstName: string, lastName: string, email: string, ra: string, cpf: string, active: bool)

  type Person = Entity<PersonData>

  function Ra(d: PersonData): string { d.ra }
  function Cpf(d: PersonData): string { d.cpf }
  function Email(d: PersonData): string { d.email }

  datatype Error = DuplicateRa | DuplicateCpf | DuplicateEmail | PersonNotFound

  /** RA, CPF and email are each unique across the table. */
  ghost predicate KeysUnique(rows: seq<Person>)
  {
    UniqueBy(ColumnKey(Ra), rows) && UniqueBy(ColumnKey(Cpf), rows) && UniqueBy(ColumnKey(Email), rows)
  }

  /** The guard checks `save` runs before writing: RA, then CPF, then email;
      the first column on which `x` collides with another row decides the error. */
  function Validate(rows: seq<Person>, x: Person): (r: Option<Error>)
    ensures r == Some(DuplicateRa) <==> Conflict(rows, Ra, x)
    ensures r == Some(DuplicateCpf) <==> !Conflict(rows, Ra, x) && Conflict(rows, Cpf, x)
    ensures r == Some(DuplicateEmail) <==> !Conflict(rows, Ra, x) && !Conflict(rows, Cpf, x) && Conflict(rows, Email, x)
    ensures r.None? <==> !Conflict(rows, Ra, x) && !Conflict(rows, Cpf, x) && !Conflict(rows, Email, x)
  {
    if Conflict(rows, Ra, x) then Some(DuplicateRa)
    else if Conflict(rows, Cpf, x) then Some(DuplicateCpf)
    else if Conflict(rows, Email, x) then Some(DuplicateEmail)
    else None
  }

  /** On a table whose keys are unique, `save` passes its checks exactly when no
      other person (different id) holds `x`'s RA, CPF or email; a person whose
      values collide only with its own row passes, which is what lets an edit save. */
  lemma ValidateIff(rows: seq<Person>, x: Person)
    requires KeysUnique(rows)
    ensures Validate(rows, x).None? <==>
      forall j :: 0 <= j < |rows| && rows[j].id != x.id ==>
        rows[j].data.ra != x.data.ra && rows[j].data.cpf != x.data.cpf && rows[j].data.email != x.data.email
  {
    ConflictIff(rows, Ra, x);
    ConflictIff(rows, Cpf, x);
    ConflictIff(rows, Email, x);
  }

  /** Rewriting a row without touching its RA, CPF or email keeps the keys unique. */
  lemma SameKeysKeepUnique(rows: seq<Person>, i: nat, x: Person)
    requires KeysUnique(rows) && i < |rows|
    requires x.data.ra == rows[i].data.ra && x.data.cpf == rows[i].data.cpf && x.data.email == rows[i].data.email
    ensures KeysUnique(rows[i := x])
  {
    assert ColumnKey(Ra)(x) == Ra(x.data) && ColumnKey(Ra)(rows[i]) == Ra(rows[i].data);
    assert ColumnKey(Cpf)(x) == Cpf(x.data) && ColumnKey(Cpf)(rows[i]) == Cpf(rows[i].data);
    assert ColumnKey(Email)(x) == Email(x.data) && ColumnKey(Email)(rows[i]) == Email(rows[i].data);
    ReplaceSameKeyKeepsUnique(ColumnKey(Ra), rows, i, x);
    ReplaceSameKeyKeepsUnique(ColumnKey(Cpf), rows, i, x);
    ReplaceSameKeyKeepsUnique(ColumnKey(Email), rows, i, x);
  }

  /** A table of people with its id generator. */
  class PersonService {
    var rows: seq<Person>
    var nextId: Id

    ghost predicate Valid()
      reads this
    {
      WellKeyed(rows, nextId)
    }

    constructor()
      ensures Valid() && rows == []
    {
      rows := [];
      nextId := 0;
    }

    /** `save(person)`: the checks, then the repository write. Unique keys stay unique. */
    method Save(x: Person) returns (r: Result<Person, Error>)
      requires Valid()
      modifies this
      ensures Valid()
      ensures Validate(old(rows), x).Some? ==>
        r == Failure(Validate(old(rows), x).value) && rows == old(rows) && nextId == old(nextId)
      ensures Validate(old(rows), x).None? ==>
        var s := Registry.Save(old(rows), x, old(nextId));
        r == Success(s.entity) && rows == s.rows && nextId == s.nextId
      ensures old(KeysUnique(rows)) ==> KeysUnique(rows)
    {
      var err := Validate(rows, x);
      if err.Some? {
        return Failure(err.value);
      }
      if KeysUnique(rows) {
        SaveKeepsUnique(rows, Ra, x, nextId);
        SaveKeepsUnique(rows, Cpf, x, nextId);
        SaveKeepsUnique(rows, Email, x, nextId);
      }
      var s := Registry.Save(rows, x, nextId);
      rows, nextId := s.rows, s.nextId;
      r := Success(s.entity);
    }

    /** `delete(id)`: fails when no person has that id, otherwise removes that person. */
    method Delete(id: Id) returns (r: Result<(), Error>)
      requires Valid()
      modifies this
      ensures Valid() && nextId == old(nextId)
      ensures r.Failure? <==> forall p :: p in old(rows) ==> p.id != Some(id)
      ensures r.Failure? ==> r.error == PersonNotFound && rows == old(rows)
      ensures forall p :: p in rows <==> p in old(rows) && p.id != Some(id)
      ensures old(KeysUnique(rows)) ==> KeysUnique(rows)
    {
      var found := FindById(rows, id);
      if found.None? {
        return Failure(PersonNotFound);
      }
      var i := found.value;
      RemoveById(rows, nextId, i);
      if KeysUnique(rows) {
        RemoveAtUnique(ColumnKey(Ra), rows, i);
        RemoveAtUnique(ColumnKey(Cpf), rows, i);
        RemoveAtUnique(ColumnKey(Email), rows, i);
      }
      rows := RemoveAt(rows, i);
      r := Success(());
    }

    /** `updateStatus(id, active)`: empty for an unknown id, otherwise only that
        person's `active` column changes. */
    method UpdateStatus(id: Id, active: bool) returns (r: Option<Person>)
      requires Valid()
      modifies this
      ensures Valid() && nextId == old(nextId)
      ensures FindById(old(rows), id).None? ==> r.None? && rows == old(rows)
      ensures FindById(old(rows), id).Some? ==>
        var i := FindById(old(rows), id).value;
        && r == Some(old(rows)[i].(data := old(rows)[i].data.(active := active)))
        && rows == old(rows)[i := r.value]
      ensures old(KeysUnique(rows)) ==> KeysUnique(rows)
    {
      var found := FindById(rows, id);
      if found.None? {
        return None;
      }
      var i := found.value;
      var after := rows[i].(data := rows[i].data.(active := active));
      ReplaceSameKeyKeepsUnique(IdOf, rows, i, after);
      if KeysUnique(rows) {
        SameKeysKeepUnique(rows, i, after);
      }
      rows := rows[i := after];
      r := Some(after);
    }
  }
}
