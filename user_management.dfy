/** `UserService`: account administration, the mapping of the "tipo" a form
    sends ("Aluno" or "Professor") to a role, and the per-role head counts. */
module UserManagement {
  import opened Base
  import opened Sequences
  import opened Text
  import opened Registry
  import opened Users

  /** The role `createNewUser` gives: STUDENT for "Aluno" in any letter case,
      PROFESSOR for anything else, a missing tipo included. */
  function RoleForNewUser(tipo: Option<string>): (r: UserRole)
    ensures r == Student <==> tipo.Some? && EqualsIgnoreCase("Aluno", tipo.value)
    ensures r != Student ==> r == Professor
  {
    if tipo.Some? && EqualsIgnoreCase("Aluno", tipo.value) then Student else Professor
  }

  /** The role `updateUser` leaves: STUDENT for "Aluno", PROFESSOR for
      "Professor" (any letter case), the current role otherwise. */
  function RoleForUpdate(tipo: Option<string>, current: UserRole): (r: UserRole)
    ensures r == Student <==> (tipo.Some? && EqualsIgnoreCase("Aluno", tipo.value)) || (current == Student && !(tipo.Some? && EqualsIgnoreCase("Professor", tipo.value)))
    ensures tipo.Some? && EqualsIgnoreCase("Professor", tipo.value) ==> r == Professor
    ensures !(tipo.Some? && (EqualsIgnoreCase("Aluno", tipo.value) || EqualsIgnoreCase("Professor", tipo.value))) ==> r == current
  {
    if tipo.Some? && EqualsIgnoreCase("Aluno", tipo.value) then Student
    else if tipo.Some? && EqualsIgnoreCase("Professor", tipo.value) then Professor
    else current
  }

  /** Where the tipo names one of the two kinds, creating and updating agree;
      elsewhere creation falls back to PROFESSOR while an update keeps the role. */
  lemma {:induction false} TipoMappingsAgree(tipo: Option<string>, current: UserRole)
    ensures tipo.Some? && (EqualsIgnoreCase("Aluno", tipo.value) || EqualsIgnoreCase("Professor", tipo.value)) ==>
      RoleForUpdate(tipo, current) == RoleForNewUser(tipo)
  {
    if tipo.Some? && EqualsIgnoreCase("Professor", tipo.value) {
      assert |tipo.value| == 9;
    }
  }

  function HasRole(role: UserRole): User -> bool
  {
    (u: User) => u.data.role == role
  }

  /** `UserRoleCountsDTO`. */
  datatype RoleCounts = RoleCounts(studentCount: nat, professorCount: nat, coordenationCount: nat, secretaryCount: nat)

  /** Every user has exactly one of the five roles. */
  lemma {:induction false} RolesPartitionUsers(users: seq<User>)
    ensures Count(HasRole(Admin), users) + Count(HasRole(Student), users) + Count(HasRole(Professor), users)
            + Count(HasRole(Coordenation), users) + Count(HasRole(Secretary), users) == |users|
  {
    if users != [] {
      RolesPartitionUsers(users[1..]);
    }
  }

  /** `getUserRoleCounts` over the user table: the four non-administrator roles;
      together with the administrators they account for every user. */
  function GetUserRoleCounts(users: seq<User>): (c: RoleCounts)
    ensures c.studentCount == Count(HasRole(Student), users)
    ensures c.professorCount == Count(HasRole(Professor), users)
    ensures c.coordenationCount == Count(HasRole(Coordenation), users)
    ensures c.secretaryCount == Count(HasRole(Secretary), users)
    ensures c.studentCount + c.professorCount + c.coordenationCount + c.secretaryCount
            == |users| - Count(HasRole(Admin), users)
  {
    RolesPartitionUsers(users);
    RoleCounts(Count(HasRole(Student), users), Count(HasRole(Professor), users),
               Count(HasRole(Coordenation), users), Count(HasRole(Secretary), users))
  }

  datatype Error = UserNotFound

  /** The user table with its id generator. */
  class UserService {
    var rows: seq<User>
    var nextId: Id

    ghost predicate Valid()
      reads this
    {
      WellKeyed(rows, nextId)
    }

    constructor()
      ensures Valid() && rows == []
    {
      rows := [];
      nextId := 0;
    }

    /** `createNewUser`: an enabled account with the encoded password and the
        role the tipo names, stored under a fresh id. `encode` is the password encoder. */
    method CreateNewUser(login: string, email: string, password: string, tipo: Option<string>, encode: string -> string)
      returns (u: User)
      requires Valid()
      modifies this
      ensures Valid()
      ensures u.data == UserData(login, encode(password), email, true, RoleForNewUser(tipo))
      ensures u.id == Some(old(nextId)) && rows == old(rows) + [u]
      ensures IsEnabled(u) && Authorities(u.data.role)[0] == RoleAuthority(u.data.role)
    {
      var account := Register(login, email, encode(password), RoleForNewUser(tipo));
      var s := Registry.Save(rows, account, nextId);
      rows, nextId := s.rows, s.nextId;
      u := s.entity;
    }

    /** `updateUser`: not found for an unknown id; otherwise the login and email
        are overwritten and the role follows the tipo, everything else is kept. */
    method UpdateUser(id: Id, login: string, email: string, tipo: Option<string>) returns (r: Result<User, Error>)
      requires Valid()
      modifies this
      ensures Valid() && nextId == old(nextId)
      ensures FindById(old(rows), id).None? ==> r == Failure(UserNotFound) && rows == old(rows)
      ensures FindById(old(rows), id).Some? ==>
        var i := FindById(old(rows), id).value;
        var before := old(rows)[i];
        && r == Success(before.(data := before.data.(login := login, email := email,
                                                     role := RoleForUpdate(tipo, before.data.role))))
        && rows == old(rows)[i := r.value]
    {
      var found := FindById(rows, id);
      if found.None? {
        return Failure(UserNotFound);
      }
      var i := found.value;
      var before := rows[i];
      var after := before.(data := before.data.(login := login, email := email,
                                                role := RoleForUpdate(tipo, before.data.role)));
      ReplaceSameKeyKeepsUnique(IdOf, rows, i, after);
      rows := rows[i := after];
      r := Success(after);
    }

    /** `updateStatus`: empty for an unknown id, otherwise only the status changes. */
    method UpdateStatus(id: Id, status: bool) returns (r: Option<User>)
      requires Valid()
      modifies this
      ensures Valid() && nextId == old(nextId)
      ensures FindById(old(rows), id).None? ==> r.None? && rows == old(rows)
      ensures FindById(old(rows), id).Some? ==>
        var i := FindById(old(rows), id).value;
        && r == Some(old(rows)[i].(data := old(rows)[i].data.(status := status)))
        && rows == old(rows)[i := r.value]
    {
      var found := FindById(rows, id);
      if found.None? {
        return None;
      }
      var i := found.value;
      var after := rows[i].(data := rows[i].data.(status := status));
      ReplaceSameKeyKeepsUnique(IdOf, rows, i, after);
      rows := rows[i := after];
      r := Some(after);
    }

    /** `updateRole`: empty for an unknown id, otherwise only the role changes. */
    method UpdateRole(id: Id, role: UserRole) returns (r: Option<User>)
      requires Valid()
      modifies this
      ensures Valid() && nextId == old(nextId)
      ensures FindById(old(rows), id).None? ==> r.None? && rows == old(rows)
      ensures FindById(old(rows), id).Some? ==>
        var i := FindById(old(rows), id).value;
        && r == Some(old(rows)[i].(data := old(rows)[i].data.(role := role)))
        && rows == old(rows)[i := r.value]
    {
      var found := FindById(rows, id);
      if found.None? {
        return None;
      }
      var i := found.value;
      var after := rows[i].(data := rows[i].data.(role := role));
      ReplaceSameKeyKeepsUnique(IdOf, rows, i, after);
      rows := rows[i := after];
      r := Some(after);
    }

    /** `delete(id)`: fails for an unknown id, otherwise that user goes. */
    method Delete(id: Id) returns (r: Result<(), Error>)
      requires Valid()
      modifies this
      ensures Valid() && nextId == old(nextId)
      ensures r.Failure? <==> forall u :: u in old(rows) ==> u.id != Some(id)
      ensures r.Failure? ==> rows == old(rows)
      ensures forall u :: u in rows <==> u in old(rows) && u.id != Some(id)
    {
      var found := FindById(rows, id);
      if found.None? {
        return Failure(UserNotFound);
      }
      RemoveById(rows, nextId, found.value);
      rows := RemoveAt(rows, found.value);
      r := Success(());
    }
  }
}
