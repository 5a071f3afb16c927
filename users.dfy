/** The `User` account entity and the authorities the security layer derives from it. */
module Users {
  import opened Base
  import opened Registry

  /** `UserRole`. */
  datatype UserRole = Admin | Student | Professor | Coordenation | Secretary

  /** The columns of a user row; `status` is whether the account is enabled. */
  datatype UserData = UserData(login: string, password: string, email: string, status: bool, role: UserRole)

  type User = Entity<UserData>

  /** The registration constructor: an unsaved, enabled account with the given
      login, email, (already encoded) password and role. */
  function Register(login: string, email: string, password: string, role: UserRole): (u: User)
    ensures u.id.None? && IsEnabled(u) && Username(u) == login
    ensures u.data.email == email && u.data.password == password && u.data.role == role
  {
    Entity(None, UserData(login, password, email, true, role))
  }

  /** `getUsername`: the login. */
  function Username(u: User): string
  {
    u.data.login
  }

  /** `isEnabled`: the status column. */
  predicate IsEnabled(u: User)
  {
    u.data.status
  }

  /** `isAccountNonExpired`, `isAccountNonLocked`, `isCredentialsNonExpired`: always true. */
  predicate IsAccountNonExpired(u: User) { true }
  predicate IsAccountNonLocked(u: User) { true }
  predicate IsCredentialsNonExpired(u: User) { true }

  /** The authority named after a role ("ROLE_ADMIN", ...). */
  function RoleAuthority(role: UserRole): string
  {
    match role
    case Admin => "ROLE_ADMIN"
    case Student => "ROLE_STUDENT"
    case Professor => "ROLE_PROFESSOR"
    case Coordenation => "ROLE_COORDENATION"
    case Secretary => "ROLE_SECRETARY"
  }

  /** `getAuthorities`: the role's own authority and ROLE_USER for administrators,
      professors and students; ROLE_USER alone for every other role. */
  function Authorities(role: UserRole): (r: seq<string>)
    ensures 1 <= |r| <= 2 && r[|r| - 1] == "ROLE_USER"
    ensures RoleAuthority(role) in r <==> role == Admin || role == Professor || role == Student
    ensures |r| == 2 ==> r[0] == RoleAuthority(role)
  {
    if role == Admin then ["ROLE_ADMIN", "ROLE_USER"]
    else if role == Professor then ["ROLE_PROFESSOR", "ROLE_USER"]
    else if role == Student then ["ROLE_STUDENT", "ROLE_USER"]
    else ["ROLE_USER"]
  }

  /** Different roles that hold their own authority never share one: a student
      is never granted ROLE_PROFESSOR or ROLE_ADMIN, and so on. */
  lemma AuthoritiesSeparateRoles(a: UserRole, b: UserRole)
    requires a != b
    ensures RoleAuthority(a) !in Authorities(b)
  {
  }

  /** Spring lets an account sign in when all four account checks pass, which
      here is exactly when the account is enabled. */
  lemma UsableIffEnabled(u: User)
    ensures IsAccountNonExpired(u) && IsAccountNonLocked(u) && IsCredentialsNonExpired(u) && IsEnabled(u)
            <==> u.data.status
  {
  }
}
