/** Users and their roles (the User model of reviews/models.py, and the
    older schema of users/models.py, which declares the same fields). */
module Accounts {
  import opened Outcome

  type UserId = nat

  const MaxUsernameLength := 150
  const MaxEmailLength := 254

  /** The three role choices; a stored role is always one of them. */
  datatype Role = PlainUser | Moderator | Admin

  /** The value stored in the role column for each choice. */
  function RoleName(r: Role): string
  {
    match r
    case PlainUser => "user"
    case Moderator => "moderator"
    case Admin => "admin"
  }

  /** A submitted role string resolved against the choices. */
  function ParseRole(s: string): (r: Option<Role>)
    ensures r.Some? ==> RoleName(r.value) == s
    ensures r.None? ==> forall role: Role :: RoleName(role) != s
  {
    if s == "user" then Some(PlainUser)
    else if s == "moderator" then Some(Moderator)
    else if s == "admin" then Some(Admin)
    else None
  }

  /** Every choice is recovered from its stored value, and no two choices share one. */
  lemma RoleChoicesRoundTrip(r: Role, r': Role)
    ensures ParseRole(RoleName(r)) == Some(r)
    ensures RoleName(r) == RoleName(r') ==> r == r'
  {
  }

  const DefaultRole: Role := PlainUser

  datatype User = User(
    username: string,
    email: string,
    role: Role,
    isSuperuser: bool,
    isActive: bool,
    lastName: string,
    bio: string)

  /** `User.is_admin`: a superuser or the admin role. */
  predicate IsAdmin(u: User)
  {
    u.isSuperuser || u.role == Admin
  }

  /** `User.is_moder`: the moderator role. */
  predicate IsModer(u: User)
  {
    u.role == Moderator
  }

  /** A row as a create call without an explicit role stores it. */
  function NewUser(username: string, email: string, active: bool): (u: User)
    ensures u.username == username && u.email == email && u.isActive == active
    ensures u.role == DefaultRole && !u.isSuperuser
    ensures !IsAdmin(u) && !IsModer(u)
  {
    User(username, email, DefaultRole, false, active, "", "")
  }
}
