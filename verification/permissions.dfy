/** The permission classes of api/permissions.py and users/permissions.py,
    as pure functions of the request method and the requesting principal. */
module Permissions {
  import opened Outcome
  import opened Accounts

  datatype Method = Get | Head | Options | Post | Put | Patch | Delete

  /** `SAFE_METHODS`: the read-only verbs. */
  predicate IsSafe(m: Method)
  {
    m == Get || m == Head || m == Options
  }

  /** The requester as a permission class sees it: the anonymous user, or
      an authenticated user with its primary key and row. */
  datatype Principal = Anonymous | Authenticated(id: UserId, user: User)

  /** `IsAdmin.has_permission` (api): an authenticated administrator. */
  function AdminOnly(p: Principal): (granted: bool)
    ensures granted <==> p.Authenticated? && (p.user.isSuperuser || p.user.role == Admin)
  {
    p.Authenticated? && IsAdmin(p.user)
  }

  /** `IsAdminOrReadOnly.has_permission`. */
  function AdminOrReadOnly(m: Method, p: Principal): (granted: bool)
    ensures IsSafe(m) ==> granted
    ensures !IsSafe(m) ==> (granted <==> AdminOnly(p))
  {
    IsSafe(m) || (p.Authenticated? && IsAdmin(p.user))
  }

  /** A write under `IsAdminOrReadOnly` is refused to the anonymous user, to
      plain users and to moderators who are not superusers. */
  lemma ReadOnlyRefusesNonAdmins(m: Method, p: Principal)
    requires !IsSafe(m)
    requires p.Anonymous? || (!p.user.isSuperuser && p.user.role in {PlainUser, Moderator})
    ensures !AdminOrReadOnly(m, p)
  {
  }

  /** `IsAdminOrModerOrAuthor.has_permission`: reads for everyone, writes
      for any authenticated user. */
  function ModerOrAuthorView(m: Method, p: Principal): (granted: bool)
    ensures granted <==> IsSafe(m) || p != Anonymous
  {
    IsSafe(m) || p.Authenticated?
  }

  /** `IsAdminOrModerOrAuthor.has_object_permission` for an object whose
      author has primary key `author`. `None` stands for the AttributeError
      raised when `is_admin` is read off the anonymous user. */
  function ModerOrAuthorObject(m: Method, p: Principal, author: UserId): (r: Option<bool>)
    ensures IsSafe(m) ==> r == Some(true)
    ensures !IsSafe(m) && p.Anonymous? ==> r.None?
    ensures !IsSafe(m) && p.Authenticated? ==>
      r == Some(p.user.isSuperuser || p.user.role in {Admin, Moderator} || p.id == author)
  {
    if IsSafe(m) then Some(true)
    else match p
      case Anonymous => None
      case Authenticated(id, u) => Some(IsAdmin(u) || IsModer(u) || id == author)
  }

  /** The framework runs `has_permission` before `has_object_permission`, so
      the object check is reached only when the view check passed. */
  function ModerOrAuthorGate(m: Method, p: Principal, author: UserId): (granted: bool)
    ensures granted ==> ModerOrAuthorView(m, p)
    ensures granted <==> IsSafe(m) || (p.Authenticated? && (IsAdmin(p.user) || IsModer(p.user) || p.id == author))
  {
    ModerOrAuthorView(m, p) && ModerOrAuthorObject(m, p, author) == Some(true)
  }

  /** Whenever the view check passes, the object check returns a verdict
      instead of raising. */
  lemma GateNeverRaises(m: Method, p: Principal, author: UserId)
    requires ModerOrAuthorView(m, p)
    ensures ModerOrAuthorObject(m, p, author).Some?
  {
  }

  /** A plain user who is not the author may not change or delete the
      object; its author may. */
  lemma OnlyAuthorAmongPlainUsers(m: Method, id: UserId, u: User, author: UserId)
    requires m in {Put, Patch, Delete}
    requires u.role == PlainUser && !u.isSuperuser
    ensures ModerOrAuthorGate(m, Authenticated(id, u), author) <==> id == author
  {
  }

  /** `IsAdmin.has_permission` of users/permissions.py. It receives the
      request method but does not read it. */
  function LegacyAdminOnly(m: Method, p: Principal): (granted: bool)
    ensures p.Anonymous? ==> !granted
    ensures p.Authenticated? ==> (granted <==> IsAdmin(p.user))
  {
    p.Authenticated? && IsAdmin(p.user)
  }

  /** The older class decides as the current one does, whatever the
      method; in particular a moderator without superuser rights is refused. */
  lemma LegacyAdminAgrees(m: Method, m': Method, p: Principal)
    ensures LegacyAdminOnly(m, p) == LegacyAdminOnly(m', p) == AdminOnly(p)
    ensures p.Authenticated? && p.user.role == Moderator && !p.user.isSuperuser ==> !LegacyAdminOnly(m, p)
  {
  }
}
