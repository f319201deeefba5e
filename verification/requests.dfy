/** Who sends a request: the authentication layer turns a bearer token into
    the principal the permission classes see. */
module Requests {
  import opened Outcome
  import opened Accounts
  import opened Store
  import opened Permissions

  /** A request without credentials, or with an access token for a user key. */
  datatype Requester = Guest | Bearer(id: UserId)

  /** A token for a user key that has no row is refused; a guest is the
      anonymous user; a known key is that user, as stored. */
  function Authenticate(s: Store, req: Requester): (r: Result<Principal>)
    ensures req.Guest? ==> r == Ok(Anonymous)
    ensures req.Bearer? && req.id !in s.users ==> r == Fail(Denied)
    ensures req.Bearer? && req.id in s.users ==> r == Ok(Authenticated(req.id, s.users[req.id]))
  {
    match req
    case Guest => Ok(Anonymous)
    case Bearer(id) => if id in s.users then Ok(Authenticated(id, s.users[id])) else Fail(Denied)
  }
}
