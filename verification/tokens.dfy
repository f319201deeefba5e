/** The two token services the signup flow relies on, kept opaque: the
    confirmation-code generator and the issuer of access tokens. */
module Tokens {
  import opened Accounts

  /** A confirmation code. The generator derives it from the user's primary
      key, password, last login, a timestamp and email; the model keeps the
      primary key and the email, since no modelled request changes the
      password or the last login, and the code's expiry is not modelled. The
      active flag is not among the inputs. `EmptyCode` is the blank string
      submitted in the code field. */
  datatype Code = Code(user: UserId, email: string) | EmptyCode

  /** `default_token_generator.make_token(user)`. */
  function MakeToken(id: UserId, u: User): Code
  {
    Code(id, u.email)
  }

  /** `default_token_generator.check_token(user, code)`: the code made for
      the user's current state, and no other, checks. */
  function CheckToken(id: UserId, u: User, code: Code): (ok: bool)
    ensures ok <==> code == MakeToken(id, u)
  {
    code.Code? && code.user == id && code.email == u.email
  }

  /** A code made for one user never checks for another. */
  lemma CodeBindsUser(id: UserId, u: User, id': UserId, u': User)
    requires id != id'
    ensures !CheckToken(id', u', MakeToken(id, u))
  {
  }

  /** The access token `RefreshToken.for_user(user).access_token`. */
  datatype AccessToken = AccessToken(user: UserId)

  function IssueToken(id: UserId): (t: AccessToken)
    ensures t.user == id
  {
    AccessToken(id)
  }
}
