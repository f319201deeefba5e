/** The `me` action of UserViewSet in api/views.py: an authenticated user
    reads or partially updates its own row through UserSerializer, and the
    role it submits is replaced by the role it already has. */
module Profile {
  import opened Outcome
  import opened Accounts
  import opened Store
  import opened Usernames
  import opened Fields
  import opened Permissions
  import opened Requests

  /** A PATCH body: each field is absent or a submitted string. */
  datatype ProfilePatch = ProfilePatch(
    username: Option<string>,
    email: Option<string>,
    lastName: Option<string>,
    bio: Option<string>,
    role: Option<string>)

  /** The validated data of a PATCH: the role choice is parsed. */
  datatype Changes = Changes(
    username: Option<string>,
    email: Option<string>,
    lastName: Option<string>,
    bio: Option<string>,
    role: Option<Role>)

  /** `UserSerializer.validate_username` as written: every stored username is
      refused, the one of the user being edited included. */
  function UsernameFreeAsWritten(s: Store, name: string): (r: Result<string>)
    requires KeysBelow(s)
    ensures r.Ok? <==> !UsernameInUse(s, name)
    ensures r.Fail? ==> r.failure == Invalid(UsernameTaken)
    ensures r.Ok? ==> r.value == name
  {
    if UserNamed(s, name).Some? then Fail(Invalid(UsernameTaken)) else Ok(name)
  }

  /** The uniqueness check evidently intended when editing user `k`: the
      name may be held by `k` itself but by no other user. */
  function UsernameFreeFor(s: Store, k: UserId, name: string): (r: Result<string>)
    requires Valid(s)
    ensures r.Ok? <==> forall j :: j in s.users && j != k ==> s.users[j].username != name
    ensures r.Fail? ==> r.failure == Invalid(UsernameTaken)
    ensures r.Ok? ==> r.value == name
  {
    match UserNamed(s, name)
    case None => Ok(name)
    case Some(j) => if j == k then Ok(name) else Fail(Invalid(UsernameTaken))
  }

  /** Resubmitting one's own username is refused as written and accepted by
      the corrected check. */
  lemma OwnUsernameRejectedAsWritten(s: Store, k: UserId)
    requires Valid(s) && k in s.users
    ensures UsernameFreeAsWritten(s, s.users[k].username) == Fail(Invalid(UsernameTaken))
    ensures UsernameFreeFor(s, k, s.users[k].username) == Ok(s.users[k].username)
  {
  }

  /** The username field of UserSerializer: non-blank, at most 150
      characters, the username validator, then the uniqueness check. */
  function CheckProfileUsername(s: Store, k: UserId, name: string): (r: Result<string>)
    requires Valid(s)
    ensures r.Ok? <==>
      && 0 < |name| <= MaxUsernameLength && MatchesPattern(name)
      && forall j :: j in s.users && j != k ==> s.users[j].username != name
    ensures r.Ok? ==> r.value == name
  {
    if name == "" then Fail(Invalid(Blank))
    else if |name| > MaxUsernameLength then Fail(Invalid(TooLong))
    else if ValidateUsername(name).Fail? then Fail(Invalid(BadFormat))
    else UsernameFreeFor(s, k, name)
  }

  /** The email field the model serializer derives from the unique email
      column: non-blank, at most 254 characters, and held by no other user
      (the uniqueness validator leaves out the row being edited). */
  function CheckProfileEmail(s: Store, k: UserId, email: string): (r: Result<string>)
    requires Valid(s)
    ensures r.Ok? <==>
      && 0 < |email| <= MaxEmailLength
      && forall j :: j in s.users && j != k ==> s.users[j].email != email
    ensures r.Ok? ==> r.value == email
  {
    if email == "" then Fail(Invalid(Blank))
    else if |email| > MaxEmailLength then Fail(Invalid(TooLong))
    else match UserWithEmail(s, email)
      case None => Ok(email)
      case Some(j) => if j == k then Ok(email) else Fail(Invalid(EmailTaken))
  }

  /** The role field: one of the role choices. */
  function CheckRoleChoice(choice: string): (r: Result<Role>)
    ensures r.Ok? <==> choice in {"user", "moderator", "admin"}
    ensures r.Ok? ==> RoleName(r.value) == choice
  {
    match ParseRole(choice)
    case None => Fail(Invalid(BadChoice))
    case Some(role) => Ok(role)
  }

  /** What a partial update by user `k` accepts, field by field; an absent
      field is not validated. */
  ghost predicate PatchAcceptable(s: Store, k: UserId, p: ProfilePatch)
  {
    && (p.username.Some? ==>
          && 0 < |p.username.value| <= MaxUsernameLength && MatchesPattern(p.username.value)
          && forall j :: j in s.users && j != k ==> s.users[j].username != p.username.value)
    && (p.email.Some? ==>
          && 0 < |p.email.value| <= MaxEmailLength
          && forall j :: j in s.users && j != k ==> s.users[j].email != p.email.value)
    && (p.lastName.Some? ==> 0 < |p.lastName.value| <= MaxUsernameLength)
    && (p.role.Some? ==> p.role.value in {"user", "moderator", "admin"})
  }

  /** `is_valid()` of a partial UserSerializer bound to user `k`; fields
      are checked in declaration order and the first failure is reported.
      The biography is a text field that allows blanks and has no limit. */
  function ValidatePatch(s: Store, k: UserId, p: ProfilePatch): (r: Result<Changes>)
    requires Valid(s)
    ensures r.Ok? <==> PatchAcceptable(s, k, p)
    ensures r.Ok? ==>
      && r.value.username == p.username && r.value.email == p.email
      && r.value.lastName == p.lastName && r.value.bio == p.bio
      && (p.role.None? <==> r.value.role.None?)
      && (p.role.Some? ==> RoleName(r.value.role.value) == p.role.value)
  {
    var name :- match p.username
      case None => Ok(None)
      case Some(n) => (var v :- CheckProfileUsername(s, k, n); Ok(Some(v)));
    var email :- match p.email
      case None => Ok(None)
      case Some(e) => (var v :- CheckProfileEmail(s, k, e); Ok(Some(v)));
    var lastName :- match p.lastName
      case None => Ok(None)
      case Some(l) => (var v :- CheckLastName(l); Ok(Some(v)));
    var role :- match p.role
      case None => Ok(None)
      case Some(c) => (var v :- CheckRoleChoice(c); Ok(Some(v)));
    Ok(Changes(name, email, lastName, p.bio, role))
  }

  /** `serializer.save()` on a partial update: the supplied fields replace
      the stored ones and nothing else changes. */
  function Apply(u: User, c: Changes): (u': User)
    ensures u'.username == (if c.username.Some? then c.username.value else u.username)
    ensures u'.email == (if c.email.Some? then c.email.value else u.email)
    ensures u'.lastName == (if c.lastName.Some? then c.lastName.value else u.lastName)
    ensures u'.bio == (if c.bio.Some? then c.bio.value else u.bio)
    ensures u'.role == (if c.role.Some? then c.role.value else u.role)
    ensures u'.isSuperuser == u.isSuperuser && u'.isActive == u.isActive
  {
    User(
      if c.username.Some? then c.username.value else u.username,
      if c.email.Some? then c.email.value else u.email,
      if c.role.Some? then c.role.value else u.role,
      u.isSuperuser,
      u.isActive,
      if c.lastName.Some? then c.lastName.value else u.lastName,
      if c.bio.Some? then c.bio.value else u.bio)
  }

  /** The row an accepted patch produces, with the role pinned, holds no
      username or email of another user and keeps the username non-blank and short. */
  lemma PatchedUserFits(s: Store, k: UserId, c: Changes)
    requires Valid(s) && k in s.users
    requires c.username.Some? ==>
      0 < |c.username.value| <= MaxUsernameLength
      && forall j :: j in s.users && j != k ==> s.users[j].username != c.username.value
    requires c.email.Some? ==> forall j :: j in s.users && j != k ==> s.users[j].email != c.email.value
    ensures var u' := Apply(s.users[k], c.(role := Some(s.users[k].role)));
      FreeFor(s, k, u') && 0 < |u'.username| <= MaxUsernameLength
  {
  }

  /** GET on `me`: the requester's own row. The view looks the row up by the
      requester's username, which under the unique constraint is this row. */
  function MeGet(s: Store, req: Requester): (r: Result<User>)
    ensures req.Guest? || req.id !in s.users ==> r == Fail(Denied)
    ensures req.Bearer? && req.id in s.users ==> r == Ok(s.users[req.id])
  {
    match Authenticate(s, req)
    case Fail(f) => Fail(f)
    case Ok(p) => if p.Anonymous? then Fail(Denied) else Ok(p.user)
  }

  /** PATCH on `me`: the anonymous user is refused; an invalid body is a 400
      that saves nothing; a valid body updates the requester's row alone,
      with the role set back to the requester's current role. */
  function MePatch(s: Store, req: Requester, p: ProfilePatch): (st: Step<User>)
    requires Valid(s)
    ensures req.Guest? || req.id !in s.users ==> st == Step(s, Fail(Denied))
    ensures st.result.Fail? ==> st.store == s
    ensures req.Bearer? && req.id in s.users ==> (st.result.Ok? <==> PatchAcceptable(s, req.id, p))
    ensures st.result.Ok? ==>
      && req.Bearer? && req.id in s.users
      && st.store == s.(users := s.users[req.id := st.result.value])
      && st.result.value.role == s.users[req.id].role
      && st.result.value.isSuperuser == s.users[req.id].isSuperuser
  {
    match Authenticate(s, req)
    case Fail(f) => Step(s, Fail(f))
    case Ok(principal) =>
      if principal.Anonymous? then Step(s, Fail(Denied))
      else
        var k := principal.id;
        match ValidatePatch(s, k, p)
        case Fail(f) => Step(s, Fail(f))
        case Ok(c) =>
          var u' := Apply(s.users[k], c.(role := Some(principal.user.role)));
          Step(s.(users := s.users[k := u']), Ok(u'))
  }

  /** An accepted PATCH keeps the store valid. */
  lemma MePatchKeepsValid(s: Store, req: Requester, p: ProfilePatch)
    requires Valid(s)
    ensures Valid(MePatch(s, req, p).store)
  {
    var st := MePatch(s, req, p);
    if st.result.Ok? {
      var k := req.id;
      var c := ValidatePatch(s, k, p).value;
      PatchedUserFits(s, k, c);
      ReplaceUserKeepsValid(s, k, st.result.value);
    }
  }

  /** No user changes its own role through `me`: whatever role the body
      names, an accepted PATCH leaves the admin and moderator rights as they
      were. */
  lemma NoSelfPromotion(s: Store, k: UserId, p: ProfilePatch)
    requires Valid(s) && k in s.users && MePatch(s, Bearer(k), p).result.Ok?
    ensures var u' := MePatch(s, Bearer(k), p).result.value;
      && (IsAdmin(u') <==> IsAdmin(s.users[k]))
      && (IsModer(u') <==> IsModer(s.users[k]))
  {
  }

  /** The submitted role only decides whether the body is valid: two
      accepted bodies that differ only in their role save the same row. */
  lemma SubmittedRoleIsIgnored(s: Store, k: UserId, p: ProfilePatch, role: Option<string>)
    requires Valid(s) && k in s.users
    requires MePatch(s, Bearer(k), p).result.Ok? && MePatch(s, Bearer(k), p.(role := role)).result.Ok?
    ensures MePatch(s, Bearer(k), p) == MePatch(s, Bearer(k), p.(role := role))
  {
  }
}
