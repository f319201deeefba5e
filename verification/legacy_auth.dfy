/** Signup and confirmation as the older users/serializers.py implements
    them (the variant users/urls.py routes): signup always tries to create
    a new inactive user, and confirmation only looks among inactive users. */
module LegacyAuth {
  import opened Outcome
  import opened Accounts
  import opened Store
  import opened Tokens
  import Signup

  /** The older serializer's fields: a non-blank email, and a non-blank
      username of at most 150 characters with no pattern and no reserved
      name. */
  function CheckLegacyFields(email: string, username: string): (r: Result<(string, string)>)
    ensures r.Ok? <==> email != "" && 0 < |username| <= MaxUsernameLength
    ensures r.Ok? ==> r.value == (email, username)
  {
    if email == "" || username == "" then Fail(Invalid(Blank))
    else if |username| > MaxUsernameLength then Fail(Invalid(TooLong))
    else Ok((email, username))
  }

  /** The older `UserSignupSerializer.create`: `User.objects.create` with the
      active flag off, refused by the unique columns when the username or
      the email is already stored; then the code is mailed. The refusal is
      an IntegrityError that nothing catches, so the `Conflict` here reaches
      the client as a server error, not as a validation answer. */
  function LegacySignupRequest(s: Store, email: string, username: string, delivered: bool): (st: Step<Signup.Mail>)
    requires Valid(s)
    ensures st.result.Fail? && st.result.failure != DeliveryFailed ==> st.store == s
    ensures CheckLegacyFields(email, username).Fail? ==> st.result.Fail? && st.result.failure.Invalid?
    ensures CheckLegacyFields(email, username).Ok? ==>
      (st.result == Fail(Conflict) <==> UsernameInUse(s, username) || EmailInUse(s, email))
    ensures CheckLegacyFields(email, username).Ok? && !UsernameInUse(s, username) && !EmailInUse(s, email) ==>
      && st.store == s.(users := s.users[s.nextId := NewUser(username, email, false)], nextId := s.nextId + 1)
      && (st.result.Ok? <==> delivered)
    ensures st.result.Ok? ==>
      && st.result.value.recipient == email
      && st.result.value.code == MakeToken(s.nextId, st.store.users[s.nextId])
  {
    match CheckLegacyFields(email, username)
    case Fail(f) => Step(s, Fail(f))
    case Ok(_) =>
      if UserNamed(s, username).Some? || UserWithEmail(s, email).Some? then Step(s, Fail(Conflict))
      else
        var u := NewUser(username, email, false);
        var s' := s.(users := s.users[s.nextId := u], nextId := s.nextId + 1);
        if delivered then Step(s', Ok(Signup.Mail(email, MakeToken(s.nextId, u))))
        else Step(s', Fail(DeliveryFailed))
  }

  predicate IsInactiveNamed(u: User, name: string)
  {
    u.username == name && !u.isActive
  }

  /** `User.objects.get(username=..., is_active=False)`. */
  function InactiveUserNamed(s: Store, name: string): (r: Option<UserId>)
    requires KeysBelow(s)
    ensures r.Some? ==> r.value in s.users && s.users[r.value].username == name && !s.users[r.value].isActive
    ensures r.None? <==> forall k :: k in s.users && s.users[k].username == name ==> s.users[k].isActive
  {
    FirstMatch(s.users, (u: User) => IsInactiveNamed(u, name), s.nextId)
  }

  /** The older `UserTokenSerializer`: a blank or over-long username and a
      blank code are field errors, as in the current serializer; past the
      fields, no
      inactive user of that name and a code that does not check fail alike
      in `validate`; no failure changes anything; the right code activates
      the user and yields an access token. */
  function LegacyConfirmRequest(s: Store, username: string, code: Code): (st: Step<AccessToken>)
    requires Valid(s)
    ensures st.result.Fail? ==> st.store == s
    ensures username == "" ==> st == Step(s, Fail(Invalid(Blank)))
    ensures |username| > MaxUsernameLength ==> st == Step(s, Fail(Invalid(TooLong)))
    ensures 0 < |username| <= MaxUsernameLength && code == EmptyCode ==> st == Step(s, Fail(Invalid(Blank)))
    ensures 0 < |username| <= MaxUsernameLength && code != EmptyCode && st.result.Fail? ==>
      st == Step(s, Fail(Invalid(BadCode)))
    ensures st.result.Ok? <==>
      && 0 < |username| <= MaxUsernameLength
      && exists k :: k in s.users && s.users[k].username == username && !s.users[k].isActive
                     && CheckToken(k, s.users[k], code)
    ensures st.result.Ok? ==>
      var k := st.result.value.user;
      && k in s.users && s.users[k].username == username && !s.users[k].isActive
      && st.store == Signup.Activate(s, k)
  {
    match Signup.CheckConfirmUsername(username)
    case Fail(f) => Step(s, Fail(f))
    case Ok(_) =>
      if code == EmptyCode then Step(s, Fail(Invalid(Blank)))
      else match InactiveUserNamed(s, username)
      case None => Step(s, Fail(Invalid(BadCode)))
      case Some(k) =>
        if !CheckToken(k, s.users[k], code) then Step(s, Fail(Invalid(BadCode)))
        else Step(Signup.Activate(s, k), Ok(IssueToken(k)))
  }

  /** The older signup keeps the store valid: the new user's username and
      email are unused. */
  lemma LegacySignupKeepsValid(s: Store, email: string, username: string, delivered: bool)
    requires Valid(s)
    ensures Valid(LegacySignupRequest(s, email, username, delivered).store)
  {
    if CheckLegacyFields(email, username).Ok? && !UsernameInUse(s, username) && !EmailInUse(s, email) {
      Signup.AddUserKeepsValid(s, NewUser(username, email, false));
    }
  }

  /** The older confirmation keeps the store valid. */
  lemma LegacyConfirmKeepsValid(s: Store, username: string, code: Code)
    requires Valid(s)
    ensures Valid(LegacyConfirmRequest(s, username, code).store)
  {
    var st := LegacyConfirmRequest(s, username, code);
    if st.result.Ok? {
      Signup.ActivationKeepsValid(s, st.result.value.user);
    }
  }

  /** An active user can no longer confirm, whatever the code: a non-blank
      code fails as a wrong one would. */
  lemma ActiveUserCannotConfirm(s: Store, k: UserId, code: Code)
    requires Valid(s) && k in s.users && s.users[k].isActive
    ensures LegacyConfirmRequest(s, s.users[k].username, code) ==
      Step(s, Fail(Invalid(if code == EmptyCode then Blank else BadCode)))
  {
  }

  /** A successful confirmation is the last: any later one with the same
      username fails. */
  lemma ConfirmationHappensOnce(s: Store, username: string, code: Code, code': Code)
    requires Valid(s) && LegacyConfirmRequest(s, username, code).result.Ok?
    ensures var s1 := LegacyConfirmRequest(s, username, code).store;
      && Valid(s1)
      && LegacyConfirmRequest(s1, username, code') == Step(s1, Fail(Invalid(if code' == EmptyCode then Blank else BadCode)))
  {
    var k := LegacyConfirmRequest(s, username, code).result.value.user;
    var s1 := LegacyConfirmRequest(s, username, code).store;
    LegacyConfirmKeepsValid(s, username, code);
    ActiveUserCannotConfirm(s1, k, code');
  }

  /** The code the older signup mails confirms the user it created. */
  lemma LegacySignupCodeConfirms(s: Store, email: string, username: string)
    requires Valid(s) && LegacySignupRequest(s, email, username, true).result.Ok?
    ensures var st := LegacySignupRequest(s, email, username, true);
      Valid(st.store) && LegacyConfirmRequest(st.store, username, st.result.value.code).result.Ok?
  {
    var st := LegacySignupRequest(s, email, username, true);
    LegacySignupKeepsValid(s, email, username, true);
    MailedCodeConfirms(st.store, s.nextId);
  }

  /** An inactive user confirms with the code made for its own row. */
  lemma MailedCodeConfirms(s: Store, k: UserId)
    requires Valid(s) && k in s.users && !s.users[k].isActive
    ensures LegacyConfirmRequest(s, s.users[k].username, MakeToken(k, s.users[k])).result.Ok?
  {
    assert CheckToken(k, s.users[k], MakeToken(k, s.users[k]));
  }
}
