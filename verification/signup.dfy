/** Signup and confirmation as api/serializers.py implements them: signup
    checks that the email and the username belong together, then finds the
    user by email or creates an inactive one, and mails a confirmation
    code; confirmation activates the user named when the code checks. */
module Signup {
  import opened Outcome
  import opened Accounts
  import opened Store
  import opened Usernames
  import opened Tokens

  /** The mail a signup sends: the confirmation code, to the given address. */
  datatype Mail = Mail(recipient: string, code: Code)

  /** The username field: a non-blank CharField of at most 150 characters
      with the username validator, then `validate_username`, which refuses
      exactly the name "me". */
  function CheckSignupUsername(username: string): (r: Result<string>)
    ensures r.Ok? <==> |username| <= MaxUsernameLength && MatchesPattern(username) && username != "me"
    ensures username == "me" ==> r == Fail(Invalid(ReservedName))
    ensures r == Fail(Invalid(ReservedName)) ==> username == "me"
    ensures r.Ok? ==> r.value == username
  {
    if username == "" then Fail(Invalid(Blank))
    else if |username| > MaxUsernameLength then Fail(Invalid(TooLong))
    else if ValidateUsername(username).Fail? then Fail(Invalid(BadFormat))
    else if username == "me" then Fail(Invalid(ReservedName))
    else Ok(username)
  }

  /** The email field: a non-blank EmailField of at most 254 characters (its
      syntax is taken as given), then `validate_email`, which compares it
      with the users already stored. */
  function CheckSignupEmail(s: Store, email: string, username: string): (r: Result<string>)
    requires Valid(s)
    ensures r.Ok? <==>
      && 0 < |email| <= MaxEmailLength
      && (EmailInUse(s, email) ==> UsernameInUse(s, username))
      && (forall k :: k in s.users && s.users[k].username == username ==> s.users[k].email == email)
    ensures 0 < |email| <= MaxEmailLength && EmailInUse(s, email) && !UsernameInUse(s, username) ==>
      r == Fail(Invalid(EmailRegistered))
    ensures 0 < |email| <= MaxEmailLength && UsernameInUse(s, username) && r.Fail? ==>
      r == Fail(Invalid(EmailMismatch))
    ensures r.Ok? ==> r.value == email
  {
    if email == "" then Fail(Invalid(Blank))
    else if |email| > MaxEmailLength then Fail(Invalid(TooLong))
    else if UserWithEmail(s, email).Some? && UserNamed(s, username).None? then Fail(Invalid(EmailRegistered))
    else match UserNamed(s, username)
      case Some(k) => if s.users[k].email != email then Fail(Invalid(EmailMismatch)) else Ok(email)
      case None => Ok(email)
  }

  /** Both fields pass; the email field is reported first when both fail. */
  function ValidateSignup(s: Store, email: string, username: string): (r: Result<(string, string)>)
    requires Valid(s)
    ensures r.Ok? <==> CheckSignupEmail(s, email, username).Ok? && CheckSignupUsername(username).Ok?
    ensures r.Ok? ==> r.value == (email, username)
  {
    var e :- CheckSignupEmail(s, email, username);
    var u :- CheckSignupUsername(username);
    Ok((e, u))
  }

  /** `User.objects.get_or_create(email=..., defaults=...)`: the user with
      this email, or a new inactive user with the given username. */
  function GetOrCreate(s: Store, email: string, username: string): (r: (Store, UserId))
    requires KeysBelow(s)
    ensures r.1 in r.0.users && r.0.users[r.1].email == email
    ensures EmailInUse(s, email) ==> r.0 == s
    ensures !EmailInUse(s, email) ==>
      r.0 == s.(users := s.users[s.nextId := NewUser(username, email, false)], nextId := s.nextId + 1)
      && r.1 == s.nextId
  {
    match UserWithEmail(s, email)
    case Some(k) => (s, k)
    case None =>
      (s.(users := s.users[s.nextId := NewUser(username, email, false)], nextId := s.nextId + 1), s.nextId)
  }

  /** The store holds a user with exactly this email and username. */
  ghost predicate Registered(s: Store, email: string, username: string)
  {
    exists k :: k in s.users && s.users[k].email == email && s.users[k].username == username
  }

  /** A new user keeps the store valid when its username and email are free
      and its username non-blank and short enough. */
  lemma AddUserKeepsValid(s: Store, u: User)
    requires Valid(s)
    requires !UsernameInUse(s, u.username) && !EmailInUse(s, u.email)
    requires 0 < |u.username| <= MaxUsernameLength
    ensures Valid(s.(users := s.users[s.nextId := u], nextId := s.nextId + 1))
  {
    AddUserKeepsUnique(s, u);
    AddUserKeepsLinks(s, u);
  }

  lemma AddUserKeepsLinks(s: Store, u: User)
    requires KeysBelow(s) && ForeignKeysResolve(s) && FieldBounds(s) && 0 < |u.username| <= MaxUsernameLength
    ensures var s' := s.(users := s.users[s.nextId := u], nextId := s.nextId + 1);
      KeysBelow(s') && ForeignKeysResolve(s') && FieldBounds(s')
  {
  }

  lemma AddUserKeepsUnique(s: Store, u: User)
    requires UniqueColumns(s) && KeysBelow(s)
    requires !UsernameInUse(s, u.username) && !EmailInUse(s, u.email)
    ensures UniqueColumns(s.(users := s.users[s.nextId := u], nextId := s.nextId + 1))
  {
    assert forall j :: j in s.users ==> s.users[j].username != u.username && s.users[j].email != u.email;
  }

  /** After validation, get-or-create returns the user with both the email
      and the username, and the store stays valid. */
  lemma GetOrCreateAfterValidation(s: Store, email: string, username: string)
    requires Valid(s) && ValidateSignup(s, email, username).Ok?
    ensures var (s', k) := GetOrCreate(s, email, username);
      Valid(s') && s'.users[k].username == username
  {
    var (s', k) := GetOrCreate(s, email, username);
    if EmailInUse(s, email) {
      assert UsernameInUse(s, username);
      var j :| j in s.users && s.users[j].username == username;
      assert s.users[j].email == email;
    } else {
      AddUserKeepsValid(s, NewUser(username, email, false));
    }
  }

  /** `UserSignupSerializer` validated and saved. `delivered` says whether
      `send_mail` succeeded; when it raises, the user row stays. */
  function SignupRequest(s: Store, email: string, username: string, delivered: bool): (st: Step<Mail>)
    requires Valid(s)
    ensures Valid(st.store)
    ensures ValidateSignup(s, email, username).Fail? <==> st.result.Fail? && st.result.failure.Invalid?
    ensures ValidateSignup(s, email, username).Fail? ==> st.store == s
    ensures ValidateSignup(s, email, username).Ok? ==>
      && Registered(st.store, email, username)
      && (EmailInUse(s, email) ==> st.store == s)
      && (!EmailInUse(s, email) ==>
            st.store == s.(users := s.users[s.nextId := NewUser(username, email, false)], nextId := s.nextId + 1))
      && (st.result.Ok? <==> delivered)
    ensures st.result.Ok? ==>
      && st.result.value.recipient == email
      && exists k :: k in st.store.users && st.store.users[k].username == username
                     && CheckToken(k, st.store.users[k], st.result.value.code)
  {
    match ValidateSignup(s, email, username)
    case Fail(f) => Step(s, Fail(f))
    case Ok(_) =>
      var (s', k) := GetOrCreate(s, email, username);
      GetOrCreateAfterValidation(s, email, username);
      var code := MakeToken(k, s'.users[k]);
      if delivered then Step(s', Ok(Mail(email, code))) else Step(s', Fail(DeliveryFailed))
  }

  /** After a signup that passed validation exactly one user has the email,
      and it has the username; a second signup with the same pair changes
      nothing, and each delivered mail goes to the email with a code that
      checks for that same user. */
  lemma SignupIsIdempotent(s: Store, email: string, username: string, d1: bool, d2: bool)
    requires Valid(s) && ValidateSignup(s, email, username).Ok?
    ensures var st1 := SignupRequest(s, email, username, d1);
      var s1 := st1.store;
      var st2 := SignupRequest(s1, email, username, d2);
      && (forall j, k :: j in s1.users && k in s1.users && s1.users[j].email == email && s1.users[k].email == email ==> j == k)
      && st2.store == s1
      && (st2.result.Ok? <==> d2)
      && (forall k :: k in s1.users && s1.users[k].email == email ==>
            && s1.users[k].username == username
            && (d1 ==> CheckToken(k, s1.users[k], st1.result.value.code))
            && (d2 ==> st2.result.value.recipient == email && CheckToken(k, s1.users[k], st2.result.value.code)))
  {
    var s1 := SignupRequest(s, email, username, d1).store;
    assert Registered(s1, email, username);
    var k :| k in s1.users && s1.users[k].email == email && s1.users[k].username == username;
    assert EmailInUse(s1, email) && UsernameInUse(s1, username);
    assert ValidateSignup(s1, email, username).Ok?;
    assert UserWithEmail(s1, email) == Some(k);
    var (s0', k0) := GetOrCreate(s, email, username);
    assert s0' == s1;
    assert k0 == k;
  }

  /** The store with user `k` marked active. */
  function Activate(s: Store, k: UserId): (s': Store)
    requires k in s.users
    ensures s'.users.Keys == s.users.Keys && s'.users[k].isActive
    ensures s'.users[k].(isActive := s.users[k].isActive) == s.users[k]
    ensures forall j :: j in s.users && j != k ==> s'.users[j] == s.users[j]
    ensures s' == s.(users := s'.users)
  {
    s.(users := s.users[k := s.users[k].(isActive := true)])
  }

  lemma ActivateIsIdempotent(s: Store, k: UserId)
    requires k in s.users
    ensures Activate(Activate(s, k), k) == Activate(s, k)
  {
    assert Activate(Activate(s, k), k).users == Activate(s, k).users;
  }

  /** Activation touches no unique column and no key. */
  lemma ActivationKeepsValid(s: Store, k: UserId)
    requires Valid(s) && k in s.users
    ensures Valid(Activate(s, k))
  {
    ReplaceUserKeepsValid(s, k, s.users[k].(isActive := true));
  }

  /** The username field of the confirmation serializers, a CharField of at
      most 150 characters: a blank or longer username is a field error,
      raised before `validate` runs. */
  function CheckConfirmUsername(username: string): (r: Result<string>)
    ensures r.Ok? <==> 0 < |username| <= MaxUsernameLength
    ensures username == "" ==> r == Fail(Invalid(Blank))
    ensures |username| > MaxUsernameLength ==> r == Fail(Invalid(TooLong))
    ensures r.Ok? ==> r.value == username
  {
    if username == "" then Fail(Invalid(Blank))
    else if |username| > MaxUsernameLength then Fail(Invalid(TooLong))
    else Ok(username)
  }

  /** `UserTokenSerializer`: a blank or over-long username and a blank code
      are field errors; then `validate` answers not found for an unknown
      username and refuses a code that does not check, changing nothing; the
      right code activates the user and yields an access token for it. */
  function ConfirmRequest(s: Store, username: string, code: Code): (st: Step<AccessToken>)
    requires Valid(s)
    ensures Valid(st.store)
    ensures st.result.Fail? ==> st.store == s
    ensures username == "" ==> st == Step(s, Fail(Invalid(Blank)))
    ensures |username| > MaxUsernameLength ==> st == Step(s, Fail(Invalid(TooLong)))
    ensures 0 < |username| <= MaxUsernameLength && code == EmptyCode ==> st == Step(s, Fail(Invalid(Blank)))
    ensures 0 < |username| <= MaxUsernameLength && code != EmptyCode && !UsernameInUse(s, username) ==>
      st == Step(s, Fail(NotFound))
    ensures st.result.Ok? <==>
      && 0 < |username| <= MaxUsernameLength
      && exists k :: k in s.users && s.users[k].username == username && CheckToken(k, s.users[k], code)
    ensures 0 < |username| <= MaxUsernameLength && code != EmptyCode && UsernameInUse(s, username) && st.result.Fail? ==>
      st.result.failure == Invalid(BadCode)
    ensures st.result.Ok? ==>
      var k := st.result.value.user;
      && k in s.users && s.users[k].username == username
      && st.store == Activate(s, k)
  {
    match CheckConfirmUsername(username)
    case Fail(f) => Step(s, Fail(f))
    case Ok(_) =>
      if code == EmptyCode then Step(s, Fail(Invalid(Blank)))
      else match UserNamed(s, username)
      case None => Step(s, Fail(NotFound))
      case Some(k) =>
        if !CheckToken(k, s.users[k], code) then Step(s, Fail(Invalid(BadCode)))
        else
          ActivationKeepsValid(s, k);
          Step(Activate(s, k), Ok(IssueToken(k)))
  }

  /** The code a signup mails confirms the user it registered. */
  lemma SignupCodeConfirms(s: Store, email: string, username: string)
    requires Valid(s)
    requires SignupRequest(s, email, username, true).result.Ok?
    ensures var st := SignupRequest(s, email, username, true);
      var c := ConfirmRequest(st.store, username, st.result.value.code);
      && c.result.Ok?
      && exists k :: k in c.store.users && c.store.users[k].username == username && c.store.users[k].isActive
  {
  }

  /** Confirming user `k` with a code that checks activates it. */
  lemma ConfirmWithCheckingCode(s: Store, k: UserId, code: Code)
    requires Valid(s) && k in s.users && CheckToken(k, s.users[k], code)
    ensures ConfirmRequest(s, s.users[k].username, code) == Step(Activate(s, k), Ok(IssueToken(k)))
  {
    UserNamedIsUnique(s, s.users[k].username, k);
  }

  /** The code does not depend on the active flag, so confirming again with
      the code that activated a user succeeds again and changes nothing
      further. */
  lemma ReconfirmationSucceeds(s: Store, k: UserId, code: Code)
    requires Valid(s) && k in s.users && CheckToken(k, s.users[k], code)
    ensures var s1 := Activate(s, k);
      && ConfirmRequest(s, s.users[k].username, code) == Step(s1, Ok(IssueToken(k)))
      && ConfirmRequest(s1, s.users[k].username, code) == Step(s1, Ok(IssueToken(k)))
  {
    var s1 := Activate(s, k);
    ConfirmWithCheckingCode(s, k, code);
    ActivationKeepsValid(s, k);
    ConfirmWithCheckingCode(s1, k, code);
    ActivateIsIdempotent(s, k);
  }
}
