/** The authentication service: registration, bootstrap seeding of the
    default roles and accounts, and the login flow that classifies an attempt
    and issues a token. Every operation is a sequential transition over the
    abstract identity store; the sign-in check, the validators, the clock,
    the GUID generator and the culture formatting arrive as parameters. */
module UserService {
  import opened Wrappers
  import opened Time
  import opened IdentityStore
  import opened Claims
  import Numerals

  /** The role every registered user is given. */
  const DefaultRole: string := "User"

  /** The role of the seeded administrator account. */
  const AdminRole: string := "Administrator"

  // ---------------------------------------------------------------- Registration

  datatype RegisterRequest = RegisterRequest(userName: string, email: string, password: string, dob: DateTime)

  /** The record registration builds from a request before the store saves it:
      enabled, with its email already confirmed, and not yet given an id. */
  function RegistrationDraft(req: RegisterRequest): (u: User)
    ensures u.id == 0
    ensures u.userName == req.userName && u.email == req.email && u.dob == req.dob
    ensures u.enabled && u.emailConfirmed
  {
    User(0, req.userName, req.email, true, true, req.dob)
  }

  /** Creates the user, then, as a second and separate step, gives it the
      default role. The returned record is the saved one when creation
      succeeded and the unsaved draft (id 0) when it did not. */
  function RegisterAsync(s: Store, req: RegisterRequest, accepts: Validator): (r: Step<User>)
    ensures r.result.userName == req.userName && r.result.email == req.email && r.result.dob == req.dob
    ensures r.result.enabled && r.result.emailConfirmed
    ensures r.store.roles == s.roles
  {
    var draft := RegistrationDraft(req);
    var created := CreateUser(s, draft, req.password, accepts);
    match created.result
    case Ok(saved) => Step(AddToRole(created.store, saved.userName, DefaultRole).store, saved)
    case Err(_) => Step(created.store, draft)
  }

  lemma RegisterPreservesValid(s: Store, req: RegisterRequest, accepts: Validator)
    requires Valid(s)
    ensures Valid(RegisterAsync(s, req, accepts).store)
  {
    var created := CreateUser(s, RegistrationDraft(req), req.password, accepts);
    CreateUserPreservesValid(s, RegistrationDraft(req), req.password, accepts);
    if created.result.Ok? {
      AddToRolePreservesValid(created.store, created.result.value.userName, DefaultRole);
    }
  }

  /** A new username is saved with the request's data and a fresh id, and
      the new user holds the default role exactly when that role exists;
      nothing else in the store changes. */
  lemma RegisterNewUser(s: Store, req: RegisterRequest, accepts: Validator)
    requires req.userName !in s.users && accepts(RegistrationDraft(req), req.password)
    ensures var r := RegisterAsync(s, req, accepts);
      && r.result == RegistrationDraft(req).(id := s.nextId)
      && r.store.users == s.users[req.userName := r.result]
      && r.store.nextId == s.nextId + 1
      && r.store.roles == s.roles
      && r.store.memberships ==
           s.memberships + (if DefaultRole in s.roles then {Membership(req.userName, DefaultRole)} else {})
      && (Valid(s) ==> RolesOf(r.store, req.userName) == (if DefaultRole in s.roles then {DefaultRole} else {}))
  {
    var r := RegisterAsync(s, req, accepts);
    if Valid(s) {
      assert RolesOf(s, req.userName) == {};
    }
  }

  /** A taken username leaves the store exactly as it was and hands back the
      unsaved draft. */
  lemma RegisterTakenUserName(s: Store, req: RegisterRequest, accepts: Validator)
    requires req.userName in s.users
    ensures RegisterAsync(s, req, accepts) == Step(s, RegistrationDraft(req))
  {
  }

  /** A request the validators reject leaves the store exactly as it was. */
  lemma RegisterRejected(s: Store, req: RegisterRequest, accepts: Validator)
    requires !accepts(RegistrationDraft(req), req.password)
    ensures RegisterAsync(s, req, accepts) == Step(s, RegistrationDraft(req))
  {
  }

  /** The two steps are not atomic: when the default role does not exist,
      registration still saves the user, who then holds no role at all. */
  lemma RegisterWithoutDefaultRole(req: RegisterRequest, accepts: Validator)
    requires accepts(RegistrationDraft(req), req.password)
    ensures var r := RegisterAsync(Empty, req, accepts);
      && req.userName in r.store.users
      && r.result.id == 1
      && RolesOf(r.store, req.userName) == {}
  {
    RegisterNewUser(Empty, req, accepts);
  }

  // ---------------------------------------------------------------- Bootstrap

  const AdminPassword: string := "Admin_123"
  const UserPassword: string := "User_123"

  /** The seeded administrator account, before it is saved. */
  const AdminAccount: User := User(0, "admin", "admin@mik.uni-pannon.hu", true, true, FromCalendar(1988, 5, 19))

  /** The seeded ordinary account, before it is saved. */
  const UserAccount: User := User(0, "user", "user@mik.uni-pannon.hu", true, true, FromCalendar(2005, 10, 17))

  /** One seeding branch: when `roleName` is missing, create it; when that
      succeeds, create `account`; when that succeeds, give the account the
      role. Every failure along the way is ignored. */
  function SeedRole(s: Store, roleName: string, account: User, password: string, accepts: Validator): (r: Store)
    ensures var creates := roleName !in s.roles && account.userName !in s.users && accepts(account, password);
      && r.roles == s.roles + {roleName}
      && r.users == (if creates then s.users[account.userName := account.(id := s.nextId)] else s.users)
      && r.nextId == (if creates then s.nextId + 1 else s.nextId)
      && r.memberships ==
           (if creates then s.memberships + {Membership(account.userName, roleName)} else s.memberships)
  {
    if roleName in s.roles then s
    else
      var role := CreateRole(s, roleName);
      if role.result.Failed? then role.store
      else
        var created := CreateUser(role.store, account, password, accepts);
        match created.result
        case Ok(saved) => AddToRole(created.store, saved.userName, roleName).store
        case Err(_) => created.store
  }

  lemma SeedRolePreservesValid(s: Store, roleName: string, account: User, password: string, accepts: Validator)
    requires Valid(s)
    ensures Valid(SeedRole(s, roleName, account, password, accepts))
  {
    if roleName !in s.roles {
      var role := CreateRole(s, roleName);
      CreateRolePreservesValid(s, roleName);
      var created := CreateUser(role.store, account, password, accepts);
      CreateUserPreservesValid(role.store, account, password, accepts);
      if created.result.Ok? {
        AddToRolePreservesValid(created.store, created.result.value.userName, roleName);
      }
    }
  }

  /** Seeds the administrator role and account, then the default role and
      its account, then gives the administrator account the default role
      when that account exists. */
  function InitAsync(s: Store, accepts: Validator): (r: Store)
    ensures r.roles == s.roles + {AdminRole, DefaultRole}
  {
    var withUser := SeededBoth(s, accepts);
    if "admin" in withUser.users then AddToRole(withUser, "admin", DefaultRole).store else withUser
  }

  /** Bootstrap keeps the store consistent; in particular it ends consistent
      when it starts from an empty store. */
  lemma InitPreservesValid(s: Store, accepts: Validator)
    requires Valid(s)
    ensures Valid(InitAsync(s, accepts))
  {
    SeedRolePreservesValid(s, AdminRole, AdminAccount, AdminPassword, accepts);
    var withAdmin := SeededAdmin(s, accepts);
    SeedRolePreservesValid(withAdmin, DefaultRole, UserAccount, UserPassword, accepts);
    AddToRolePreservesValid(SeededBoth(s, accepts), "admin", DefaultRole);
  }

  /** Bootstrap creates the administrator account exactly when its role is
      missing, the username is free and the validators accept it. */
  predicate CreatesAdmin(s: Store, accepts: Validator)
  {
    AdminRole !in s.roles && "admin" !in s.users && accepts(AdminAccount, AdminPassword)
  }

  /** Bootstrap creates the ordinary account exactly when its role is
      missing, the username is free and the validators accept it. */
  predicate CreatesUser(s: Store, accepts: Validator)
  {
    DefaultRole !in s.roles && "user" !in s.users && accepts(UserAccount, UserPassword)
  }

  /** The stores after each of the two seeding branches. */
  function SeededAdmin(s: Store, accepts: Validator): Store
  {
    SeedRole(s, AdminRole, AdminAccount, AdminPassword, accepts)
  }

  function SeededBoth(s: Store, accepts: Validator): Store
  {
    SeedRole(SeededAdmin(s, accepts), DefaultRole, UserAccount, UserPassword, accepts)
  }

  /** The second branch creates its account under the same condition,
      evaluated on the starting store, since the first branch touches
      neither the "User" role nor the "user" account. */
  lemma SeededBothCreatesUser(s: Store, accepts: Validator)
    ensures var withAdmin := SeededAdmin(s, accepts);
      CreatesUser(s, accepts) <==>
        DefaultRole !in withAdmin.roles && "user" !in withAdmin.users && accepts(UserAccount, UserPassword)
    ensures SeededAdmin(s, accepts).nextId == s.nextId + (if CreatesAdmin(s, accepts) then 1 else 0)
  {
  }

  /** Bootstrap's effect on the users: the existing ones are untouched and
      each default account is added exactly when it is created. */
  lemma InitUsers(s: Store, accepts: Validator)
    ensures var r := InitAsync(s, accepts);
      var admin := CreatesAdmin(s, accepts);
      var user := CreatesUser(s, accepts);
      && r.users.Keys == s.users.Keys + (if admin then {"admin"} else {}) + (if user then {"user"} else {})
      && (forall k :: k in s.users ==> r.users[k] == s.users[k])
      && (admin ==> r.users["admin"] == AdminAccount.(id := s.nextId))
      && (user ==> r.users["user"] == UserAccount.(id := s.nextId + (if admin then 1 else 0)))
      && r.nextId == s.nextId + (if admin then 1 else 0) + (if user then 1 else 0)
  {
    var admin := CreatesAdmin(s, accepts);
    var a := AdminAccount.(id := s.nextId);
    var u := UserAccount.(id := s.nextId + (if admin then 1 else 0));
    SeededBothUsers(s, accepts);
    SeededUsers(s.users, InitAsync(s, accepts).users, admin, CreatesUser(s, accepts), a, u);
  }

  /** The users and the next id after both seeding branches, as map updates
      of the starting store's. */
  lemma SeededBothUsers(s: Store, accepts: Validator)
    ensures var admin := CreatesAdmin(s, accepts);
      var withAdmin := if admin then s.users["admin" := AdminAccount.(id := s.nextId)] else s.users;
      var u := UserAccount.(id := s.nextId + (if admin then 1 else 0));
      && InitAsync(s, accepts).users == (if CreatesUser(s, accepts) then withAdmin["user" := u] else withAdmin)
      && InitAsync(s, accepts).nextId ==
           s.nextId + (if admin then 1 else 0) + (if CreatesUser(s, accepts) then 1 else 0)
  {
    SeededBothCreatesUser(s, accepts);
    assert InitAsync(s, accepts).users == SeededBoth(s, accepts).users;
    assert InitAsync(s, accepts).nextId == SeededBoth(s, accepts).nextId;
  }

  lemma SeededUsers(users: map<string, User>, seeded: map<string, User>, admin: bool, user: bool, a: User, u: User)
    requires admin ==> "admin" !in users
    requires user ==> "user" !in users
    requires seeded ==
      var withAdmin := if admin then users["admin" := a] else users;
      if user then withAdmin["user" := u] else withAdmin
    ensures seeded.Keys == users.Keys + (if admin then {"admin"} else {}) + (if user then {"user"} else {})
    ensures forall k :: k in users ==> seeded[k] == users[k]
    ensures admin ==> seeded["admin"] == a
    ensures user ==> seeded["user"] == u
  {
  }

  /** Bootstrap's effect on the memberships: each created account holds its
      role, and the administrator account, if there is one, holds "User". */
  lemma InitMemberships(s: Store, accepts: Validator)
    ensures var r := InitAsync(s, accepts);
      r.memberships ==
        s.memberships
        + (if CreatesAdmin(s, accepts) then {Membership("admin", AdminRole)} else {})
        + (if CreatesUser(s, accepts) then {Membership("user", DefaultRole)} else {})
        + (if "admin" in r.users then {Membership("admin", DefaultRole)} else {})
  {
    SeededBothCreatesUser(s, accepts);
    var both := SeededBoth(s, accepts);
    assert both.memberships ==
      s.memberships
      + (if CreatesAdmin(s, accepts) then {Membership("admin", AdminRole)} else {})
      + (if CreatesUser(s, accepts) then {Membership("user", DefaultRole)} else {});
    assert InitAsync(s, accepts).users == both.users;
  }

  /** The whole effect of bootstrap, stated in terms of the store it starts
      from: both roles exist afterwards; an account is added only when its
      role was missing and its creation succeeded, and then it holds that
      role; existing users are untouched; and the administrator account, if
      there is one, holds the default role. */
  lemma InitEffect(s: Store, accepts: Validator)
    ensures var r := InitAsync(s, accepts);
      var admin := CreatesAdmin(s, accepts);
      var user := CreatesUser(s, accepts);
      && r.roles == s.roles + {AdminRole, DefaultRole}
      && r.users.Keys == s.users.Keys + (if admin then {"admin"} else {}) + (if user then {"user"} else {})
      && (forall k :: k in s.users ==> r.users[k] == s.users[k])
      && (admin ==> r.users["admin"] == AdminAccount.(id := s.nextId))
      && (user ==> r.users["user"] == UserAccount.(id := s.nextId + (if admin then 1 else 0)))
      && r.nextId == s.nextId + (if admin then 1 else 0) + (if user then 1 else 0)
      && r.memberships ==
           s.memberships
           + (if admin then {Membership("admin", AdminRole)} else {})
           + (if user then {Membership("user", DefaultRole)} else {})
           + (if "admin" in r.users then {Membership("admin", DefaultRole)} else {})
  {
    InitUsers(s, accepts);
    InitMemberships(s, accepts);
  }

  /** From an empty store whose validators accept both seeded accounts,
      bootstrap ends with the two roles, the two accounts, the administrator
      holding both roles and the ordinary account holding the default one. */
  lemma InitFromEmpty(accepts: Validator)
    requires accepts(AdminAccount, AdminPassword) && accepts(UserAccount, UserPassword)
    ensures var r := InitAsync(Empty, accepts);
      && r.roles == {AdminRole, DefaultRole}
      && r.users == map["admin" := AdminAccount.(id := 1), "user" := UserAccount.(id := 2)]
      && r.memberships ==
           {Membership("admin", AdminRole), Membership("admin", DefaultRole), Membership("user", DefaultRole)}
      && RolesOf(r, "admin") == {AdminRole, DefaultRole}
      && RolesOf(r, "user") == {DefaultRole}
  {
    var admin := AdminAccount.(id := 1);
    var user := UserAccount.(id := 2);
    var withAdmin := SeedRole(Empty, AdminRole, AdminAccount, AdminPassword, accepts);
    assert withAdmin == Store({AdminRole}, map["admin" := admin], {Membership("admin", AdminRole)}, 2);
    var withUser := SeedRole(withAdmin, DefaultRole, UserAccount, UserPassword, accepts);
    assert withUser == Store({AdminRole, DefaultRole}, map["admin" := admin, "user" := user],
                             {Membership("admin", AdminRole), Membership("user", DefaultRole)}, 3);
    var r := InitAsync(Empty, accepts);
    assert r == AddToRole(withUser, "admin", DefaultRole).store;
    assert RolesOf(r, "admin") == {AdminRole, DefaultRole};
    assert RolesOf(r, "user") == {DefaultRole};
  }

  /** Running bootstrap on the store it produced changes nothing. */
  lemma InitIdempotent(s: Store, accepts: Validator)
    ensures InitAsync(InitAsync(s, accepts), accepts) == InitAsync(s, accepts)
  {
    var once := InitAsync(s, accepts);
    InitEffect(s, accepts);
    InitEffect(once, accepts);
  }

  /** Bootstrap run `n` times in a row. */
  function InitRepeated(s: Store, accepts: Validator, n: nat): Store
    decreases n
  {
    if n == 0 then s else InitRepeated(InitAsync(s, accepts), accepts, n - 1)
  }

  /** Any positive number of bootstrap runs has the effect of one. */
  lemma {:induction false} InitRepeatedIsInitOnce(s: Store, accepts: Validator, n: nat)
    requires n >= 1
    ensures InitRepeated(s, accepts, n) == InitAsync(s, accepts)
    decreases n
  {
    if n > 1 {
      InitRepeatedIsInitOnce(InitAsync(s, accepts), accepts, n - 1);
      InitIdempotent(s, accepts);
    }
  }

  // ---------------------------------------------------------------- Login

  datatype LoginRequest = LoginRequest(userName: string, password: string)

  datatype LoginResponse = LoginResponse(token: JwtToken)

  /** The three reasons a login attempt is refused. */
  datatype LoginError = InvalidLoginAttempt | UserDisabled | LoginFailed

  /** The message of the exception each refusal is raised with. */
  function Message(e: LoginError): (m: string)
    ensures m == "INVALID_LOGIN_ATTEMPT" <==> e == InvalidLoginAttempt
    ensures m == "USER_DISABLED" <==> e == UserDisabled
    ensures m == "LOGIN_FAILED" <==> e == LoginFailed
  {
    match e
    case InvalidLoginAttempt => "INVALID_LOGIN_ATTEMPT"
    case UserDisabled => "USER_DISABLED"
    case LoginFailed => "LOGIN_FAILED"
  }

  /** The caller tells the refusals apart by their messages. */
  lemma MessageInjective(a: LoginError, b: LoginError)
    ensures Message(a) == Message(b) <==> a == b
  {
  }

  /** The sign-in manager's password check for a username and password
      (hash comparison and lockout, which the model does not look into). */
  type SignInCheck = (string, string) -> bool

  datatype Verdict = Authenticated(user: User) | Rejected(reason: LoginError)

  /** The login classifier: does the user exist, is it enabled, does the
      password check pass, asked in that order. */
  function Authenticate(s: Store, req: LoginRequest, signIn: SignInCheck): (v: Verdict)
    ensures v.Authenticated? <==>
      req.userName in s.users && s.users[req.userName].enabled && signIn(req.userName, req.password)
    ensures v.Authenticated? ==> v.user == s.users[req.userName]
    ensures v == Rejected(InvalidLoginAttempt) <==> req.userName !in s.users
    ensures v == Rejected(UserDisabled) <==> req.userName in s.users && !s.users[req.userName].enabled
    ensures v == Rejected(LoginFailed) <==>
      req.userName in s.users && s.users[req.userName].enabled && !signIn(req.userName, req.password)
  {
    if req.userName in s.users then
      var user := s.users[req.userName];
      if user.enabled then
        if signIn(req.userName, req.password) then Authenticated(user) else Rejected(LoginFailed)
      else Rejected(UserDisabled)
    else Rejected(InvalidLoginAttempt)
  }

  /** In a consistent store, looking the username up by key finds the same
      record as searching the users for the first one with that username. */
  lemma LookupFindsMatchingUser(s: Store, name: string)
    requires Valid(s)
    ensures name in s.users <==> exists k :: k in s.users && s.users[k].userName == name
    ensures forall k :: k in s.users && s.users[k].userName == name ==> s.users[k] == s.users[name]
  {
  }

  /** A disabled account is refused as disabled whatever the password and
      whatever the password check would say: the check is not consulted. */
  lemma DisabledIgnoresPassword(s: Store, req: LoginRequest, password: string, signIn: SignInCheck, other: SignInCheck)
    requires req.userName in s.users && !s.users[req.userName].enabled
    ensures Authenticate(s, req, signIn) == Rejected(UserDisabled)
    ensures Authenticate(s, req.(password := password), other) == Authenticate(s, req, signIn)
  {
  }

  /** The password check is consulted, if at all, only about the requested
      username and password. */
  lemma SignInAskedOnlyAboutRequest(s: Store, req: LoginRequest, signIn: SignInCheck, other: SignInCheck)
    requires signIn(req.userName, req.password) == other(req.userName, req.password)
    ensures Authenticate(s, req, signIn) == Authenticate(s, req, other)
  {
  }

  /** `t` is the token issued for `user` of store `s`: fixed issuer and
      audience, expiry 30 days after the clock reading, and claims a reader
      decodes to the user's id, date of birth, username and email, the
      session value, the authentication time and exactly the user's roles. */
  ghost predicate IsTokenFor(t: JwtToken, s: Store, user: User, ctx: IssueContext, fmt: Formats)
  {
    && t.issuer == Issuer && t.audience == Issuer
    && t.expires == AddDays(ctx.expiryClock, ExpiryDays)
    && ValueOf(t.claims, NameIdentifier) == Some(Numerals.NatToString(user.id))
    && ValueOf(t.claims, DateOfBirth) == Some(fmt.currentCulture(user.dob))
    && ValueOf(t.claims, Name) == Some(user.userName)
    && ValueOf(t.claims, Email) == Some(user.email)
    && ValueOf(t.claims, Sid) == Some(ctx.sessionId)
    && ValueOf(t.claims, AuthTime) == Some(fmt.invariantCulture(ctx.authClock))
    && Elements(RolesIn(t.claims)) == RolesOf(s, user.userName)
    && NoDuplicates(RolesIn(t.claims))
    && |t.claims| == 6 + |RolesOf(s, user.userName)|
  }

  /** Lists the user's roles, assembles the claim list and wraps it in a
      token with the fixed issuer and audience and a 30-day expiry. */
  method GenerateJwtToken(s: Store, user: User, ctx: IssueContext, fmt: Formats) returns (t: JwtToken)
    ensures IsTokenFor(t, s, user, ctx, fmt)
  {
    var expires := AddDays(ctx.expiryClock, ExpiryDays);
    var roles := GetRolesAsync(s, user.userName);
    var claims := GetClaimsIdentity(user, roles, ctx, fmt);
    ClaimsReadBack(user, roles, ctx, fmt);
    t := JwtToken(Issuer, Issuer, claims, expires);
  }

  /** A login attempt: a token for the stored user when the classifier
      authenticates it, and the classifier's reason otherwise. */
  method LoginAsync(s: Store, req: LoginRequest, signIn: SignInCheck, ctx: IssueContext, fmt: Formats)
    returns (r: Result<LoginResponse, LoginError>)
    ensures r.Ok? <==>
      req.userName in s.users && s.users[req.userName].enabled && signIn(req.userName, req.password)
    ensures r.Ok? ==> IsTokenFor(r.value.token, s, s.users[req.userName], ctx, fmt)
    ensures r == Err(InvalidLoginAttempt) <==> req.userName !in s.users
    ensures r == Err(UserDisabled) <==> req.userName in s.users && !s.users[req.userName].enabled
    ensures r == Err(LoginFailed) <==>
      req.userName in s.users && s.users[req.userName].enabled && !signIn(req.userName, req.password)
  {
    match Authenticate(s, req, signIn)
    case Rejected(reason) =>
      r := Err(reason);
    case Authenticated(user) =>
      var token := GenerateJwtToken(s, user, ctx, fmt);
      r := Ok(LoginResponse(token));
  }

  /** A user registered as "alice" with password "pw1" is authenticated with
      that password, holding the default role, and refused with "wrong",
      given a password check that accepts exactly the registered password. */
  lemma RegisterThenLogin(s: Store, accepts: Validator, dob: DateTime, signIn: SignInCheck)
    requires Valid(s) && DefaultRole in s.roles && "alice" !in s.users
    requires accepts(RegistrationDraft(RegisterRequest("alice", "alice@example.org", "pw1", dob)), "pw1")
    requires signIn("alice", "pw1") && !signIn("alice", "wrong")
    ensures var r := RegisterAsync(s, RegisterRequest("alice", "alice@example.org", "pw1", dob), accepts);
      && Authenticate(r.store, LoginRequest("alice", "pw1"), signIn) == Authenticated(r.result)
      && RolesOf(r.store, "alice") == {DefaultRole}
      && Authenticate(r.store, LoginRequest("alice", "wrong"), signIn) == Rejected(LoginFailed)
  {
    RegisterNewUser(s, RegisterRequest("alice", "alice@example.org", "pw1", dob), accepts);
  }
}
