/** An abstract, in-memory stand-in for the user, role and sign-in managers
    the service calls. It keeps the set of role names, the user records keyed
    by username, the user-role membership relation and the next id to hand
    out, and it follows these rules: creating a user fails on a taken
    username or when the store's validators reject the user or password,
    creating a role fails on a taken name, and adding a role the user already
    holds, a role that does not exist or a user that does not exist changes
    nothing. */
module IdentityStore {
  import opened Wrappers
  import opened Time

  /** The application's user record. `id` is 0 until the store saves it. */
  datatype User = User(
    id: nat,
    userName: string,
    email: string,
    enabled: bool,
    emailConfirmed: bool,
    dob: DateTime)

  datatype Membership = Membership(userName: string, roleName: string)

  datatype Store = Store(
    roles: set<string>,
    users: map<string, User>,
    memberships: set<Membership>,
    nextId: nat)

  datatype IdentityError =
    | DuplicateRoleName
    | DuplicateUserName
    | ValidationFailed
    | RoleNotFound
    | UserNotFound
    | UserAlreadyInRole

  datatype IdentityResult = Succeeded | Failed(error: IdentityError)

  /** The store after a call, together with what the call reported. */
  datatype Step<+T> = Step(store: Store, result: T)

  /** The store's user and password validators, which the model does not look into. */
  type Validator = (User, string) -> bool

  /** A store with nothing in it; database ids start at 1. */
  const Empty: Store := Store({}, map[], {}, 1)

  /** The store's consistency rules: users are keyed by their own username,
      saved ids are positive, distinct and below `nextId` (itself positive), and memberships
      refer to existing users and roles. */
  ghost predicate Valid(s: Store)
  {
    && 1 <= s.nextId
    && (forall k :: k in s.users ==> s.users[k].userName == k)
    && (forall k :: k in s.users ==> 1 <= s.users[k].id < s.nextId)
    && (forall a, b :: a in s.users && b in s.users && a != b ==> s.users[a].id != s.users[b].id)
    && (forall m :: m in s.memberships ==> m.userName in s.users && m.roleName in s.roles)
  }

  lemma EmptyIsValid()
    ensures Valid(Empty)
  {
  }

  /** The names of the roles `userName` holds. */
  function RolesOf(s: Store, userName: string): (rs: set<string>)
    ensures forall r :: r in rs <==> Membership(userName, r) in s.memberships
  {
    set m | m in s.memberships && m.userName == userName :: m.roleName
  }

  /** `RoleManager.CreateAsync`: adds a role unless its name is taken. */
  function CreateRole(s: Store, name: string): (r: Step<IdentityResult>)
    ensures r.result.Succeeded? <==> name !in s.roles
    ensures r.result.Failed? ==> r.store == s && r.result.error == DuplicateRoleName
    ensures r.store.roles == s.roles + {name}
    ensures r.store.users == s.users && r.store.memberships == s.memberships
    ensures r.store.nextId == s.nextId
  {
    if name in s.roles then Step(s, Failed(DuplicateRoleName))
    else Step(s.(roles := s.roles + {name}), Succeeded)
  }

  /** `UserManager.CreateAsync`: saves `draft` under its username with a fresh
      id, unless the validators reject it or the username is taken. The
      validators are consulted first, so a rejected request reports a
      validation failure even when the name is also taken. On success the
      result is the saved record. */
  function CreateUser(s: Store, draft: User, password: string, accepts: Validator): (r: Step<Result<User, IdentityError>>)
    ensures r.result.Ok? <==> draft.userName !in s.users && accepts(draft, password)
    ensures r.result.Err? ==> r.store == s
    ensures !accepts(draft, password) ==> r.result == Err(ValidationFailed)
    ensures accepts(draft, password) && draft.userName in s.users ==> r.result == Err(DuplicateUserName)
    ensures r.result.Ok? ==>
      && r.result.value == draft.(id := s.nextId)
      && r.store.users == s.users[draft.userName := r.result.value]
      && r.store.nextId == s.nextId + 1
      && r.store.roles == s.roles && r.store.memberships == s.memberships
  {
    if !accepts(draft, password) then Step(s, Err(ValidationFailed))
    else if draft.userName in s.users then Step(s, Err(DuplicateUserName))
    else
      var saved := draft.(id := s.nextId);
      Step(s.(users := s.users[draft.userName := saved], nextId := s.nextId + 1), Ok(saved))
  }

  /** `UserManager.AddToRoleAsync`: records that `userName` holds `roleName`.
      A missing user, a missing role or an existing membership leaves the
      store as it was. */
  function AddToRole(s: Store, userName: string, roleName: string): (r: Step<IdentityResult>)
    ensures r.result.Succeeded? <==>
      userName in s.users && roleName in s.roles && Membership(userName, roleName) !in s.memberships
    ensures r.store.roles == s.roles && r.store.users == s.users && r.store.nextId == s.nextId
    ensures r.store.memberships ==
      if userName in s.users && roleName in s.roles then s.memberships + {Membership(userName, roleName)}
      else s.memberships
  {
    if userName !in s.users then Step(s, Failed(UserNotFound))
    else if roleName !in s.roles then Step(s, Failed(RoleNotFound))
    else if Membership(userName, roleName) in s.memberships then Step(s, Failed(UserAlreadyInRole))
    else Step(s.(memberships := s.memberships + {Membership(userName, roleName)}), Succeeded)
  }

  lemma CreateRolePreservesValid(s: Store, name: string)
    requires Valid(s)
    ensures Valid(CreateRole(s, name).store)
  {
  }

  lemma CreateUserPreservesValid(s: Store, draft: User, password: string, accepts: Validator)
    requires Valid(s)
    ensures Valid(CreateUser(s, draft, password, accepts).store)
  {
  }

  lemma AddToRolePreservesValid(s: Store, userName: string, roleName: string)
    requires Valid(s)
    ensures Valid(AddToRole(s, userName, roleName).store)
  {
  }

  /** Adding a membership twice has the effect of adding it once. */
  lemma AddToRoleIdempotent(s: Store, userName: string, roleName: string)
    ensures var once := AddToRole(s, userName, roleName).store;
            AddToRole(once, userName, roleName).store == once
  {
  }

  /** `UserManager.GetRolesAsync`: the names of the roles the user holds, each
      once, in an order the store chooses. */
  method GetRolesAsync(s: Store, userName: string) returns (roles: seq<string>)
    ensures Elements(roles) == RolesOf(s, userName)
    ensures NoDuplicates(roles)
    ensures |roles| == |RolesOf(s, userName)|
  {
    roles := Enumerate(RolesOf(s, userName));
  }
}
