# Authentication service model

A Dafny model of the `UserService` of an ASP.NET Core event application
(`netcore_gyakorlas/Services/UserService.cs`). The service registers users,
seeds the "Administrator" and "User" roles with one default account each at
start-up, classifies login attempts, and issues a JWT whose claims describe
the user and their roles.

The model replaces ASP.NET Identity's user, role and sign-in managers with an
immutable in-memory store (`IdentityStore.Store`). The store holds a set of
role names, a map from username to user record, a set of (username, role)
memberships and the next database id. It follows these rules:

- creating a user fails when the username is taken or the validators reject it;
- creating a role fails when the name is taken;
- adding a membership that already exists, or one whose role or user is
  missing, leaves the store unchanged.

`IdentityStore.Valid` states the store's consistency rules, and a lemma per
operation shows that the operation preserves it. Every operation is a pure function, or a method when
the store picks an order, from the store and its inputs to the new store and
a result. Login refusals are modelled as a `Result` error instead of thrown
exceptions, and `UserService.Message` gives each refusal's exception message.

Collaborators the model cannot see become parameters:

- the sign-in manager's password check (`SignInCheck`);
- the store's user and password validators (`Validator`);
- the two `DateTime.Now` readings and the `Guid.NewGuid()` text (`IssueContext`);
- the culture-dependent `DateTime.ToString` renderings (`Formats`).

Files:

- `wrappers.dfy`: `Option` and `Result`.
- `numerals.dfy`: `int.ToString()` for ids, with the parse that reads the text back.
- `time.dfy`: `DateTime` as a count of .NET ticks.
- `identity_store.dfy`: the store.
- `claims.dfy`: the claim list and the token record.
- `user_service.dfy`: registration, bootstrap and login.

Two behaviours of the code worth noting:

- Registering a taken username raises no error. `RegisterAsync` returns the unsaved user object, whose id is 0.
- The expiry and the authentication-time claim come from two separate clock readings.

## Model

| member | source | states |
|---|---|---|
| `Numerals.NatToString` | netcore_gyakorlas/Services/UserService.cs:166 | the id text is a non-empty string of decimal digits with no leading zero |
| `Numerals.ParseNatToString` | netcore_gyakorlas/Services/UserService.cs:166 | reading the id claim's text back as a number gives the id |
| `Numerals.NatToStringInjective` | netcore_gyakorlas/Services/UserService.cs:166 | two users have the same id claim exactly when they have the same id |
| `Time.FromCalendar` | netcore_gyakorlas/Services/UserService.cs:80 | a seeded date of birth is a non-negative tick count, 0 being 0001-01-01 itself |
| `Time.FromCalendarOrigin` | netcore_gyakorlas/Services/UserService.cs:80 | 0001-01-01 is tick 0 |
| `Time.FromCalendarNextDay` | netcore_gyakorlas/Services/UserService.cs:80 | each valid date is exactly one day of ticks after the day before it, across month and year ends and leap days; with the origin this fixes the value of every date |
| `Time.AddDays` | netcore_gyakorlas/Services/UserService.cs:154 | the expiry is exactly the given number of days of ticks after the clock reading, so a positive count lies in the future |
| `Time.AddDaysCompose` | netcore_gyakorlas/Services/UserService.cs:154 | adding days twice adds their sum |
| `IdentityStore.RolesOf` | netcore_gyakorlas/Services/UserService.cs:174 | a role is among the user's roles exactly when the store holds that membership |
| `IdentityStore.CreateRole` | netcore_gyakorlas/Services/UserService.cs:71 | role creation succeeds exactly when the name is new; afterwards the role exists and nothing else changes; on failure the store is unchanged |
| `IdentityStore.CreateUser` | netcore_gyakorlas/Services/UserService.cs:57 | user creation succeeds exactly when the username is free and the validators accept; on success the draft is saved under its username with the next id; a rejected request reports a validation failure, otherwise a taken name reports a duplicate; on failure the store is unchanged |
| `IdentityStore.AddToRole` | netcore_gyakorlas/Services/UserService.cs:60 | the membership is added exactly when user and role exist; it reports success only when it was new; users and roles never change |
| `IdentityStore.CreateRolePreservesValid` | netcore_gyakorlas/Services/UserService.cs:71 | creating a role keeps the store consistent |
| `IdentityStore.CreateUserPreservesValid` | netcore_gyakorlas/Services/UserService.cs:57 | creating a user keeps the store consistent: keys match usernames, ids stay distinct and below the next id |
| `IdentityStore.AddToRolePreservesValid` | netcore_gyakorlas/Services/UserService.cs:60 | adding a membership keeps every membership pointing at an existing user and role |
| `IdentityStore.AddToRoleIdempotent` | netcore_gyakorlas/Services/UserService.cs:115 | giving a user a role twice has the effect of giving it once |
| `IdentityStore.GetRolesAsync` | netcore_gyakorlas/Services/UserService.cs:174 | the listed roles are exactly the user's roles, each listed once |
| `Claims.RoleClaims` | netcore_gyakorlas/Services/UserService.cs:175-178 | there is one role claim per listed role and nothing else |
| `Claims.GetClaimsIdentity` | netcore_gyakorlas/Services/UserService.cs:164-178 | the list has 6 + (number of roles) claims: six non-role claims first, then only role claims |
| `Claims.RolesInRoleClaims` | netcore_gyakorlas/Services/UserService.cs:175-178 | reading the role claims back gives the role list in its order |
| `Claims.FixedClaimsReadBack` | netcore_gyakorlas/Services/UserService.cs:164-172 | a reader of the six fixed claims finds the id, DoB, username, email, session value and auth time |
| `Claims.RoleClaimsReadBack` | netcore_gyakorlas/Services/UserService.cs:174-178 | the role claims of the list read back as exactly the listed roles, in order |
| `Claims.ClaimsReadBack` | netcore_gyakorlas/Services/UserService.cs:164-178 | a reader of the list finds the user's id, DoB, username and email, the fresh session value and the auth time, and exactly the given roles |
| `UserService.RegistrationDraft` | netcore_gyakorlas/Services/UserService.cs:48-55 | the record built from a request is unsaved (id 0), copies username, email and DoB, and is enabled and email-confirmed |
| `UserService.RegisterAsync` | netcore_gyakorlas/Services/UserService.cs:46-64 | the returned user has the request's username, email and DoB and is enabled and email-confirmed; roles are untouched |
| `UserService.RegisterPreservesValid` | netcore_gyakorlas/Services/UserService.cs:46-64 | registration keeps the store consistent, whichever step fails |
| `UserService.RegisterNewUser` | netcore_gyakorlas/Services/UserService.cs:48-61 | a new username is saved with the next id; it holds "User" exactly when that role exists; no other user or membership changes |
| `UserService.RegisterTakenUserName` | netcore_gyakorlas/Services/UserService.cs:57-63 | a taken username leaves the store unchanged and returns the unsaved draft |
| `UserService.RegisterRejected` | netcore_gyakorlas/Services/UserService.cs:57-63 | a request the validators reject leaves the store unchanged |
| `UserService.RegisterWithoutDefaultRole` | netcore_gyakorlas/Services/UserService.cs:57-61 | creation and role assignment are not atomic: with no "User" role the user is saved holding no role |
| `UserService.SeedRole` | netcore_gyakorlas/Services/UserService.cs:68-88 | a seeding branch always leaves the role existing; it adds the account, holding the role, exactly when the role was missing, the username was free and the validators accepted; otherwise users and memberships are unchanged |
| `UserService.SeedRolePreservesValid` | netcore_gyakorlas/Services/UserService.cs:68-88 | a seeding branch keeps the store consistent |
| `UserService.InitAsync` | netcore_gyakorlas/Services/UserService.cs:66-117 | after bootstrap both default roles exist besides the earlier ones |
| `UserService.InitPreservesValid` | netcore_gyakorlas/Services/UserService.cs:66-117 | bootstrap keeps the store consistent |
| `UserService.InitUsers` | netcore_gyakorlas/Services/UserService.cs:66-117 | bootstrap leaves existing users untouched and adds "admin" and "user", each with a fresh id from the store's counter, exactly when each is created |
| `UserService.InitMemberships` | netcore_gyakorlas/Services/UserService.cs:66-117 | bootstrap adds each created account's own membership, plus "admin" holding "User" whenever an admin account exists |
| `UserService.InitEffect` | netcore_gyakorlas/Services/UserService.cs:66-117 | the exact end state of bootstrap in terms of the start state: which accounts and memberships are added, with which ids; existing users are untouched |
| `UserService.InitFromEmpty` | netcore_gyakorlas/Services/UserService.cs:66-117 | from an empty store: roles {Administrator, User}; users admin and user; admin holds both roles; user holds User |
| `UserService.InitIdempotent` | netcore_gyakorlas/Services/UserService.cs:66-117 | a second bootstrap run leaves roles, users, memberships and ids unchanged |
| `UserService.InitRepeatedIsInitOnce` | netcore_gyakorlas/Services/UserService.cs:66-117 | any positive number of bootstrap runs equals one run |
| `UserService.Message` | netcore_gyakorlas/Services/UserService.cs:134-142 | each refusal is raised with its own message, and each message names only its refusal |
| `UserService.MessageInjective` | netcore_gyakorlas/Services/UserService.cs:134-142 | the three refusal messages are pairwise distinct |
| `UserService.Authenticate` | netcore_gyakorlas/Services/UserService.cs:119-143 | it yields the stored user exactly when that user exists, is enabled and passes the password check; each refusal reason holds exactly under its condition |
| `UserService.LookupFindsMatchingUser` | netcore_gyakorlas/Services/UserService.cs:121 | in a consistent store, looking up by key agrees with finding the first user whose username matches |
| `UserService.DisabledIgnoresPassword` | netcore_gyakorlas/Services/UserService.cs:124-139 | a disabled user is refused as disabled whatever the password and whatever the password check |
| `UserService.SignInAskedOnlyAboutRequest` | netcore_gyakorlas/Services/UserService.cs:126 | the outcome depends on the password check only through its answer for the requested username and password |
| `UserService.GenerateJwtToken` | netcore_gyakorlas/Services/UserService.cs:150-160 | the token has the fixed issuer and audience and expires 30 days after the clock reading; its claims decode to the user's data and exactly the user's roles, without repeats |
| `UserService.LoginAsync` | netcore_gyakorlas/Services/UserService.cs:119-143 | a token is returned exactly when the user exists, is enabled and passes the check, and it is a token for that user; otherwise exactly one reason, chosen in that order |
| `UserService.RegisterThenLogin` | netcore_gyakorlas/Services/UserService.cs:46-143 | given a password check that accepts "alice"/"pw1" and rejects "alice"/"wrong", a freshly registered "alice" is authenticated with "pw1", holding the "User" role, and refused with LOGIN_FAILED for "wrong"; the check's answers are assumed, not derived from the registration |

## Left out

- JWT serialisation, `WriteToken` and HMAC-SHA256 signing with the hard-coded key are foreign library and cryptography calls. The token is a record of issuer, audience, claims and expiry, and the key is not modelled.
- `Guid.NewGuid()` and `DateTime.Now` are nondeterministic. They are `IssueContext` parameters.
- `DateTime.ToString()` in the current culture (date of birth) and in the invariant culture (authentication time) are opaque `Formats` parameters.
- Password hashing, lockout and the internals of `PasswordSignInAsync` are the `SignInCheck` parameter. The lockout counter a failed sign-in updates is not modelled, so login leaves the store unchanged.
- The user and password validators are the `Validator` parameter. Email uniqueness, which depends on the store, is not modelled.
- Usernames are compared exactly. Identity's name normalisation and the database collation are not modelled.
- IdentityStore.AddToRole: Entity Framework's store throws for a role that does not exist. The model reports a failed result and leaves the store unchanged instead. Bootstrap never reaches that case, because the "User" role always exists by its last step.
- UserService.RegisterAsync: with the "User" role missing, the source would raise after saving the user. The model returns the saved user, and the store's effect is the same in both.
- `DateTime` range limits (year 9999) on `AddDays` are not modelled.
- The stored password credential is not modelled. Registration writes it through `CreateAsync(user, password)` and sign-in reads it through `PasswordSignInAsync`; the model passes the password to the validators and leaves verification to the `SignInCheck` parameter.
- UserService.RegisterThenLogin: because the credential is not stored, the password check does not change when a user registers. The lemma therefore assumes the check's answers for "alice" instead of deriving them from the registration.
- IdentityStore.CreateUser: which error a failed creation reports is an assumption: validation failures first, then a duplicate name. Identity checks the password before the user validators and may report several errors at once. The service only reads whether creation succeeded.
- IdentityStore.CreateUser: ids come from a counter that starts at 1 and grows by one per saved user. A database identity column only promises fresh, distinct ids, so the exact ids in `InitFromEmpty` and `InitEffect` belong to this abstraction.
- `ApplicationUser` fields the service never touches, such as the security stamp, are not modelled.
- `Logout` only calls the framework's cookie sign-out and has no logic of its own.
- `GetUsers` only passes through the lazy user query.
- async/await: each method is a sequential state transition. Concurrent bootstrap runs and their races are not modelled.
