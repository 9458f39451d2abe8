/** The claim list a session token carries and the token record itself.
    The list holds six fixed claims about the user and the session followed
    by one role claim per role the user holds. */
module Claims {
  import opened Wrappers
  import opened Time
  import opened IdentityStore
  import Numerals

  datatype ClaimType = NameIdentifier | DateOfBirth | Name | Email | Sid | AuthTime | Role

  datatype Claim = Claim(kind: ClaimType, value: string)

  /** The two `DateTime.ToString` renderings the claims use: the current
      culture's default format and the invariant culture's. */
  datatype Formats = Formats(currentCulture: DateTime -> string, invariantCulture: DateTime -> string)

  /** What changes with every issued token: the clock reading the expiry is
      computed from, the text of a freshly generated GUID and the clock
      reading recorded as the authentication time. */
  datatype IssueContext = IssueContext(expiryClock: DateTime, sessionId: string, authClock: DateTime)

  /** Issuer and audience of every token. */
  const Issuer: string := "https://mik.uni-pannon.hu"

  /** Tokens expire this many days after they are issued. */
  const ExpiryDays: int := 30

  /** A signed token before serialisation: issuer, audience, claims and expiry. */
  datatype JwtToken = JwtToken(issuer: string, audience: string, claims: seq<Claim>, expires: DateTime)

  /** One role claim per entry of `roles`, in the same order. */
  function RoleClaims(roles: seq<string>): (cs: seq<Claim>)
    ensures |cs| == |roles|
    ensures forall i :: 0 <= i < |cs| ==> cs[i].kind == Role
  {
    if roles == [] then [] else [Claim(Role, roles[0])] + RoleClaims(roles[1..])
  }

  /** The claim list for `user`, whose roles the store listed as `roles`. */
  function GetClaimsIdentity(user: User, roles: seq<string>, ctx: IssueContext, fmt: Formats): (cs: seq<Claim>)
    ensures |cs| == 6 + |roles|
    ensures forall i :: 0 <= i < 6 ==> cs[i].kind != Role
    ensures forall i :: 6 <= i < |cs| ==> cs[i].kind == Role
  {
    [ Claim(NameIdentifier, Numerals.NatToString(user.id)),
      Claim(DateOfBirth, fmt.currentCulture(user.dob)),
      Claim(Name, user.userName),
      Claim(Email, user.email),
      Claim(Sid, ctx.sessionId),
      Claim(AuthTime, fmt.invariantCulture(ctx.authClock)) ]
    + RoleClaims(roles)
  }

  /** The value of the first claim of the given kind, as a token reader finds it. */
  function ValueOf(cs: seq<Claim>, kind: ClaimType): Option<string>
  {
    if |cs| == 0 then None
    else if cs[0].kind == kind then Some(cs[0].value)
    else ValueOf(cs[1..], kind)
  }

  /** The values of all role claims, in order. */
  function RolesIn(cs: seq<Claim>): seq<string>
  {
    if |cs| == 0 then []
    else (if cs[0].kind == Role then [cs[0].value] else []) + RolesIn(cs[1..])
  }

  lemma {:induction false} ValueOfAt(cs: seq<Claim>, i: nat, kind: ClaimType)
    requires i < |cs| && cs[i].kind == kind
    requires forall j :: 0 <= j < i ==> cs[j].kind != kind
    ensures ValueOf(cs, kind) == Some(cs[i].value)
    decreases i
  {
    if i > 0 {
      ValueOfAt(cs[1..], i - 1, kind);
    }
  }

  lemma {:induction false} RolesInConcat(a: seq<Claim>, b: seq<Claim>)
    ensures RolesIn(a + b) == RolesIn(a) + RolesIn(b)
    decreases |a|
  {
    if |a| > 0 {
      assert (a + b)[1..] == a[1..] + b;
      RolesInConcat(a[1..], b);
    } else {
      assert a + b == b;
    }
  }

  lemma {:induction false} RolesInWithoutRoleClaims(cs: seq<Claim>)
    requires forall i :: 0 <= i < |cs| ==> cs[i].kind != Role
    ensures RolesIn(cs) == []
    decreases |cs|
  {
    if |cs| > 0 {
      RolesInWithoutRoleClaims(cs[1..]);
    }
  }

  /** Reading the role claims back gives the role list they were built from. */
  lemma {:induction false} RolesInRoleClaims(roles: seq<string>)
    ensures RolesIn(RoleClaims(roles)) == roles
    decreases |roles|
  {
    if roles != [] {
      var cs := RoleClaims(roles);
      assert cs[1..] == RoleClaims(roles[1..]);
      RolesInRoleClaims(roles[1..]);
    }
  }

  /** A reader of the six fixed claims finds the user's id, date of birth,
      username and email, the session value and the authentication time. */
  lemma FixedClaimsReadBack(user: User, roles: seq<string>, ctx: IssueContext, fmt: Formats)
    ensures var cs := GetClaimsIdentity(user, roles, ctx, fmt);
      && ValueOf(cs, NameIdentifier) == Some(Numerals.NatToString(user.id))
      && ValueOf(cs, DateOfBirth) == Some(fmt.currentCulture(user.dob))
      && ValueOf(cs, Name) == Some(user.userName)
      && ValueOf(cs, Email) == Some(user.email)
      && ValueOf(cs, Sid) == Some(ctx.sessionId)
      && ValueOf(cs, AuthTime) == Some(fmt.invariantCulture(ctx.authClock))
  {
    var cs := GetClaimsIdentity(user, roles, ctx, fmt);
    ValueOfAt(cs, 0, NameIdentifier);
    ValueOfAt(cs, 1, DateOfBirth);
    ValueOfAt(cs, 2, Name);
    ValueOfAt(cs, 3, Email);
    ValueOfAt(cs, 4, Sid);
    ValueOfAt(cs, 5, AuthTime);
  }

  /** The role claims of the list read back as exactly the given roles. */
  lemma RoleClaimsReadBack(user: User, roles: seq<string>, ctx: IssueContext, fmt: Formats)
    ensures RolesIn(GetClaimsIdentity(user, roles, ctx, fmt)) == roles
  {
    var cs := GetClaimsIdentity(user, roles, ctx, fmt);
    assert cs == cs[..6] + RoleClaims(roles);
    RolesInConcat(cs[..6], RoleClaims(roles));
    RolesInWithoutRoleClaims(cs[..6]);
    RolesInRoleClaims(roles);
  }

  /** A reader of the claim list recovers the user's id, date of birth,
      username and email, the session value, the authentication time, and
      exactly the given roles. */
  lemma ClaimsReadBack(user: User, roles: seq<string>, ctx: IssueContext, fmt: Formats)
    ensures var cs := GetClaimsIdentity(user, roles, ctx, fmt);
      && ValueOf(cs, NameIdentifier) == Some(Numerals.NatToString(user.id))
      && Numerals.ParseNat(ValueOf(cs, NameIdentifier).value) == user.id
      && ValueOf(cs, DateOfBirth) == Some(fmt.currentCulture(user.dob))
      && ValueOf(cs, Name) == Some(user.userName)
      && ValueOf(cs, Email) == Some(user.email)
      && ValueOf(cs, Sid) == Some(ctx.sessionId)
      && ValueOf(cs, AuthTime) == Some(fmt.invariantCulture(ctx.authClock))
      && RolesIn(cs) == roles
  {
    FixedClaimsReadBack(user, roles, ctx, fmt);
    RoleClaimsReadBack(user, roles, ctx, fmt);
    Numerals.ParseNatToString(user.id);
  }
}
