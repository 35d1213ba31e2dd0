/** The token authenticator that guards every contact route
    (app/Http/Middleware/ApiAuthMiddleware.php). */
module ApiAuth {
  import opened Common
  import opened Http
  import opened Users

  /** The request's authentication state, as the `Auth` facade keeps it: the
      user that was logged in, if any. */
  class Guard {
    var user: User?

    constructor ()
      ensures user == null
    {
      user := null;
    }

    method Login(u: User)
      modifies this
      ensures user == u
    {
      user := u;
    }
  }

  /** `User::where(column, value)->first()` over the table in row order, for a
      string column. A null value compares as `IS NULL`, so it finds a user
      whose column is NULL. */
  function FirstWhere(users: seq<User>, column: string, value: Option<string>): (found: Option<User>)
    requires column in StringColumns
    reads users
    ensures found.Some? ==> exists i :: 0 <= i < |users| && users[i] == found.value
                                   && users[i].Attribute(column) == value
                                   && forall j :: 0 <= j < i ==> users[j].Attribute(column) != value
    ensures found.None? <==> forall i :: 0 <= i < |users| ==> users[i].Attribute(column) != value
  {
    if users == [] then None
    else if users[0].Attribute(column) == value then Some(users[0])
    else FirstWhere(users[1..], column, value)
  }

  /** What the middleware answers: run the next handler, or reject. */
  datatype Verdict = PassToNext | Reject(failure: Failure)

  /** The admission rule: the header is present and truthy, and some user's
      session token equals it. */
  predicate Admits(users: seq<User>, header: Option<string>)
    reads users
  {
    Truthy(header) && FirstWhere(users, "token", header).Some?
  }

  /** The rule in terms of the table alone: admitted exactly when the header is
      truthy and one of the users holds it as session token. */
  lemma AdmitsIff(users: seq<User>, header: Option<string>)
    ensures Admits(users, header) <==> Truthy(header) && exists i :: 0 <= i < |users| && users[i].token == header
  {
  }

  /** A missing, empty or "0" header is rejected whatever the table holds, even
      when the lookup finds a user (a user whose token is NULL matches a missing
      header). */
  lemma FalsyHeaderRejected(users: seq<User>, header: Option<string>)
    requires header == None || header == Some("") || header == Some("0")
    ensures !Admits(users, header)
  {
  }

  /** A missing header looks up the users whose token is NULL: such a user is
      found (and `Handle` logs it in) although the request is still rejected. */
  lemma NullTokenUserFoundButRejected(users: seq<User>, k: nat)
    requires k < |users| && users[k].token == None
    ensures FirstWhere(users, "token", None).Some?
    ensures FirstWhere(users, "token", None).value.token == None
    ensures !Admits(users, None)
  {
    assert users[k].Attribute("token") == None;
  }

  /** `handle`: the flag starts true, is cleared when the header is falsy and
      again when no user holds the token; a user that was found is logged in
      either way, and the request passes on only while the flag is still set.
      The user table is only read. */
  method Handle(guard: Guard, users: seq<User>, header: Option<string>) returns (verdict: Verdict)
    modifies guard
    ensures verdict == if Admits(users, header) then PassToNext else Reject(Unauthorized)
    ensures FirstWhere(users, "token", header).Some? ==> guard.user == FirstWhere(users, "token", header).value
    ensures FirstWhere(users, "token", header).None? ==> guard.user == old(guard.user)
    ensures verdict.PassToNext? ==> guard.user != null && guard.user in users && guard.user.GetRememberToken() == header
    ensures unchanged(users)
  {
    var isAuthorized := true;

    if !Truthy(header) {
      isAuthorized := false;
    }

    var user := FirstWhere(users, "token", header);
    if user.None? {
      isAuthorized := false;
    } else {
      guard.Login(user.value);
    }

    if isAuthorized {
      verdict := PassToNext;
    } else {
      verdict := Reject(Unauthorized);
    }
  }
}
