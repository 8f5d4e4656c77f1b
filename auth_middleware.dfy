/** `src/middleware/authMiddleware.ts`: bearer-token authentication and the two
    role gates. A gate either lets the request through to the next handler or
    answers it itself. JWT verification is the parameter `verify`, which yields
    the user id a valid token carries, or `None` when the token is rejected. */
module AuthMiddleware {
  import opened Js
  import opened Http
  import opened UserModel

  datatype Gate = Next | Deny(response: Response)

  /** What `protect` does with a request: go on with `req.user` set to the user the
      token names (`None` when that user no longer exists), or refuse it. */
  datatype Authentication = Proceed(user: Option<User>) | Refuse(response: Response)

  const NoToken := Response(401, "Not authorized, no token")
  const TokenFailed := Response(401, "Not authorized, token failed")

  /** The token `protect` reads from a header that starts with "Bearer": the second
      space-separated field, or `None` (`undefined`) when there is none. */
  function BearerToken(header: string): (r: Option<string>)
    ensures r.Some? <==> |Split(header)| >= 2
    ensures r.Some? ==> r.value == Split(header)[1] && NoSpace(r.value)
  {
    SplitFieldsHaveNoSpace(header);
    var fields := Split(header);
    if |fields| >= 2 then Some(fields[1]) else None
  }

  /** `protect`. `header` is the `Authorization` header, `""` when absent. A header
      that does not start with "Bearer" is refused as carrying no token; otherwise
      the request proceeds exactly when the header's second field is a non-empty
      token that `verify` accepts, and is refused as a failed token in every other
      case. A request that proceeds carries the user whose id the token holds. */
  method Protect(header: string, verify: string -> Option<string>, users: seq<User>)
    returns (res: Authentication)
    ensures !StartsWith(header, "Bearer") ==> res == Refuse(NoToken)
    ensures res.Proceed? <==>
      StartsWith(header, "Bearer") && BearerToken(header).Some? && BearerToken(header).value != ""
      && verify(BearerToken(header).value).Some?
    ensures StartsWith(header, "Bearer") && !res.Proceed? ==> res == Refuse(TokenFailed)
    ensures res.Proceed? ==>
      var id := verify(BearerToken(header).value).value;
      (res.user.Some? <==> FindById(users, id).Some?)
      && (res.user.Some? ==> res.user.value == users[FindById(users, id).value])
  {
    var token: Option<string> := None;
    if header != "" && StartsWith(header, "Bearer") {
      token := BearerToken(header);
      // `jwt.verify` throws on a missing or empty token and on one it rejects.
      if token.None? || token.value == "" {
        return Refuse(TokenFailed);
      }
      var decoded := verify(token.value);
      if decoded.None? {
        return Refuse(TokenFailed);
      }
      var found := FindById(users, decoded.value);
      var user := if found.Some? then Some(users[found.value]) else None;
      return Proceed(user);
    }
    // Only a header without the "Bearer" prefix gets here, with `token` unset.
    res := Refuse(NoToken);
  }

  /** The header a client builds, `"Bearer " + token`, hands `protect` exactly that
      token back when the token is non-empty and free of spaces. */
  lemma BearerHeaderCarriesToken(token: string)
    requires token != "" && NoSpace(token)
    ensures StartsWith("Bearer " + token, "Bearer")
    ensures BearerToken("Bearer " + token) == Some(token)
  {
    var fields := ["Bearer", token];
    assert NoSpace(fields[0]);
    assert fields[1..] == [token];
    assert Join(fields) == "Bearer " + token;
    SplitJoin(fields);
    assert ("Bearer " + token)[..6] == "Bearer";
  }

  /** `admin`: only an attached Admin user goes on. */
  function Admin(user: Option<User>): (g: Gate)
    ensures g.Next? <==> user.Some? && user.value.role.Admin?
    ensures g.Deny? ==> g.response == Response(403, "Not authorized as an admin")
  {
    if user.Some? && user.value.role.Admin? then Next
    else Deny(Response(403, "Not authorized as an admin"))
  }

  /** `authorize(...roles)`: an attached user goes on exactly when its role is
      listed; otherwise 403 naming the role. Without an attached user the status
      403 is set first and then building the message reads `req.user.role`, which
      throws; the application's error handler keeps a status other than 200, so the
      answer is still 403, carrying the error's message. */
  function Authorize(roles: seq<string>, user: Option<User>): (g: Gate)
    ensures g.Next? <==> user.Some? && RoleName(user.value.role) in roles
    ensures g.Deny? ==> g.response.status == 403
    ensures user.None? ==> g == Deny(Response(403, "Cannot read properties of null (reading 'role')"))
    ensures user.Some? && g.Deny? ==>
      g.response == Response(403, "Role " + RoleName(user.value.role) + " is not authorized to access this route")
  {
    if user.None? then
      Deny(Response(403, "Cannot read properties of null (reading 'role')"))
    else if RoleName(user.value.role) in roles then
      Next
    else
      Deny(Response(403, "Role " + RoleName(user.value.role) + " is not authorized to access this route"))
  }

  /** `authorize('Admin')` lets through exactly the requests `admin` lets through. */
  lemma AuthorizeAdminIsAdmin(user: Option<User>)
    ensures Authorize(["Admin"], user).Next? <==> Admin(user).Next?
  {
    if user.Some? && RoleName(user.value.role) == "Admin" {
      assert user.value.role.Admin?;
    }
  }

  /** Listing more roles never refuses a request that fewer roles admitted. */
  lemma AuthorizeMonotone(roles: seq<string>, more: seq<string>, user: Option<User>)
    requires forall r :: r in roles ==> r in more
    ensures Authorize(roles, user).Next? ==> Authorize(more, user).Next?
  {
  }
}
