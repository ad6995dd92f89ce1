/** The REST authentication middleware: reads a bearer credential from the
    `Authorization` header (a simplified form of section 2.1 of RFC 6750),
    verifies it, and either passes the request on with `req.user.id` set or
    answers with an error status. */
module Auth {
  import opened Store
  import opened Text

  /** What `jwt.verify` does with a token: decodes its `userId`, or throws an
      error with the given `name`. Signature and expiry checking are not modelled. */
  datatype Verdict = Decoded(userId: UserId) | Thrown(name: string)

  /** `next()` was called once with `req.user.id` set, or an error reply was sent. */
  datatype AuthResult = Next(userId: UserId) | Deny(status: int, error: string)

  const NoToken: string := "No token provided, authorization denied"

  /** `authHeader.startsWith('Bearer ')`: case-sensitive, one space. */
  predicate StartsWithBearer(h: string) {
    "Bearer " <= h
  }

  /** `authHeader.split(' ')[1]` for a header that starts with "Bearer ". */
  function TokenOf(h: string): (t: string)
    requires StartsWithBearer(h)
    ensures t == FirstField(h[7..], ' ')
  {
    assert h == "Bearer" + [' '] + h[7..];
    SplitAfterWord("Bearer", ' ', h[7..]);
    SplitHead(h[7..], ' ');
    Split(h, ' ')[1]
  }

  /** The middleware. `verify` stands for `jwt.verify` with the server's secret. */
  function Authenticate(header: Option<string>, verify: string -> Verdict, users: seq<UserRecord>): (r: AuthResult)
    ensures r.Next? ==>
      && header.Some? && StartsWithBearer(header.value)
      && TokenOf(header.value) != ""
      && verify(TokenOf(header.value)) == Decoded(r.userId)
      && UserExists(users, r.userId)
    ensures header.Some? && StartsWithBearer(header.value) && TokenOf(header.value) != ""
      && verify(TokenOf(header.value)).Decoded?
      && UserExists(users, verify(TokenOf(header.value)).userId)
      ==> r == Next(verify(TokenOf(header.value)).userId)
    ensures r.Deny? ==> r.status == 401 || r.status == 500
    ensures r.Deny? && r.status == 500 ==>
      header.Some? && StartsWithBearer(header.value) && TokenOf(header.value) != ""
      && verify(TokenOf(header.value)).Thrown?
      && verify(TokenOf(header.value)).name !in {"JsonWebTokenError", "TokenExpiredError"}
    ensures header.Some? && StartsWithBearer(header.value) && TokenOf(header.value) != ""
      && verify(TokenOf(header.value)).Thrown?
      && verify(TokenOf(header.value)).name !in {"JsonWebTokenError", "TokenExpiredError"}
      ==> r == Deny(500, "Server error during authentication")
  {
    if Missing(header) || !StartsWithBearer(header.value) then
      Deny(401, NoToken)
    else
      var token := TokenOf(header.value);
      if token == "" then
        Deny(401, NoToken)
      else
        match verify(token)
        case Thrown(name) =>
          if name == "JsonWebTokenError" then Deny(401, "Invalid token")
          else if name == "TokenExpiredError" then Deny(401, "Token expired")
          else Deny(500, "Server error during authentication")
        case Decoded(u) =>
          if !UserExists(users, u) then Deny(401, "User not found, authorization denied")
          else Next(u)
  }

  /** Every well-formed header whose token decodes to a registered user is let through. */
  lemma AdmitsValidBearer(h: string, verify: string -> Verdict, users: seq<UserRecord>, u: UserId)
    requires StartsWithBearer(h) && TokenOf(h) != ""
    requires verify(TokenOf(h)) == Decoded(u) && UserExists(users, u)
    ensures Authenticate(Some(h), verify, users) == Next(u)
  {
  }

  /** The prefix test is case-sensitive: a lower-case scheme name is refused with 401
      whatever the token. */
  lemma LowerCaseSchemeRefused(t: string, verify: string -> Verdict, users: seq<UserRecord>)
    ensures Authenticate(Some("bearer " + t), verify, users) == Deny(401, NoToken)
  {
    assert ("bearer " + t)[0] == 'b';
  }

  /** Two spaces after the scheme make `split(' ')[1]` the empty string: refused with 401. */
  lemma DoubleSpaceRefused(t: string, verify: string -> Verdict, users: seq<UserRecord>)
    ensures Authenticate(Some("Bearer  " + t), verify, users) == Deny(401, NoToken)
  {
    var h := "Bearer  " + t;
    assert StartsWithBearer(h) by { assert h[..7] == "Bearer "; }
    assert h[7..][0] == ' ';
    assert IndexOf(h[7..], ' ') == 0;
  }

  /** The token is the text after "Bearer " up to the next space. */
  lemma TokenStopsAtSpace(t: string, rest: string, verify: string -> Verdict, users: seq<UserRecord>)
    requires ' ' !in t && t != ""
    ensures TokenOf("Bearer " + t + " " + rest) == t
  {
    var h := "Bearer " + t + " " + rest;
    assert h[..7] == "Bearer ";
    assert h[7..] == t + [' '] + rest;
    SplitAfterWord(t, ' ', rest);
    SplitHead(h[7..], ' ');
  }

  /** The error name of a failed verification decides the reply. */
  lemma VerifyErrorsMapped(h: string, verify: string -> Verdict, users: seq<UserRecord>)
    requires StartsWithBearer(h) && TokenOf(h) != ""
    ensures verify(TokenOf(h)) == Thrown("JsonWebTokenError") ==>
      Authenticate(Some(h), verify, users) == Deny(401, "Invalid token")
    ensures verify(TokenOf(h)) == Thrown("TokenExpiredError") ==>
      Authenticate(Some(h), verify, users) == Deny(401, "Token expired")
    ensures (verify(TokenOf(h)).Thrown? && verify(TokenOf(h)).name != "JsonWebTokenError"
             && verify(TokenOf(h)).name != "TokenExpiredError") ==>
      Authenticate(Some(h), verify, users) == Deny(500, "Server error during authentication")
    ensures (exists u :: verify(TokenOf(h)) == Decoded(u) && !UserExists(users, u)) ==>
      Authenticate(Some(h), verify, users) == Deny(401, "User not found, authorization denied")
  {
  }
}
