/**
 * The authentication gate `protect` and its helper `verifyToken`: read the
 * bearer token from the `Authorization` header, verify it, load the user
 * without the password, and decide whether to hand out a renewed token.
 * The gate reads the user collection and never writes it: it returns no store.
 */
module AuthMiddleware {
  import opened Wrappers
  import opened Text
  import opened Jwt
  import opened UserModel
  import opened Responses

  /** `2 * 24 * 60 * 60`: the remaining lifetime at or below which a token is renewed. */
  const TwoDaysInSeconds: int := 2 * 24 * 60 * 60

  const NotAuthorizedMessage := "Not authorized, no token or token invalid"

  /** What `verifyToken` resolves to when it does not resolve to `null`. */
  datatype TokenData = TokenData(user: Principal, token: string, expirationTime: int)

  /** What `protect` attaches to the request: `req.user` and `req.newToken`. */
  datatype AuthContext = AuthContext(user: Principal, newToken: string)

  /** The three ways `protect` ends. */
  datatype GateResult =
      /** Responds itself; `next` is never called. */
    | Rejected(response: Response)
      /**
       * `generateToken` threw; the async wrapper hands the error to Express's error
       * handler. Only reachable for a verifier that accepts tokens without a secret
       * (see `MissingSecretRejects`).
       */
    | Crashed(message: string)
      /** `next()` is called once, with the context set. */
    | Admitted(context: AuthContext)

  /**
   * `authHeader.split(' ')[1]`, read only when the header is present and
   * `startsWith('Bearer')`. A header without a space has no second field
   * (`undefined`), which the verifier rejects.
   */
  function ExtractToken(header: Option<string>): (t: Option<string>)
    ensures t.Some? ==> header.Some? && StartsWith(header.value, "Bearer")
    ensures t.Some? ==> ' ' !in t.value
    ensures header.None? || !StartsWith(header.value, "Bearer") ==> t.None?
  {
    if header.Some? && StartsWith(header.value, "Bearer") then
      SplitFieldsSpaceFree(header.value);
      var fields := Split(header.value);
      if |fields| >= 2 then Some(fields[1]) else None
    else None
  }

  /**
   * The token is the text between the first space and the next space (or the
   * end); there is none when the header has no space at all.
   */
  lemma {:induction false} TokenIsSecondField(h: string)
    requires StartsWith(h, "Bearer")
    ensures ExtractToken(Some(h)).None? <==> ' ' !in h
    ensures ExtractToken(Some(h)).Some? ==>
              var t := ExtractToken(Some(h)).value;
              var i := IndexOf(h, ' ').value;
              && OccursAt(h, i + 1, t)
              && (i + 1 + |t| == |h| || h[i + 1 + |t|] == ' ')
  {
    SplitSingle(h);
    SplitUnfold(h);
    if ' ' in h {
      var i := IndexOf(h, ' ').value;
      var rest := h[i + 1..];
      SplitUnfold(rest);
      match IndexOf(rest, ' ')
      case None =>
      case Some(j) =>
        assert h[i + 1 + j] == rest[j];
    }
  }

  /**
   * Whatever precedes the first space, as long as it starts with `Bearer`, the
   * token is the space-free text after it.
   */
  lemma {:induction false} TokenAfterPrefix(prefix: string, token: string)
    requires StartsWith(prefix, "Bearer") && ' ' !in prefix && ' ' !in token
    ensures ExtractToken(Some(prefix + " " + token)) == Some(token)
  {
    var h := prefix + " " + token;
    assert h == Join([prefix, token]);
    SplitJoin([prefix, token]);
    assert h[..6] == prefix[..6];
  }

  /** `Bearer <token>` hands back exactly `<token>` when the token has no space. */
  lemma BearerRoundTrip(token: string)
    requires ' ' !in token
    ensures ExtractToken(Some("Bearer " + token)) == Some(token)
  {
    TokenAfterPrefix("Bearer", token);
  }

  /** The prefix test is case-sensitive. */
  lemma PrefixIsCaseSensitive()
    ensures ExtractToken(Some("bearer abc")).None?
  {
    assert "bearer abc"[0] != "Bearer"[0];
  }

  /** The prefix test does not need a space after `Bearer`: the token is still the second field. */
  lemma PrefixNeedsNoSpace()
    ensures ExtractToken(Some("BearerX abc")) == Some("abc")
  {
    assert "BearerX"[..6] == "Bearer";
    assert forall k :: 0 <= k < 7 ==> "BearerX"[k] != ' ';
    TokenAfterPrefix("BearerX", "abc");
    assert "BearerX" + " " + "abc" == "BearerX abc";
  }

  /**
   * `verifyToken`: the decoded claims of the bearer token and the user they
   * name, loaded without the password. Any failure (no usable header, the
   * verifier throwing, no such user) is the same `null`.
   */
  function VerifyToken(users: UserStore, jwt: JwtConfig, header: Option<string>, now: int): (r: Option<TokenData>)
    ensures r.Some? ==>
              && ExtractToken(header) == Some(r.value.token)
              && jwt.verify(r.value.token, now).Some?
              && r.value.expirationTime == jwt.verify(r.value.token, now).value.exp
              && r.value.user.id == jwt.verify(r.value.token, now).value.id
              && exists i :: 0 <= i < |users| && ToPrincipal(users[i]) == r.value.user
    ensures r.None? <==>
              || ExtractToken(header).None?
              || jwt.verify(ExtractToken(header).value, now).None?
              || FindById(users, jwt.verify(ExtractToken(header).value, now).value.id).None?
  {
    match ExtractToken(header)
    case None => None
    case Some(token) =>
      match jwt.verify(token, now)
      case None => None
      case Some(claims) =>
        match FindById(users, claims.id)
        case None => None
        case Some(user) => Some(TokenData(ToPrincipal(user), token, claims.exp))
  }

  /** The sliding-renewal test `expirationTime - currentTime <= twoDaysInSeconds`. */
  predicate ShouldRenew(expirationTime: int, currentTime: int) {
    expirationTime - currentTime <= TwoDaysInSeconds
  }

  /**
   * `protect`: reject with 401, or attach the user and the outbound token and
   * call `next`. The outbound token is a fresh one for the user when the
   * incoming one has two days or less left, and the incoming one otherwise.
   */
  function Protect(users: UserStore, jwt: JwtConfig, header: Option<string>, nowMs: nat): (r: GateResult)
    ensures r.Rejected? <==> VerifyToken(users, jwt, header, Seconds(nowMs)).None?
    ensures r.Rejected? ==> r.response == Fail(401, NotAuthorizedMessage)
    ensures !r.Rejected? ==>
              var d := VerifyToken(users, jwt, header, Seconds(nowMs)).value;
              && (r.Crashed? <==> ShouldRenew(d.expirationTime, Seconds(nowMs)) && !SecretPresent(jwt.secret))
              && (r.Crashed? ==> r.message == MissingSecretMessage)
              && (r.Admitted? ==> r.context.user == d.user)
              && (r.Admitted? && ShouldRenew(d.expirationTime, Seconds(nowMs)) ==>
                    r.context.newToken == GenerateToken(jwt, d.user.id, nowMs).value.text)
              && (r.Admitted? && !ShouldRenew(d.expirationTime, Seconds(nowMs)) ==>
                    r.context.newToken == d.token)
  {
    var currentTime := Seconds(nowMs);
    match VerifyToken(users, jwt, header, currentTime)
    case None => Rejected(Fail(401, NotAuthorizedMessage))
    case Some(data) =>
      if ShouldRenew(data.expirationTime, currentTime) then
        match GenerateToken(jwt, data.user.id, nowMs)
        case Failure(message) => Crashed(message)
        case Success(issued) => Admitted(AuthContext(data.user, issued.text))
      else
        Admitted(AuthContext(data.user, data.token))
  }

  /**
   * A missing or non-Bearer header, a token the verifier refuses, and a token
   * whose user is gone all end in the very same 401 response.
   */
  lemma FailuresCollapse(users: UserStore, jwt: JwtConfig, header: Option<string>, nowMs: nat)
    requires
      || header.None?
      || !StartsWith(header.value, "Bearer")
      || ExtractToken(header).None?
      || jwt.verify(ExtractToken(header).value, Seconds(nowMs)).None?
      || FindById(users, jwt.verify(ExtractToken(header).value, Seconds(nowMs)).value.id).None?
    ensures Protect(users, jwt, header, nowMs) == Rejected(Fail(401, NotAuthorizedMessage))
  {
  }

  /**
   * `verifyToken` passes `protect`'s missing secret to the verifier too, so for a
   * verifier that needs its secret the gate answers the 401 before it could
   * reach `generateToken`: `protect` never crashes.
   */
  lemma MissingSecretRejects(users: UserStore, jwt: JwtConfig, header: Option<string>, nowMs: nat)
    requires VerifyNeedsSecret(jwt)
    ensures !SecretPresent(jwt.secret) ==> Protect(users, jwt, header, nowMs) == Rejected(Fail(401, NotAuthorizedMessage))
    ensures !Protect(users, jwt, header, nowMs).Crashed?
  {
    if !SecretPresent(jwt.secret) && ExtractToken(header).Some? {
      assert jwt.verify(ExtractToken(header).value, Seconds(nowMs)).None?;
    }
  }

  /** A token with exactly two days left is renewed; one with a second more is kept. */
  lemma RenewalBoundary(now: int)
    ensures ShouldRenew(now + 172800, now)
    ensures !ShouldRenew(now + 172801, now)
  {
  }

  /**
   * A token issued at some second still has more than two days left when it
   * is presented less than twelve days (minus one second) later, so the gate
   * keeps it rather than renewing again. At exactly twelve days it renews.
   */
  lemma RenewedTokenIsKept(
    users: UserStore, jwt: JwtConfig, id: UserId, issuedMs: nat, laterMs: nat)
    requires SecretPresent(jwt.secret)
    requires issuedMs <= laterMs < issuedMs + 12 * 24 * 60 * 60 * 1000 - 1000
    requires var issued := GenerateToken(jwt, id, issuedMs).value;
             && ' ' !in issued.text
             && jwt.verify(issued.text, Seconds(laterMs)) == Some(issued.claims)
             && FindById(users, id).Some?
    ensures var issued := GenerateToken(jwt, id, issuedMs).value;
            Protect(users, jwt, Some("Bearer " + issued.text), laterMs)
              == Admitted(AuthContext(ToPrincipal(FindById(users, id).value), issued.text))
  {
    var issued := GenerateToken(jwt, id, issuedMs).value;
    BearerRoundTrip(issued.text);
    assert issued.claims.exp - Seconds(laterMs) > TwoDaysInSeconds;
  }
}
