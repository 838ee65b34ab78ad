/**
 * Token issuance (`generateToken`). Signing and verification belong to the
 * JSON Web Token library and are not modelled: the configuration carries them
 * as opaque functions, next to the signing secret read from the environment.
 */
module Jwt {
  import opened Wrappers
  import opened Text

  /** `expiresIn: '14d'`, in seconds. */
  const TokenLifetime: int := 14 * 24 * 60 * 60

  const MissingSecretMessage := "JWT_SECRET is not defined in environment variables"

  /** The registered claims of RFC 7519 the system uses: a subject id, `iat` and `exp` (seconds). */
  datatype Claims = Claims(id: UserId, iat: int, exp: int)

  /** The signed text handed to the client together with the claims it encodes. */
  datatype Issued = Issued(text: string, claims: Claims)

  /**
   * The process-wide token configuration: `process.env.JWT_SECRET` and the
   * library's `sign` and `verify`. `verify(text, now)` yields the decoded claims
   * or fails (bad signature, malformed, expired, missing); which one is not
   * visible to the callers, who only see the failure.
   */
  datatype JwtConfig = JwtConfig(
    secret: Option<string>,
    sign: (Claims, string) -> string,
    verify: (string, int) -> Option<Claims>)

  /** `!secret` is false: the variable is set and not empty. */
  predicate SecretPresent(secret: Option<string>) {
    Truthy(secret)
  }

  /**
   * The verifier is handed the same secret as the signer and, like the JSON Web
   * Token library, refuses every token when that secret is missing or empty.
   */
  ghost predicate VerifyNeedsSecret(jwt: JwtConfig) {
    !SecretPresent(jwt.secret) ==> forall text: string, now: int :: jwt.verify(text, now).None?
  }

  /** `Math.floor(Date.now() / 1000)`: the clock in whole seconds. */
  function Seconds(nowMs: nat): (s: nat)
    ensures s * 1000 <= nowMs < s * 1000 + 1000
  {
    nowMs / 1000
  }

  /**
   * `generateToken(id)`: throws when the secret is missing; otherwise signs
   * `{ id }` with `iat` the current second and `exp` fourteen days later.
   */
  function GenerateToken(jwt: JwtConfig, id: UserId, nowMs: nat): (r: Result<Issued, string>)
    ensures r.Failure? <==> !SecretPresent(jwt.secret)
    ensures r.Failure? ==> r.error == MissingSecretMessage
    ensures r.Success? ==>
              && r.value.claims.id == id
              && r.value.claims.iat * 1000 <= nowMs < r.value.claims.iat * 1000 + 1000
              && r.value.claims.exp == r.value.claims.iat + 1209600
              && r.value.text == jwt.sign(r.value.claims, jwt.secret.value)
  {
    if !SecretPresent(jwt.secret) then
      Failure(MissingSecretMessage)
    else
      var iat := Seconds(nowMs);
      var claims := Claims(id, iat, iat + TokenLifetime);
      Success(Issued(jwt.sign(claims, jwt.secret.value), claims))
  }
}
