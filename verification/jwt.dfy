/** internal/auth/jwt.go: session tokens (`MakeJWT`, `ValidateJWT`) and the
    bearer-token extractor (`GetBearerToken`). Every reading of the clock is
    a parameter, in whole seconds. */
module Jwt {
  import opened Wrappers
  import opened Strings
  import opened Whitespace
  import opened Credentials
  import Jws
  import Uuid

  /** The fixed issuer every session token carries. */
  const Issuer: string := "chirpy"

  /* ---------- MakeJWT ---------- */

  /** `MakeJWT(userID, tokenSecret, expiresIn)` called at time `now`: an
      HS256 token issued by "chirpy" for the user, issued at `now` and
      expiring `expiresIn` seconds later (a negative `expiresIn` gives a
      token that is already expired). */
  function MakeJWT(userID: Uuid.Uuid, tokenSecret: string, expiresIn: int, now: int): (t: Jws.Token)
    ensures t.Signed? && t.alg == Jws.HS256
    ensures t.claims.issuer == Issuer
    ensures t.claims.subject == Uuid.ToString(userID)
    ensures Uuid.Parse(t.claims.subject) == Some(userID)
    ensures t.claims.issuedAt == now && t.claims.expiresAt - t.claims.issuedAt == expiresIn
    ensures t.signature == Jws.SignatureOf(Jws.HS256, Jws.HmacKeyOf(Jws.HS256, tokenSecret), t.claims)
  {
    Uuid.ParseToString(userID);
    Jws.Sign(Jws.HS256, Jws.Claims(Issuer, Uuid.ToString(userID), now, now + expiresIn), tokenSecret)
  }

  /* ---------- ValidateJWT ---------- */

  /** The key-lookup callback `ValidateJWT` passes to the parser: the secret
      for an HMAC method, a refusal for every other method. */
  function KeyFor(tokenSecret: string): (keyfunc: Jws.Keyfunc)
    ensures forall a :: Jws.IsHmac(a) ==> keyfunc(a) == Success(tokenSecret)
    ensures forall a :: !Jws.IsHmac(a) ==> keyfunc(a) == Failure(a)
  {
    alg => if !Jws.IsHmac(alg) then Failure(alg) else Success(tokenSecret)
  }

  /** One constructor per error return of `ValidateJWT`. */
  datatype ValidationError =
    | CouldNotParseToken(cause: Jws.ParseError)
    | InvalidToken
    | TokenExpired
    | InvalidIssuer
    | CouldNotParseSubject

  function ValidationMessage(e: ValidationError): string
  {
    match e
    case CouldNotParseToken(cause) => "couldn't parse token: " + Jws.ParseErrorMessage(cause)
    case InvalidToken => "invalid token"
    case TokenExpired => "token is expired"
    case InvalidIssuer => "invalid issuer"
    case CouldNotParseSubject => "couldn't parse subject: invalid UUID"
  }

  /** The parse result passes every check `ValidateJWT` makes after parsing. */
  predicate PassesChecks(parsed: Result<Jws.Parsed, Jws.ParseError>, now: int)
  {
    && parsed.Success?
    && parsed.value.valid
    && now <= parsed.value.claims.expiresAt
    && parsed.value.claims.issuer == Issuer
    && Uuid.Parse(parsed.value.claims.subject).Some?
  }

  /** The checks `ValidateJWT` runs on whatever the parser returned, in the
      source's order: parse error, `Valid` flag, expiry, issuer, subject.
      Every failure returns `uuid.Nil`; an expiry strictly before `now` is
      never accepted, whatever the parser let through. */
  function Check(parsed: Result<Jws.Parsed, Jws.ParseError>, now: int): (r: Ret<Uuid.Uuid, ValidationError>)
    ensures !r.Ok() ==> r.value == Uuid.Nil
    ensures r.Ok() <==> PassesChecks(parsed, now)
    ensures r.Ok() ==> Uuid.Parse(parsed.value.claims.subject) == Some(r.value)
    ensures parsed.Success? && parsed.value.claims.expiresAt < now ==> !r.Ok()
  {
    match parsed
    case Failure(cause) => Ret(Uuid.Nil, Some(CouldNotParseToken(cause)))
    case Success(token) =>
      if !token.valid then Ret(Uuid.Nil, Some(InvalidToken))
      else if token.claims.expiresAt < now then Ret(Uuid.Nil, Some(TokenExpired))
      else if token.claims.issuer != Issuer then Ret(Uuid.Nil, Some(InvalidIssuer))
      else if Uuid.Parse(token.claims.subject).None? then Ret(Uuid.Nil, Some(CouldNotParseSubject))
      else Ret(Uuid.Parse(token.claims.subject).value, None)
  }

  /** Each error of `Check` is reported exactly when every earlier check
      passed and its own check failed. */
  lemma CheckReportsFirstFailure(parsed: Result<Jws.Parsed, Jws.ParseError>, now: int)
    ensures Check(parsed, now).err.Some? && Check(parsed, now).err.value.CouldNotParseToken?
      <==> parsed.Failure?
    ensures Check(parsed, now).err == Some(InvalidToken)
      <==> parsed.Success? && !parsed.value.valid
    ensures Check(parsed, now).err == Some(TokenExpired)
      <==> parsed.Success? && parsed.value.valid && parsed.value.claims.expiresAt < now
    ensures Check(parsed, now).err == Some(InvalidIssuer)
      <==> && parsed.Success? && parsed.value.valid && now <= parsed.value.claims.expiresAt
           && parsed.value.claims.issuer != Issuer
    ensures Check(parsed, now).err == Some(CouldNotParseSubject)
      <==> && parsed.Success? && parsed.value.valid && now <= parsed.value.claims.expiresAt
           && parsed.value.claims.issuer == Issuer && Uuid.Parse(parsed.value.claims.subject).None?
  {
  }

  /** A token that expires exactly at `now` passes the re-check. */
  lemma ExpiryBoundary(claims: Jws.Claims, now: int)
    requires claims.expiresAt == now && claims.issuer == Issuer
    requires Uuid.Parse(claims.subject).Some?
    ensures Check(Success(Jws.Parsed(claims, true)), now) == Ret(Uuid.Parse(claims.subject).value, None)
  {
  }

  /** `ValidateJWT(tokenString, tokenSecret)`. The clock is read twice: by
      the library's claim validation inside `jwt.ParseWithClaims`, at
      `parseNow`, and by the expiry re-check, at `now`. */
  function ValidateJWT(tokenString: Jws.Token, tokenSecret: string, parseNow: int, now: int): (r: Ret<Uuid.Uuid, ValidationError>)
    ensures !r.Ok() ==> r.value == Uuid.Nil
    ensures r.Ok() ==>
      && tokenString.Signed?
      && Jws.IsHmac(tokenString.alg)
      && tokenString.signature
         == Jws.SignatureOf(tokenString.alg, Jws.HmacKeyOf(tokenString.alg, tokenSecret), tokenString.claims)
      && tokenString.claims.issuer == Issuer
      && parseNow < tokenString.claims.expiresAt
      && now <= tokenString.claims.expiresAt
      && Uuid.Parse(tokenString.claims.subject) == Some(r.value)
    ensures tokenString.Signed? && !Jws.IsHmac(tokenString.alg) ==>
      r.err == Some(CouldNotParseToken(Jws.Unverifiable(tokenString.alg)))
  {
    Check(Jws.ParseWithClaims(tokenString, KeyFor(tokenSecret), parseNow), now)
  }

  /** The re-check reports an expired token exactly when a correctly signed
      HMAC token expires after the library's clock reading and before the
      re-check's. */
  lemma RecheckBetweenReads(tokenString: Jws.Token, tokenSecret: string, parseNow: int, now: int)
    ensures ValidateJWT(tokenString, tokenSecret, parseNow, now).err == Some(TokenExpired)
      <==> && tokenString.Signed?
           && Jws.IsHmac(tokenString.alg)
           && tokenString.signature
              == Jws.SignatureOf(tokenString.alg, Jws.HmacKeyOf(tokenString.alg, tokenSecret), tokenString.claims)
           && parseNow < tokenString.claims.expiresAt < now
  {
    CheckReportsFirstFailure(Jws.ParseWithClaims(tokenString, KeyFor(tokenSecret), parseNow), now);
  }

  /** In particular the re-check never fires when both readings agree, nor
      when the clock does not advance between them. */
  lemma RecheckNeedsClockAdvance(tokenString: Jws.Token, tokenSecret: string, parseNow: int, now: int)
    requires now <= parseNow
    ensures ValidateJWT(tokenString, tokenSecret, parseNow, now).err != Some(TokenExpired)
  {
    RecheckBetweenReads(tokenString, tokenSecret, parseNow, now);
  }

  /** A token made with a secret validates back to its user with any
      equivalent secret, as long as it has not expired at the library's
      reading of the clock and at most just expired at the re-check's. */
  lemma MakeThenValidate(userID: Uuid.Uuid, tokenSecret: string, secret: string, expiresIn: int, issuedAt: int,
                         parseNow: int, now: int)
    requires Jws.HmacKeyOf(Jws.HS256, tokenSecret) == Jws.HmacKeyOf(Jws.HS256, secret)
    requires parseNow < issuedAt + expiresIn && now <= issuedAt + expiresIn
    ensures ValidateJWT(MakeJWT(userID, tokenSecret, expiresIn, issuedAt), secret, parseNow, now) == Ret(userID, None)
  {
    var t := MakeJWT(userID, tokenSecret, expiresIn, issuedAt);
    Jws.ParseSigned(Jws.HS256, t.claims, tokenSecret, secret, KeyFor(secret), parseNow);
  }

  /** HMAC pads short keys with zero bytes, so a secret of fewer than 64
      bytes followed by a NUL validates the tokens the secret made. */
  lemma NulPaddedSecretAccepted(userID: Uuid.Uuid, tokenSecret: string, expiresIn: int, issuedAt: int,
                                parseNow: int, now: int)
    requires ByteLen(tokenSecret) < 64
    requires parseNow < issuedAt + expiresIn && now <= issuedAt + expiresIn
    ensures ValidateJWT(MakeJWT(userID, tokenSecret, expiresIn, issuedAt), tokenSecret + "\0", parseNow, now)
      == Ret(userID, None)
  {
    Jws.TrailingZeroEquivalent(Jws.HS256, tokenSecret);
    MakeThenValidate(userID, tokenSecret, tokenSecret + "\0", expiresIn, issuedAt, parseNow, now);
  }

  /** A token made with one secret never validates with a secret that is not
      equivalent to it. */
  lemma OtherSecretRejected(userID: Uuid.Uuid, secret: string, other: string, expiresIn: int, issuedAt: int,
                            parseNow: int, now: int)
    requires Jws.HmacKeyOf(Jws.HS256, secret) != Jws.HmacKeyOf(Jws.HS256, other)
    ensures ValidateJWT(MakeJWT(userID, secret, expiresIn, issuedAt), other, parseNow, now)
      == Ret(Uuid.Nil, Some(CouldNotParseToken(Jws.SignatureInvalid)))
  {
    var t := MakeJWT(userID, secret, expiresIn, issuedAt);
    Jws.ParseOtherKey(Jws.HS256, t.claims, secret, other, KeyFor(other), parseNow);
  }

  /** A token the library sees at or after its expiry is rejected by the
      parser, whatever the re-check's clock says. */
  lemma ExpiredRejected(userID: Uuid.Uuid, tokenSecret: string, expiresIn: int, issuedAt: int, parseNow: int, now: int)
    requires issuedAt + expiresIn <= parseNow
    ensures ValidateJWT(MakeJWT(userID, tokenSecret, expiresIn, issuedAt), tokenSecret, parseNow, now)
      == Ret(Uuid.Nil, Some(CouldNotParseToken(Jws.Expired)))
  {
  }

  /* ---------- GetBearerToken ---------- */

  /** `GetBearerToken(headers)`: the second field of a `Bearer <token>`
      authorization value, provided it has exactly three dot-separated
      segments (empty segments allowed). */
  function GetBearerToken(headers: Header): (r: Ret<string, AuthError>)
    ensures !r.Ok() ==> r.value == ""
    ensures r.Ok() <==>
      HasSchemeFields(Get(headers, Authorization), Bearer)
      && Count(Fields(Get(headers, Authorization))[1], '.') == 2
    ensures r.Ok() ==> r.value == Fields(Get(headers, Authorization))[1]
    ensures r.Ok() ==> IsWord(r.value) && Count(r.value, '.') == 2
    ensures r.Ok() <==>
      HasSchemeFields(Get(headers, Authorization), Bearer)
      && |Split(Fields(Get(headers, Authorization))[1], '.')| == 3
    ensures r.err != Some(EmptyCredential(Bearer))
  {
    match SchemeAndCredential(Get(headers, Authorization), Bearer)
    case Failure(e) => Ret("", Some(e))
    case Success(token) =>
      SplitCount(token, '.');
      if |Split(token, '.')| != 3 then Ret("", Some(InvalidBearerFormat))
      else Ret(token, None)
  }

  /** The error `GetBearerToken` reports is that of the first failing check:
      empty value, then field count, then scheme, then dot structure. */
  lemma BearerErrorOrder(headers: Header)
    ensures Get(headers, Authorization) == "" ==>
      GetBearerToken(headers).err == Some(MissingOrEmpty)
    ensures Get(headers, Authorization) != "" && |Fields(Get(headers, Authorization))| != 2 ==>
      GetBearerToken(headers).err == Some(BadFormat(Bearer))
    ensures (|Fields(Get(headers, Authorization))| == 2
             && !EqualFold(Fields(Get(headers, Authorization))[0], "Bearer")) ==>
      GetBearerToken(headers).err == Some(WrongScheme(Bearer))
    ensures (HasSchemeFields(Get(headers, Authorization), Bearer)
             && Count(Fields(Get(headers, Authorization))[1], '.') != 2) ==>
      GetBearerToken(headers).err == Some(InvalidBearerFormat)
  {
    SchemeAndCredentialErrors(Get(headers, Authorization), Bearer);
  }

  /** Every accepted header reads `Bearer <token>` up to case and white
      space, and the token has exactly two dots. */
  lemma BearerAcceptedShape(headers: Header)
    returns (word: string, lead: string, mid: string, trail: string)
    requires GetBearerToken(headers).Ok()
    ensures Shaped(Get(headers, Authorization), Bearer, word, lead, mid, GetBearerToken(headers).value, trail)
    ensures Count(GetBearerToken(headers).value, '.') == 2
  {
    word, lead, mid, trail := SchemeAndCredentialShape(Get(headers, Authorization), Bearer);
  }

  /** Every header that reads `Bearer <token>` up to case and white space,
      with two dots in the token, is accepted and yields that token. */
  lemma BearerShapeAccepted(headers: Header, word: string, lead: string, mid: string, token: string, trail: string)
    requires Shaped(Get(headers, Authorization), Bearer, word, lead, mid, token, trail)
    requires Count(token, '.') == 2
    ensures GetBearerToken(headers) == Ret(token, None)
  {
    ShapedAccepted(Get(headers, Authorization), Bearer, word, lead, mid, token, trail);
    SplitCount(token, '.');
  }
}
