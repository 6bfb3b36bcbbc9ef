/** A symbolic model of the part of `github.com/golang-jwt/jwt/v5` that
    package `auth` calls: signing a claim set (`Token.SignedString`) and
    parsing it back (`jwt.ParseWithClaims`). Hash functions, base64url and
    JSON are not modelled: a signature is the term naming the algorithm, the
    effective HMAC key and the claims it was made from, so a signature check
    succeeds exactly when the token was signed with the same algorithm, an
    equivalent key and the same claims. */
module Jws {
  import opened Wrappers
  import opened Strings

  /** The signing methods the library registers. */
  datatype Alg = HS256 | HS384 | HS512 | RS256 | ES256 | EdDSA | NoSigning

  /** The methods of type `*jwt.SigningMethodHMAC`. */
  predicate IsHmac(a: Alg)
  {
    a.HS256? || a.HS384? || a.HS512?
  }

  function AlgName(a: Alg): string
  {
    match a
    case HS256 => "HS256"
    case HS384 => "HS384"
    case HS512 => "HS512"
    case RS256 => "RS256"
    case ES256 => "ES256"
    case EdDSA => "EdDSA"
    case NoSigning => "none"
  }

  /** `jwt.RegisteredClaims`, restricted to the fields package `auth` sets.
      Times are whole seconds, as `jwt.NumericDate` stores them. The
      expiry is always present. */
  datatype Claims = Claims(issuer: string, subject: string, issuedAt: int, expiresAt: int)

  /* ---------- the effective HMAC key (section 2 of RFC 2104) ---------- */

  /** The block size in bytes of the hash behind an HMAC method: 64 for
      SHA-256, 128 for SHA-384 and SHA-512. */
  function BlockSize(a: Alg): nat
  {
    if a.HS384? || a.HS512? then 128 else 64
  }

  /** The key HMAC actually mixes into the hash. A key no longer than the
      block is padded with zero bytes to the block, so only the key without
      its trailing zero bytes matters; a longer key is replaced by its
      digest, which stays a symbolic term here. */
  datatype HmacKey = Padded(key: string) | Digest(key: string)

  /** `s` without its trailing NUL characters, the only characters whose
      UTF-8 encoding is a zero byte. */
  function StripZeros(s: string): (r: string)
    ensures r <= s
    ensures |r| == 0 || r[|r| - 1] != '\0'
    ensures forall i :: |r| <= i < |s| ==> s[i] == '\0'
    decreases |s|
  {
    if |s| > 0 && s[|s| - 1] == '\0' then StripZeros(s[..|s| - 1]) else s
  }

  /** The effective key of `key` (the bytes of the Go string) under `alg`. */
  function HmacKeyOf(alg: Alg, key: string): HmacKey
  {
    if ByteLen(key) > BlockSize(alg) then Digest(key) else Padded(StripZeros(key))
  }

  /** A short key and the same key with a NUL appended are the same key. */
  lemma TrailingZeroEquivalent(alg: Alg, key: string)
    requires ByteLen(key) < BlockSize(alg)
    ensures HmacKeyOf(alg, key + "\0") == HmacKeyOf(alg, key)
  {
    ByteLenConcat(key, "\0");
    assert (key + "\0")[..|key|] == key;
  }

  /** A short key that does not end in NUL is its own effective key, so two
      different such keys are different keys. */
  lemma PlainKey(alg: Alg, key: string)
    requires ByteLen(key) <= BlockSize(alg)
    requires |key| == 0 || key[|key| - 1] != '\0'
    ensures HmacKeyOf(alg, key) == Padded(key)
  {
  }

  /** The signature `alg` computes over `claims` with the effective key. */
  datatype Signature = SignatureOf(alg: Alg, key: HmacKey, claims: Claims)

  /** A compact token as the parser sees it: either it decodes into a header
      algorithm, a claim set and a signature, or it does not decode at all. */
  datatype Token =
    | Signed(alg: Alg, claims: Claims, signature: Signature)
    | Undecodable(text: string)

  /** `jwt.NewWithClaims(alg, claims).SignedString(key)`. */
  function Sign(alg: Alg, claims: Claims, key: string): Token
  {
    Signed(alg, claims, SignatureOf(alg, HmacKeyOf(alg, key), claims))
  }

  /** The ways `jwt.ParseWithClaims` fails, in the order it checks them. */
  datatype ParseError =
    | Malformed
    | Unverifiable(rejected: Alg)
    | SignatureInvalid
    | Expired

  function ParseErrorMessage(e: ParseError): string
  {
    match e
    case Malformed => "token is malformed"
    case Unverifiable(a) => "token is unverifiable: error while executing keyfunc: unexpected signing method: " + AlgName(a)
    case SignatureInvalid => "token signature is invalid: signature is invalid"
    case Expired => "token has invalid claims: token is expired"
  }

  /** What a successful parse hands back: the decoded claims and the
      library's `Token.Valid` flag. */
  datatype Parsed = Parsed(claims: Claims, valid: bool)

  /** The key-lookup callback: the key to check a token's signature with,
      or the algorithm it refuses. */
  type Keyfunc = Alg -> Result<string, Alg>

  /** `jwt.ParseWithClaims(token, &claims, keyfunc)` at time `now` (whole
      seconds): decode, ask `keyfunc` for the key, check the signature, then
      validate the claims. With the default validator only the expiry is
      checked, and a token is expired unless `now` is strictly before it. */
  function ParseWithClaims(token: Token, keyfunc: Keyfunc, now: int): (r: Result<Parsed, ParseError>)
    ensures r.Success? ==> r.value.valid
    ensures r.Success? ==> token.Signed? && r.value.claims == token.claims && now < token.claims.expiresAt
    ensures r.Success? ==>
      && token.Signed?
      && keyfunc(token.alg).Success?
      && token.signature == SignatureOf(token.alg, HmacKeyOf(token.alg, keyfunc(token.alg).value), token.claims)
  {
    match token
    case Undecodable(_) => Failure(Malformed)
    case Signed(alg, claims, signature) =>
      match keyfunc(alg)
      case Failure(rejected) => Failure(Unverifiable(rejected))
      case Success(key) =>
        if signature != SignatureOf(alg, HmacKeyOf(alg, key), claims) then Failure(SignatureInvalid)
        else if !(now < claims.expiresAt) then Failure(Expired)
        else Success(Parsed(claims, true))
  }

  /** A token signed with a key equivalent to the one the keyfunc hands back
      parses to its own claims while it has not expired. */
  lemma ParseSigned(alg: Alg, claims: Claims, key: string, other: string, keyfunc: Keyfunc, now: int)
    requires keyfunc(alg) == Success(other)
    requires HmacKeyOf(alg, key) == HmacKeyOf(alg, other)
    requires now < claims.expiresAt
    ensures ParseWithClaims(Sign(alg, claims, key), keyfunc, now) == Success(Parsed(claims, true))
  {
  }

  /** A token signed with a key that is not equivalent to the one the
      keyfunc hands back fails the signature check, whatever its claims say. */
  lemma ParseOtherKey(alg: Alg, claims: Claims, key: string, other: string, keyfunc: Keyfunc, now: int)
    requires keyfunc(alg) == Success(other)
    requires HmacKeyOf(alg, key) != HmacKeyOf(alg, other)
    ensures ParseWithClaims(Sign(alg, claims, key), keyfunc, now) == Failure(SignatureInvalid)
  {
  }
}
