# Chirpy authentication and chirp helpers in Dafny

This project models the pure core of Chirpy, a small Go micro-blogging
server: how credentials are taken out of an `Authorization` header, how
session tokens (JWTs) are made and validated, how refresh tokens are made,
and how a new chirp is checked and cleaned before it is stored. The model
consists of:

- `wrappers.dfy`: `Option`, `Result`, and `Ret`, which is Go's `(value, error)` pair. Because `Ret` keeps the value beside the error, "every failure returns the zero value" can be stated as a contract.
- `strings.dfy`: the parts of Go's `strings` package the core uses, on strings modelled as sequences of Unicode scalar values.
  - `len` as a UTF-8 byte count.
  - `Split` and `Join` on one separator.
  - `ToLower` and `EqualFold`.
  - `Contains`.
- `whitespace.dfy`: `unicode.IsSpace` and `strings.Fields`, with shape lemmas. A header value has two fields exactly when it reads `lead word mid word trail`.
- `credentials.dfy`: what the three header extractors share. This is the header lookup, the error messages, and the common check prefix: empty value, two fields, scheme.
- `hex.dfy` and `uuid.dfy`: `hex.EncodeToString` and `hex.DecodeString`, and `uuid.UUID.String` and `uuid.Parse` on the 36-character form. Each is proved to be a round trip.
- `jws.dfy`: a symbolic model of `github.com/golang-jwt/jwt/v5`. A signature is the term naming the algorithm, the effective HMAC key and the claims it was made from. The effective key follows section 2 of RFC 2104: a key no longer than the hash block counts without its trailing zero bytes, and a longer key counts as its (symbolic) digest. `ParseWithClaims` checks the token in the library's order: decoding, key lookup, signature, expiry.
- `jwt.dfy`: `MakeJWT`, `ValidateJWT` (with its post-parse checks as a separate function `Check`) and `GetBearerToken`, from `internal/auth/jwt.go`.
- `refresh_token.dfy`: `MakeRefreshToken` and `GetRefreshToken`, from `internal/auth/refresh_token.go`.
- `api_key.dfy`: `GetAPIKey`, from `internal/auth/api.go`.
- `chirps.dfy`: `validateChirp`, `getCleanedBody` and `populateChirps`, from `handler_chirp.go`. `populateChirps` is written as the source's loops over an array, with loop invariants.
- `jwt_test.dfy`: the table cases of `internal/auth/jwt_test.go`, restated as lemmas about the model.

The random source and the clock are parameters: the 32 random bytes, or
`None` when reading them failed, and each reading of the clock in whole
seconds. `ValidateJWT` reads the clock twice, once inside
`jwt.ParseWithClaims` (`parseNow`) and once at jwt.go line 54 (`now`), and
the model keeps the two readings apart.

Details of the code the model keeps:

- `GetRefreshToken` compares `len(token)` with 64 (refresh_token.go line 44). That is a byte count, not a character count, so the model measures it with `ByteLen`.
- `ValidateJWT` checks `token.Valid` between parsing and the expiry check (jwt.go lines 51-53).
- `refresh_token.go` line 35 names `bearerScheme`, a constant declared locally inside `GetBearerToken` (jwt.go line 69). The model uses its value, `"Bearer"`.

## Model

| member | source | states |
|---|---|---|
| Strings.ByteLenConcat | handler_chirp.go:76 | the byte length of a concatenation is the sum of the byte lengths |
| Strings.AsciiByteLen | handler_chirp.go:76 | on ASCII text, `len` in bytes equals the number of characters |
| Strings.Split | handler_chirp.go:91 | `strings.Split` yields at least one piece, and no piece contains the separator |
| Strings.SplitCount | internal/auth/jwt.go:91-92 | splitting yields exactly one more piece than there are separators, so "three parts" means "two dots" |
| Strings.JoinSplit | handler_chirp.go:91-98 | joining the pieces of a split with the same separator restores the original string |
| Strings.SplitJoin | handler_chirp.go:91-98 | splitting a join of separator-free pieces restores the pieces |
| Strings.LowerByteLen | handler_chirp.go:93 | the model's lower-casing, which maps only the characters whose lower case is ASCII, never makes a word longer in bytes |
| Strings.ContainsMiddle | internal/auth/jwt_test.go:124 | a message contains every substring it is built around |
| Whitespace.Fields | internal/auth/jwt.go:76 | every field `strings.Fields` returns is non-empty and free of white space |
| Whitespace.FieldsSkipSpace | internal/auth/jwt.go:76 | leading white space does not change the fields |
| Whitespace.FieldsEmpty | internal/auth/jwt.go:76 | a value has no fields exactly when it is all white space |
| Whitespace.FieldsOfOne | internal/auth/jwt.go:76-77 | one word surrounded by white space has exactly that one field |
| Whitespace.FieldsOfTwo | internal/auth/jwt.go:76-77 | two words separated by non-empty white space, with optional white space around them, have exactly those two fields |
| Whitespace.TwoFieldShape | internal/auth/jwt.go:76-81 | conversely, a value with exactly two fields is those words with white space between them and optional white space around them |
| Credentials.AuthorizationHeader | internal/auth/jwt_test.go:148 | a header built from one `Authorization` value reads back that value |
| Credentials.SchemeAndCredential | internal/auth/jwt.go:71-89 | the shared checks succeed exactly when there are two fields and the first names the scheme ignoring case; they then return the second field, which is a non-empty word; the empty-credential error is never produced |
| Credentials.SchemeAndCredentialErrors | internal/auth/jwt.go:72-84 | the reported error is the first failing check: empty value, then field count, then scheme |
| Credentials.SchemeAndCredentialShape | internal/auth/jwt.go:76-89 | every accepted value reads `<scheme> <credential>` up to case and white space |
| Credentials.ShapedAccepted | internal/auth/jwt.go:76-89 | every value of that shape is accepted with exactly its credential |
| Credentials.SchemeAndCredentialOnlyFields | internal/auth/jwt.go:76 | two non-empty values with the same fields get the same answer |
| Credentials.SchemesExclusive | internal/auth/api.go:23 | no value passes the scheme check for both "Bearer" and "ApiKey" |
| Hex.Encode | internal/auth/refresh_token.go:19 | the encoding has two lower-case hex digits per byte |
| Hex.DecodeEncode | internal/auth/refresh_token.go:19 | decoding the encoding recovers the bytes |
| Hex.EncodeInjective | internal/auth/refresh_token.go:19 | distinct byte strings have distinct encodings |
| Uuid.ToString | internal/auth/jwt.go:25 | a UUID's canonical text has 36 characters with dashes at positions 8, 13, 18 and 23 |
| Uuid.ParseToString | internal/auth/jwt.go:61 | parsing a UUID's canonical text gives the UUID back |
| Uuid.ToStringInjective | internal/auth/jwt.go:25 | distinct UUIDs have distinct subjects |
| Jws.StripZeros | internal/auth/jwt.go:45 | the key with its trailing NUL characters removed: a prefix of the key, not ending in NUL, followed in the key only by NULs |
| Jws.TrailingZeroEquivalent | internal/auth/jwt.go:45 | a key shorter than the hash block and the same key with a NUL appended are the same HMAC key |
| Jws.PlainKey | internal/auth/jwt.go:45 | a key no longer than the block and not ending in NUL is its own effective key, so different such keys are different HMAC keys |
| Jws.ParseWithClaims | internal/auth/jwt.go:38-49 | a successful parse is of a decodable token whose algorithm the key lookup accepts and whose signature is over its own claims with the effective key the lookup returns; it returns those claims, sets `Valid`, and happens strictly before expiry |
| Jws.ParseSigned | internal/auth/jwt.go:38-46 | a token signed with a key HMAC-equivalent to the one the key lookup returns parses to its claims until it expires |
| Jws.ParseOtherKey | internal/auth/jwt.go:38-49 | a token signed with a key that is not HMAC-equivalent to the one the key lookup returns fails the signature check |
| Jwt.MakeJWT | internal/auth/jwt.go:18-34 | the token is HS256-signed with the secret's effective key; issuer "chirpy"; subject the user's canonical lower-case UUID text, which parses back to the user; issued at `now`; expiry `expiresIn` seconds later |
| Jwt.Check | internal/auth/jwt.go:47-65 | after parsing: success exactly when the parse succeeded, `Valid` is set, expiry is not before `now`, the issuer is "chirpy" and the subject is a UUID; the result is then that UUID; every failure returns `uuid.Nil`; an expiry strictly before `now` is never accepted |
| Jwt.CheckReportsFirstFailure | internal/auth/jwt.go:47-64 | each error is reported exactly when every earlier check passed and its own check failed, in the order parse, `Valid`, expiry, issuer, subject |
| Jwt.ExpiryBoundary | internal/auth/jwt.go:54-56 | a token whose expiry equals `now` passes the re-check |
| Jwt.ValidateJWT | internal/auth/jwt.go:36-66 | an accepted token is HMAC-signed with the secret's effective key, issued by "chirpy", unexpired at the library's clock reading and not expired at the re-check's, with a UUID subject that is the result; failures return `uuid.Nil`; non-HMAC tokens fail at key lookup |
| Jwt.RecheckBetweenReads | internal/auth/jwt.go:38-56 | "token is expired" is reported exactly when a correctly signed HMAC token expires after the library's clock reading and before the re-check's |
| Jwt.RecheckNeedsClockAdvance | internal/auth/jwt.go:54-56 | the re-check never fires unless the clock advances between the two readings |
| Jwt.MakeThenValidate | internal/auth/jwt.go:18-66 | a token made with a secret validates back to its user with any HMAC-equivalent secret while it is unexpired at both clock readings (the re-check accepts expiry equal to its reading) |
| Jwt.NulPaddedSecretAccepted | internal/auth/jwt.go:45 | a secret shorter than 64 bytes with a NUL appended validates the tokens the secret made |
| Jwt.OtherSecretRejected | internal/auth/jwt.go:38-49 | a token made with one secret fails with a signature error under any secret that is not HMAC-equivalent to it |
| Jwt.ExpiredRejected | internal/auth/jwt.go:47-49 | a token the library sees at or after its expiry fails with the parser's expiry error, whatever the re-check's clock says |
| Jwt.GetBearerToken | internal/auth/jwt.go:68-97 | success exactly when there are two fields, the first is "Bearer" ignoring case, and the second splits on "." into three parts (has two dots); the result is that field, a non-empty word; failures return ""; the empty-token error is never produced |
| Jwt.BearerErrorOrder | internal/auth/jwt.go:71-94 | the reported error is the first failing check: empty value, field count, scheme, dot structure |
| Jwt.BearerAcceptedShape | internal/auth/jwt.go:76-96 | every accepted header reads `Bearer <token>` up to case and white space, with two dots in the token |
| Jwt.BearerShapeAccepted | internal/auth/jwt.go:76-96 | every header of that shape is accepted with exactly its token |
| RefreshToken.MakeRefreshToken | internal/auth/refresh_token.go:12-21 | a failed random read gives "" and an error; otherwise the token is 64 lower-case hex digits that decode to the random bytes |
| RefreshToken.DistinctRandomDistinctTokens | internal/auth/refresh_token.go:19 | different random bytes give different tokens |
| RefreshToken.LowerHexIsAscii | internal/auth/refresh_token.go:19 | a hex token's byte length is its character count, and it is a single field unless empty |
| RefreshToken.GetRefreshToken | internal/auth/refresh_token.go:23-49 | success exactly when there are two fields, the first is "Bearer" ignoring case, and the second is 64 bytes long; the result is that field; failures return "" |
| RefreshToken.RefreshErrorOrder | internal/auth/refresh_token.go:24-46 | the reported error is the first failing check: empty value, field count, scheme, length |
| RefreshToken.RefreshAcceptedShape | internal/auth/refresh_token.go:29-48 | every accepted header reads `Bearer <token>` up to case and white space, with a 64-byte token |
| RefreshToken.RefreshShapeAccepted | internal/auth/refresh_token.go:29-48 | every header of that shape is accepted with exactly its token |
| RefreshToken.MakeThenGet | internal/auth/refresh_token.go:12-48 | a fresh token sent as `Bearer <token>` is extracted unchanged |
| RefreshToken.NonHexAccepted | internal/auth/refresh_token.go:44-46 | only the length is checked: 64 letters `z` are accepted |
| ApiKey.GetAPIKey | internal/auth/api.go:9-33 | success exactly when there are two fields and the first is "ApiKey" ignoring case; the result is the second field, a non-empty word; failures return ""; the empty-key error is never produced |
| ApiKey.ApiKeyErrorOrder | internal/auth/api.go:12-25 | the reported error is the first failing check: empty value, field count, scheme |
| ApiKey.ApiKeyAcceptedShape | internal/auth/api.go:17-32 | every accepted header reads `ApiKey <key>` up to case and white space |
| ApiKey.ApiKeyShapeAccepted | internal/auth/api.go:17-32 | every header of that shape is accepted with exactly its key |
| ApiKey.ApiKeyOnlyFields | internal/auth/api.go:17 | the answer depends only on the fields of a non-empty value |
| ApiKey.ApiKeySpacingExample | internal/auth/api.go:17-32 | "ApiKey   my-key  " yields "my-key" |
| ApiKey.ApiKeyRejectedAsBearer | internal/auth/api.go:22-25 | a header `GetAPIKey` accepts is refused by both bearer extractors with the scheme error |
| ApiKey.BearerRejectedAsApiKey | internal/auth/jwt.go:81-84 | a header either bearer extractor accepts is refused by `GetAPIKey` with the scheme error |
| Chirps.CleanedWords | handler_chirp.go:90-100 | the cleaned body has as many space-separated words as the body; word i is replaced by "****" when its lower case is a bad word, and is otherwise unchanged |
| Chirps.NoBadWordUnchanged | handler_chirp.go:91-98 | a body without bad words comes back unchanged, spacing included |
| Chirps.CleanIdempotent | handler_chirp.go:90-100 | cleaning twice is cleaning once when "****" is not a bad word |
| Chirps.JoinByteLen | handler_chirp.go:98 | joining pieces that are no longer in bytes gives a string that is no longer in bytes |
| Chirps.CleanByteLen | handler_chirp.go:90-100 | when the bad words are ASCII and every one is at least as long as "****", cleaning never lengthens a body |
| Chirps.BadWordsAscii | handler_chirp.go:80-84 | the fixed bad words are plain ASCII |
| Chirps.BadWordsLong | handler_chirp.go:80-84 | every fixed bad word is at least four bytes long |
| Chirps.ValidateChirp | handler_chirp.go:73-88 | an error exactly when the body exceeds 140 bytes, with "" as the value; otherwise the body cleaned against the three fixed words, which still fits in 140 bytes |
| Chirps.ByteLenRepeat | handler_chirp.go:76 | `n` copies of a character take `n` times its UTF-8 width |
| Chirps.LimitInclusive | handler_chirp.go:74-78 | 140 bytes are accepted, 141 are refused |
| Chirps.LimitCountsBytes | handler_chirp.go:76 | 47 euro signs (141 bytes, 47 characters) are refused |
| Chirps.CleanThreeWords | handler_chirp.go:90-100 | a three-word body is cleaned word by word |
| Chirps.CleanWordExamples | handler_chirp.go:93-96 | matching ignores case but not punctuation: "Kerfuffle" is replaced, "fornax!" and "I" are kept |
| Chirps.CleanExample | handler_chirp.go:90-100 | "I Kerfuffle fornax!" is cleaned to "I **** fornax!" |
| Chirps.PopulateChirps | handler_chirp.go:152-178 | the result has the input's length; ascending, element i is stored chirp i; descending, element n-1-i is stored chirp i, so the descending result is the ascending one reversed |
| JwtTest.ValidTokenCase | internal/auth/jwt_test.go:65-71 | a token made with the test secret for one hour validates to its user whenever both clock readings fall within that hour |
| JwtTest.SecretsDistinct | internal/auth/jwt_test.go:23 | "wrong-secret-key" and "test-secret-key" are different HMAC keys |
| JwtTest.WrongSecretPlain | internal/auth/jwt_test.go:23 | "wrong-secret-key" is its own effective HMAC key |
| JwtTest.SecretKeyPlain | internal/auth/jwt_test.go:15 | "test-secret-key" is its own effective HMAC key |
| JwtTest.ExpiredMessage | internal/auth/jwt_test.go:86 | the parser's expiry error message contains "token is expired" |
| JwtTest.IssuerMessage | internal/auth/jwt_test.go:94 | the issuer error message contains "invalid issuer" |
| JwtTest.SubjectMessage | internal/auth/jwt_test.go:110 | the subject error message contains "couldn't parse subject" |
| JwtTest.ParseFailureMessage | internal/auth/jwt_test.go:72-79 | every parse failure's message contains "couldn't parse token" |
| JwtTest.InvalidSignatureCase | internal/auth/jwt_test.go:72-79 | a token made with "wrong-secret-key" fails with `uuid.Nil` and a message containing "couldn't parse token" |
| JwtTest.ExpiredTokenCase | internal/auth/jwt_test.go:80-87 | a token made with a lifetime of minus one hour fails with `uuid.Nil` and a message containing "token is expired" |
| JwtTest.InvalidIssuerCase | internal/auth/jwt_test.go:88-95 | a correctly signed, unexpired token from "invalid-issuer" fails with the issuer error |
| JwtTest.MalformedTokenCase | internal/auth/jwt_test.go:96-103 | "this.is.not.a.valid.token" fails with a parse error |
| JwtTest.InvalidSubjectCase | internal/auth/jwt_test.go:104-111 | a correctly signed, unexpired token with subject "invalid-uuid" fails with the subject error |
| JwtTest.ValidTokenWord | internal/auth/jwt_test.go:137 | "valid.token.here" is one word with two dots |
| JwtTest.ValidHeaderRow | internal/auth/jwt_test.go:146-151 | "Bearer valid.token.here" yields "valid.token.here" |
| JwtTest.TokenAccepted | internal/auth/jwt_test.go:146-151 | "Bearer", non-empty white space and a two-dot token, with optional white space around them, yield the token |
| JwtTest.OneSpaceAccepted | internal/auth/jwt_test.go:146-151 | for every two-dot token, "Bearer " plus the token yields the token |
| JwtTest.SeveralSpacesAccepted | internal/auth/jwt_test.go:164-169 | for every two-dot token, four spaces after "Bearer" yield the token |
| JwtTest.SeveralSpacesRow | internal/auth/jwt_test.go:164-169 | "Bearer    valid.token.here" yields "valid.token.here" |
| JwtTest.TabAccepted | internal/auth/jwt_test.go:170-175 | for every two-dot token, a tab after "Bearer" yields the token |
| JwtTest.TabRow | internal/auth/jwt_test.go:170-175 | "Bearer\tvalid.token.here" yields "valid.token.here" |
| JwtTest.SurroundingSpacesAccepted | internal/auth/jwt_test.go:200-205 | for every two-dot token, spaces before and after yield the token |
| JwtTest.SurroundingSpacesRow | internal/auth/jwt_test.go:200-205 | "   Bearer valid.token.here   " yields "valid.token.here" |
| JwtTest.NewlineAccepted | internal/auth/jwt_test.go:206-211 | for every two-dot token, a newline after "Bearer" yields the token |
| JwtTest.NewlineRow | internal/auth/jwt_test.go:206-211 | "Bearer\nvalid.token.here" yields "valid.token.here" |
| JwtTest.EmptySegmentsAccepted | internal/auth/jwt.go:91-96 | a token made of two bare dots is accepted |
| JwtTest.MissingHeaderCase | internal/auth/jwt_test.go:152-157 | no header gives the missing-or-empty error and its message |
| JwtTest.BasicIsNotBearer | internal/auth/jwt_test.go:158-163 | "Basic" does not equal "Bearer" ignoring case |
| JwtTest.IncorrectSchemeCase | internal/auth/jwt_test.go:158-163 | "Basic " plus any word gives the scheme error and its message |
| JwtTest.IncorrectSchemeRow | internal/auth/jwt_test.go:158-163 | "Basic valid.token.here" gives the scheme error |
| JwtTest.OneFieldCases | internal/auth/jwt_test.go:176-199 | "Bearer " and "Bearer" give the format error and its message |
| JwtTest.ThreeFieldsRejected | internal/auth/jwt.go:76-79 | any three single-space-separated words give the format error |
| JwtTest.MultipleTokensCase | internal/auth/jwt_test.go:188-193 | "Bearer token1 token2" gives the format error |
| JwtTest.FormatBeforeScheme | internal/auth/jwt.go:76-84 | "Basic a b" gives the format error, not the scheme error |
| JwtTest.UndottedRejected | internal/auth/jwt.go:91-94 | "Bearer " plus a word without dots gives the bearer-format error |
| JwtTest.MalformedStructureCase | internal/auth/jwt_test.go:182-187 | "Bearer malformedtoken" gives "invalid bearer token format" |

## Left out

- HTTP handlers, JSON encoding and decoding, and database calls (handler_login.go, handler_refresh_token.go, handler_upgrade.go, reset.go, main.go, the handler bodies of handler_chirp.go): input/output glue with no logic of its own to prove.
- internal/auth/hash.go: a thin wrapper over bcrypt, a foreign library.
- `auth.GetAccessToken`, called at handler_chirp.go lines 29 and 211: its source is not part of this model.
- HMAC-SHA-256, base64url and JSON inside the JWT library: a signature is a symbolic term, and a token is either decodable into header algorithm, claims and signature, or not decodable at all.
- Jws.HmacKeyOf: a key longer than the hash block stands for its digest symbolically. SHA-256 is not computed, so two long keys with the same digest, or a short key equal to a long key's digest, count as different keys here.
- Jws.Claims: the claim set has no `nbf`; the library always refuses a token whose `nbf` is in the future, and such tokens are not modelled. The opt-in validations (audience, issued-at, leeway) are not enabled by package `auth`.
- Jws.ParseErrorMessage: the library's message texts are approximated by their fixed prefixes; the malformed message omits the library's detail text.
- Jwt.ValidationMessage: the subject error is the fixed text "couldn't parse subject: invalid UUID", not `uuid.Parse`'s detailed error.
- Jws.Claims: the expiry claim is always present; a token without `exp` would dereference nil at jwt.go line 54, and that panic is not modelled.
- Jwt.MakeJWT: the signing error at jwt.go lines 29-31 cannot occur for HS256 with a byte-slice key, so `MakeJWT` always returns a token.
- Jwt.MakeJWT: the two `time.Now()` calls at jwt.go lines 23-24 are one parameter `now` in whole seconds, the precision `jwt.NumericDate` keeps. `expiresIn` is whole seconds too, where the source takes a `time.Duration` in nanoseconds and the sum is truncated to seconds.
- Jwt.ValidateJWT: the clock readings are whole seconds; the sub-second part that `time.Time.Before` also compares at jwt.go line 54 is not modelled.
- Uuid.Parse: only the 36-character form; the 32-, 38- and 45-character forms and the `urn:uuid:` prefix are not modelled.
- Strings.EqualFold: exact whenever one side is ASCII, which holds at every call (the schemes are "Bearer" and "ApiKey"); full Unicode case folding is not modelled.
- Strings.LowerChar: maps ASCII capitals, KELVIN SIGN and LATIN CAPITAL LETTER I WITH DOT ABOVE; every other character is kept. This decides membership in a set of ASCII words exactly as `strings.ToLower` does, but it does not compute the full lower-case string.
- Strings.LowerByteLen: holds for the model's lower-casing only; Go's `strings.ToLower` lengthens some characters (U+023A, two bytes, becomes U+2C65, three bytes).
- Chirps.CleanedWords: the bad-word set is arbitrary here, but the model's lower-casing matches Go's only for sets of ASCII words, the kind `validateChirp` passes.
- Strings.ByteLen: strings are sequences of Unicode scalar values, so invalid UTF-8 byte sequences are not modelled.
- Credentials.Get: header names are taken as already canonical; `http.CanonicalHeaderKey` is not modelled.
- Chirps.DbChirp: timestamps are integers in an arbitrary unit, not `time.Time`.
- `crypto/rand`: the 32 random bytes, or the failure to get them, are a parameter of `MakeRefreshToken`. RefreshToken.RefreshMessage is the fixed prefix of the error message; the wrapped cause that refresh_token.go line 16 appends is omitted.
