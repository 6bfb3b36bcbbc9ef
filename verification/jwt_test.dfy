/** The table tests of internal/auth/jwt_test.go, restated as lemmas about
    the model. `uuid.New()` and the clock are arbitrary: every case holds for
    every user `u`, every creation time `now`, and every pair of later
    readings `parseAt <= at` of the clock (by the library and by the
    re-check) within the hour the tests allow. */
module JwtTest {
  import opened Wrappers
  import opened Strings
  import opened Whitespace
  import opened Credentials
  import opened Jwt
  import Jws
  import Uuid

  const SecretKey: string := "test-secret-key"
  const Hour: int := 3600

  /** "Valid Token": a token made with the secret validates back to its user. */
  lemma ValidTokenCase(u: Uuid.Uuid, now: int, parseAt: int, at: int)
    requires now <= parseAt <= at < now + Hour
    ensures ValidateJWT(MakeJWT(u, SecretKey, Hour, now), SecretKey, parseAt, at) == Ret(u, None)
  {
    MakeThenValidate(u, SecretKey, SecretKey, Hour, now, parseAt, at);
  }

  /** "couldn't parse token" heads every parse failure's message. */
  lemma ParseFailureMessage(cause: Jws.ParseError)
    ensures Contains(ValidationMessage(CouldNotParseToken(cause)), "couldn't parse token")
  {
    var rest := ": " + Jws.ParseErrorMessage(cause);
    assert ValidationMessage(CouldNotParseToken(cause)) == "" + "couldn't parse token" + rest;
    ContainsMiddle("", "couldn't parse token", rest);
  }

  /** The two secrets of the table are different HMAC keys: both are short
      and neither ends in NUL. */
  lemma SecretsDistinct()
    ensures Jws.HmacKeyOf(Jws.HS256, "wrong-secret-key") != Jws.HmacKeyOf(Jws.HS256, SecretKey)
  {
    WrongSecretPlain();
    SecretKeyPlain();
  }

  lemma WrongSecretPlain()
    ensures Jws.HmacKeyOf(Jws.HS256, "wrong-secret-key") == Jws.Padded("wrong-secret-key")
  {
    ByteLenAtMostFour("wrong-secret-key");
    Jws.PlainKey(Jws.HS256, "wrong-secret-key");
  }

  lemma SecretKeyPlain()
    ensures Jws.HmacKeyOf(Jws.HS256, SecretKey) == Jws.Padded(SecretKey)
  {
    ByteLenAtMostFour(SecretKey);
    Jws.PlainKey(Jws.HS256, SecretKey);
  }

  /** "Invalid Signature": a token made with "wrong-secret-key" fails to parse. */
  lemma InvalidSignatureCase(u: Uuid.Uuid, now: int, parseAt: int, at: int)
    ensures var r := ValidateJWT(MakeJWT(u, "wrong-secret-key", Hour, now), SecretKey, parseAt, at);
      && r.value == Uuid.Nil && r.err.Some?
      && Contains(ValidationMessage(r.err.value), "couldn't parse token")
  {
    SecretsDistinct();
    OtherSecretRejected(u, "wrong-secret-key", SecretKey, Hour, now, parseAt, at);
    ParseFailureMessage(Jws.SignatureInvalid);
  }

  /** "Expired Token": a token made with a lifetime of minus one hour is
      refused, by the parser, with a message mentioning expiry. */
  lemma ExpiredTokenCase(u: Uuid.Uuid, now: int, parseAt: int, at: int)
    requires now <= parseAt <= at
    ensures var r := ValidateJWT(MakeJWT(u, SecretKey, -Hour, now), SecretKey, parseAt, at);
      && r.value == Uuid.Nil && r.err.Some?
      && Contains(ValidationMessage(r.err.value), "token is expired")
  {
    ExpiredMessage();
    ExpiredRejected(u, SecretKey, -Hour, now, parseAt, at);
  }

  /** The parser's expiry error mentions expiry. */
  lemma ExpiredMessage()
    ensures Contains(ValidationMessage(CouldNotParseToken(Jws.Expired)), "token is expired")
  {
    var m := ValidationMessage(CouldNotParseToken(Jws.Expired));
    assert m[48..] == "token is expired";
    assert "token is expired" <= m[48..];
  }

  /** "Invalid Issuer": a correctly signed, unexpired token from
      "invalid-issuer" is refused. */
  lemma InvalidIssuerCase(u: Uuid.Uuid, now: int, parseAt: int, at: int)
    requires now <= parseAt <= at < now + Hour
    ensures var t := Jws.Sign(Jws.HS256, Jws.Claims("invalid-issuer", Uuid.ToString(u), now, now + Hour), SecretKey);
      var r := ValidateJWT(t, SecretKey, parseAt, at);
      && r == Ret(Uuid.Nil, Some(InvalidIssuer))
      && Contains(ValidationMessage(r.err.value), "invalid issuer")
  {
    IssuerMessage();
  }

  lemma IssuerMessage()
    ensures Contains(ValidationMessage(InvalidIssuer), "invalid issuer")
  {
    ContainsMiddle("", "invalid issuer", "");
    assert "" + "invalid issuer" + "" == "invalid issuer";
  }

  /** "Malformed Token": text that does not decode fails to parse. */
  lemma MalformedTokenCase(parseAt: int, at: int)
    ensures var r := ValidateJWT(Jws.Undecodable("this.is.not.a.valid.token"), SecretKey, parseAt, at);
      && r == Ret(Uuid.Nil, Some(CouldNotParseToken(Jws.Malformed)))
      && Contains(ValidationMessage(r.err.value), "couldn't parse token")
  {
    ParseFailureMessage(Jws.Malformed);
  }

  /** "Invalid Subject": a correctly signed, unexpired token whose subject is
      "invalid-uuid" is refused. */
  lemma InvalidSubjectCase(now: int, parseAt: int, at: int)
    requires now <= parseAt <= at < now + Hour
    ensures var t := Jws.Sign(Jws.HS256, Jws.Claims(Issuer, "invalid-uuid", now, now + Hour), SecretKey);
      var r := ValidateJWT(t, SecretKey, parseAt, at);
      && r == Ret(Uuid.Nil, Some(CouldNotParseSubject))
      && Contains(ValidationMessage(r.err.value), "couldn't parse subject")
  {
    SubjectMessage();
  }

  lemma SubjectMessage()
    ensures Contains(ValidationMessage(CouldNotParseSubject), "couldn't parse subject")
  {
    var rest := ": invalid UUID";
    assert ValidationMessage(CouldNotParseSubject) == "" + "couldn't parse subject" + rest;
    ContainsMiddle("", "couldn't parse subject", rest);
  }

  /* ---------- TestGetBearerToken ---------- */

  /** The token of the accepted rows. */
  const ValidToken: string := "valid.token.here"

  /** Three dot-free pieces joined by two dots hold exactly two dots. */
  lemma DotsBetween(a: string, b: string, c: string)
    requires '.' !in a && '.' !in b && '.' !in c
    ensures Count(a + "." + b + "." + c, '.') == 2
  {
    CountAbsent(a, '.');
    CountAbsent(b, '.');
    CountAbsent(c, '.');
    assert Count(".", '.') == 1;
    CountConcat(a + "." + b + ".", c, '.');
    CountConcat(a + "." + b, ".", '.');
    CountConcat(a + ".", b, '.');
    CountConcat(a, ".", '.');
  }

  /** The test token is one word with two dots, so every accepted-row lemma
      below applies to it. */
  lemma ValidTokenWord()
    ensures IsWord(ValidToken) && Count(ValidToken, '.') == 2
  {
    assert IsWord(ValidToken);
    assert ValidToken == "valid" + "." + "token" + "." + "here";
    DotsBetween("valid", "token", "here");
  }


  /** The literal words and blanks the table is built from. */
  lemma TableWords()
    ensures IsWord("Bearer") && IsWord("Basic") && IsWord("token1") && IsWord("token2")
    ensures IsWord("a") && IsWord("b") && IsWord("malformedtoken")
    ensures AllSpace("") && AllSpace(" ") && AllSpace("   ") && AllSpace("    ")
    ensures AllSpace("\t") && AllSpace("\n")
  {
  }

  /** "Bearer", white space, and a token with two dots, with optional white
      space around, yield the token. */
  lemma TokenAccepted(lead: string, mid: string, token: string, trail: string)
    requires AllSpace(lead) && AllSpace(mid) && |mid| > 0 && AllSpace(trail)
    requires IsWord(token) && Count(token, '.') == 2
    ensures GetBearerToken(AuthorizationHeader(lead + "Bearer" + mid + token + trail)) == Ret(token, None)
  {
    TableWords();
    BearerShapeAccepted(AuthorizationHeader(lead + "Bearer" + mid + token + trail), "Bearer", lead, mid, token, trail);
  }

  /** "Valid Authorization Header": one space. */
  lemma OneSpaceAccepted(token: string)
    requires IsWord(token) && Count(token, '.') == 2
    ensures GetBearerToken(AuthorizationHeader("Bearer " + token)) == Ret(token, None)
  {
    assert "Bearer " + token == "" + "Bearer" + " " + token + "";
    TableWords();
    TokenAccepted("", " ", token, "");
  }

  /** "Multiple Spaces Between Scheme and Token". */
  lemma SeveralSpacesAccepted(token: string)
    requires IsWord(token) && Count(token, '.') == 2
    ensures GetBearerToken(AuthorizationHeader("Bearer    " + token)) == Ret(token, None)
  {
    assert "Bearer    " + token == "" + "Bearer" + "    " + token + "";
    TableWords();
    TokenAccepted("", "    ", token, "");
  }

  /** "Tabs and Newlines in Header": a tab. */
  lemma TabAccepted(token: string)
    requires IsWord(token) && Count(token, '.') == 2
    ensures GetBearerToken(AuthorizationHeader("Bearer\t" + token)) == Ret(token, None)
  {
    assert "Bearer\t" + token == "" + "Bearer" + "\t" + token + "";
    TableWords();
    TokenAccepted("", "\t", token, "");
  }

  /** "Bearer with Leading and Trailing Spaces". */
  lemma SurroundingSpacesAccepted(token: string)
    requires IsWord(token) && Count(token, '.') == 2
    ensures GetBearerToken(AuthorizationHeader("   Bearer " + token + "   ")) == Ret(token, None)
  {
    assert "   Bearer " + token + "   " == "   " + "Bearer" + " " + token + "   ";
    TableWords();
    TokenAccepted("   ", " ", token, "   ");
  }

  /** "Bearer with Newline Character". */
  lemma NewlineAccepted(token: string)
    requires IsWord(token) && Count(token, '.') == 2
    ensures GetBearerToken(AuthorizationHeader("Bearer\n" + token)) == Ret(token, None)
  {
    assert "Bearer\n" + token == "" + "Bearer" + "\n" + token + "";
    TableWords();
    TokenAccepted("", "\n", token, "");
  }

  /** "Valid Authorization Header" with the table's own token. */
  lemma ValidHeaderRow()
    ensures GetBearerToken(AuthorizationHeader("Bearer " + ValidToken)) == Ret(ValidToken, None)
  {
    ValidTokenWord();
    OneSpaceAccepted(ValidToken);
  }

  /** The whitespace rows with the table's own token. */
  lemma SeveralSpacesRow()
    ensures GetBearerToken(AuthorizationHeader("Bearer    " + ValidToken)) == Ret(ValidToken, None)
  {
    ValidTokenWord();
    SeveralSpacesAccepted(ValidToken);
  }

  lemma TabRow()
    ensures GetBearerToken(AuthorizationHeader("Bearer\t" + ValidToken)) == Ret(ValidToken, None)
  {
    ValidTokenWord();
    TabAccepted(ValidToken);
  }

  lemma SurroundingSpacesRow()
    ensures GetBearerToken(AuthorizationHeader("   Bearer " + ValidToken + "   ")) == Ret(ValidToken, None)
  {
    ValidTokenWord();
    SurroundingSpacesAccepted(ValidToken);
  }

  lemma NewlineRow()
    ensures GetBearerToken(AuthorizationHeader("Bearer\n" + ValidToken)) == Ret(ValidToken, None)
  {
    ValidTokenWord();
    NewlineAccepted(ValidToken);
  }

  /** "Incorrect Scheme" with the table's own token. */
  lemma IncorrectSchemeRow()
    ensures GetBearerToken(AuthorizationHeader("Basic " + ValidToken)) == Ret("", Some(WrongScheme(Bearer)))
  {
    ValidTokenWord();
    IncorrectSchemeCase(ValidToken);
  }

  /** Empty segments are allowed: a token of two bare dots is accepted. */
  lemma EmptySegmentsAccepted()
    ensures GetBearerToken(AuthorizationHeader("Bearer " + "..")) == Ret("..", None)
  {
    assert IsWord("..") && Count("..", '.') == 2;
    OneSpaceAccepted("..");
  }

  /** "Missing Authorization Header": no header at all. */
  lemma MissingHeaderCase()
    ensures GetBearerToken(map[]) == Ret("", Some(MissingOrEmpty))
    ensures Message(MissingOrEmpty) == "authorization header is missing or empty"
  {
    BearerErrorOrder(map[]);
  }

  /** "Basic" is not "Bearer", whatever the case. */
  lemma BasicIsNotBearer()
    ensures !EqualFold("Basic", "Bearer")
  {
    assert FoldChar("Basic"[1]) != FoldChar("Bearer"[1]);
  }

  /** "Incorrect Scheme": "Basic" and a token is refused with the scheme
      error, whatever the token. */
  lemma IncorrectSchemeCase(token: string)
    requires IsWord(token)
    ensures GetBearerToken(AuthorizationHeader("Basic " + token)) == Ret("", Some(WrongScheme(Bearer)))
    ensures Message(WrongScheme(Bearer)) == "authorization scheme is not Bearer"
  {
    assert "Basic " + token == "" + "Basic" + " " + token + "";
    TableWords();
    BasicIsNotBearer();
    FieldsOfTwo("", "Basic", " ", token, "");
    BearerErrorOrder(AuthorizationHeader("Basic " + token));
  }

  /** "Empty Token" and "Bearer with Only Scheme": a single field. */
  lemma OneFieldCases()
    ensures GetBearerToken(AuthorizationHeader("Bearer ")) == Ret("", Some(BadFormat(Bearer)))
    ensures GetBearerToken(AuthorizationHeader("Bearer")) == Ret("", Some(BadFormat(Bearer)))
    ensures Message(BadFormat(Bearer)) == "authorization header format must be Bearer {token}"
  {
    assert "Bearer " == "" + "Bearer" + " ";
    assert "Bearer" == "" + "Bearer" + "";
    TableWords();
    FieldsOfOne("", "Bearer", " ");
    BearerErrorOrder(AuthorizationHeader("Bearer "));
    FieldsOfOne("", "Bearer", "");
    BearerErrorOrder(AuthorizationHeader("Bearer"));
  }

  /** A value with three single-space-separated fields: the format error,
      whatever the first field says. */
  lemma ThreeFieldsRejected(a: string, b: string, c: string)
    requires IsWord(a) && IsWord(b) && IsWord(c)
    ensures GetBearerToken(AuthorizationHeader(a + " " + b + " " + c)) == Ret("", Some(BadFormat(Bearer)))
  {
    var v := a + " " + b + " " + c;
    assert v == a + (" " + (b + " " + c));
    assert b + " " + c == "" + b + " " + c + "";
    TableWords();
    FieldsOfTwo("", b, " ", c, "");
    FieldsSkipSpace(" ", b + " " + c);
    FieldsWord(a, " " + (b + " " + c));
    BearerErrorOrder(AuthorizationHeader(v));
  }

  /** "Bearer with Multiple Tokens": three fields. */
  lemma MultipleTokensCase()
    ensures GetBearerToken(AuthorizationHeader("Bearer token1 token2")) == Ret("", Some(BadFormat(Bearer)))
  {
    assert "Bearer" + " " + "token1" + " " + "token2" == "Bearer token1 token2";
    TableWords();
    ThreeFieldsRejected("Bearer", "token1", "token2");
  }

  /** The field count is checked before the scheme: "Basic a b" is a format
      error, not a scheme error. */
  lemma FormatBeforeScheme()
    ensures GetBearerToken(AuthorizationHeader("Basic a b")) == Ret("", Some(BadFormat(Bearer)))
  {
    assert "Basic" + " " + "a" + " " + "b" == "Basic a b";
    TableWords();
    ThreeFieldsRejected("Basic", "a", "b");
  }

  /** "Bearer" and a token without dots: the dot-structure error. */
  lemma UndottedRejected(token: string)
    requires IsWord(token) && '.' !in token
    ensures GetBearerToken(AuthorizationHeader("Bearer " + token)) == Ret("", Some(InvalidBearerFormat))
  {
    assert "Bearer " + token == "" + "Bearer" + " " + token + "";
    TableWords();
    FieldsOfTwo("", "Bearer", " ", token, "");
    CountAbsent(token, '.');
    BearerErrorOrder(AuthorizationHeader("Bearer " + token));
  }

  /** "Malformed Token (Incorrect JWT Structure)": a token without dots. */
  lemma MalformedStructureCase()
    ensures GetBearerToken(AuthorizationHeader("Bearer malformedtoken")) == Ret("", Some(InvalidBearerFormat))
    ensures Message(InvalidBearerFormat) == "invalid bearer token format"
  {
    assert "Bearer " + "malformedtoken" == "Bearer malformedtoken";
    TableWords();
    UndottedRejected("malformedtoken");
  }
}
