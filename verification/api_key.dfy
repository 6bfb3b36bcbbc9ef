/** internal/auth/api.go: the static API key sent as `ApiKey <key>`, and how
    the API-key and bearer extractors exclude one another. */
module ApiKey {
  import opened Wrappers
  import opened Strings
  import opened Whitespace
  import opened Credentials
  import Jwt
  import RefreshToken

  /** `GetAPIKey(headers)`: the second field of an `ApiKey <key>`
      authorization value. No further check is made on the key. */
  function GetAPIKey(headers: Header): (r: Ret<string, AuthError>)
    ensures !r.Ok() ==> r.value == ""
    ensures r.Ok() <==> HasSchemeFields(Get(headers, Authorization), ApiKey)
    ensures r.Ok() ==> r.value == Fields(Get(headers, Authorization))[1] && IsWord(r.value)
    ensures r.err != Some(EmptyCredential(ApiKey))
  {
    match SchemeAndCredential(Get(headers, Authorization), ApiKey)
    case Failure(e) => Ret("", Some(e))
    case Success(apiKey) => Ret(apiKey, None)
  }

  /** The error `GetAPIKey` reports is that of the first failing check:
      empty value, then field count, then scheme. */
  lemma ApiKeyErrorOrder(headers: Header)
    ensures Get(headers, Authorization) == "" ==>
      GetAPIKey(headers).err == Some(MissingOrEmpty)
    ensures Get(headers, Authorization) != "" && |Fields(Get(headers, Authorization))| != 2 ==>
      GetAPIKey(headers).err == Some(BadFormat(ApiKey))
    ensures (|Fields(Get(headers, Authorization))| == 2
             && !EqualFold(Fields(Get(headers, Authorization))[0], "ApiKey")) ==>
      GetAPIKey(headers).err == Some(WrongScheme(ApiKey))
  {
    SchemeAndCredentialErrors(Get(headers, Authorization), ApiKey);
  }

  /** Every accepted header reads `ApiKey <key>` up to case and white space. */
  lemma ApiKeyAcceptedShape(headers: Header)
    returns (word: string, lead: string, mid: string, trail: string)
    requires GetAPIKey(headers).Ok()
    ensures Shaped(Get(headers, Authorization), ApiKey, word, lead, mid, GetAPIKey(headers).value, trail)
  {
    word, lead, mid, trail := SchemeAndCredentialShape(Get(headers, Authorization), ApiKey);
  }

  /** Every header that reads `ApiKey <key>` up to case and white space is
      accepted and yields that key. */
  lemma ApiKeyShapeAccepted(headers: Header, word: string, lead: string, mid: string, key: string, trail: string)
    requires Shaped(Get(headers, Authorization), ApiKey, word, lead, mid, key, trail)
    ensures GetAPIKey(headers) == Ret(key, None)
  {
    ShapedAccepted(Get(headers, Authorization), ApiKey, word, lead, mid, key, trail);
  }

  /** Two non-empty values with the same fields get the same answer: extra
      white space before, between or after the fields changes nothing. */
  lemma ApiKeyOnlyFields(h1: Header, h2: Header)
    requires Get(h1, Authorization) != "" && Get(h2, Authorization) != ""
    requires Fields(Get(h1, Authorization)) == Fields(Get(h2, Authorization))
    ensures GetAPIKey(h1) == GetAPIKey(h2)
  {
    SchemeAndCredentialOnlyFields(Get(h1, Authorization), Get(h2, Authorization), ApiKey);
  }

  /** Extra white space around and between the fields is ignored. */
  lemma ApiKeySpacingExample()
    ensures GetAPIKey(AuthorizationHeader("ApiKey   my-key  ")) == Ret("my-key", None)
  {
    assert "ApiKey   my-key  " == "" + "ApiKey" + "   " + "my-key" + "  ";
    assert IsWord("ApiKey") && IsWord("my-key");
    ApiKeyShapeAccepted(AuthorizationHeader("ApiKey   my-key  "), "ApiKey", "", "   ", "my-key", "  ");
  }

  /** A header `GetAPIKey` accepts is refused by both bearer extractors with
      the scheme error. */
  lemma ApiKeyRejectedAsBearer(headers: Header)
    requires GetAPIKey(headers).Ok()
    ensures Jwt.GetBearerToken(headers).err == Some(WrongScheme(Bearer))
    ensures RefreshToken.GetRefreshToken(headers).err == Some(WrongScheme(Bearer))
  {
    SchemesExclusive(Get(headers, Authorization));
    Jwt.BearerErrorOrder(headers);
    RefreshToken.RefreshErrorOrder(headers);
  }

  /** A header either bearer extractor accepts is refused by `GetAPIKey`
      with the scheme error. */
  lemma BearerRejectedAsApiKey(headers: Header)
    requires Jwt.GetBearerToken(headers).Ok() || RefreshToken.GetRefreshToken(headers).Ok()
    ensures GetAPIKey(headers).err == Some(WrongScheme(ApiKey))
  {
    SchemesExclusive(Get(headers, Authorization));
    ApiKeyErrorOrder(headers);
  }
}
