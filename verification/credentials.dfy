/** What the three `Authorization`-header extractors of package `auth` share:
    the header lookup, the error messages, and the common prefix of their
    check sequence (empty value, two fields, scheme, empty credential). */
module Credentials {
  import opened Wrappers
  import opened Strings
  import opened Whitespace

  /** `http.Header`: each header name with its list of values. Names are
      taken as already canonical. */
  type Header = map<string, seq<string>>

  const Authorization: string := "Authorization"

  /** `Header.Get`: the first value of `key`, or `""` when there is none. */
  function Get(h: Header, key: string): string
  {
    if key in h && |h[key]| > 0 then h[key][0] else ""
  }

  /** A header holding exactly one `Authorization` value. */
  function AuthorizationHeader(value: string): (h: Header)
    ensures Get(h, Authorization) == value
  {
    map[Authorization := [value]]
  }

  datatype Scheme = Bearer | ApiKey

  function SchemeName(s: Scheme): string
  {
    match s
    case Bearer => "Bearer"
    case ApiKey => "ApiKey"
  }

  /** One constructor per kind of `return "", errors.New(...)` in the
      extractors. */
  datatype AuthError =
    | MissingOrEmpty
    | BadFormat(scheme: Scheme)
    | WrongScheme(scheme: Scheme)
    | EmptyCredential(scheme: Scheme)
    | InvalidBearerFormat

  function Message(e: AuthError): string
  {
    match e
    case MissingOrEmpty => "authorization header is missing or empty"
    case BadFormat(Bearer) => "authorization header format must be Bearer {token}"
    case BadFormat(ApiKey) => "authorization header format must be ApiKey {THE_KEY_HERE}"
    case WrongScheme(s) => "authorization scheme is not " + SchemeName(s)
    case EmptyCredential(Bearer) => "bearer token is empty"
    case EmptyCredential(ApiKey) => "api key is empty"
    case InvalidBearerFormat => "invalid bearer token format"
  }

  /** The value has exactly two fields and the first names `scheme`,
      ignoring case. */
  predicate HasSchemeFields(value: string, scheme: Scheme)
  {
    var parts := Fields(value);
    |parts| == 2 && EqualFold(parts[0], SchemeName(scheme))
  }

  /** The checks every extractor runs before its kind-specific one, in the
      source's order. The `EmptyCredential` branch is kept as written even
      though no field is ever empty. */
  function SchemeAndCredential(value: string, scheme: Scheme): (r: Result<string, AuthError>)
    ensures r.Success? <==> HasSchemeFields(value, scheme)
    ensures r.Success? ==> r.value == Fields(value)[1] && IsWord(r.value)
    ensures r != Failure(EmptyCredential(scheme))
  {
    if value == "" then Failure(MissingOrEmpty)
    else
      var parts := Fields(value);
      if |parts| != 2 then Failure(BadFormat(scheme))
      else if !EqualFold(parts[0], SchemeName(scheme)) then Failure(WrongScheme(scheme))
      else if parts[1] == "" then Failure(EmptyCredential(scheme))
      else Success(parts[1])
  }

  /** The error a failing `SchemeAndCredential` reports is the first check
      that fails: emptiness, then the field count, then the scheme. */
  lemma SchemeAndCredentialErrors(value: string, scheme: Scheme)
    ensures value == "" ==> SchemeAndCredential(value, scheme) == Failure(MissingOrEmpty)
    ensures value != "" && |Fields(value)| != 2 ==>
      SchemeAndCredential(value, scheme) == Failure(BadFormat(scheme))
    ensures |Fields(value)| == 2 && !EqualFold(Fields(value)[0], SchemeName(scheme)) ==>
      SchemeAndCredential(value, scheme) == Failure(WrongScheme(scheme))
  {
  }

  /** A header value that reads `<scheme word> <credential>`: a word equal to
      the scheme name ignoring case, non-empty white space, the credential,
      and optional white space at either end. */
  predicate Shaped(value: string, scheme: Scheme, word: string, lead: string, mid: string,
                   credential: string, trail: string)
  {
    && value == lead + word + mid + credential + trail
    && AllSpace(lead) && AllSpace(mid) && |mid| > 0 && AllSpace(trail)
    && IsWord(word) && EqualFold(word, SchemeName(scheme))
    && IsWord(credential)
  }

  /** Every value the shared checks accept has that shape, around the
      credential they return. */
  lemma SchemeAndCredentialShape(value: string, scheme: Scheme)
    returns (word: string, lead: string, mid: string, trail: string)
    requires SchemeAndCredential(value, scheme).Success?
    ensures Shaped(value, scheme, word, lead, mid, SchemeAndCredential(value, scheme).value, trail)
  {
    var parts := Fields(value);
    word := parts[0];
    lead, mid, trail := TwoFieldShape(value, parts[0], parts[1]);
  }

  /** Every value of that shape is accepted by the shared checks, which
      return exactly its credential. */
  lemma ShapedAccepted(value: string, scheme: Scheme, word: string, lead: string, mid: string,
                       credential: string, trail: string)
    requires Shaped(value, scheme, word, lead, mid, credential, trail)
    ensures SchemeAndCredential(value, scheme) == Success(credential)
  {
    FieldsOfTwo(lead, word, mid, credential, trail);
  }

  /** The shared checks look at nothing but the fields of a non-empty value:
      extra white space anywhere is irrelevant. */
  lemma SchemeAndCredentialOnlyFields(v1: string, v2: string, scheme: Scheme)
    requires v1 != "" && v2 != ""
    requires Fields(v1) == Fields(v2)
    ensures SchemeAndCredential(v1, scheme) == SchemeAndCredential(v2, scheme)
  {
  }

  /** "Bearer" and "ApiKey" are different even ignoring case, so a value
      never passes the shared checks for both schemes. */
  lemma SchemesExclusive(value: string)
    ensures !(HasSchemeFields(value, Bearer) && HasSchemeFields(value, ApiKey))
  {
  }
}
