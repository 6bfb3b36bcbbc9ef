/** internal/auth/refresh_token.go: opaque refresh tokens. The random source
    is a parameter: the 32 bytes `crypto/rand` delivered, or `None` when the
    read failed. */
module RefreshToken {
  import opened Wrappers
  import opened Strings
  import opened Whitespace
  import opened Credentials
  import opened Hex

  /** The 32 bytes `MakeRefreshToken` asks the random source for. */
  type RandomBlock = b: seq<byte> | |b| == 32
    witness [0, 0, 0, 0, 0, 0, 0, 0, 0, 0, 0, 0, 0, 0, 0, 0, 0, 0, 0, 0, 0, 0, 0, 0, 0, 0, 0, 0, 0, 0, 0, 0]

  /** The length in bytes `GetRefreshToken` demands of a token. */
  const TokenLength: nat := 64

  datatype RefreshError = RandomSourceFailed

  /** The fixed prefix of the error message; the wrapped cause is omitted. */
  function RefreshMessage(e: RefreshError): string
  {
    "couldn't generate random data"
  }

  /** `MakeRefreshToken()`: the random bytes in lower-case hex, or the empty
      string and an error when the random source fails. */
  function MakeRefreshToken(random: Option<RandomBlock>): (r: Ret<string, RefreshError>)
    ensures random.None? ==> r == Ret("", Some(RandomSourceFailed))
    ensures random.Some? ==> r.Ok() && |r.value| == TokenLength && IsLowerHex(r.value)
    ensures random.Some? ==> Decode(r.value) == Some(random.value)
  {
    match random
    case None => Ret("", Some(RandomSourceFailed))
    case Some(randomData) =>
      DecodeEncode(randomData);
      Ret(Encode(randomData), None)
  }

  /** Different random bytes give different tokens. */
  lemma DistinctRandomDistinctTokens(a: RandomBlock, b: RandomBlock)
    requires a != b
    ensures MakeRefreshToken(Some(a)).value != MakeRefreshToken(Some(b)).value
  {
    if Encode(a) == Encode(b) {
      EncodeInjective(a, b);
    }
  }

  /** Hex text is ASCII, so its byte length is its character count. */
  lemma LowerHexIsAscii(s: string)
    requires IsLowerHex(s)
    ensures ByteLen(s) == |s|
    ensures IsWord(s) || s == ""
  {
    assert IsAscii(s);
    AsciiByteLen(s);
  }

  /** `GetRefreshToken(headers)`: the second field of a `Bearer <token>`
      authorization value, provided it is exactly 64 bytes long. Its
      characters are not inspected. */
  function GetRefreshToken(headers: Header): (r: Ret<string, AuthError>)
    ensures !r.Ok() ==> r.value == ""
    ensures r.Ok() <==>
      HasSchemeFields(Get(headers, Authorization), Bearer)
      && ByteLen(Fields(Get(headers, Authorization))[1]) == TokenLength
    ensures r.Ok() ==> r.value == Fields(Get(headers, Authorization))[1]
    ensures r.Ok() ==> IsWord(r.value) && ByteLen(r.value) == TokenLength
    ensures r.err != Some(EmptyCredential(Bearer))
  {
    match SchemeAndCredential(Get(headers, Authorization), Bearer)
    case Failure(e) => Ret("", Some(e))
    case Success(token) =>
      if ByteLen(token) != TokenLength then Ret("", Some(InvalidBearerFormat))
      else Ret(token, None)
  }

  /** The error `GetRefreshToken` reports is that of the first failing check:
      empty value, then field count, then scheme, then length. */
  lemma RefreshErrorOrder(headers: Header)
    ensures Get(headers, Authorization) == "" ==>
      GetRefreshToken(headers).err == Some(MissingOrEmpty)
    ensures Get(headers, Authorization) != "" && |Fields(Get(headers, Authorization))| != 2 ==>
      GetRefreshToken(headers).err == Some(BadFormat(Bearer))
    ensures (|Fields(Get(headers, Authorization))| == 2
             && !EqualFold(Fields(Get(headers, Authorization))[0], "Bearer")) ==>
      GetRefreshToken(headers).err == Some(WrongScheme(Bearer))
    ensures (HasSchemeFields(Get(headers, Authorization), Bearer)
             && ByteLen(Fields(Get(headers, Authorization))[1]) != TokenLength) ==>
      GetRefreshToken(headers).err == Some(InvalidBearerFormat)
  {
    SchemeAndCredentialErrors(Get(headers, Authorization), Bearer);
  }

  /** Every accepted header reads `Bearer <token>` up to case and white
      space, with a 64-byte token. */
  lemma RefreshAcceptedShape(headers: Header)
    returns (word: string, lead: string, mid: string, trail: string)
    requires GetRefreshToken(headers).Ok()
    ensures Shaped(Get(headers, Authorization), Bearer, word, lead, mid, GetRefreshToken(headers).value, trail)
    ensures ByteLen(GetRefreshToken(headers).value) == TokenLength
  {
    word, lead, mid, trail := SchemeAndCredentialShape(Get(headers, Authorization), Bearer);
  }

  /** Every header that reads `Bearer <token>` up to case and white space,
      with a 64-byte token, is accepted and yields that token, whatever
      characters the token holds. */
  lemma RefreshShapeAccepted(headers: Header, word: string, lead: string, mid: string, token: string, trail: string)
    requires Shaped(Get(headers, Authorization), Bearer, word, lead, mid, token, trail)
    requires ByteLen(token) == TokenLength
    ensures GetRefreshToken(headers) == Ret(token, None)
  {
    ShapedAccepted(Get(headers, Authorization), Bearer, word, lead, mid, token, trail);
  }

  /** A freshly made refresh token, sent back as `Bearer <token>`, is
      extracted unchanged. */
  lemma MakeThenGet(random: RandomBlock)
    ensures GetRefreshToken(AuthorizationHeader("Bearer " + MakeRefreshToken(Some(random)).value))
      == Ret(Encode(random), None)
  {
    var token := Encode(random);
    LowerHexIsAscii(token);
    var value := "Bearer " + token;
    assert value == "" + "Bearer" + " " + token + "";
    RefreshShapeAccepted(AuthorizationHeader(value), "Bearer", "", " ", token, "");
  }

  /** The length check is all there is: 64 letters `z`, which are not hex,
      are accepted as a refresh token. */
  lemma NonHexAccepted()
    ensures GetRefreshToken(AuthorizationHeader("Bearer " + seq(64, _ => 'z')))
      == Ret(seq(64, _ => 'z'), None)
  {
    var token := seq(64, _ => 'z');
    assert IsAscii(token);
    AsciiByteLen(token);
    var value := "Bearer " + token;
    assert value == "" + "Bearer" + " " + token + "";
    RefreshShapeAccepted(AuthorizationHeader(value), "Bearer", "", " ", token, "");
  }
}
