/** The application-wide token middleware (src/middleware/tokenAuthentication.js):
    it turns an `Authorization` header into an authenticated user id, or
    lets the request through anonymously. */
module TokenAuth {
  import opened Base
  import opened Tokens

  /** `authorization.substring(7)`: drop the first seven characters, which a
      well-formed header spends on `Bearer `. The scheme itself is never
      compared, and a header shorter than seven characters yields "". */
  function BearerToken(header: string): (t: string)
    ensures |header| >= 7 ==> header == header[..7] + t
    ensures |header| < 7 ==> t == ""
  {
    if |header| >= 7 then header[7..] else ""
  }

  /** The header a client builds from a token it was given. */
  lemma BearerRoundTrip(token: string)
    ensures BearerToken("Bearer " + token) == token
  {
    assert ("Bearer " + token)[7..] == token;
  }

  /** The caller the middleware attaches to the request, if any, and the
      token table after the (possibly refreshing) lookup. */
  datatype AuthResult = AuthResult(user: Option<nat>, tokens: TokenTable)

  /** `tokenAuthentication`: with a non-empty header, verify the token after
      the scheme; a failed verification is swallowed and the request goes on
      anonymously. */
  function Authenticate(tokens: TokenTable, header: Option<string>, now: int): (r: AuthResult)
    ensures r.user.Some? <==>
              Truthy(header) && BearerToken(header.value) in tokens
              && tokens[BearerToken(header.value)].lastUsedAt > now - WeekMs - 1
    ensures r.user.None? ==> r.tokens == tokens
    ensures r.user.Some? ==>
              var t := BearerToken(header.value);
              && r.user.value == tokens[t].userId
              && r.tokens.Keys == tokens.Keys
              && r.tokens[t] == TokenRow(tokens[t].userId, now)
              && forall u :: u in tokens && u != t ==> r.tokens[u] == tokens[u]
  {
    if !Truthy(header) then AuthResult(None, tokens)
    else
      match Verify(tokens, BearerToken(header.value), now)
      case Rejected => AuthResult(None, tokens)
      case Accepted(userId, tokens') => AuthResult(Some(userId), tokens')
  }

  /** Only the characters after the seventh matter: two headers that differ
      in their first seven characters (any scheme, or none) authenticate
      identically. */
  lemma SchemeIgnored(tokens: TokenTable, scheme1: string, scheme2: string, token: string, now: int)
    requires |scheme1| == 7 && |scheme2| == 7
    ensures Authenticate(tokens, Some(scheme1 + token), now) == Authenticate(tokens, Some(scheme2 + token), now)
  {
    assert (scheme1 + token)[7..] == token;
    assert (scheme2 + token)[7..] == token;
  }

  /** A freshly created token, presented as a bearer header, authenticates
      its owner. */
  lemma CreatedTokenAuthenticates(tokens: TokenTable, userId: nat, token: string, now: int)
    requires token !in tokens
    ensures Authenticate(CreateToken(tokens, userId, token, now), Some("Bearer " + token), now).user == Some(userId)
  {
    BearerRoundTrip(token);
  }

  /** A token nobody holds, or one idle for more than a week, leaves the
      caller anonymous and the table untouched: the middleware never fails a
      request. */
  lemma UnknownTokenIsAnonymous(tokens: TokenTable, header: string, now: int)
    requires BearerToken(header) !in tokens || tokens[BearerToken(header)].lastUsedAt < now - WeekMs
    ensures Authenticate(tokens, Some(header), now) == AuthResult(None, tokens)
  {
  }
}
