/** The opaque bearer-token store and its sliding one-week expiry
    (src/auth/tokenService.js). */
module Tokens {
  import opened Base

  /** One row of the token table: the owner and the last time the token was used (ms). */
  datatype TokenRow = TokenRow(userId: nat, lastUsedAt: int)

  /** The token table, keyed by the token value. */
  type TokenTable = map<string, TokenRow>

  /** Seven days in milliseconds. */
  const WeekMs: int := 7 * 24 * 60 * 60 * 1000

  /** `oneWeekAgo`: the instant both `verify` and the sweep compare against. */
  function Cutoff(now: int): int
  {
    now - WeekMs - 1
  }

  /** The row passes `verify`'s `lastUsedAt > oneWeekAgo`. */
  predicate Live(row: TokenRow, now: int)
  {
    row.lastUsedAt > Cutoff(now)
  }

  /** The row matches the sweep's `lastUsedAt < oneWeekAgo`. */
  predicate Expired(row: TokenRow, now: int)
  {
    row.lastUsedAt < Cutoff(now)
  }

  /** `createToken`: store a fresh token for `userId`, last used now. The
      caller supplies the random value; the generator is trusted to give one
      not already in the table. */
  function CreateToken(tokens: TokenTable, userId: nat, token: string, now: int): (r: TokenTable)
    requires token !in tokens
    ensures r.Keys == tokens.Keys + {token}
    ensures r[token] == TokenRow(userId, now)
    ensures forall t :: t in tokens ==> r[t] == tokens[t]
  {
    tokens[token := TokenRow(userId, now)]
  }

  /** What `verify` resolves to: the owner and the refreshed table, or a
      rejection (in the source, a null dereference the caller catches). */
  datatype Verified = Accepted(userId: nat, tokens: TokenTable) | Rejected

  /** `verify`: accept a stored token used within the last week, and slide
      its window by setting `lastUsedAt` to now. Nothing is deleted. */
  function Verify(tokens: TokenTable, token: string, now: int): (r: Verified)
    ensures r.Accepted? <==> token in tokens && tokens[token].lastUsedAt > now - WeekMs - 1
    ensures r.Accepted? ==> r.userId == tokens[token].userId
    ensures r.Accepted? ==> r.tokens.Keys == tokens.Keys
    ensures r.Accepted? ==> r.tokens[token] == TokenRow(tokens[token].userId, now)
    ensures r.Accepted? ==> forall t :: t in tokens && t != token ==> r.tokens[t] == tokens[t]
  {
    if token in tokens && Live(tokens[token], now) then
      Accepted(tokens[token].userId, tokens[token := TokenRow(tokens[token].userId, now)])
    else
      Rejected
  }

  /** `deleteToken`: remove the row with that value; an unknown value changes nothing. */
  function DeleteToken(tokens: TokenTable, token: string): (r: TokenTable)
    ensures r.Keys == tokens.Keys - {token}
    ensures forall t :: t in r ==> r[t] == tokens[t]
  {
    tokens - {token}
  }

  /** `clearTokens`: remove every row of `userId` and no other row. */
  function ClearTokens(tokens: TokenTable, userId: nat): (r: TokenTable)
    ensures forall t :: t in r <==> t in tokens && tokens[t].userId != userId
    ensures forall t :: t in r ==> r[t] == tokens[t]
  {
    map t | t in tokens && tokens[t].userId != userId :: tokens[t]
  }

  /** The body of the hourly clean-up interval: remove every row last used
      strictly before `oneWeekAgo`. */
  function Sweep(tokens: TokenTable, now: int): (r: TokenTable)
    ensures forall t :: t in r <==> t in tokens && !(tokens[t].lastUsedAt < now - WeekMs - 1)
    ensures forall t :: t in r ==> r[t] == tokens[t]
  {
    map t | t in tokens && !Expired(tokens[t], now) :: tokens[t]
  }

  /** A token verifies right after it is created, for the user it was created for. */
  lemma CreateThenVerify(tokens: TokenTable, userId: nat, token: string, now: int)
    requires token !in tokens
    ensures Verify(CreateToken(tokens, userId, token, now), token, now).Accepted?
    ensures Verify(CreateToken(tokens, userId, token, now), token, now).userId == userId
  {
  }

  /** A successful `verify` at `t1` keeps the token verifiable at every later
      instant up to and including `t1` plus one week, and at none after that. */
  lemma RefreshWindow(tokens: TokenTable, token: string, t1: int, t2: int)
    requires Verify(tokens, token, t1).Accepted?
    requires t1 <= t2
    ensures Verify(Verify(tokens, token, t1).tokens, token, t2).Accepted? <==> t2 <= t1 + WeekMs
  {
  }

  /** Verifying twice in a row at the same instant never fails because of the first refresh. */
  lemma VerifyTwice(tokens: TokenTable, token: string, now: int)
    requires Verify(tokens, token, now).Accepted?
    ensures Verify(Verify(tokens, token, now).tokens, token, now) == Verify(tokens, token, now)
  {
    var once := Verify(tokens, token, now).tokens;
    assert once[token := TokenRow(tokens[token].userId, now)] == once;
  }

  /** The sweep never removes a token that `verify` would accept at the same
      instant, and sweeping and verifying at one instant commute. */
  lemma SweepKeepsLive(tokens: TokenTable, token: string, now: int)
    requires Verify(tokens, token, now).Accepted?
    ensures token in Sweep(tokens, now)
    ensures Verify(Sweep(tokens, now), token, now).Accepted?
    ensures Verify(Sweep(tokens, now), token, now).userId == Verify(tokens, token, now).userId
    ensures Verify(Sweep(tokens, now), token, now).tokens == Sweep(Verify(tokens, token, now).tokens, now)
  {
    var lhs := Verify(Sweep(tokens, now), token, now).tokens;
    var rhs := Sweep(Verify(tokens, token, now).tokens, now);
    assert lhs.Keys == rhs.Keys;
  }

  /** The instant exactly at the cutoff: `verify` rejects the token, and the
      sweep keeps it, because both comparisons are strict. */
  lemma CutoffIsNeitherLiveNorExpired(tokens: TokenTable, token: string, now: int)
    requires token in tokens
    requires tokens[token].lastUsedAt == now - WeekMs - 1
    ensures Verify(tokens, token, now).Rejected?
    ensures token in Sweep(tokens, now)
  {
  }

  /** A token past the cutoff is rejected by `verify`, which leaves it in
      place, and is then removed by the next sweep. */
  lemma ExpiredRejectedThenSwept(tokens: TokenTable, token: string, now: int)
    requires token in tokens
    requires tokens[token].lastUsedAt < now - WeekMs - 1
    ensures Verify(tokens, token, now).Rejected?
    ensures token !in Sweep(tokens, now)
  {
  }

  /** Sweeping again at the same or an earlier instant removes nothing more,
      and a later sweep subsumes an earlier one. */
  lemma SweepMonotone(tokens: TokenTable, t1: int, t2: int)
    requires t1 <= t2
    ensures Sweep(Sweep(tokens, t1), t2) == Sweep(tokens, t2)
    ensures Sweep(Sweep(tokens, t2), t1) == Sweep(tokens, t2)
  {
    assert Sweep(Sweep(tokens, t1), t2).Keys == Sweep(tokens, t2).Keys;
    assert Sweep(Sweep(tokens, t2), t1).Keys == Sweep(tokens, t2).Keys;
  }

  /** Logging out twice leaves the same table as logging out once. */
  lemma DeleteTokenIdempotent(tokens: TokenTable, token: string)
    ensures DeleteToken(DeleteToken(tokens, token), token) == DeleteToken(tokens, token)
  {
  }

  /** After `clearTokens(u)` no token of `u` verifies, and every other user's
      tokens verify exactly as before. */
  lemma ClearTokensRevokes(tokens: TokenTable, userId: nat, token: string, now: int)
    ensures token in tokens && tokens[token].userId == userId ==>
              Verify(ClearTokens(tokens, userId), token, now).Rejected?
    ensures token in tokens && tokens[token].userId != userId ==>
              (Verify(ClearTokens(tokens, userId), token, now).Accepted? <==> Verify(tokens, token, now).Accepted?)
  {
  }

  /** The scenario of a login followed by eight idle days: the token is
      rejected, and the sweep then leaves the user with no token. */
  lemma EightIdleDays(tokens: TokenTable, userId: nat, token: string, t0: int)
    requires token !in tokens
    requires forall t :: t in tokens ==> tokens[t].userId != userId
    ensures Verify(CreateToken(tokens, userId, token, t0), token, t0 + 8 * 24 * 60 * 60 * 1000).Rejected?
    ensures var swept := Sweep(CreateToken(tokens, userId, token, t0), t0 + 8 * 24 * 60 * 60 * 1000);
              forall t :: t in swept ==> swept[t].userId != userId
  {
  }
}
