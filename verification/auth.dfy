/** Login and logout (src/auth/AuthenticationRouter.js). bcrypt's compare
    and the random token generator are parameters. */
module Authentication {
  import opened Base
  import opened Tokens
  import opened Schema
  import opened TokenAuth

  const IncorrectCredentials := "Incorrect credentials"
  const AccountInactive := "Account is inactive"

  /** The body of a successful login. */
  datatype LoginResponse = LoginResponse(id: nat, username: string, token: string, image: Option<string>)

  /** `POST /api/1.0/auth`: a malformed e-mail, an unknown e-mail and a wrong
      password all give the same 401; only a correct password on an inactive
      account gives 403. Otherwise a fresh token is stored for the user.
      `passwordMatches(plain, hash)` is bcrypt's compare; `freshToken` is the
      generator's 32-character value, trusted to be unused. */
  function Login(s: State, email: Option<string>, password: string, isEmail: string -> bool,
                 passwordMatches: (string, string) -> bool, freshToken: string, now: int): (r: Step<LoginResponse>)
    requires freshToken !in s.tokens
    ensures email.None? || !isEmail(email.value) ==> r == Step(s, Err(AuthenticationFailure(IncorrectCredentials)))
    ensures r.result.Ok? <==>
              && email.Some? && isEmail(email.value) && FindByEmail(s.users, email.value).Some?
              && passwordMatches(password, s.users[FindByEmail(s.users, email.value).value].password)
              && !s.users[FindByEmail(s.users, email.value).value].inactive
    ensures r.result.Err? ==> r.state == s
    ensures r.result.Err? ==>
              r.result.error == AuthenticationFailure(IncorrectCredentials) || r.result.error == Forbidden(AccountInactive)
    ensures r.result == Err(Forbidden(AccountInactive)) <==>
              && email.Some? && isEmail(email.value) && FindByEmail(s.users, email.value).Some?
              && passwordMatches(password, s.users[FindByEmail(s.users, email.value).value].password)
              && s.users[FindByEmail(s.users, email.value).value].inactive
    ensures r.result.Ok? ==>
              var u := s.users[FindByEmail(s.users, email.value).value];
              && r.result.value == LoginResponse(u.id, u.username, freshToken, u.image)
              && r.state == s.(tokens := CreateToken(s.tokens, u.id, freshToken, now))
  {
    if email.None? || !isEmail(email.value) then
      Step(s, Err(AuthenticationFailure(IncorrectCredentials)))
    else
      match FindByEmail(s.users, email.value)
      case None => Step(s, Err(AuthenticationFailure(IncorrectCredentials)))
      case Some(i) =>
        var u := s.users[i];
        if !passwordMatches(password, u.password) then
          Step(s, Err(AuthenticationFailure(IncorrectCredentials)))
        else if u.inactive then
          Step(s, Err(Forbidden(AccountInactive)))
        else
          Step(s.(tokens := CreateToken(s.tokens, u.id, freshToken, now)), Ok(LoginResponse(u.id, u.username, freshToken, u.image)))
  }

  /** The token a successful login returns authenticates the same user on
      the next request made at the same instant. */
  lemma LoginThenAuthenticate(s: State, email: Option<string>, password: string, isEmail: string -> bool,
                              passwordMatches: (string, string) -> bool, freshToken: string, now: int)
    requires freshToken !in s.tokens
    requires Login(s, email, password, isEmail, passwordMatches, freshToken, now).result.Ok?
    ensures var r := Login(s, email, password, isEmail, passwordMatches, freshToken, now);
            Authenticate(r.state.tokens, Some("Bearer " + r.result.value.token), now).user == Some(r.result.value.id)
  {
    var u := s.users[FindByEmail(s.users, email.value).value];
    CreatedTokenAuthenticates(s.tokens, u.id, freshToken, now);
  }

  /** A wrong password never reveals that the account is inactive: an
      inactive user sees 401 with a wrong password and 403 only with the
      right one. */
  lemma InactiveNeedsPassword(s: State, email: string, password: string, isEmail: string -> bool,
                              passwordMatches: (string, string) -> bool, freshToken: string, now: int)
    requires freshToken !in s.tokens
    requires isEmail(email) && FindByEmail(s.users, email).Some?
    requires s.users[FindByEmail(s.users, email).value].inactive
    ensures var r := Login(s, Some(email), password, isEmail, passwordMatches, freshToken, now).result;
            r == (if passwordMatches(password, s.users[FindByEmail(s.users, email).value].password)
                  then Err(Forbidden(AccountInactive))
                  else Err(AuthenticationFailure(IncorrectCredentials)))
  {
  }

  /** `POST /api/1.0/logout`: delete the token after the scheme, if a header
      was sent. Always succeeds, whether or not the token exists. */
  function Logout(s: State, header: Option<string>): (r: Step<()>)
    ensures r.result == Ok(())
    ensures r.state == s.(tokens := r.state.tokens)
    ensures !Truthy(header) ==> r.state.tokens == s.tokens
    ensures Truthy(header) ==> r.state.tokens.Keys == s.tokens.Keys - {BearerToken(header.value)}
    ensures forall t :: t in r.state.tokens ==> r.state.tokens[t] == s.tokens[t]
  {
    if Truthy(header) then
      Step(s.(tokens := DeleteToken(s.tokens, BearerToken(header.value))), Ok(()))
    else
      Step(s, Ok(()))
  }

  /** After logging out with a header, the same header no longer
      authenticates anyone. */
  lemma LogoutRevokes(s: State, header: string, now: int)
    requires header != ""
    ensures Authenticate(Logout(s, Some(header)).state.tokens, Some(header), now).user.None?
  {
  }

  /** Logging in and then logging out with the returned token leaves the
      token table as it was before the login. */
  lemma LoginLogoutRoundTrip(s: State, email: Option<string>, password: string, isEmail: string -> bool,
                             passwordMatches: (string, string) -> bool, freshToken: string, now: int)
    requires freshToken !in s.tokens
    requires Login(s, email, password, isEmail, passwordMatches, freshToken, now).result.Ok?
    ensures var r := Login(s, email, password, isEmail, passwordMatches, freshToken, now);
            Logout(r.state, Some("Bearer " + freshToken)).state == s
  {
    BearerRoundTrip(freshToken);
    var r := Login(s, email, password, isEmail, passwordMatches, freshToken, now);
    assert r.state.tokens - {freshToken} == s.tokens;
  }
}
