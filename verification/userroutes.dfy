/** The user routes (src/user/UserRouter.js): the validator chains run
    first, then each handler checks the caller before acting. bcrypt's hash
    of the submitted password, the random tokens and filenames, and whether
    an e-mail went out are parameters. */
module UserRoutes {
  import opened Base
  import opened Tokens
  import opened Schema
  import opened Validation
  import opened Users
  import opened TokenAuth

  const UserCreated := "User created"
  const AccountActivated := "Account is activated"
  const ResetMailSent := "Check your e-mail for resetting your password"
  const UpdateUnauthorized := "You are not authorized to update the user"
  const DeleteUnauthorized := "You are not authorized to delete the user"
  const ResetUnauthorized := "You are not authorized to update your password. Please follow the password reset steps again"

  /** Carry a service step's state over and give its success a message. */
  function WithMessage(st: Step<()>, message: string): (r: Step<string>)
    ensures r.state == st.state
    ensures r.result.Ok? <==> st.result.Ok?
    ensures r.result.Ok? ==> r.result.value == message
    ensures r.result.Err? ==> r.result.error == st.result.error
  {
    Step(st.state, if st.result.Ok? then Ok(message) else Err(st.result.error))
  }

  /** `POST /api/1.0/users`: any failing field rejects the request with
      every field's first message and stores nothing; otherwise the user is
      registered. The client's `inactive` is never read. */
  function PostUser(s: State, form: UserForm, isEmail: string -> bool, hashedPassword: string,
                    activationToken: string, emailDelivered: bool): (r: Step<string>)
    requires |activationToken| == 16
    ensures RegistrationErrors(form, isEmail, s.users) != [] ==>
              r == Step(s, Err(Validation(RegistrationErrors(form, isEmail, s.users))))
    ensures RegistrationErrors(form, isEmail, s.users) == [] && !emailDelivered ==> r == Step(s, Err(EmailFailure))
    ensures r.result.Ok? <==> RegistrationErrors(form, isEmail, s.users) == [] && emailDelivered
    ensures r.result.Ok? ==>
              && r.result.value == UserCreated
              && r.state == s.(users := s.users + [User(s.nextUserId, form.username.value, form.email.value, hashedPassword,
                                                       true, Some(activationToken), None, None)],
                               nextUserId := s.nextUserId + 1)
    ensures r.result.Err? ==> r.state == s
  {
    var errors := RegistrationErrors(form, isEmail, s.users);
    if errors != [] then
      Step(s, Err(Validation(errors)))
    else
      WithMessage(Register(s, form.username.value, form.email.value, hashedPassword, activationToken, emailDelivered), UserCreated)
  }

  /** Whatever `inactive` the client sends, the outcome is the same: new
      accounts always start inactive. */
  lemma ClientInactiveIgnored(s: State, form: UserForm, flag: Option<bool>, isEmail: string -> bool, hashedPassword: string,
                              activationToken: string, emailDelivered: bool)
    requires |activationToken| == 16
    ensures PostUser(s, form.(inactive := flag), isEmail, hashedPassword, activationToken, emailDelivered)
         == PostUser(s, form, isEmail, hashedPassword, activationToken, emailDelivered)
  {
  }

  /** No e-mail can be registered twice: once a valid registration
      succeeds, the same e-mail is rejected as in use. */
  lemma EmailUniqueAfterRegistration(s: State, form: UserForm, isEmail: string -> bool, hashedPassword: string,
                                     activationToken: string, form2: UserForm, hashed2: string, token2: string, delivered2: bool)
    requires |activationToken| == 16 && |token2| == 16
    requires PostUser(s, form, isEmail, hashedPassword, activationToken, true).result.Ok?
    requires form2.email == form.email
    ensures var s1 := PostUser(s, form, isEmail, hashedPassword, activationToken, true).state;
            var r := PostUser(s1, form2, isEmail, hashed2, token2, delivered2);
            && r.state == s1
            && r.result.Err?
            && FieldError("email", EmailInUse) in r.result.error.errors
  {
    var s1 := PostUser(s, form, isEmail, hashedPassword, activationToken, true).state;
    var k := |s.users|;
    assert s1.users[k].email == form.email.value;
    assert FindByEmail(s1.users, form2.email.value).Some?;
    var errors := RegistrationErrors(form2, isEmail, s1.users);
    assert EmailError(form2.email, isEmail, s1.users) == Some(EmailInUse);
    assert errors[|FieldErrors("username", UsernameError(form2.username))|] == FieldError("email", EmailInUse);
  }

  /** `POST /api/1.0/users/token/:token`. */
  function ActivateRoute(s: State, token: string): (r: Step<string>)
    ensures r.result.Ok? <==> exists j :: 0 <= j < |s.users| && s.users[j].activationToken == Some(token)
    ensures r.result.Ok? ==> r.result.value == AccountActivated
    ensures r.result.Ok? ==>
              var i := FindByActivationToken(s.users, token).value;
              r.state == s.(users := s.users[i := s.users[i].(inactive := false, activationToken := None)])
    ensures r.result.Err? ==> r == Step(s, Err(InvalidToken))
  {
    WithMessage(Activate(s, token), AccountActivated)
  }

  /** `GET /api/1.0/users/:id`: an id that is not a number reaches the
      query as `NaN`, which the database rejects; the error is passed on. */
  function GetUserRoute(s: State, id: Option<int>): (r: Result<UserView>)
    ensures id.None? ==> r == Err(QueryFailure)
    ensures r.Ok? <==> id.Some? && exists j :: 0 <= j < |s.users| && s.users[j].id == id.value && !s.users[j].inactive
    ensures r.Ok? ==> r.value.id == id.value
    ensures id.Some? && r.Err? ==> r.error == NotFound(UserNotFound)
  {
    if id.None? then Err(QueryFailure) else GetUser(s, id.value)
  }

  /** The caller is the user named in the path. */
  predicate IsSelf(auth: Option<nat>, pathId: Option<int>)
  {
    auth.Some? && pathId.Some? && auth.value == pathId.value
  }

  /** `PUT /api/1.0/users/:id`: anyone but the user themself is refused
      before validation is consulted; then the username and image rules;
      then the update. `newImage` is the generated filename for the image. */
  function PutUser(s: State, auth: Option<nat>, pathId: Option<int>, username: Option<string>,
                   image: Option<ImageUpload>, newImage: string): (r: Step<UserView>)
    requires image.Some? ==> ProfileImage(newImage) !in s.blobs
    ensures !IsSelf(auth, pathId) ==> r == Step(s, Err(Forbidden(UpdateUnauthorized)))
    ensures IsSelf(auth, pathId) && UpdateErrors(username, image) != [] ==>
              r == Step(s, Err(Validation(UpdateErrors(username, image))))
    ensures r.result.Ok? <==>
              IsSelf(auth, pathId) && UpdateErrors(username, image) == [] && HasUser(s.users, pathId.value)
    ensures r.result.Ok? ==>
              && r.result.value.id == pathId.value
              && r.result.value.username == username.value
              && 4 <= |username.value| <= 32
              && (image.Some? ==> r.result.value.image == Some(newImage))
    ensures IsSelf(auth, pathId) && UpdateErrors(username, image) == [] ==>
              r == UpdateUser(s, pathId.value, username.value, image, newImage)
    ensures r.result.Err? ==> r.state == s
  {
    if !IsSelf(auth, pathId) then
      Step(s, Err(Forbidden(UpdateUnauthorized)))
    else
      var errors := UpdateErrors(username, image);
      if errors != [] then Step(s, Err(Validation(errors)))
      else UpdateUser(s, pathId.value, username.value, image, newImage)
  }

  /** An anonymous request with an invalid body is refused as forbidden, not
      as invalid: the guard runs first. */
  lemma UpdateGuardBeforeValidation(s: State, pathId: Option<int>, image: Option<ImageUpload>, newImage: string)
    requires image.Some? ==> ProfileImage(newImage) !in s.blobs
    ensures PutUser(s, None, pathId, Some("usr"), image, newImage) == Step(s, Err(Forbidden(UpdateUnauthorized)))
  {
  }

  /** `DELETE /api/1.0/users/:id`: only the user themself may delete the account. */
  function DeleteUserRoute(s: State, auth: Option<nat>, pathId: Option<int>): (r: Step<()>)
    ensures !IsSelf(auth, pathId) ==> r == Step(s, Err(Forbidden(DeleteUnauthorized)))
    ensures r.result.Ok? <==> IsSelf(auth, pathId) && HasUser(s.users, pathId.value)
    ensures r.result.Ok? ==>
              && !HasUser(r.state.users, pathId.value)
              && (forall t :: t in r.state.tokens ==> r.state.tokens[t].userId != pathId.value)
              && (forall k :: 0 <= k < |r.state.hoaxes| ==> r.state.hoaxes[k].userId != pathId.value)
    ensures IsSelf(auth, pathId) ==> r == DeleteUser(s, pathId.value)
    ensures r.result.Err? ==> r.state == s
  {
    if !IsSelf(auth, pathId) then Step(s, Err(Forbidden(DeleteUnauthorized)))
    else DeleteUser(s, pathId.value)
  }

  /** After deleting the account, the header that authorised the deletion
      no longer authenticates anyone. */
  lemma DeletedAccountTokenDead(s: State, header: Option<string>, now: int, later: int)
    requires Authenticate(s.tokens, header, now).user.Some?
    ensures var a := Authenticate(s.tokens, header, now);
            var r := DeleteUserRoute(s.(tokens := a.tokens), a.user, Some(a.user.value));
            r.result.Ok? ==> Authenticate(r.state.tokens, header, later).user.None?
  {
  }

  /** `POST /api/1.0/user/password`: the e-mail must be well formed, then
      the reset token is stored and mailed. */
  function PostPasswordReset(s: State, email: Option<string>, isEmail: string -> bool,
                             resetToken: string, emailDelivered: bool): (r: Step<string>)
    requires |resetToken| == 16
    ensures email.None? || !isEmail(email.value) ==>
              r == Step(s, Err(Validation([FieldError("email", EmailInvalid)])))
    ensures r.result.Ok? <==>
              email.Some? && isEmail(email.value) && FindByEmail(s.users, email.value).Some? && emailDelivered
    ensures r.result.Ok? ==> r.result.value == ResetMailSent
    ensures email.Some? && isEmail(email.value) && FindByEmail(s.users, email.value).None? ==>
              r == Step(s, Err(NotFound(EmailNotFound)))
    ensures email.Some? && isEmail(email.value) && FindByEmail(s.users, email.value).Some? ==>
              var i := FindByEmail(s.users, email.value).value;
              && r.state == s.(users := s.users[i := s.users[i].(passwordResetToken := Some(resetToken))])
              && r.result == (if emailDelivered then Ok(ResetMailSent) else Err(EmailFailure))
  {
    if email.None? || !isEmail(email.value) then
      Step(s, Err(Validation([FieldError("email", EmailInvalid)])))
    else
      WithMessage(PasswordResetRequest(s, email.value, resetToken, emailDelivered), ResetMailSent)
  }

  /** The user row after a successful password update. */
  function PasswordUpdated(u: User, hashedPassword: string): User
  {
    u.(password := hashedPassword, passwordResetToken := None, inactive := false, activationToken := None)
  }

  /** `PUT /api/1.0/user/password` as written: the token validator looks the
      user up by the body's token (forbidden when none holds it), then the
      password rule, then the update, which looks the user up again and ends
      every session of theirs. A `null` token is `None` and looks up a user
      with no pending reset. */
  function PutPassword(s: State, resetToken: Option<string>, password: Option<string>, hashedPassword: string): (r: Step<()>)
    ensures FindByResetToken(s.users, resetToken).None? ==> r == Step(s, Err(Forbidden(ResetUnauthorized)))
    ensures FindByResetToken(s.users, resetToken).Some? && PasswordError(password).Some? ==>
              r == Step(s, Err(Validation([FieldError("password", PasswordError(password).value)])))
    ensures r.result.Ok? <==> FindByResetToken(s.users, resetToken).Some? && PasswordError(password).None?
    ensures r.result.Err? ==> r.state == s
    ensures r.result.Ok? ==>
              var i := FindByResetToken(s.users, resetToken).value;
              r.state == s.(users := s.users[i := PasswordUpdated(s.users[i], hashedPassword)],
                            tokens := ClearTokens(s.tokens, s.users[i].id))
  {
    match FindByResetToken(s.users, resetToken)
    case None => Step(s, Err(Forbidden(ResetUnauthorized)))
    case Some(_) =>
      match PasswordError(password)
      case Some(message) => Step(s, Err(Validation([FieldError("password", message)])))
      case None => UpdatePassword(s, resetToken, hashedPassword)
  }

  /** As written, a `null` reset token gets through whenever some user has
      no pending reset: the first such user's password is overwritten, the
      account is activated and its sessions end, with no reset e-mail ever
      sent. */
  lemma NullResetTokenOverwritesPassword(s: State, password: Option<string>, hashedPassword: string, j: nat)
    requires j < |s.users| && s.users[j].passwordResetToken.None?
    requires PasswordError(password).None?
    ensures var r := PutPassword(s, None, password, hashedPassword);
            var i := FindByResetToken(s.users, None).value;
            && r.result.Ok?
            && i <= j && s.users[i].passwordResetToken.None?
            && r.state.users[i].password == hashedPassword && !r.state.users[i].inactive
  {
  }

  /** The same on one concrete store: a single user who never asked for a
      reset, and the body `{"passwordResetToken": null, "password": "P4ssword"}`. */
  lemma NullResetTokenExample(hashedPassword: string)
    ensures var u := User(1, "user1", "user1@mail.com", "old-hash", false, None, None, None);
            var s := State(map[], [u], [], [], {}, 2, 1);
            PutPassword(s, None, Some("P4ssword"), hashedPassword).state.users[0].password == hashedPassword
  {
    assert PasswordClasses("P4ssword") by {
      assert IsDigit("P4ssword"[1]) && IsLower("P4ssword"[2]) && IsUpper("P4ssword"[0]);
    }
  }

  /** `PUT /api/1.0/user/password` as intended: only a token that a user
      holds from a reset request opens the update, so a `null` token is
      forbidden like an unknown one. A user with no pending reset is never
      changed. */
  function PutPasswordChecked(s: State, resetToken: Option<string>, password: Option<string>, hashedPassword: string): (r: Step<()>)
    ensures resetToken.None? ==> r == Step(s, Err(Forbidden(ResetUnauthorized)))
    ensures r.result.Ok? <==>
              resetToken.Some? && FindByResetToken(s.users, resetToken).Some? && PasswordError(password).None?
    ensures r.result.Err? ==> r.state == s
    ensures |r.state.users| == |s.users|
    ensures forall j :: 0 <= j < |s.users| && s.users[j].passwordResetToken.None? ==> r.state.users[j] == s.users[j]
    ensures r.result.Ok? ==>
              exists i :: 0 <= i < |s.users| && s.users[i].passwordResetToken == resetToken
                          && r.state.users[i] == PasswordUpdated(s.users[i], hashedPassword)
  {
    if resetToken.None? then Step(s, Err(Forbidden(ResetUnauthorized)))
    else PutPassword(s, resetToken, password, hashedPassword)
  }

  /** A reset token works once: after a successful password update the same
      token is forbidden, provided it was the only copy. */
  lemma ResetTokenSingleUse(s: State, resetToken: string, password: Option<string>, hashedPassword: string,
                            password2: Option<string>, hashed2: string)
    requires PutPasswordChecked(s, Some(resetToken), password, hashedPassword).result.Ok?
    requires forall j, k :: 0 <= j < k < |s.users| && s.users[j].passwordResetToken == Some(resetToken) ==>
               s.users[k].passwordResetToken != Some(resetToken)
    ensures var s1 := PutPasswordChecked(s, Some(resetToken), password, hashedPassword).state;
            PutPasswordChecked(s1, Some(resetToken), password2, hashed2) == Step(s1, Err(Forbidden(ResetUnauthorized)))
  {
    var i := FindByResetToken(s.users, Some(resetToken)).value;
    var s1 := PutPasswordChecked(s, Some(resetToken), password, hashedPassword).state;
    forall j | 0 <= j < |s1.users| ensures s1.users[j].passwordResetToken != Some(resetToken) {
      if j != i {
        if j < i {
        } else {
          assert s.users[i].passwordResetToken == Some(resetToken);
        }
      }
    }
  }
}
