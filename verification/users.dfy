/** The user service (src/user/UserService.js): registration, activation,
    listing, profile update, cascading delete and the password-reset flow.
    bcrypt, the random-string generator, the file service and e-mail
    delivery are parameters: a hash, a fresh string or filename, and whether
    the e-mail went out. */
module Users {
  import opened Base
  import opened Tables
  import opened Tokens
  import opened Schema
  import opened Validation

  const EmailNotFound := "E-mail not found"
  const UserNotFound := "User not found"

  /** Only the user table (and its counter) changed. */
  predicate OnlyUsersChanged(s: State, s': State)
  {
    && s'.tokens == s.tokens
    && s'.hoaxes == s.hoaxes
    && s'.attachments == s.attachments
    && s'.blobs == s.blobs
    && s'.nextHoaxId == s.nextHoaxId
  }

  /** Row `i` is the only user row that changed. */
  predicate OnlyRowChanged(users: seq<User>, users': seq<User>, i: nat)
  {
    && |users'| == |users|
    && i < |users|
    && forall j :: 0 <= j < |users| && j != i ==> users'[j] == users[j]
  }

  /** `save`: insert an inactive user with a 16-character activation token,
      inside a transaction committed only if the activation e-mail is sent. */
  function Register(s: State, username: string, email: string, hashedPassword: string,
                    activationToken: string, emailDelivered: bool): (r: Step<()>)
    requires |activationToken| == 16
    ensures !emailDelivered ==> r.state == s && r.result == Err(EmailFailure)
    ensures emailDelivered ==> r.result == Ok(())
    ensures emailDelivered ==> OnlyUsersChanged(s, r.state)
    ensures emailDelivered ==> |r.state.users| == |s.users| + 1 && r.state.users[..|s.users|] == s.users
    ensures emailDelivered ==>
              var u := r.state.users[|s.users|];
              && u.id == s.nextUserId && u.username == username && u.email == email
              && u.password == hashedPassword && u.inactive
              && u.activationToken.Some? && |u.activationToken.value| == 16
              && u.activationToken == Some(activationToken)
              && u.passwordResetToken.None? && u.image.None?
    ensures emailDelivered ==> r.state.nextUserId == s.nextUserId + 1
  {
    if !emailDelivered then
      Step(s, Err(EmailFailure))
    else
      var u := User(s.nextUserId, username, email, hashedPassword, true, Some(activationToken), None, None);
      Step(s.(users := s.users + [u], nextUserId := s.nextUserId + 1), Ok(()))
  }

  /** `activate`: the first user holding the token becomes active and loses
      the token; no such user is an invalid-token error. */
  function Activate(s: State, token: string): (r: Step<()>)
    ensures FindByActivationToken(s.users, token).None? <==> r.result.Err?
    ensures r.result.Err? ==> r.state == s && r.result.error == InvalidToken
    ensures r.result.Ok? ==> OnlyUsersChanged(s, r.state) && r.state.nextUserId == s.nextUserId
    ensures r.result.Ok? ==>
              var i := FindByActivationToken(s.users, token).value;
              && OnlyRowChanged(s.users, r.state.users, i)
              && r.state.users[i] == s.users[i].(inactive := false, activationToken := None)
  {
    match FindByActivationToken(s.users, token)
    case None => Step(s, Err(InvalidToken))
    case Some(i) =>
      Step(s.(users := s.users[i := s.users[i].(inactive := false, activationToken := None)]), Ok(()))
  }

  /** A page of the user list. */
  datatype UserPage = UserPage(content: seq<UserView>, page: nat, size: nat, totalPages: nat)

  /** The id `getUsers` excludes: the caller's own, or 0 for an anonymous caller. */
  function ExcludedId(auth: Option<nat>): nat
  {
    if auth.Some? then auth.value else 0
  }

  /** The users `getUsers` counts: active, and not the caller. */
  function Listable(users: seq<User>, auth: Option<nat>): (r: seq<User>)
    ensures forall k :: 0 <= k < |r| ==> !r[k].inactive && r[k].id != ExcludedId(auth) && r[k] in users
    ensures forall j :: 0 <= j < |users| && !users[j].inactive && users[j].id != ExcludedId(auth) ==> users[j] in r
  {
    Where(users, (u: User) => !u.inactive && u.id != ExcludedId(auth))
  }

  /** `getUsers`: active users other than the caller, `size` at a time from
      offset `page * size`, with the total page count. */
  function GetUsers(s: State, page: nat, size: nat, auth: Option<nat>): (r: UserPage)
    requires size > 0
    ensures r.page == page && r.size == size
    ensures |r.content| <= size
    ensures |r.content| == if page * size >= |Listable(s.users, auth)| then 0
                           else Min(size, |Listable(s.users, auth)| - page * size)
    ensures forall k :: 0 <= k < |r.content| ==>
              page * size + k < |Listable(s.users, auth)| && r.content[k] == ViewOf(Listable(s.users, auth)[page * size + k])
    ensures r.totalPages == CeilDiv(|Listable(s.users, auth)|, size)
    ensures forall k :: 0 <= k < |r.content| ==>
              exists j :: 0 <= j < |s.users| && !s.users[j].inactive && s.users[j].id != ExcludedId(auth)
                          && r.content[k] == ViewOf(s.users[j])
  {
    var rows := Listable(s.users, auth);
    var content := MapSeq(Page(rows, page * size, size), ViewOf);
    assert forall k :: 0 <= k < |content| ==> content[k] == ViewOf(rows[page * size + k]);
    UserPage(content, page, size, CeilDiv(|rows|, size))
  }

  /** Every active user other than the caller is listed on some page the
      response reports. */
  lemma GetUsersCoversAll(s: State, size: nat, auth: Option<nat>, j: nat) returns (page: nat)
    requires size > 0
    requires j < |s.users| && !s.users[j].inactive && s.users[j].id != ExcludedId(auth)
    ensures page < GetUsers(s, page, size, auth).totalPages
    ensures ViewOf(s.users[j]) in GetUsers(s, page, size, auth).content
  {
    var rows := Listable(s.users, auth);
    assert s.users[j] in rows;
    var i :| 0 <= i < |rows| && rows[i] == s.users[j];
    var pos;
    page, pos := PageCovers(rows, size, i);
    var onPage := Page(rows, page * size, size);
    var r := GetUsers(s, page, size, auth);
    assert r.content == MapSeq(onPage, ViewOf);
    assert r.content[pos] == ViewOf(onPage[pos]);
  }

  /** `getUser`: the public view of an active user; inactive or missing users are not found. */
  function GetUser(s: State, id: int): (r: Result<UserView>)
    ensures r.Ok? <==> exists j :: 0 <= j < |s.users| && s.users[j].id == id && !s.users[j].inactive
    ensures r.Ok? ==> r.value.id == id && exists j :: 0 <= j < |s.users| && r.value == ViewOf(s.users[j])
    ensures r.Err? ==> r.error == NotFound(UserNotFound)
  {
    match FirstWhere(s.users, (u: User) => u.id == id && !u.inactive)
    case None => Err(NotFound(UserNotFound))
    case Some(i) => Ok(ViewOf(s.users[i]))
  }

  /** `updateUser`: replace the username; with a new image, delete the old
      profile file (if any) and store the new one under a fresh name. A
      missing user is a null dereference. */
  function UpdateUser(s: State, id: int, username: string, image: Option<ImageUpload>, newImage: string): (r: Step<UserView>)
    requires image.Some? ==> ProfileImage(newImage) !in s.blobs
    ensures !HasUser(s.users, id) ==> r == Step(s, Err(NullReference))
    ensures HasUser(s.users, id) ==> r.result.Ok?
    ensures r.result.Ok? ==>
              var i := FindUser(s.users, id).value;
              var old_ := s.users[i];
              && OnlyRowChanged(s.users, r.state.users, i)
              && r.state.users[i] == old_.(username := username, image := r.state.users[i].image)
              && (image.Some? ==> r.state.users[i].image == Some(newImage))
              && (image.None? ==> r.state.users[i].image == old_.image)
              && r.result.value == UserView(id, username, old_.email, r.state.users[i].image)
    ensures r.result.Ok? ==>
              var old_ := s.users[FindUser(s.users, id).value];
              && (image.None? ==> r.state.blobs == s.blobs)
              && (image.Some? && old_.image.None? ==> r.state.blobs == s.blobs + {ProfileImage(newImage)})
              && (image.Some? && old_.image.Some? ==>
                    r.state.blobs == s.blobs - {ProfileImage(old_.image.value)} + {ProfileImage(newImage)})
    ensures r.result.Ok? ==> r.state.tokens == s.tokens && r.state.hoaxes == s.hoaxes
                             && r.state.attachments == s.attachments && r.state.nextUserId == s.nextUserId
                             && r.state.nextHoaxId == s.nextHoaxId
  {
    match FindUser(s.users, id)
    case None => Step(s, Err(NullReference))
    case Some(i) =>
      var u := s.users[i];
      var blobs :=
        if image.None? then s.blobs
        else if u.image.Some? then s.blobs - {ProfileImage(u.image.value)} + {ProfileImage(newImage)}
        else s.blobs + {ProfileImage(newImage)};
      var u' := u.(username := username, image := if image.Some? then Some(newImage) else u.image);
      Step(s.(users := s.users[i := u'], blobs := blobs), Ok(UserView(id, username, u.email, u'.image)))
  }

  /** The ids of the hoaxes `userId` owns. */
  function HoaxIdsOf(hoaxes: seq<Hoax>, userId: int): set<nat>
  {
    set h | h in hoaxes && h.userId == userId :: h.id
  }

  /** The attachment row is bound to one of the given hoaxes. */
  predicate BoundToAny(a: Attachment, hoaxIds: set<nat>)
  {
    a.hoaxId.Some? && a.hoaxId.value in hoaxIds
  }

  /** The files `deleteUserFiles` removes for user `u`: the profile image and
      the file of every attachment bound to one of the user's hoaxes. */
  function UserFiles(s: State, u: User): (r: set<Blob>)
    ensures forall n :: ProfileImage(n) in r <==> u.image == Some(n)
    ensures forall n :: AttachmentFile(n) in r <==>
              exists a :: a in s.attachments && a.filename == n && a.hoaxId.Some?
                          && exists h :: h in s.hoaxes && h.userId == u.id && h.id == a.hoaxId.value
  {
    (if u.image.Some? then {ProfileImage(u.image.value)} else {})
    + set a | a in s.attachments && BoundToAny(a, HoaxIdsOf(s.hoaxes, u.id)) :: AttachmentFile(a.filename)
  }

  /** `deleteUser`: remove the user's files, then the user row, whose
      destruction cascades to its tokens, its hoaxes and their attachments. */
  function DeleteUser(s: State, id: int): (r: Step<()>)
    ensures !HasUser(s.users, id) ==> r == Step(s, Err(NullReference))
    ensures HasUser(s.users, id) ==> r.result == Ok(())
    ensures r.result.Ok? ==> !HasUser(r.state.users, id)
    ensures r.result.Ok? ==> forall j :: 0 <= j < |s.users| && s.users[j].id != id ==> s.users[j] in r.state.users
    ensures r.result.Ok? ==> forall k :: 0 <= k < |r.state.users| ==> r.state.users[k] in s.users
    ensures r.result.Ok? ==> forall t :: t in r.state.tokens <==> t in s.tokens && s.tokens[t].userId != id
    ensures r.result.Ok? ==> forall t :: t in r.state.tokens ==> r.state.tokens[t] == s.tokens[t]
    ensures r.result.Ok? ==> forall k :: 0 <= k < |r.state.hoaxes| ==>
              r.state.hoaxes[k].userId != id && r.state.hoaxes[k] in s.hoaxes
    ensures r.result.Ok? ==> forall k :: 0 <= k < |s.hoaxes| && s.hoaxes[k].userId != id ==> s.hoaxes[k] in r.state.hoaxes
    ensures r.result.Ok? ==> forall k :: 0 <= k < |r.state.attachments| ==>
              r.state.attachments[k] in s.attachments && !BoundToAny(r.state.attachments[k], HoaxIdsOf(s.hoaxes, id))
    ensures r.result.Ok? ==> forall k :: 0 <= k < |s.attachments| && !BoundToAny(s.attachments[k], HoaxIdsOf(s.hoaxes, id)) ==>
              s.attachments[k] in r.state.attachments
    ensures r.result.Ok? ==> r.state.blobs == s.blobs - UserFiles(s, s.users[FindUser(s.users, id).value])
    ensures r.result.Ok? ==> r.state.nextUserId == s.nextUserId && r.state.nextHoaxId == s.nextHoaxId
    ensures StrictlyIncreasing(s.users, UserKey) ==> StrictlyIncreasing(r.state.users, UserKey)
    ensures StrictlyIncreasing(s.hoaxes, HoaxKey) ==> StrictlyIncreasing(r.state.hoaxes, HoaxKey)
    ensures StrictlyIncreasing(s.attachments, AttachmentKey) ==> StrictlyIncreasing(r.state.attachments, AttachmentKey)
  {
    match FindUser(s.users, id)
    case None => Step(s, Err(NullReference))
    case Some(i) =>
      var u := s.users[i];
      var doomed := HoaxIdsOf(s.hoaxes, u.id);
      var keepUser := (x: User) => x.id != id;
      var keepHoax := (h: Hoax) => h.userId != id;
      WhereIncreasing(s.users, keepUser, UserKey);
      var keepAttachment := (a: Attachment) => !BoundToAny(a, doomed);
      WhereIncreasing(s.hoaxes, keepHoax, HoaxKey);
      WhereIncreasing(s.attachments, keepAttachment, AttachmentKey);
      Step(s.(tokens := ClearTokens(s.tokens, u.id),
              users := Where(s.users, keepUser),
              hoaxes := Where(s.hoaxes, keepHoax),
              attachments := Where(s.attachments, keepAttachment),
              blobs := s.blobs - UserFiles(s, u)),
           Ok(()))
  }

  /** `passwordResetRequest`: store a fresh reset token on the user, then
      send it. The token is saved before the e-mail, so a failed e-mail still
      leaves it stored. */
  function PasswordResetRequest(s: State, email: string, resetToken: string, emailDelivered: bool): (r: Step<()>)
    requires |resetToken| == 16
    ensures FindByEmail(s.users, email).None? ==> r == Step(s, Err(NotFound(EmailNotFound)))
    ensures FindByEmail(s.users, email).Some? ==>
              var i := FindByEmail(s.users, email).value;
              && OnlyUsersChanged(s, r.state) && r.state.nextUserId == s.nextUserId
              && OnlyRowChanged(s.users, r.state.users, i)
              && r.state.users[i] == s.users[i].(passwordResetToken := Some(resetToken))
              && r.result == (if emailDelivered then Ok(()) else Err(EmailFailure))
  {
    match FindByEmail(s.users, email)
    case None => Step(s, Err(NotFound(EmailNotFound)))
    case Some(i) =>
      var s' := s.(users := s.users[i := s.users[i].(passwordResetToken := Some(resetToken))]);
      Step(s', if emailDelivered then Ok(()) else Err(EmailFailure))
  }

  /** `updatePassword`: store the new hash, clear the reset and activation
      tokens, activate the account, then revoke every session of the user.
      The user is looked up again by the token from the request body. */
  function UpdatePassword(s: State, resetToken: Option<string>, hashedPassword: string): (r: Step<()>)
    ensures FindByResetToken(s.users, resetToken).None? ==> r == Step(s, Err(NullReference))
    ensures FindByResetToken(s.users, resetToken).Some? ==>
              var i := FindByResetToken(s.users, resetToken).value;
              && r.result == Ok(())
              && OnlyRowChanged(s.users, r.state.users, i)
              && r.state.users[i] == s.users[i].(password := hashedPassword, passwordResetToken := None,
                                                 inactive := false, activationToken := None)
              && (forall t :: t in r.state.tokens <==> t in s.tokens && s.tokens[t].userId != s.users[i].id)
              && (forall t :: t in r.state.tokens ==> r.state.tokens[t] == s.tokens[t])
              && r.state.hoaxes == s.hoaxes && r.state.attachments == s.attachments && r.state.blobs == s.blobs
              && r.state.nextUserId == s.nextUserId && r.state.nextHoaxId == s.nextHoaxId
  {
    match FindByResetToken(s.users, resetToken)
    case None => Step(s, Err(NullReference))
    case Some(i) =>
      var u := s.users[i];
      var u' := u.(password := hashedPassword, passwordResetToken := None, inactive := false, activationToken := None);
      Step(s.(users := s.users[i := u'], tokens := ClearTokens(s.tokens, u.id)), Ok(()))
  }

  /** Registering and then following the e-mailed link activates exactly the
      new account, provided no other user holds the same activation token. */
  lemma RegisterThenActivate(s: State, username: string, email: string, hashedPassword: string, activationToken: string)
    requires |activationToken| == 16
    requires forall j :: 0 <= j < |s.users| ==> s.users[j].activationToken != Some(activationToken)
    ensures var s1 := Register(s, username, email, hashedPassword, activationToken, true).state;
            var s2 := Activate(s1, activationToken);
            && s2.result == Ok(())
            && s2.state.users[|s.users|].id == s.nextUserId
            && !s2.state.users[|s.users|].inactive
            && s2.state.users[..|s.users|] == s.users
  {
    var s1 := Register(s, username, email, hashedPassword, activationToken, true).state;
    var i := FindByActivationToken(s1.users, activationToken);
    assert s1.users[|s.users|].activationToken == Some(activationToken);
    assert forall j :: 0 <= j < |s.users| ==> s1.users[j] == s.users[j];
  }

  /** A registered account is not found until it is activated; then it is
      found by its id, with the name and e-mail it registered with and no
      image. */
  lemma RegisterActivateThenGet(s: State, username: string, email: string, hashedPassword: string,
                                  activationToken: string)
    requires |activationToken| == 16
    requires forall j :: 0 <= j < |s.users| ==> s.users[j].activationToken != Some(activationToken)
    requires forall j :: 0 <= j < |s.users| ==> s.users[j].id < s.nextUserId
    ensures var s1 := Register(s, username, email, hashedPassword, activationToken, true).state;
            GetUser(s1, s.nextUserId) == Err(NotFound(UserNotFound))
    ensures var s1 := Register(s, username, email, hashedPassword, activationToken, true).state;
            var s2 := Activate(s1, activationToken).state;
            GetUser(s2, s.nextUserId) == Ok(UserView(s.nextUserId, username, email, None))
  {
    var s1 := Register(s, username, email, hashedPassword, activationToken, true).state;
    RegisterThenActivate(s, username, email, hashedPassword, activationToken);
    var s2 := Activate(s1, activationToken).state;
    var n := |s.users|;
    forall j | 0 <= j < n ensures s1.users[j].id != s.nextUserId && s2.users[j].id != s.nextUserId {
      assert s1.users[j] == s.users[j];
      assert s2.users[..n][j] == s.users[j];
    }
    var r := GetUser(s2, s.nextUserId);
    assert r.Ok? by { assert s2.users[n].id == s.nextUserId && !s2.users[n].inactive; }
    var j :| 0 <= j < |s2.users| && r.value == ViewOf(s2.users[j]);
    assert j == n;
  }

  /** A deleted account is not found afterwards. */
  lemma DeletedUserNotFound(s: State, id: int)
    requires HasUser(s.users, id)
    ensures GetUser(DeleteUser(s, id).state, id) == Err(NotFound(UserNotFound))
  {
  }

  /** An activation token works once: after it activates its user, the same
      token is rejected, when no other user holds it. */
  lemma ActivationTokenSingleUse(s: State, token: string, i: nat)
    requires i < |s.users| && s.users[i].activationToken == Some(token)
    requires forall j :: 0 <= j < |s.users| && j != i ==> s.users[j].activationToken != Some(token)
    ensures Activate(s, token).result.Ok?
    ensures Activate(Activate(s, token).state, token) == Step(Activate(s, token).state, Err(InvalidToken))
  {
    var s1 := Activate(s, token).state;
    assert FindByActivationToken(s.users, token) == Some(i);
    forall j | 0 <= j < |s1.users| ensures s1.users[j].activationToken != Some(token) {
      if j != i {
        assert s1.users[j] == s.users[j];
      }
    }
  }

  /** After a password update no earlier session token of that user
      verifies, and the reset token cannot be used again when it was unique. */
  lemma UpdatePasswordRevokesSessions(s: State, resetToken: string, hashedPassword: string, i: nat, token: string, now: int)
    requires i < |s.users| && s.users[i].passwordResetToken == Some(resetToken)
    requires forall j :: 0 <= j < |s.users| && j != i ==> s.users[j].passwordResetToken != Some(resetToken)
    requires token in s.tokens && s.tokens[token].userId == s.users[i].id
    ensures Verify(UpdatePassword(s, Some(resetToken), hashedPassword).state.tokens, token, now).Rejected?
    ensures FindByResetToken(UpdatePassword(s, Some(resetToken), hashedPassword).state.users, Some(resetToken)).None?
  {
    var s1 := UpdatePassword(s, Some(resetToken), hashedPassword).state;
    assert FindByResetToken(s.users, Some(resetToken)) == Some(i);
    forall j | 0 <= j < |s1.users| ensures s1.users[j].passwordResetToken != Some(resetToken) {
      if j != i {
        assert s1.users[j] == s.users[j];
      }
    }
  }
}
