/** The consistency the database's keys and foreign keys give the store,
    and its preservation by every transition of the model: ids ascend in
    table order and stay below the auto-increment counters, every token and
    hoax belongs to an existing user, every bound attachment to an existing
    hoax, and no hoax has two attachments. */
module Invariants {
  import opened Base
  import opened Tables
  import opened Tokens
  import opened Schema
  import opened TokenAuth
  import Users
  import Hoaxes
  import Authentication
  import Validation
  import HoaxRoutes
  import UserRoutes

  ghost predicate UsersKeyed(s: State)
  {
    && StrictlyIncreasing(s.users, UserKey)
    && forall i :: 0 <= i < |s.users| ==> s.users[i].id < s.nextUserId
  }

  ghost predicate HoaxesKeyed(s: State)
  {
    && StrictlyIncreasing(s.hoaxes, HoaxKey)
    && forall i :: 0 <= i < |s.hoaxes| ==> s.hoaxes[i].id < s.nextHoaxId
  }

  ghost predicate AttachmentsKeyed(s: State)
  {
    StrictlyIncreasing(s.attachments, AttachmentKey)
  }

  /** Every token row names an existing user (`Token.userId` references `users`). */
  predicate TokensOwned(s: State)
  {
    forall t :: t in s.tokens ==> HasUser(s.users, s.tokens[t].userId)
  }

  /** Every hoax row names an existing user. */
  predicate HoaxesOwned(s: State)
  {
    forall i :: 0 <= i < |s.hoaxes| ==> HasUser(s.users, s.hoaxes[i].userId)
  }

  /** Every bound attachment names an existing hoax. */
  predicate AttachmentsBound(s: State)
  {
    forall k :: 0 <= k < |s.attachments| && s.attachments[k].hoaxId.Some? ==>
      HasHoax(s.hoaxes, s.attachments[k].hoaxId.value)
  }

  /** At most one attachment per hoax (the `hasOne` association). */
  predicate OneAttachmentPerHoax(s: State)
  {
    forall j, k :: 0 <= j < k < |s.attachments| && s.attachments[j].hoaxId.Some? ==>
      s.attachments[j].hoaxId != s.attachments[k].hoaxId
  }

  ghost predicate Valid(s: State)
  {
    && UsersKeyed(s)
    && HoaxesKeyed(s)
    && AttachmentsKeyed(s)
    && TokensOwned(s)
    && HoaxesOwned(s)
    && AttachmentsBound(s)
    && OneAttachmentPerHoax(s)
  }

  /** The freshly migrated, empty database. */
  function Empty(): (s: State)
    ensures Valid(s)
    ensures s.users == [] && s.hoaxes == [] && s.attachments == [] && s.tokens == map[]
  {
    State(map[], [], [], [], {}, 1, 1)
  }

  /** On a valid store `findOne` by id finds the one row with that id. */
  lemma {:induction false} FindUserExact(s: State, i: nat)
    requires Valid(s)
    requires i < |s.users|
    ensures FindUser(s.users, s.users[i].id) == Some(i)
  {
    assert HasUser(s.users, s.users[i].id);
    var k := FindUser(s.users, s.users[i].id).value;
    assert k < i ==> UserKey(s.users[k]) < UserKey(s.users[i]);
  }

  /** The caller the middleware authenticates on a valid store is a user that exists. */
  lemma AuthenticatedUserExists(s: State, header: Option<string>, now: int)
    requires TokensOwned(s)
    requires Authenticate(s.tokens, header, now).user.Some?
    ensures HasUser(s.users, Authenticate(s.tokens, header, now).user.value)
  {
  }

  /** Authenticating a request (and refreshing its token) keeps the store valid. */
  lemma AuthenticatePreserves(s: State, header: Option<string>, now: int)
    requires Valid(s)
    ensures Valid(s.(tokens := Authenticate(s.tokens, header, now).tokens))
  {
    var t := Authenticate(s.tokens, header, now).tokens;
    assert forall u :: u in t ==> t[u].userId == s.tokens[u].userId;
  }

  /** The hourly sweep keeps the store valid. */
  lemma SweepPreserves(s: State, now: int)
    requires Valid(s)
    ensures Valid(s.(tokens := Sweep(s.tokens, now)))
  {
  }

  /** Row updates that keep every id, and the ids' order, leave users existing. */
  lemma {:induction false} SameIdsKeepUsers(s: State, s': State)
    requires Valid(s)
    requires |s'.users| == |s.users| && forall i :: 0 <= i < |s.users| ==> s'.users[i].id == s.users[i].id
    requires s'.nextUserId == s.nextUserId && s'.hoaxes == s.hoaxes && s'.attachments == s.attachments
    requires s'.nextHoaxId == s.nextHoaxId
    requires forall t :: t in s'.tokens ==> t in s.tokens && s'.tokens[t].userId == s.tokens[t].userId
    ensures Valid(s')
  {
    forall i, j | 0 <= i < j < |s'.users| ensures UserKey(s'.users[i]) < UserKey(s'.users[j]) {
      assert UserKey(s.users[i]) < UserKey(s.users[j]);
    }
    forall id | HasUser(s.users, id) ensures HasUser(s'.users, id) {
      var i :| 0 <= i < |s.users| && s.users[i].id == id;
      assert s'.users[i].id == id;
    }
  }

  /** Registration keeps the store valid: the new id is above every old one. */
  lemma RegisterPreserves(s: State, username: string, email: string, hashedPassword: string,
                          activationToken: string, emailDelivered: bool)
    requires Valid(s)
    requires |activationToken| == 16
    ensures Valid(Users.Register(s, username, email, hashedPassword, activationToken, emailDelivered).state)
  {
    if emailDelivered {
      var s' := Users.Register(s, username, email, hashedPassword, activationToken, emailDelivered).state;
      assert s'.users == s.users + [s'.users[|s.users|]];
      forall i, j | 0 <= i < j < |s'.users| ensures UserKey(s'.users[i]) < UserKey(s'.users[j]) {
        if j < |s.users| {
          assert UserKey(s.users[i]) < UserKey(s.users[j]);
        }
      }
      forall id | HasUser(s.users, id) ensures HasUser(s'.users, id) {
        var i :| 0 <= i < |s.users| && s.users[i].id == id;
        assert s'.users[i] == s.users[i];
      }
    }
  }

  lemma ActivatePreserves(s: State, token: string)
    requires Valid(s)
    ensures Valid(Users.Activate(s, token).state)
  {
    var s' := Users.Activate(s, token).state;
    if s' != s {
      SameIdsKeepUsers(s, s');
    }
  }

  lemma UpdateUserPreserves(s: State, id: int, username: string, image: Option<Validation.ImageUpload>, newImage: string)
    requires Valid(s)
    requires image.Some? ==> ProfileImage(newImage) !in s.blobs
    ensures Valid(Users.UpdateUser(s, id, username, image, newImage).state)
  {
    var r := Users.UpdateUser(s, id, username, image, newImage);
    if r.result.Ok? {
      SameIdsKeepUsers(s, r.state);
    }
  }

  lemma PasswordResetRequestPreserves(s: State, email: string, resetToken: string, emailDelivered: bool)
    requires Valid(s)
    requires |resetToken| == 16
    ensures Valid(Users.PasswordResetRequest(s, email, resetToken, emailDelivered).state)
  {
    var s' := Users.PasswordResetRequest(s, email, resetToken, emailDelivered).state;
    if s' != s {
      SameIdsKeepUsers(s, s');
    }
  }

  lemma UpdatePasswordPreserves(s: State, resetToken: Option<string>, hashedPassword: string)
    requires Valid(s)
    ensures Valid(Users.UpdatePassword(s, resetToken, hashedPassword).state)
  {
    var s' := Users.UpdatePassword(s, resetToken, hashedPassword).state;
    if s' != s {
      SameIdsKeepUsers(s, s');
    }
  }

  /** The guarded password-reset route keeps the store consistent. */
  lemma PutPasswordCheckedPreserves(s: State, resetToken: Option<string>, password: Option<string>, hashedPassword: string)
    requires Valid(s)
    ensures Valid(UserRoutes.PutPasswordChecked(s, resetToken, password, hashedPassword).state)
  {
    if UserRoutes.PutPasswordChecked(s, resetToken, password, hashedPassword).result.Ok? {
      UpdatePasswordPreserves(s, resetToken, hashedPassword);
    }
  }

  /** A user kept by a deletion is still found after it. */
  lemma {:induction false} UserKept(users: seq<User>, users': seq<User>, uid: int, id: int)
    requires HasUser(users, uid) && uid != id
    requires forall j :: 0 <= j < |users| && users[j].id != id ==> users[j] in users'
    ensures HasUser(users', uid)
  {
    var j :| 0 <= j < |users| && users[j].id == uid;
    assert users[j] in users';
    var k :| 0 <= k < |users'| && users'[k] == users[j];
  }

  /** Deleting a user removes everything that pointed at it, so the store stays valid. */
  lemma DeleteUserPreserves(s: State, id: int)
    requires Valid(s)
    ensures Valid(Users.DeleteUser(s, id).state)
  {
    var r := Users.DeleteUser(s, id);
    if r.result.Ok? {
      var s' := r.state;
      forall t | t in s'.tokens ensures HasUser(s'.users, s'.tokens[t].userId) {
        UserKept(s.users, s'.users, s.tokens[t].userId, id);
      }
      forall k | 0 <= k < |s'.hoaxes| ensures HasUser(s'.users, s'.hoaxes[k].userId) {
        assert s'.hoaxes[k] in s.hoaxes;
        UserKept(s.users, s'.users, s'.hoaxes[k].userId, id);
      }
      forall k | 0 <= k < |s'.attachments| && s'.attachments[k].hoaxId.Some?
        ensures HasHoax(s'.hoaxes, s'.attachments[k].hoaxId.value)
      {
        var a := s'.attachments[k];
        assert a in s.attachments;
        var m :| 0 <= m < |s.attachments| && s.attachments[m] == a;
        var h :| 0 <= h < |s.hoaxes| && s.hoaxes[h].id == a.hoaxId.value;
        assert s.hoaxes[h] in s.hoaxes;
        assert s.hoaxes[h] in s'.hoaxes;
      }
      forall j, k | 0 <= j < k < |s'.attachments| && s'.attachments[j].hoaxId.Some?
        ensures s'.attachments[j].hoaxId != s'.attachments[k].hoaxId
      {
        AttachmentsDistinct(s, s', j, k);
      }
      forall i | 0 <= i < |s'.users| ensures s'.users[i].id < s'.nextUserId {
        assert s'.users[i] in s.users;
      }
      forall i | 0 <= i < |s'.hoaxes| ensures s'.hoaxes[i].id < s'.nextHoaxId {
        assert s'.hoaxes[i] in s.hoaxes;
      }
    }
  }

  /** A deletion that keeps attachments in their order keeps two of them
      from sharing a hoax. */
  lemma AttachmentsDistinct(s: State, s': State, j: nat, k: nat)
    requires OneAttachmentPerHoax(s)
    requires forall m :: 0 <= m < |s'.attachments| ==> s'.attachments[m] in s.attachments
    requires StrictlyIncreasing(s'.attachments, AttachmentKey)
    requires j < k < |s'.attachments| && s'.attachments[j].hoaxId.Some?
    ensures s'.attachments[j].hoaxId != s'.attachments[k].hoaxId
  {
    var a, b := s'.attachments[j], s'.attachments[k];
    var x :| 0 <= x < |s.attachments| && s.attachments[x] == a;
    var y :| 0 <= y < |s.attachments| && s.attachments[y] == b;
    assert AttachmentKey(a) < AttachmentKey(b);
    assert x < y ==> s.attachments[x].hoaxId != s.attachments[y].hoaxId;
    assert y < x && b.hoaxId.Some? ==> s.attachments[y].hoaxId != s.attachments[x].hoaxId;
  }

  /** Logging in keeps the store valid: the new token's owner exists. */
  lemma LoginPreserves(s: State, email: Option<string>, password: string, isEmail: string -> bool,
                       passwordMatches: (string, string) -> bool, freshToken: string, now: int)
    requires Valid(s)
    requires freshToken !in s.tokens
    ensures Valid(Authentication.Login(s, email, password, isEmail, passwordMatches, freshToken, now).state)
  {
    var r := Authentication.Login(s, email, password, isEmail, passwordMatches, freshToken, now);
    if r.result.Ok? {
      var i := FindByEmail(s.users, email.value).value;
      assert HasUser(s.users, s.users[i].id);
    }
  }

  lemma LogoutPreserves(s: State, header: Option<string>)
    requires Valid(s)
    ensures Valid(Authentication.Logout(s, header).state)
  {
  }

  /** Posting a hoax as an existing user keeps the store valid: the new id
      is above every old one, so no attachment was bound to it before and at
      most one is bound to it after. */
  /** Posting appends a hoax under a fresh, larger id and keeps every
      existing hoax id. */
  lemma SaveHoaxKeepsHoaxIds(s: State, content: string, userId: nat, attachmentId: Option<int>, now: int)
    requires HoaxesKeyed(s) && HoaxesOwned(s) && HasUser(s.users, userId)
    ensures var s' := Hoaxes.SaveHoax(s, content, userId, attachmentId, now);
            && HoaxesKeyed(s') && HoaxesOwned(s')
            && (forall id :: HasHoax(s.hoaxes, id) ==> HasHoax(s'.hoaxes, id) && id < s.nextHoaxId)
            && HasHoax(s'.hoaxes, s.nextHoaxId)
  {
    var s' := Hoaxes.SaveHoax(s, content, userId, attachmentId, now);
    var n := |s.hoaxes|;
    assert s'.hoaxes == s.hoaxes + [s'.hoaxes[n]];
    forall i, j | 0 <= i < j < |s'.hoaxes| ensures HoaxKey(s'.hoaxes[i]) < HoaxKey(s'.hoaxes[j]) {
      if j < n {
        assert HoaxKey(s.hoaxes[i]) < HoaxKey(s.hoaxes[j]);
      }
    }
    forall id | HasHoax(s.hoaxes, id) ensures HasHoax(s'.hoaxes, id) && id < s.nextHoaxId {
      var i :| 0 <= i < n && s.hoaxes[i].id == id;
      assert s'.hoaxes[i] == s.hoaxes[i];
    }
    assert HasHoax(s'.hoaxes, s.nextHoaxId) by {
      assert s'.hoaxes[n].id == s.nextHoaxId;
    }
  }

  lemma SaveHoaxPreserves(s: State, content: string, userId: nat, attachmentId: Option<int>, now: int)
    requires Valid(s)
    requires HasUser(s.users, userId)
    ensures Valid(Hoaxes.SaveHoax(s, content, userId, attachmentId, now))
  {
    var s' := Hoaxes.SaveHoax(s, content, userId, attachmentId, now);
    SaveHoaxKeepsHoaxIds(s, content, userId, attachmentId, now);
    forall k | 0 <= k < |s.attachments| && s.attachments[k].hoaxId.Some?
      ensures s.attachments[k].hoaxId != Some(s.nextHoaxId)
    {
      assert HasHoax(s.hoaxes, s.attachments[k].hoaxId.value);
    }
    forall j, k | 0 <= j < k < |s'.attachments| && s'.attachments[j].hoaxId.Some?
      ensures s'.attachments[j].hoaxId != s'.attachments[k].hoaxId
    {
      if s.attachments[j].hoaxId.Some? && s.attachments[k].hoaxId.Some? {
        assert s.attachments[j].hoaxId != s.attachments[k].hoaxId;
      }
    }
  }

  /** Deleting a hoax keeps the store valid: its attachment goes with it. */
  lemma DeleteHoaxPreserves(s: State, hoaxId: int, owner: nat)
    requires Valid(s)
    ensures Valid(Hoaxes.DeleteHoax(s, hoaxId, owner).state)
  {
    var r := Hoaxes.DeleteHoax(s, hoaxId, owner);
    if r.result.Ok? {
      var s' := r.state;
      forall k | 0 <= k < |s'.hoaxes| ensures HasUser(s'.users, s'.hoaxes[k].userId) && s'.hoaxes[k].id < s'.nextHoaxId {
        assert s'.hoaxes[k] in s.hoaxes;
      }
      forall k | 0 <= k < |s'.attachments| && s'.attachments[k].hoaxId.Some?
        ensures HasHoax(s'.hoaxes, s'.attachments[k].hoaxId.value)
      {
        var a := s'.attachments[k];
        assert a in s.attachments;
        var h :| 0 <= h < |s.hoaxes| && s.hoaxes[h].id == a.hoaxId.value;
        assert s.hoaxes[h] in s'.hoaxes;
      }
      forall j, k | 0 <= j < k < |s'.attachments| && s'.attachments[j].hoaxId.Some?
        ensures s'.attachments[j].hoaxId != s'.attachments[k].hoaxId
      {
        AttachmentsDistinct(s, s', j, k);
      }
    }
  }

  /** A whole posting request, authentication included, keeps the store
      valid: the author the middleware attaches always exists. */
  lemma PostHoaxRequestPreserves(s: State, header: Option<string>, content: Option<string>,
                                 attachmentId: Option<int>, now: int)
    requires Valid(s)
    ensures var a := Authenticate(s.tokens, header, now);
            Valid(HoaxRoutes.PostHoax(s.(tokens := a.tokens), a.user, content, attachmentId, now).state)
  {
    var a := Authenticate(s.tokens, header, now);
    var s1 := s.(tokens := a.tokens);
    AuthenticatePreserves(s, header, now);
    if a.user.Some? && Validation.ContentError(content).None? {
      AuthenticatedUserExists(s, header, now);
      SaveHoaxPreserves(s1, content.value, a.user.value, attachmentId, now);
    }
  }
}
