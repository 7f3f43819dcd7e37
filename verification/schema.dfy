/** The rows of the service's stores and the whole persistent state: the
    token table, the user, hoax and attachment tables, and the two blob
    directories (profile images and hoax attachments). */
module Schema {
  import opened Base
  import opened Tables
  import opened Tokens

  /** A user row. `password` holds the bcrypt hash; tokens are the random
      strings handed out by e-mail. */
  datatype User = User(
    id: nat,
    username: string,
    email: string,
    password: string,
    inactive: bool,
    activationToken: Option<string>,
    passwordResetToken: Option<string>,
    image: Option<string>)

  /** A hoax (post) row; `timestamp` is `Date.now()` at submission. */
  datatype Hoax = Hoax(id: nat, content: string, timestamp: int, userId: nat)

  /** A file-attachment row; `hoaxId` is null until a hoax claims it. */
  datatype Attachment = Attachment(id: nat, filename: string, fileType: Option<string>, hoaxId: Option<nat>)

  /** A stored file, named by its directory and generated filename. */
  datatype Blob = ProfileImage(name: string) | AttachmentFile(name: string)

  /** Everything the service persists. Tables are in primary-key order;
      `nextUserId` and `nextHoaxId` are the auto-increment counters. */
  datatype State = State(
    tokens: TokenTable,
    users: seq<User>,
    hoaxes: seq<Hoax>,
    attachments: seq<Attachment>,
    blobs: set<Blob>,
    nextUserId: nat,
    nextHoaxId: nat)

  /** A transition's new state together with what the caller receives.
      Some failures still change the state (a reset token saved before the
      e-mail fails), so the state is returned on both paths. */
  datatype Step<+T> = Step(state: State, result: Result<T>)

  function UserKey(u: User): int { u.id }
  function HoaxKey(h: Hoax): int { h.id }
  function AttachmentKey(a: Attachment): int { a.id }

  /** The public projection of a user: id, username, email and image. */
  datatype UserView = UserView(id: nat, username: string, email: string, image: Option<string>)

  function ViewOf(u: User): UserView
  {
    UserView(u.id, u.username, u.email, u.image)
  }

  /** Some user row has this id. */
  predicate HasUser(users: seq<User>, id: int)
  {
    exists i :: 0 <= i < |users| && users[i].id == id
  }

  /** Some hoax row has this id. */
  predicate HasHoax(hoaxes: seq<Hoax>, id: int)
  {
    exists i :: 0 <= i < |hoaxes| && hoaxes[i].id == id
  }

  /** `User.findOne({ where: { id } })`. */
  function FindUser(users: seq<User>, id: int): (r: Option<nat>)
    ensures r.Some? ==> r.value < |users| && users[r.value].id == id
    ensures r.None? <==> !HasUser(users, id)
  {
    FirstWhere(users, (u: User) => u.id == id)
  }

  /** `UserService.findByEmail`. */
  function FindByEmail(users: seq<User>, email: string): (r: Option<nat>)
    ensures r.Some? ==> r.value < |users| && users[r.value].email == email
    ensures r.Some? ==> forall j :: 0 <= j < r.value ==> users[j].email != email
    ensures r.None? <==> forall j :: 0 <= j < |users| ==> users[j].email != email
  {
    FirstWhere(users, (u: User) => u.email == email)
  }

  /** `User.findOne({ where: { activationToken: token } })`. */
  function FindByActivationToken(users: seq<User>, token: string): (r: Option<nat>)
    ensures r.Some? ==> r.value < |users| && users[r.value].activationToken == Some(token)
    ensures r.None? <==> forall j :: 0 <= j < |users| ==> users[j].activationToken != Some(token)
  {
    FirstWhere(users, (u: User) => u.activationToken == Some(token))
  }

  /** `UserService.findByPasswordResetToken`. The token comes from a JSON
      body, so it may be `null` (`None`); Sequelize turns a `null` in a
      `where` into `IS NULL`, which matches a user with no pending reset. */
  function FindByResetToken(users: seq<User>, token: Option<string>): (r: Option<nat>)
    ensures r.Some? ==> r.value < |users| && users[r.value].passwordResetToken == token
    ensures r.Some? ==> forall j :: 0 <= j < r.value ==> users[j].passwordResetToken != token
    ensures r.None? <==> forall j :: 0 <= j < |users| ==> users[j].passwordResetToken != token
  {
    FirstWhere(users, (u: User) => u.passwordResetToken == token)
  }

  /** The attachment the `hasOne` association loads for a hoax: the first
      attachment row bound to it. */
  function AttachmentOf(attachments: seq<Attachment>, hoaxId: nat): (r: Option<nat>)
    ensures r.Some? ==> r.value < |attachments| && attachments[r.value].hoaxId == Some(hoaxId)
    ensures r.None? <==> forall j :: 0 <= j < |attachments| ==> attachments[j].hoaxId != Some(hoaxId)
  {
    FirstWhere(attachments, (a: Attachment) => a.hoaxId == Some(hoaxId))
  }
}
