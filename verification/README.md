# Hoax service core, modelled in Dafny

A model of the back end of a small social posting service (users post
short "hoaxes", optionally with a file attachment). It covers:

- the opaque bearer-token store with its sliding one-week expiry and the
  hourly sweep;
- the middleware that turns an `Authorization` header into an
  authenticated user;
- login and logout;
- the user service (registration, activation, listing, profile update,
  cascading delete, password reset);
- the hoax service (posting with attachment binding, paged listing,
  owner-only delete);
- the user and hoax routers with their validator chains and ownership
  guards.

The whole persistent store is one immutable `State`:
- the token table, a map keyed by token value;
- the user, hoax and attachment tables, each a sequence in primary-key
  order, where `findOne` is the first match;
- the set of stored files;
- the two auto-increment counters.

Every service call and route is a pure function from a state to a
`Step`: the new state and either a value or an `ApiError`.

Collaborators become parameters:
- the clock is `now` in milliseconds;
- bcrypt's hash is a string argument and its compare is a predicate
  `passwordMatches(plain, hash)`;
- the random-string generator and the file service's generated filenames
  are fresh-value arguments, with their freshness as a precondition;
- `isEmail` is an opaque predicate;
- e-mail delivery is a boolean outcome;
- an uploaded image is its decoded byte size and its sniffed file kind.

A row the source reads after `findOne` found nothing would be a null
dereference there. Here it is the error `NullReference`, and the state
is left unchanged.

Files, by module:

| file | module | source |
|---|---|---|
| base.dfy | Base | errors, results, JavaScript truthiness, `Math.ceil` of a page count |
| tables.dfy | Tables | filtering, first match, reversal, offset/limit paging on tables |
| tokens.dfy | Tokens | src/auth/tokenService.js |
| tokenauth.dfy | TokenAuth | src/middleware/tokenAuthentication.js |
| schema.dfy | Schema | the rows, the state and the lookups the services share |
| validation.dfy | Validation | the validator chains of src/user/UserRouter.js and src/hoax/HoaxRouter.js |
| users.dfy | Users | src/user/UserService.js |
| auth.dfy | Authentication | src/auth/AuthenticationRouter.js |
| hoaxes.dfy | Hoaxes | src/hoax/HoaxService.js |
| hoaxroutes.dfy | HoaxRoutes | src/hoax/HoaxRouter.js |
| userroutes.dfy | UserRoutes | src/user/UserRouter.js |
| invariants.dfy | Invariants | the key and foreign-key consistency every transition keeps |

## Model

| member | source | states |
|---|---|---|
| Base.CeilDiv | src/hoax/HoaxService.js:64 | the page count is the least number of pages of the given size that hold all items |
| Tables.Where | src/user/UserService.js:56-61 | a WHERE filter keeps exactly the rows that satisfy it and no others |
| Tables.FirstWhere | src/user/UserService.js:40-41 | `findOne` yields the first matching row, and no row exactly when none matches |
| Tables.Page | src/hoax/HoaxService.js:47-48 | offset/limit returns at most `limit` rows, namely the rows from `offset` on |
| Tables.PageCovers | src/user/UserService.js:65-70 | every row of a listing sits on some page below the page count |
| Tables.WhereIncreasing | src/hoax/HoaxService.js:30-49 | filtering rows keeps them in primary-key order |
| Tables.WhereCongruent | src/hoax/HoaxService.js:22-29 | two filters that agree on every row select the same rows |
| Tokens.CreateToken | src/auth/tokenService.js:6-14 | exactly one new row (token, user id, now) is added and every other row is untouched |
| Tokens.Verify | src/auth/tokenService.js:18-33 | accepts iff the row exists and was last used after now minus a week minus 1 ms; on acceptance only that row's `lastUsedAt` becomes now and the owner is returned |
| Tokens.DeleteToken | src/auth/tokenService.js:37-39 | exactly the row with that value is removed; an unknown value changes nothing |
| Tokens.ClearTokens | src/auth/tokenService.js:55-57 | every row of the user and no other row is removed |
| Tokens.Sweep | src/auth/tokenService.js:43-51 | exactly the rows last used strictly before the cutoff are removed |
| Tokens.CreateThenVerify | src/auth/tokenService.js:6-33 | a freshly created token verifies for its user |
| Tokens.RefreshWindow | src/auth/tokenService.js:19-30 | after a successful verify at t1, a verify at t2 ≥ t1 succeeds iff t2 ≤ t1 + one week |
| Tokens.VerifyTwice | src/auth/tokenService.js:30-33 | verifying again at the same instant gives the same outcome |
| Tokens.SweepKeepsLive | src/auth/tokenService.js:19-51 | the sweep never removes a token verify accepts at the same instant, and the two commute |
| Tokens.CutoffIsNeitherLiveNorExpired | src/auth/tokenService.js:19-51 | a row exactly at the cutoff is rejected by verify and kept by the sweep |
| Tokens.ExpiredRejectedThenSwept | src/auth/tokenService.js:19-51 | a row past the cutoff is rejected (and kept) by verify, then removed by the sweep |
| Tokens.SweepMonotone | src/auth/tokenService.js:43-51 | sweeping is idempotent and a later sweep subsumes an earlier one |
| Tokens.DeleteTokenIdempotent | src/auth/tokenService.js:37-39 | deleting a token twice equals deleting it once |
| Tokens.ClearTokensRevokes | src/auth/tokenService.js:55-57 | after clearing, none of the user's tokens verifies and other users' tokens verify as before |
| Tokens.EightIdleDays | src/auth/tokenService.js:19-51 | a token idle for eight days is rejected and the sweep leaves its user with no token |
| TokenAuth.BearerToken | src/middleware/tokenAuthentication.js:10 | the token is the header minus its first seven characters, or empty for a shorter header |
| TokenAuth.BearerRoundTrip | src/middleware/tokenAuthentication.js:10 | a `Bearer ` header built from a token yields that token back |
| TokenAuth.Authenticate | src/middleware/tokenAuthentication.js:5-17 | without a header nothing changes; a failed verify leaves the caller anonymous and the table unchanged; success attaches the owner and refreshes the token |
| TokenAuth.SchemeIgnored | src/middleware/tokenAuthentication.js:10 | the first seven characters of the header never influence the outcome |
| TokenAuth.CreatedTokenAuthenticates | src/middleware/tokenAuthentication.js:10-13 | a created token presented as a bearer header authenticates its owner |
| TokenAuth.UnknownTokenIsAnonymous | src/middleware/tokenAuthentication.js:11-16 | an unknown or stale token gives an anonymous request and changes nothing |
| Schema.FindUser | src/hoax/HoaxService.js:24 | the lookup by id finds a row with that id, or none exactly when no row has it |
| Schema.FindByEmail | src/user/UserService.js:39-41 | the first row with that e-mail, or none exactly when no row has it |
| Schema.FindByActivationToken | src/user/UserService.js:44 | a row holding the activation token, or none exactly when no row holds it |
| Schema.FindByResetToken | src/user/UserService.js:140-142 | the first row whose reset token equals the given one (a `null` token matches a row with no pending reset), or none exactly when no row matches |
| Schema.AttachmentOf | src/hoax/HoaxService.js:38-42 | the attachment bound to the hoax, or none exactly when none is bound |
| Validation.UsernameError | src/user/UserRouter.js:17-22 | passes iff 4..32 characters; empty gives only the null message, otherwise the size message |
| Validation.EmailError | src/user/UserRouter.js:23-35 | passes iff non-empty, well formed and unregistered; the messages come in that order |
| Validation.PasswordRegexIsClasses | src/user/UserRouter.js:43 | the regular expression read literally (three lookaheads and `.*`) equals "has a digit, a lower-case and an upper-case letter, and no line terminator" |
| Validation.PasswordError | src/user/UserRouter.js:36-44 | passes iff at least 6 characters and the pattern holds; null, size and pattern messages in that order |
| Validation.ImageError | src/user/UserRouter.js:100-115 | an absent image passes; size is checked before type; at most 2 MiB and PNG or JPEG pass |
| Validation.ContentError | src/hoax/HoaxRouter.js:14 | passes iff the content has 10..5000 characters; null fails |
| Validation.FieldErrors | src/user/UserRouter.js:15-49 | a chain contributes one entry, with its field and message, exactly when it fails |
| Validation.RegistrationListMembers | src/user/UserRouter.js:15-49 | the assembled list has an entry for a field exactly when its chain failed, with that message |
| Validation.RegistrationListOrder | src/user/UserRouter.js:15-49 | the assembled list names only the three fields, each once at most, in field order |
| Validation.RegistrationErrors | src/user/UserRouter.js:15-49 | no error iff all three chains pass; each failing field has exactly one entry carrying that chain's first failing message; entries come in the order username, e-mail, password |
| Validation.UpdateErrors | src/user/UserRouter.js:94-115 | no error iff both rules pass; the username and the image each have an entry exactly when their chain fails, carrying its first failing message, username first |
| Validation.ValidationExamples | src/user/UserRouter.js:17-115 | the boundary cases the repository's test suite specifies: 3-character username, 5-character password, 2 MiB exactly and plus one byte, GIF |
| Users.Register | src/user/UserService.js:18-37 | a failed e-mail leaves the state untouched; otherwise exactly one inactive user with the hash and the 16-character token is appended |
| Users.Activate | src/user/UserService.js:43-52 | no holder is an invalid token with nothing changed; otherwise only that row becomes active and loses the token |
| Users.GetUsers | src/user/UserService.js:54-71 | entry k is the view of listable user `page*size + k`; the page holds `min(size, remaining)` entries and none past the end; the ceiling page count |
| Users.Listable | src/user/UserService.js:56-61 | the users `getUsers` counts are exactly the active ones other than the caller (id 0 excluded for an anonymous caller) |
| Users.GetUsersCoversAll | src/user/UserService.js:54-71 | every listable user appears on some page below the page count |
| Users.GetUser | src/user/UserService.js:74-85 | found iff an active user has the id; the view has that id; otherwise not found |
| Users.RegisterActivateThenGet | src/user/UserService.js:18-85 | a registered account is not found until activated, then found with its registered name and e-mail |
| Users.DeletedUserNotFound | src/user/UserService.js:74-113 | a deleted account is not found |
| Users.UpdateUser | src/user/UserService.js:87-105 | the username is always replaced; a new image replaces the old file and name; without one image and files are unchanged; the reply is id, username, e-mail, image |
| Users.UserFiles | src/user/UserService.js:110 | the files removed with a user are exactly their profile image and the files of attachments bound to their hoaxes |
| Users.DeleteUser | src/user/UserService.js:107-113 | the user row, their tokens, hoaxes and those hoaxes' attachments go, with the profile and attachment files; everything else stays |
| Users.PasswordResetRequest | src/user/UserService.js:115-127 | an unknown e-mail changes nothing; otherwise the reset token is stored, and kept even if the e-mail fails |
| Users.UpdatePassword | src/user/UserService.js:129-138 | the holder gets the new hash, loses both tokens, becomes active, and all their sessions end |
| Users.RegisterThenActivate | src/user/UserService.js:18-52 | following the e-mailed token activates exactly the new account |
| Users.ActivationTokenSingleUse | src/user/UserService.js:43-52 | a second activation with the same token is an invalid token |
| Users.UpdatePasswordRevokesSessions | src/user/UserService.js:129-138 | after a password update none of the user's old tokens verifies |
| Authentication.Login | src/auth/AuthenticationRouter.js:12-47 | a missing or malformed e-mail is 401 before any lookup; an unknown e-mail and a wrong password give the same 401; 403 exactly when a well-formed registered e-mail has the right password on an inactive account; only success adds a token and replies id, username, token, image |
| Authentication.LoginThenAuthenticate | src/auth/AuthenticationRouter.js:36-43 | the returned token authenticates the logged-in user |
| Authentication.InactiveNeedsPassword | src/auth/AuthenticationRouter.js:26-31 | an inactive account is revealed only to a caller with the right password |
| Authentication.Logout | src/auth/AuthenticationRouter.js:49-58 | always succeeds; without a header nothing changes; with one exactly that token is removed |
| Authentication.LogoutRevokes | src/auth/AuthenticationRouter.js:49-58 | after logout the same header authenticates nobody |
| Authentication.LoginLogoutRoundTrip | src/auth/AuthenticationRouter.js:36-55 | logging out with the token from a login restores the state before the login |
| Hoaxes.Bind | src/hoax/HoaxService.js:16-18 | only the first attachment with the id, and only if unbound, gets the new hoax; every other row is unchanged |
| Hoaxes.SaveHoax | src/hoax/HoaxService.js:8-19 | exactly one hoax (content, author, now) is appended under the next id; binding is attempted only for a truthy attachment id |
| Hoaxes.FirstBindingWins | src/hoax/HoaxService.js:16-18 | posting twice with the same attachment leaves it bound to the first hoax |
| Hoaxes.UnknownAttachmentIgnored | src/hoax/HoaxService.js:14-18 | an unknown attachment id still stores the hoax and binds nothing |
| Hoaxes.ViewHoax | src/hoax/HoaxService.js:31-56 | the listed item carries the hoax's id, content and timestamp, the public view of the author's row, and the filename and type of the first attachment bound to it, the key being absent iff none is bound |
| Hoaxes.Selected | src/hoax/HoaxService.js:22-38 | a hoax is listed iff its author exists (the include is an inner join) and, for a truthy user id, the author is that user |
| Hoaxes.Listed | src/hoax/HoaxService.js:30-45 | exactly the hoaxes of existing authors (of the given user when one is named) |
| Hoaxes.GetHoaxes | src/hoax/HoaxService.js:21-66 | a truthy unknown user id is not found; otherwise entry k is the view of listed hoax `page*size + k`, the page holds `min(size, remaining)` entries, with the ceiling page count |
| Hoaxes.EmptyListing | src/hoax/HoaxService.js:64 | no hoaxes give an empty page and zero pages |
| Hoaxes.ListedNewestFirst | src/hoax/HoaxService.js:45 | the whole listing is in strictly descending id order |
| Hoaxes.ListingNewestFirst | src/hoax/HoaxService.js:45 | each page is in strictly descending id order |
| Hoaxes.ListingCoversAll | src/hoax/HoaxService.js:30-64 | every hoax of an existing author is on some page below the page count |
| Hoaxes.DeleteHoax | src/hoax/HoaxService.js:94-109 | forbidden, with nothing changed, iff the caller owns no hoax with that id; otherwise the hoax, its attachment row and its file go and nothing else |
| Hoaxes.DeleteHoaxTwice | src/hoax/HoaxService.js:94-101 | deleting the same hoax again is forbidden and changes nothing |
| HoaxRoutes.PostHoax | src/hoax/HoaxRouter.js:12-27 | anonymous is 401 whatever the body; bad content is a validation error with nothing saved; otherwise the new state is exactly the service's save of that hoax, attachment binding included |
| HoaxRoutes.IdleTokenCannotPost | src/hoax/HoaxRouter.js:16-25 | a token idle over a week cannot post and changes no table |
| HoaxRoutes.AllHoaxesRouteSucceeds | src/hoax/HoaxRouter.js:29-33 | the unfiltered listing never fails |
| HoaxRoutes.UserZeroListsEveryone | src/hoax/HoaxRouter.js:35-43 | user id 0 is falsy, so its listing is the unfiltered one |
| HoaxRoutes.DeleteHoaxRoute | src/hoax/HoaxRouter.js:45-57 | anonymous is forbidden before any lookup; a non-numeric id is a database error with nothing changed; otherwise exactly the service's delete, which succeeds iff the caller owns the hoax |
| HoaxRoutes.OnlyAuthorDeletes | src/hoax/HoaxRouter.js:45-50 | a header that does not authenticate the author cannot delete the hoax |
| UserRoutes.WithMessage | src/user/UserRouter.js:53 | the service step's state and error carry over; success becomes the message |
| UserRoutes.PostUser | src/user/UserRouter.js:15-58 | any validation error stores nothing and lists every failing field; a failed e-mail stores nothing; otherwise exactly one inactive user (username, e-mail, hash, activation token, next id) is appended and nothing else changes |
| UserRoutes.ClientInactiveIgnored | src/user/UserService.js:18-28 | the client's `inactive` never changes the outcome |
| UserRoutes.EmailUniqueAfterRegistration | src/user/UserRouter.js:30-35 | once an e-mail is registered, registering it again fails as in use |
| UserRoutes.ActivateRoute | src/user/UserRouter.js:60-68 | succeeds iff some user holds the token, and then only the first holder becomes active and loses the token; otherwise invalid token with nothing changed |
| UserRoutes.GetUserRoute | src/user/UserRouter.js:82-90 | a non-numeric id reaches the query as `NaN` and the database error is passed on; otherwise found iff an active user has the id, else not found |
| UserRoutes.IsSelf | src/user/UserRouter.js:118-121 | the caller is authenticated and their id equals the numeric path id |
| UserRoutes.PutUser | src/user/UserRouter.js:92-132 | anyone but the user is forbidden before validation; then validation; then exactly the service's update |
| UserRoutes.UpdateGuardBeforeValidation | src/user/UserRouter.js:120-127 | an anonymous invalid update is forbidden, not invalid |
| UserRoutes.DeleteUserRoute | src/user/UserRouter.js:134-148 | only the user may delete the account, and then the outcome is exactly the service's cascading delete |
| UserRoutes.DeletedAccountTokenDead | src/user/UserRouter.js:134-148 | the header that deleted an account authenticates nobody afterwards |
| UserRoutes.PostPasswordReset | src/user/UserRouter.js:150-166 | a malformed e-mail is a validation error; an unknown one is not found; otherwise only that user's reset token is set, and stays set when the e-mail fails |
| UserRoutes.PutPassword | src/user/UserRouter.js:168-201 | no user matching the token is forbidden; then the password rule; then only the matched row gets the new hash, loses both tokens and is activated, and that user's sessions end |
| UserRoutes.ResetTokenSingleUse | src/user/UserRouter.js:168-201 | with the null guard in place, a reset token works once |
| UserRoutes.NullResetTokenOverwritesPassword | src/user/UserService.js:129-142 | a `null` reset token with a valid password overwrites the password of the first user with no pending reset |
| UserRoutes.NullResetTokenExample | src/user/UserRouter.js:168-201 | one user who never asked for a reset, and a `null` token: that user's password is replaced |
| UserRoutes.PutPasswordChecked | src/user/UserRouter.js:168-201 | a `null` token is forbidden; success iff some user holds the token and the password passes; a user with no pending reset is never changed |
| Invariants.Valid | src/hoax/Hoax.js:23-25 | ids ascend and stay below the counters; tokens and hoaxes name existing users; bound attachments name existing hoaxes; at most one attachment per hoax |
| Invariants.Empty | database/migrations/20220330192705-create-hoax.js:1-38 | the empty store is consistent |
| Invariants.FindUserExact | src/user/UserService.js:88 | on a consistent store the lookup by id finds the one row with that id |
| Invariants.AuthenticatedUserExists | src/middleware/tokenAuthentication.js:12-13 | the authenticated caller exists |
| Invariants.AuthenticatePreserves | src/middleware/tokenAuthentication.js:5-17 | authentication keeps the store consistent |
| Invariants.SweepPreserves | src/auth/tokenService.js:43-51 | the sweep keeps the store consistent |
| Invariants.SameIdsKeepUsers | src/user/UserService.js:49-51 | row updates that keep ids keep the store consistent |
| Invariants.RegisterPreserves | src/user/UserService.js:18-37 | registration keeps the store consistent |
| Invariants.ActivatePreserves | src/user/UserService.js:43-52 | activation keeps the store consistent |
| Invariants.UpdateUserPreserves | src/user/UserService.js:87-105 | a profile update keeps the store consistent |
| Invariants.PasswordResetRequestPreserves | src/user/UserService.js:115-127 | a reset request keeps the store consistent |
| Invariants.UpdatePasswordPreserves | src/user/UserService.js:129-138 | a password update keeps the store consistent |
| Invariants.PutPasswordCheckedPreserves | src/user/UserRouter.js:180-201 | a password update through the guarded route keeps the store consistent |
| Invariants.UserKept | src/user/UserService.js:112 | a user the deletion keeps is still found |
| Invariants.DeleteUserPreserves | src/user/UserService.js:107-113 | the cascading delete leaves no dangling token, hoax or attachment |
| Invariants.AttachmentsDistinct | src/hoax/Hoax.js:23 | removing attachment rows keeps at most one attachment per hoax |
| Invariants.LoginPreserves | src/auth/AuthenticationRouter.js:36 | login keeps the store consistent |
| Invariants.LogoutPreserves | src/auth/AuthenticationRouter.js:49-58 | logout keeps the store consistent |
| Invariants.SaveHoaxKeepsHoaxIds | src/hoax/HoaxService.js:8-13 | posting adds a hoax under a fresh, larger id and keeps every existing hoax id and owner |
| Invariants.SaveHoaxPreserves | src/hoax/HoaxService.js:8-19 | posting as an existing user keeps the store consistent, with at most one attachment per hoax |
| Invariants.DeleteHoaxPreserves | src/hoax/HoaxService.js:94-109 | deleting a hoax keeps the store consistent |
| Invariants.PostHoaxRequestPreserves | src/hoax/HoaxRouter.js:12-27 | a whole posting request, authentication included, keeps the store consistent |

## Left out

- E-mail sending (src/email/EmailService.js) is not part of this model. A send is the boolean `emailDelivered`.
- bcrypt is a hash argument and the `passwordMatches` predicate.
  - A missing password reaching `bcrypt.hash` or `bcrypt.compare` makes bcrypt throw; that path is not modelled.
  - The login password is always a string.
- `randomString` and the file service's generated filenames are arguments. Their uniqueness is a precondition: the generator and the Token model are not part of this model.
- The file service is not part of this model: upload route, base64 decoding, content sniffing, `isLessThan2MB`, the attachment upload limit and the orphan-attachment sweep.
  - Its call sites appear only through their effects on the set of stored files and on attachment rows.
  - The 2 MiB bound is inclusive, as the repository's profile-update test suite specifies.
- The `setInterval` scheduling of the sweep is left out. The sweep is one step at a given instant.
- Concurrent requests and races between them are left out. Every transition is atomic.
- `src/middleware/basicAuthentication.js` is never mounted.
- The pagination middleware is not part of this model. Routes receive a page number and a positive size.
- The GET user-list route passes the middleware's result straight to the service, so it has no member of its own.
- HTTP statuses and the error handler's body shape are named in comments only.
- The Express control flow of `passwordResetTokenValidator` is left out.
  - It calls `next` again after `next(error)`.
  - After `next(error)` the route's remaining handlers are skipped, so the second `next` finds no handler left and `updatePassword` never runs.
  - The model keeps only the outcome: no matching user is forbidden and changes nothing.
- A request body without `passwordResetToken` (`undefined` rather than `null`) is not modelled: how Sequelize treats `undefined` in a `where` depends on its version.
- String lengths are sequence lengths. A Dafny `char` is a Unicode scalar value, so a surrogate pair counts as one character, as express-validator counts it; lone surrogates cannot be expressed.
- Tokens.Verify: reads one `now` for both the expiry comparison and the refreshed `lastUsedAt`, while the source reads the clock twice, one database round trip apart.
- Users.Register: does not consume an auto-increment id when the transaction rolls back, because the database's sequence behaviour on rollback is not part of this model.
- Hoaxes.Bind: `associateFileToHoax` is not part of this model. Binding is modelled from the effect the repository's hoax-submission test suite specifies: only an existing, still unbound attachment is bound.
- Invariants.Valid: does not state that stored filenames and file rows match, because file storage is not part of this model.
- A non-numeric path id (`+` giving `NaN`) is `None`.
  - For user PUT and DELETE it always fails the guard.
  - For the user's hoax listing it is falsy, so the listing is unfiltered.
  - For user GET and hoax DELETE it reaches the query. Sequelize writes it into the SQL as `= NaN`, which the database rejects. This is the error `QueryFailure`, with nothing changed; the exact status of that error is not modelled.
- The queries behind `findOne`, `findAndCountAll` and the e-mail and reset-token lookups carry no ORDER BY. The model fixes primary-key order, so "first" means the lowest id; the database is free to return another order.

## Findings

| source | as written | input that shows it | evidently intended | confidence | as-written member | corrected member |
|---|---|---|---|---|---|---|
| src/user/UserService.js:140-142 | the reset-token lookup passes the body's value straight into `where`, so `null` becomes `passwordResetToken IS NULL` | `PUT /api/1.0/user/password` with `{"passwordResetToken": null, "password": "P4ssword"}` while some user has no pending reset | only a token a user holds from a reset request opens the update; a `null` token is forbidden | high, not executed | UserRoutes.NullResetTokenOverwritesPassword | UserRoutes.PutPasswordChecked |
