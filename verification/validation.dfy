/** The request-body rules of the user and hoax routers. Each chain stops at
    its first failing rule (`bail`) and yields that rule's message. */
module Validation {
  import opened Base
  import opened Schema

  const UsernameNull := "Username cannot be null"
  const UsernameSize := "Must have min 4 and max 32 characters"
  const EmailNull := "E-mail cannot be null"
  const EmailInvalid := "E-mail is not valid"
  const EmailInUse := "E-mail in use"
  const PasswordNull := "Password cannot be null"
  const PasswordSize := "Password must be at least 6 characters"
  const PasswordPattern := "Password must have at least 1 uppercase, 1 lowercase letter and 1 number"
  const ImageTooBig := "Your profile image cannot be bigger than 2MB"
  const ImageType := "Only JPEG or PNG files are allowed"
  const ContentSize := "Hoax must be min 10 and max 5000 characters"

  /** The largest accepted profile image, in decoded bytes: 2 MiB. */
  const MaxImageBytes: nat := 2 * 1024 * 1024

  /** express-validator's `notEmpty`: a value whose string form is not empty. */
  predicate NotEmpty(v: Option<string>)
  {
    v.Some? && v.value != ""
  }

  /** The username chain: `notEmpty`, bail, `isLength({min: 4, max: 32})`. */
  function UsernameError(username: Option<string>): (r: Option<string>)
    ensures r.None? <==> username.Some? && 4 <= |username.value| <= 32
    ensures !NotEmpty(username) ==> r == Some(UsernameNull)
    ensures NotEmpty(username) && r.Some? ==> r == Some(UsernameSize)
  {
    if !NotEmpty(username) then Some(UsernameNull)
    else if !(4 <= |username.value| <= 32) then Some(UsernameSize)
    else None
  }

  /** The registration e-mail chain: `notEmpty`, bail, `isEmail`, bail, not
      already registered. `isEmail` is the library's own predicate. */
  function EmailError(email: Option<string>, isEmail: string -> bool, users: seq<User>): (r: Option<string>)
    ensures r.None? <==> email.Some? && email.value != "" && isEmail(email.value) && FindByEmail(users, email.value).None?
    ensures !NotEmpty(email) ==> r == Some(EmailNull)
    ensures NotEmpty(email) && !isEmail(email.value) ==> r == Some(EmailInvalid)
    ensures NotEmpty(email) && isEmail(email.value) && r.Some? ==>
              r == Some(EmailInUse) && exists j :: 0 <= j < |users| && users[j].email == email.value
  {
    if !NotEmpty(email) then Some(EmailNull)
    else if !isEmail(email.value) then Some(EmailInvalid)
    else if FindByEmail(users, email.value).Some? then Some(EmailInUse)
    else None
  }

  /** The characters JavaScript's `.` does not match. */
  predicate IsLineTerminator(c: char)
  {
    c == '\n' || c == '\r' || c == '\U{2028}' || c == '\U{2029}'
  }

  predicate IsDigit(c: char) { '0' <= c <= '9' }
  predicate IsLower(c: char) { 'a' <= c <= 'z' }
  predicate IsUpper(c: char) { 'A' <= c <= 'Z' }

  /** No line terminator in `s`: what `.*` can consume. */
  predicate DotAll(s: string)
  {
    forall i :: 0 <= i < |s| ==> !IsLineTerminator(s[i])
  }

  /** The lookahead `(?=.*C)` at the start of `s`: some character of class
      `C` is reached across a run of non-terminators. */
  ghost predicate LookaheadFinds(s: string, cls: char -> bool)
  {
    exists k :: 0 <= k < |s| && DotAll(s[..k]) && cls(s[k])
  }

  /** `/^(?:(?=.*\d)(?=.*[a-z])(?=.*[A-Z]).*)$/` read literally: three
      lookaheads at position 0, then `.*` up to the end of the input. */
  ghost predicate PasswordRegex(s: string)
  {
    && LookaheadFinds(s, IsDigit)
    && LookaheadFinds(s, IsLower)
    && LookaheadFinds(s, IsUpper)
    && DotAll(s)
  }

  /** The same pattern stated as character classes: a digit, a lower-case
      and an upper-case ASCII letter, and no line terminator. */
  predicate PasswordClasses(s: string)
  {
    && (exists i :: 0 <= i < |s| && IsDigit(s[i]))
    && (exists i :: 0 <= i < |s| && IsLower(s[i]))
    && (exists i :: 0 <= i < |s| && IsUpper(s[i]))
    && DotAll(s)
  }

  /** The literal regular expression and the character-class reading agree
      on every string. */
  lemma {:induction false} PasswordRegexIsClasses(s: string)
    ensures PasswordRegex(s) <==> PasswordClasses(s)
  {
    if PasswordClasses(s) {
      var d :| 0 <= d < |s| && IsDigit(s[d]);
      var l :| 0 <= l < |s| && IsLower(s[l]);
      var u :| 0 <= u < |s| && IsUpper(s[u]);
      assert DotAll(s[..d]) && DotAll(s[..l]) && DotAll(s[..u]);
    }
  }

  /** The password chain: `notEmpty`, bail, `isLength({min: 6})`, bail, the pattern. */
  function PasswordError(password: Option<string>): (r: Option<string>)
    ensures r.None? <==> password.Some? && |password.value| >= 6 && PasswordClasses(password.value)
    ensures !NotEmpty(password) ==> r == Some(PasswordNull)
    ensures NotEmpty(password) && |password.value| < 6 ==> r == Some(PasswordSize)
    ensures NotEmpty(password) && |password.value| >= 6 && r.Some? ==> r == Some(PasswordPattern)
  {
    if !NotEmpty(password) then Some(PasswordNull)
    else if |password.value| < 6 then Some(PasswordSize)
    else if !PasswordClasses(password.value) then Some(PasswordPattern)
    else None
  }

  /** The content type sniffed from an uploaded image's bytes. */
  datatype FileKind = Png | Jpeg | Gif | Pdf | Unrecognised

  /** A decoded profile image: its byte length and its sniffed type. */
  datatype ImageUpload = ImageUpload(bytes: nat, kind: FileKind)

  /** The profile-image rule: an absent (or empty) image passes; otherwise
      the size is checked before the type. */
  function ImageError(image: Option<ImageUpload>): (r: Option<string>)
    ensures image.None? ==> r.None?
    ensures image.Some? && image.value.bytes > MaxImageBytes ==> r == Some(ImageTooBig)
    ensures image.Some? && image.value.bytes <= MaxImageBytes ==>
              (r.None? <==> image.value.kind == Png || image.value.kind == Jpeg)
    ensures r.Some? ==> r == Some(ImageTooBig) || r == Some(ImageType)
  {
    if image.None? then None
    else if image.value.bytes > MaxImageBytes then Some(ImageTooBig)
    else if !(image.value.kind == Png || image.value.kind == Jpeg) then Some(ImageType)
    else None
  }

  /** The hoax content rule: `isLength({min: 10, max: 5000})`, null counting as empty. */
  function ContentError(content: Option<string>): (r: Option<string>)
    ensures r.None? <==> content.Some? && 10 <= |content.value| <= 5000
    ensures r.Some? ==> r == Some(ContentSize)
  {
    if content.Some? && 10 <= |content.value| <= 5000 then None else Some(ContentSize)
  }

  /** The body of `POST /api/1.0/users`. `inactive` is whatever the client sent. */
  datatype UserForm = UserForm(
    username: Option<string>,
    email: Option<string>,
    password: Option<string>,
    inactive: Option<bool>)

  /** The entry a chain contributes: its first failing message, or nothing. */
  function FieldErrors(field: string, e: Option<string>): (r: seq<FieldError>)
    ensures |r| <= 1
    ensures r == [] <==> e.None?
    ensures forall x :: x in r <==> e.Some? && x == FieldError(field, e.value)
  {
    if e.Some? then [FieldError(field, e.value)] else []
  }

  /** The field names differ in their first character. */
  lemma FieldNamesDistinct()
    ensures "username" != "email" && "username" != "password" && "email" != "password"
    ensures "username" != "image"
    ensures FieldRank("username") == 0 && FieldRank("email") == 1 && FieldRank("password") == 2
  {
    assert "username"[0] != "email"[0] && "username"[0] != "password"[0] && "email"[0] != "password"[0];
    assert "username"[0] != "image"[0];
  }

  /** The position of a registration field in the error list. */
  function FieldRank(field: string): nat
  {
    if field == "username" then 0 else if field == "email" then 1 else 2
  }

  /** The list built from the three chains' outcomes has an entry for a
      field exactly when its chain failed, carrying the chain's message. */
  lemma RegistrationListMembers(a: Option<string>, b: Option<string>, c: Option<string>)
    ensures var r := FieldErrors("username", a) + FieldErrors("email", b) + FieldErrors("password", c);
            && (r == [] <==> a.None? && b.None? && c.None?)
            && (forall m :: FieldError("username", m) in r <==> a == Some(m))
            && (forall m :: FieldError("email", m) in r <==> b == Some(m))
            && (forall m :: FieldError("password", m) in r <==> c == Some(m))
  {
    FieldNamesDistinct();
  }

  /** The same list names only the three fields, each at most once, in
      field order. */
  lemma RegistrationListOrder(a: Option<string>, b: Option<string>, c: Option<string>)
    ensures var r := FieldErrors("username", a) + FieldErrors("email", b) + FieldErrors("password", c);
            && (forall i :: 0 <= i < |r| ==> r[i].field in ["username", "email", "password"])
            && (forall i, j :: 0 <= i < j < |r| ==> FieldRank(r[i].field) < FieldRank(r[j].field))
            && |r| <= 3
  {
    FieldNamesDistinct();
    var u, e, p := FieldErrors("username", a), FieldErrors("email", b), FieldErrors("password", c);
    assert forall i :: 0 <= i < |u + e + p| ==>
             (u + e + p)[i] == (if i < |u| then u[0] else if i < |u| + |e| then e[0] else p[0]);
  }

  /** The `validationErrors` of a registration: one entry per failing field,
      carrying that field's first failing message, in the order username,
      email, password. */
  function RegistrationErrors(form: UserForm, isEmail: string -> bool, users: seq<User>): (r: seq<FieldError>)
    ensures r == [] <==>
              UsernameError(form.username).None? && EmailError(form.email, isEmail, users).None?
              && PasswordError(form.password).None?
    ensures forall m :: FieldError("username", m) in r <==> UsernameError(form.username) == Some(m)
    ensures forall m :: FieldError("email", m) in r <==> EmailError(form.email, isEmail, users) == Some(m)
    ensures forall m :: FieldError("password", m) in r <==> PasswordError(form.password) == Some(m)
    ensures forall i :: 0 <= i < |r| ==> r[i].field in ["username", "email", "password"]
    ensures forall i, j :: 0 <= i < j < |r| ==> FieldRank(r[i].field) < FieldRank(r[j].field)
    ensures |r| <= 3
  {
    var a, b, c := UsernameError(form.username), EmailError(form.email, isEmail, users), PasswordError(form.password);
    RegistrationListMembers(a, b, c);
    RegistrationListOrder(a, b, c);
    FieldErrors("username", a) + FieldErrors("email", b) + FieldErrors("password", c)
  }

  /** The `validationErrors` of a profile update: username, then image. */
  function UpdateErrors(username: Option<string>, image: Option<ImageUpload>): (r: seq<FieldError>)
    ensures r == [] <==> UsernameError(username).None? && ImageError(image).None?
    ensures forall m :: FieldError("username", m) in r <==> UsernameError(username) == Some(m)
    ensures forall m :: FieldError("image", m) in r <==> ImageError(image) == Some(m)
    ensures forall i :: 0 <= i < |r| ==> r[i].field in ["username", "image"]
    ensures forall i, j :: 0 <= i < j < |r| ==> r[i].field == "username" && r[j].field == "image"
  {
    FieldNamesDistinct();
    var u := FieldErrors("username", UsernameError(username));
    var i := FieldErrors("image", ImageError(image));
    assert forall k :: 0 <= k < |u + i| ==> (u + i)[k] == (if k < |u| then u[0] else i[0]);
    u + i
  }

  /** The boundary cases of the registration and profile-update test suites. */
  lemma ValidationExamples()
    ensures UsernameError(Some("usr")) == Some(UsernameSize)
    ensures UsernameError(None) == Some(UsernameNull)
    ensures PasswordError(Some("P4ssw")) == Some(PasswordSize)
    ensures PasswordError(Some("lowerandUPPER")) == Some(PasswordPattern)
    ensures PasswordError(Some("P4ssword")).None?
    ensures ImageError(Some(ImageUpload(MaxImageBytes, Png))).None?
    ensures ImageError(Some(ImageUpload(MaxImageBytes + 1, Png))) == Some(ImageTooBig)
    ensures ImageError(Some(ImageUpload(100, Gif))) == Some(ImageType)
  {
    assert PasswordClasses("P4ssword") by {
      assert IsDigit("P4ssword"[1]) && IsLower("P4ssword"[2]) && IsUpper("P4ssword"[0]);
    }
    assert !PasswordClasses("lowerandUPPER") by {
      var s := "lowerandUPPER";
      forall i | 0 <= i < |s| ensures !IsDigit(s[i]) { }
    }
  }
}
