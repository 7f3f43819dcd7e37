/** The hoax routes (src/hoax/HoaxRouter.js). `auth` is the user id the
    token middleware attached to the request, if any; a path parameter
    converted with unary `+` is `None` when it is not a number. */
module HoaxRoutes {
  import opened Base
  import opened Tables
  import opened Tokens
  import opened Schema
  import opened Validation
  import opened Hoaxes
  import opened TokenAuth

  const PostUnauthorized := "You are not authorized to post hoax"
  const DeleteUnauthorized := "You are not authorized to delete this hoax"
  const HoaxSaved := "Hoax is saved"

  /** `POST /api/1.0/hoaxes`: an anonymous caller is refused before the
      content rule is looked at; invalid content saves nothing. */
  function PostHoax(s: State, auth: Option<nat>, content: Option<string>, attachmentId: Option<int>, now: int): (r: Step<string>)
    ensures auth.None? ==> r == Step(s, Err(AuthenticationFailure(PostUnauthorized)))
    ensures auth.Some? && ContentError(content).Some? ==>
              r == Step(s, Err(Validation([FieldError("content", ContentSize)])))
    ensures r.result.Ok? <==> auth.Some? && content.Some? && 10 <= |content.value| <= 5000
    ensures r.result.Ok? ==>
              && r.result.value == HoaxSaved
              && r.state.hoaxes == s.hoaxes + [Hoax(s.nextHoaxId, content.value, now, auth.value)]
              && r.state.users == s.users && r.state.tokens == s.tokens && r.state.blobs == s.blobs
    ensures r.result.Ok? ==> r.state == SaveHoax(s, content.value, auth.value, attachmentId, now)
  {
    if auth.None? then
      Step(s, Err(AuthenticationFailure(PostUnauthorized)))
    else
      match ContentError(content)
      case Some(message) => Step(s, Err(Validation([FieldError("content", message)])))
      case None =>
        var s' := SaveHoax(s, content.value, auth.value, attachmentId, now);
        assert s'.hoaxes == s'.hoaxes[..|s.hoaxes|] + [s'.hoaxes[|s.hoaxes|]];
        Step(s', Ok(HoaxSaved))
  }

  /** A request whose token has been idle for more than a week cannot post,
      whatever it sends, and leaves every table as it was. */
  lemma IdleTokenCannotPost(s: State, token: string, content: Option<string>, attachmentId: Option<int>, now: int)
    requires token in s.tokens && s.tokens[token].lastUsedAt < now - WeekMs
    ensures var a := Authenticate(s.tokens, Some("Bearer " + token), now);
            && a.tokens == s.tokens
            && PostHoax(s, a.user, content, attachmentId, now) == Step(s, Err(AuthenticationFailure(PostUnauthorized)))
  {
    BearerRoundTrip(token);
  }

  /** `GET /api/1.0/hoaxes` passes no user id, so the listing never fails. */
  lemma AllHoaxesRouteSucceeds(s: State, page: nat, size: nat)
    requires size > 0
    ensures GetHoaxes(s, page, size, None).Ok?
    ensures GetHoaxes(s, page, size, None).value.totalPages == CeilDiv(|Listed(s, None)|, size)
  {
  }

  /** `GET /api/1.0/users/0/hoaxes`: 0 is falsy, so the user check and the
      author filter are both skipped and every hoax is listed, even with no
      user 0. */
  lemma UserZeroListsEveryone(s: State, page: nat, size: nat)
    requires size > 0
    ensures GetHoaxes(s, page, size, Some(0)) == GetHoaxes(s, page, size, None)
  {
    WhereCongruent(s.hoaxes, (h: Hoax) => Selected(s, Some(0), h), (h: Hoax) => Selected(s, None, h));
  }

  /** `DELETE /api/1.0/hoaxes/:hoaxId`: an anonymous caller gets this
      route's message; an authenticated one is passed to `deleteHoax`. A
      non-numeric id reaches the query as `NaN`, which the database rejects:
      the error is passed on and nothing changes. */
  function DeleteHoaxRoute(s: State, auth: Option<nat>, hoaxId: Option<int>): (r: Step<()>)
    ensures auth.None? ==> r == Step(s, Err(Forbidden(DeleteUnauthorized)))
    ensures auth.Some? && hoaxId.None? ==> r == Step(s, Err(QueryFailure))
    ensures r.result.Ok? <==>
              auth.Some? && hoaxId.Some?
              && exists k :: 0 <= k < |s.hoaxes| && s.hoaxes[k].id == hoaxId.value && s.hoaxes[k].userId == auth.value
    ensures r.result.Err? ==> r.state == s
    ensures hoaxId.Some? && r.result.Err? ==> r.result.error.Forbidden?
    ensures r.result.Ok? ==> !HasHoax(r.state.hoaxes, hoaxId.value) && r.state.users == s.users
    ensures auth.Some? && hoaxId.Some? ==> r == DeleteHoax(s, hoaxId.value, auth.value)
  {
    if auth.None? then Step(s, Err(Forbidden(DeleteUnauthorized)))
    else if hoaxId.None? then Step(s, Err(QueryFailure))
    else DeleteHoax(s, hoaxId.value, auth.value)
  }

  /** Only the author can delete a hoax: a caller whose header does not
      authenticate as the owner changes nothing. */
  lemma OnlyAuthorDeletes(s: State, header: Option<string>, now: int, k: nat)
    requires k < |s.hoaxes|
    requires forall j :: 0 <= j < |s.hoaxes| && s.hoaxes[j].id == s.hoaxes[k].id ==> s.hoaxes[j].userId == s.hoaxes[k].userId
    requires Authenticate(s.tokens, header, now).user != Some(s.hoaxes[k].userId)
    ensures var a := Authenticate(s.tokens, header, now);
            var r := DeleteHoaxRoute(s.(tokens := a.tokens), a.user, Some(s.hoaxes[k].id));
            r.result.Err? && r.state.hoaxes == s.hoaxes
  {
  }
}
