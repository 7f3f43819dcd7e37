/** The hoax service (src/hoax/HoaxService.js): posting with an optional
    attachment, the paged id-descending listing, and owner-only deletion
    that also removes the attachment's file and row. */
module Hoaxes {
  import opened Base
  import opened Tables
  import opened Schema
  import Users

  const DeleteForbidden := "You are not authorized the delete this hoax"

  /** `associateFileToHoax`: bind the attachment with that id to the hoax,
      unless it does not exist or already belongs to a hoax (first binding
      wins). */
  function Bind(attachments: seq<Attachment>, attachmentId: int, hoaxId: nat): (r: seq<Attachment>)
    ensures |r| == |attachments|
    ensures forall k :: 0 <= k < |r| ==> r[k].id == attachments[k].id && r[k].filename == attachments[k].filename
                                          && r[k].fileType == attachments[k].fileType
    ensures forall k :: 0 <= k < |r| && attachments[k].hoaxId.Some? ==> r[k] == attachments[k]
    ensures forall k :: 0 <= k < |r| && attachments[k].id != attachmentId ==> r[k] == attachments[k]
    ensures forall k :: 0 <= k < |r| && r[k] != attachments[k] ==>
              FirstWhere(attachments, (a: Attachment) => a.id == attachmentId) == Some(k) && r[k].hoaxId == Some(hoaxId)
    ensures match FirstWhere(attachments, (a: Attachment) => a.id == attachmentId)
            case Some(k) => attachments[k].hoaxId.None? ==> r[k].hoaxId == Some(hoaxId)
            case None => r == attachments
  {
    match FirstWhere(attachments, (a: Attachment) => a.id == attachmentId)
    case None => attachments
    case Some(k) =>
      if attachments[k].hoaxId.Some? then attachments
      else attachments[k := attachments[k].(hoaxId := Some(hoaxId))]
  }

  /** `save`: store the hoax under the author with the current time, then, if
      the body names an attachment, try to bind it. Posting never fails. */
  function SaveHoax(s: State, content: string, userId: nat, attachmentId: Option<int>, now: int): (r: State)
    ensures |r.hoaxes| == |s.hoaxes| + 1 && r.hoaxes[..|s.hoaxes|] == s.hoaxes
    ensures r.hoaxes[|s.hoaxes|] == Hoax(s.nextHoaxId, content, now, userId)
    ensures r.nextHoaxId == s.nextHoaxId + 1
    ensures r.tokens == s.tokens && r.users == s.users && r.blobs == s.blobs && r.nextUserId == s.nextUserId
    ensures !TruthyNumber(attachmentId) ==> r.attachments == s.attachments
    ensures TruthyNumber(attachmentId) ==> r.attachments == Bind(s.attachments, attachmentId.value, s.nextHoaxId)
  {
    var hoax := Hoax(s.nextHoaxId, content, now, userId);
    var s' := s.(hoaxes := s.hoaxes + [hoax], nextHoaxId := s.nextHoaxId + 1);
    if TruthyNumber(attachmentId) then
      s'.(attachments := Bind(s.attachments, attachmentId.value, hoax.id))
    else
      s'
  }

  /** Two hoaxes posted with the same attachment id: the attachment stays
      with the first one. */
  lemma FirstBindingWins(s: State, c1: string, c2: string, userId: nat, attachmentId: int, t1: int, t2: int, k: nat)
    requires attachmentId != 0
    requires FirstWhere(s.attachments, (a: Attachment) => a.id == attachmentId) == Some(k)
    requires s.attachments[k].hoaxId.None?
    ensures var s1 := SaveHoax(s, c1, userId, Some(attachmentId), t1);
            var s2 := SaveHoax(s1, c2, userId, Some(attachmentId), t2);
            && s1.attachments[k].hoaxId == Some(s.nextHoaxId)
            && s2.attachments[k].hoaxId == Some(s.nextHoaxId)
            && s2.attachments == s1.attachments
  {
    var s1 := SaveHoax(s, c1, userId, Some(attachmentId), t1);
    var p := (a: Attachment) => a.id == attachmentId;
    assert FirstWhere(s1.attachments, p) == Some(k) by {
      forall j | 0 <= j < |s1.attachments| ensures s1.attachments[j].id == s.attachments[j].id { }
    }
  }

  /** An attachment id no row has leaves the attachments alone; the hoax is
      still stored. */
  lemma UnknownAttachmentIgnored(s: State, content: string, userId: nat, attachmentId: int, now: int)
    requires forall k :: 0 <= k < |s.attachments| ==> s.attachments[k].id != attachmentId
    ensures SaveHoax(s, content, userId, Some(attachmentId), now).attachments == s.attachments
    ensures SaveHoax(s, content, userId, Some(attachmentId), now).hoaxes == s.hoaxes + [Hoax(s.nextHoaxId, content, now, userId)]
  {
    var r := SaveHoax(s, content, userId, Some(attachmentId), now);
    assert r.hoaxes == r.hoaxes[..|s.hoaxes|] + [r.hoaxes[|s.hoaxes|]];
  }

  /** The attachment fields the listing exposes. */
  datatype AttachmentView = AttachmentView(filename: string, fileType: Option<string>)

  /** One listed hoax: id, content, timestamp, the author's public view, and
      the attachment key only when the hoax has one. */
  datatype HoaxView = HoaxView(id: nat, content: string, timestamp: int, user: UserView, fileAttachment: Option<AttachmentView>)

  datatype HoaxPage = HoaxPage(content: seq<HoaxView>, page: nat, size: nat, totalPages: nat)

  /** The listed form of a hoax whose author exists: the author's row is the
      one `findOne` by id finds, the attachment the first row bound to it. */
  function ViewHoax(s: State, h: Hoax): (v: HoaxView)
    requires HasUser(s.users, h.userId)
    ensures v.id == h.id && v.content == h.content && v.timestamp == h.timestamp && v.user.id == h.userId
    ensures v.user == ViewOf(s.users[FindUser(s.users, h.userId).value])
    ensures v.fileAttachment.Some? <==> exists k :: 0 <= k < |s.attachments| && s.attachments[k].hoaxId == Some(h.id)
    ensures forall k :: 0 <= k < |s.attachments| && s.attachments[k].hoaxId == Some(h.id)
                        && (forall j :: 0 <= j < k ==> s.attachments[j].hoaxId != Some(h.id)) ==>
              v.fileAttachment == Some(AttachmentView(s.attachments[k].filename, s.attachments[k].fileType))
  {
    var author := s.users[FindUser(s.users, h.userId).value];
    var attachment :=
      match AttachmentOf(s.attachments, h.id)
      case None => None
      case Some(k) => Some(AttachmentView(s.attachments[k].filename, s.attachments[k].fileType));
    HoaxView(h.id, h.content, h.timestamp, ViewOf(author), attachment)
  }

  /** The hoax is listed: its author exists (the include is an inner join)
      and, when a truthy user id is given, is that user. */
  predicate Selected(s: State, userId: Option<int>, h: Hoax)
  {
    HasUser(s.users, h.userId) && (!TruthyNumber(userId) || h.userId == userId.value)
  }

  /** The listed hoaxes, newest (highest id) first. */
  function Listed(s: State, userId: Option<int>): (r: seq<Hoax>)
    ensures forall k :: 0 <= k < |r| ==> Selected(s, userId, r[k]) && r[k] in s.hoaxes
    ensures forall j :: 0 <= j < |s.hoaxes| && Selected(s, userId, s.hoaxes[j]) ==> s.hoaxes[j] in r
  {
    var rows := Where(s.hoaxes, (h: Hoax) => Selected(s, userId, h));
    var r := Reverse(rows);
    assert forall k :: 0 <= k < |r| ==> r[k] == rows[|rows| - 1 - k];
    assert forall m :: 0 <= m < |rows| ==> rows[m] == r[|rows| - 1 - m];
    r
  }

  /** `getHoaxes`: with a truthy user id that no user has, not found;
      otherwise the page of listed hoaxes at offset `page * size` and the
      total page count. */
  function GetHoaxes(s: State, page: nat, size: nat, userId: Option<int>): (r: Result<HoaxPage>)
    requires size > 0
    ensures r.Err? <==> TruthyNumber(userId) && !HasUser(s.users, userId.value)
    ensures r.Err? ==> r.error == NotFound(Users.UserNotFound)
    ensures r.Ok? ==> r.value.page == page && r.value.size == size && |r.value.content| <= size
    ensures r.Ok? ==> |r.value.content| == if page * size >= |Listed(s, userId)| then 0
                                           else Min(size, |Listed(s, userId)| - page * size)
    ensures r.Ok? ==> r.value.totalPages == CeilDiv(|Listed(s, userId)|, size)
    ensures r.Ok? ==> forall k :: 0 <= k < |r.value.content| ==>
              page * size + k < |Listed(s, userId)|
              && r.value.content[k] == ViewHoax(s, Listed(s, userId)[page * size + k])
    ensures r.Ok? && TruthyNumber(userId) ==> forall k :: 0 <= k < |r.value.content| ==>
              r.value.content[k].user.id == userId.value
  {
    if TruthyNumber(userId) && !HasUser(s.users, userId.value) then
      Err(NotFound(Users.UserNotFound))
    else
      var rows := Listed(s, userId);
      var onPage := Page(rows, page * size, size);
      assert forall k :: 0 <= k < |onPage| ==> onPage[k] == rows[page * size + k];
      var content := MapSeq(onPage, (h: Hoax) requires HasUser(s.users, h.userId) => ViewHoax(s, h));
      Ok(HoaxPage(content, page, size, CeilDiv(|rows|, size)))
  }

  /** An empty hoax table lists nothing and reports zero pages. */
  lemma EmptyListing(s: State, page: nat, size: nat)
    requires size > 0
    requires s.hoaxes == []
    ensures GetHoaxes(s, page, size, None) == Ok(HoaxPage([], page, size, 0))
  {
    assert Listed(s, None) == [];
  }

  /** With id-ascending hoax rows, the whole listing is id-descending. */
  lemma ListedNewestFirst(s: State, userId: Option<int>)
    requires StrictlyIncreasing(s.hoaxes, HoaxKey)
    ensures StrictlyDecreasing(Listed(s, userId), HoaxKey)
  {
    var rows := Where(s.hoaxes, (h: Hoax) => Selected(s, userId, h));
    WhereIncreasing(s.hoaxes, (h: Hoax) => Selected(s, userId, h), HoaxKey);
    ReverseDecreasing(rows, HoaxKey);
    assert Listed(s, userId) == Reverse(rows);
  }

  /** With id-ascending hoax rows, every page lists hoaxes in strictly
      descending id order. */
  lemma ListingNewestFirst(s: State, page: nat, size: nat, userId: Option<int>)
    requires size > 0
    requires StrictlyIncreasing(s.hoaxes, HoaxKey)
    requires GetHoaxes(s, page, size, userId).Ok?
    ensures forall i, j :: 0 <= i < j < |GetHoaxes(s, page, size, userId).value.content| ==>
              GetHoaxes(s, page, size, userId).value.content[i].id > GetHoaxes(s, page, size, userId).value.content[j].id
  {
    var listed := Listed(s, userId);
    ListedNewestFirst(s, userId);
    var content := GetHoaxes(s, page, size, userId).value.content;
    forall i, j | 0 <= i < j < |content| ensures content[i].id > content[j].id {
      var a, b := listed[page * size + i], listed[page * size + j];
      assert content[i] == ViewHoax(s, a) && content[j] == ViewHoax(s, b);
      assert HoaxKey(a) > HoaxKey(b);
    }
  }

  /** Every hoax of an existing author is on some reported page of the
      unfiltered listing. */
  lemma ListingCoversAll(s: State, size: nat, j: nat) returns (page: nat)
    requires size > 0
    requires j < |s.hoaxes| && HasUser(s.users, s.hoaxes[j].userId)
    ensures GetHoaxes(s, page, size, None).Ok?
    ensures page < GetHoaxes(s, page, size, None).value.totalPages
    ensures ViewHoax(s, s.hoaxes[j]) in GetHoaxes(s, page, size, None).value.content
  {
    var rows := Listed(s, None);
    assert s.hoaxes[j] in rows;
    var i :| 0 <= i < |rows| && rows[i] == s.hoaxes[j];
    var pos;
    page, pos := PageCovers(rows, size, i);
    var content := GetHoaxes(s, page, size, None).value.content;
    assert content[pos] == ViewHoax(s, rows[page * size + pos]);
  }

  /** `deleteHoax`: only a hoax with that id owned by `owner` can be deleted;
      otherwise forbidden, whether the hoax is missing or someone else's. On
      success the attachment's file, the hoax row and (by cascade) the
      attachment rows bound to it are removed. */
  function DeleteHoax(s: State, hoaxId: int, owner: nat): (r: Step<()>)
    ensures (forall k :: 0 <= k < |s.hoaxes| ==> !(s.hoaxes[k].id == hoaxId && s.hoaxes[k].userId == owner))
              <==> r.result.Err?
    ensures r.result.Err? ==> r == Step(s, Err(Forbidden(DeleteForbidden)))
    ensures r.result.Ok? ==> !HasHoax(r.state.hoaxes, hoaxId)
    ensures r.result.Ok? ==> forall k :: 0 <= k < |r.state.hoaxes| ==> r.state.hoaxes[k] in s.hoaxes
    ensures r.result.Ok? ==> forall k :: 0 <= k < |s.hoaxes| && s.hoaxes[k].id != hoaxId ==> s.hoaxes[k] in r.state.hoaxes
    ensures r.result.Ok? ==> forall k :: 0 <= k < |r.state.attachments| ==>
              r.state.attachments[k] in s.attachments && r.state.attachments[k].hoaxId != Some(hoaxId)
    ensures r.result.Ok? ==> forall k :: 0 <= k < |s.attachments| && s.attachments[k].hoaxId != Some(hoaxId) ==>
              s.attachments[k] in r.state.attachments
    ensures r.result.Ok? ==>
              match AttachmentOf(s.attachments, hoaxId)
              case None => r.state.blobs == s.blobs
              case Some(a) => r.state.blobs == s.blobs - {AttachmentFile(s.attachments[a].filename)}
    ensures r.result.Ok? ==> r.state.tokens == s.tokens && r.state.users == s.users
                             && r.state.nextUserId == s.nextUserId && r.state.nextHoaxId == s.nextHoaxId
    ensures StrictlyIncreasing(s.hoaxes, HoaxKey) ==> StrictlyIncreasing(r.state.hoaxes, HoaxKey)
    ensures StrictlyIncreasing(s.attachments, AttachmentKey) ==> StrictlyIncreasing(r.state.attachments, AttachmentKey)
  {
    match FirstWhere(s.hoaxes, (h: Hoax) => h.id == hoaxId && h.userId == owner)
    case None => Step(s, Err(Forbidden(DeleteForbidden)))
    case Some(i) =>
      var id := s.hoaxes[i].id;
      var keep := (h: Hoax) => h.id != id;
      var keepAttachment := (a: Attachment) => a.hoaxId != Some(id);
      WhereIncreasing(s.hoaxes, keep, HoaxKey);
      WhereIncreasing(s.attachments, keepAttachment, AttachmentKey);
      var blobs :=
        match AttachmentOf(s.attachments, id)
        case None => s.blobs
        case Some(a) => s.blobs - {AttachmentFile(s.attachments[a].filename)};
      Step(s.(hoaxes := Where(s.hoaxes, keep),
              attachments := Where(s.attachments, keepAttachment),
              blobs := blobs),
           Ok(()))
  }

  /** Deleting the same hoax again is forbidden and changes nothing. */
  lemma DeleteHoaxTwice(s: State, hoaxId: int, owner: nat)
    requires DeleteHoax(s, hoaxId, owner).result.Ok?
    ensures var s1 := DeleteHoax(s, hoaxId, owner).state;
            DeleteHoax(s1, hoaxId, owner) == Step(s1, Err(Forbidden(DeleteForbidden)))
  {
  }
}
