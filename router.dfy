/**
 * The HTTP endpoints of the links router. Each one builds a `LinkService`
 * over the request's session and hands its answer back; a raised error
 * becomes the response's status code.
 */
module Router {
  import opened Models
  import opened Links

  /** The fields `GET /links/{short_code}/stats` reports (`LinkStats`). */
  datatype LinkStats = LinkStats(
    originalUrl: string,
    shortCode: string,
    createdAt: Time,
    clicks: nat,
    lastAccessedAt: Option<Time>,
    expiresAt: Option<Time>)

  function StatsOf(link: Link): LinkStats {
    LinkStats(link.originalUrl, link.shortCode, link.createdAt, link.clicks,
              link.lastAccessedAt, link.expiresAt)
  }

  const DeletedMessage: string := "Link deleted successfully"

  /**
   * `POST /links/shorten`: the URL, the caller (anonymous when no valid
   * token came with the request), the alias and the expiry go to the
   * service unchanged.
   */
  method CreateShortLink(service: LinkService, originalUrl: string, currentUser: Option<UserId>,
                         customAlias: Option<string>, expiresAt: Option<Time>,
                         now: Time, attempts: seq<seq<nat>>)
    returns (r: Result<Link>)
    requires service.Valid()
    requires WantsGeneratedCode(customAlias) && !IsPastExpiry(expiresAt, now)
      ==> SomeAttemptIsFree(service.rows, attempts)
    modifies service
    ensures service.Valid()
    ensures r == Err(ExpirationInPast) <==> IsPastExpiry(expiresAt, now)
    ensures r == Err(AliasTaken) <==>
      !IsPastExpiry(expiresAt, now) && !WantsGeneratedCode(customAlias)
      && HasCode(old(service.rows), customAlias.value)
    ensures r.Err? ==> r.error == ExpirationInPast || r.error == AliasTaken
    ensures r.Err? ==> service.rows == old(service.rows) && service.nextId == old(service.nextId)
    ensures r.Ok? ==>
      && service.rows == old(service.rows) + [r.value]
      && service.nextId == old(service.nextId) + 1
      && r.value.id == old(service.nextId)
      && r.value.originalUrl == originalUrl
      && r.value.userId == currentUser
      && r.value.createdAt == now
      && r.value.expiresAt == Some(if expiresAt.Some? then expiresAt.value else now + Day)
      && r.value.clicks == 0
      && r.value.lastAccessedAt == None
      && !HasCode(old(service.rows), r.value.shortCode)
    ensures r.Ok? && !WantsGeneratedCode(customAlias) ==> r.value.shortCode == customAlias.value
    ensures r.Ok? && WantsGeneratedCode(customAlias) ==>
      && IsShortCode(r.value.shortCode, DefaultCodeLength)
      && IsFirstFreeAttempt(old(service.rows), attempts, r.value.shortCode)
  {
    r := service.CreateShortLink(originalUrl, currentUser, customAlias, expiresAt, now, attempts);
  }

  /** `GET /links/{short_code}`: the stored record, or 404. */
  function GetLinkInfo(rows: seq<Link>, code: string): (r: Result<Link>)
    ensures r.Err? <==> !HasCode(rows, code)
    ensures r.Err? ==> r.error == NotFound
    ensures r.Ok? ==> r.value in rows && r.value.shortCode == code
  {
    GetLinkByCode(rows, code)
  }

  /** `GET /links/{short_code}/stats`: the stored record's statistics, or 404. */
  function GetLinkStats(rows: seq<Link>, code: string): (r: Result<LinkStats>)
    requires UniqueCodes(rows)
    ensures r.Err? <==> !HasCode(rows, code)
    ensures r.Err? ==> r.error == NotFound
    ensures r.Ok? ==> forall i :: 0 <= i < |rows| && rows[i].shortCode == code ==>
      r.value == StatsOf(rows[i])
  {
    match GetLinkByCode(rows, code)
    case Ok(link) =>
      assert link == rows[IndexOf(rows, code)];
      Ok(StatsOf(link))
    case Err(e) => Err(e)
  }

  /** `DELETE /links/{short_code}`: reports success only once the service deleted the row. */
  method DeleteLink(service: LinkService, code: string, currentUser: UserId)
    returns (r: Result<string>)
    requires service.Valid()
    modifies service
    ensures service.Valid() && service.nextId == old(service.nextId)
    ensures r == Err(NotFound) <==> !HasCode(old(service.rows), code)
    ensures r == Err(Forbidden) <==>
      HasCode(old(service.rows), code)
      && !OwnedBy(GetLinkByCode(old(service.rows), code).value, currentUser)
    ensures r.Err? ==> r.error == NotFound || r.error == Forbidden
    ensures r.Err? ==> service.rows == old(service.rows)
    ensures r.Ok? ==> r.value == DeletedMessage && service.rows == RemoveCode(old(service.rows), code)
  {
    var done := service.DeleteLink(code, currentUser);
    if done.Err? {
      return Err(done.error);
    }
    r := Ok(DeletedMessage);
  }

  /**
   * `GET /{short_code}`: look the code up, refuse an expired link, count the
   * visit, and answer with the original URL as the redirect target. A
   * missing code and an expired link are told apart.
   */
  method RedirectToUrl(service: LinkService, code: string, now: Time) returns (r: Result<string>)
    requires service.Valid()
    modifies service
    ensures service.Valid() && service.nextId == old(service.nextId)
    ensures r == Err(NotFound) <==> !HasCode(old(service.rows), code)
    ensures r == Err(Gone) <==>
      HasCode(old(service.rows), code)
      && CheckLinkExpiration(GetLinkByCode(old(service.rows), code).value, now).Err?
    ensures r.Err? ==> r.error == NotFound || r.error == Gone
    ensures r.Err? ==> service.rows == old(service.rows)
    ensures r.Ok? ==>
      var link := GetLinkByCode(old(service.rows), code).value;
      && r.value == link.originalUrl
      && service.rows
         == old(service.rows)[IndexOf(old(service.rows), code)
              := link.(clicks := link.clicks + 1, lastAccessedAt := Some(now))]
      && GetLinkByCode(service.rows, code)
         == Ok(link.(clicks := link.clicks + 1, lastAccessedAt := Some(now)))
      && forall other :: other != code ==>
           GetLinkByCode(service.rows, other) == GetLinkByCode(old(service.rows), other)
  {
    var found := GetLinkByCode(service.rows, code);
    if found.Err? {
      return Err(found.error);
    }
    var link := found.value;
    var live := CheckLinkExpiration(link, now);
    if live.Err? {
      return Err(live.error);
    }
    ghost var before := service.rows;
    var visited := service.UpdateLinkStats(link, now);
    forall other | true
      ensures GetLinkByCode(service.rows, other)
           == if other == code then Ok(visited) else GetLinkByCode(before, other)
    {
      LookupAfterReplace(before, IndexOf(before, code), visited, other);
    }
    r := Ok(visited.originalUrl);
  }

  /**
   * An anonymous link on an empty table: it redirects to its URL and counts
   * the click on the day it is made, and is gone a day and a second later.
   */
  method AnonymousLinkLifecycle(url: string, now: Time)
  {
    var service := new LinkService([], 1);
    var draws := [0, 0, 0, 0, 0, 0];
    assert !HasCode(service.rows, CodeFromDraws([draws][0]));
    var created := CreateShortLink(service, url, None, None, None, now, [draws]);
    assert created.Ok?;
    var code := created.value.shortCode;
    assert created.value.expiresAt == Some(now + Day);

    assert service.rows == [created.value];
    assert GetLinkByCode(service.rows, code) == Ok(created.value);
    assert CheckLinkExpiration(created.value, now + Day).Ok?;
    var first := RedirectToUrl(service, code, now + Day);
    assert first == Ok(url);
    assert GetLinkByCode(service.rows, code).value.clicks == 1;

    var late := RedirectToUrl(service, code, now + Day + 1);
    assert late == Err(Gone);
  }

  /**
   * A signed-in caller's alias becomes the stored code. A request whose
   * expiry is already past is refused before any code is drawn, so it
   * needs no draws at all.
   */
  method AliasAndPastExpiry(url: string, now: Time)
  {
    var service := new LinkService([], 1);
    var aliased := CreateShortLink(service, url, Some(7), Some("abc"), None, now, []);
    assert aliased.Ok? && aliased.value.shortCode == "abc" && aliased.value.id == 1;
    assert service.nextId == 2;

    var refused := CreateShortLink(service, url, None, None, Some(now - 1), now, []);
    assert refused == Err(ExpirationInPast);
    assert service.rows == [aliased.value];
  }

  /** The owner deleting their own link gets the success message, and the table is empty again. */
  method OwnerDeletes(url: string)
  {
    var service := new LinkService([Link(1, url, "abc", Some(7), 0, None, 0, None)], 2);
    var r := DeleteLink(service, "abc", 7);
    assert r == Ok(DeletedMessage);
    assert service.rows == [];
  }
}
