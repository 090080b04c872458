# Link registry of a URL shortener, modelled in Dafny

This project models the core of a URL-shortening service. The core is the
link registry (`LinkService`) and the HTTP endpoints that call it. It covers:

- allocating a unique short code, either a custom alias or a random
  6-character code over ASCII letters and digits, retried until unused;
- the expiry policy: a requested expiry strictly before `now` is refused,
  and a missing one becomes `now` plus one day;
- lookup by code, the expiry check, and click recording;
- owner-gated update and delete;
- search by URL substring and listing a user's links;
- the redirect endpoint, which chains lookup, expiry check and click
  recording, and keeps "not found" (404) apart from "expired" (410).

The `links` table is a sequence of `Link` rows in primary-key order
(`models.dfy`). The table invariant `WellFormed` says three things:
short codes are unique, ids ascend, and every id is below the next id to
be assigned. `links.dfy` holds:

- the pure queries, as functions over the rows;
- the `LinkService` class, whose methods change the rows in place and keep
  `WellFormed`;
- lemmas that describe each change by what later lookups return.

`router.dfy` holds the endpoints.

Time is an integer number of seconds, and each request reads one `now`.
The random source and the caller's identity are parameters.

Behaviour of the code that the model keeps as written:

- An expiry exactly equal to `now` is accepted at creation, because the
  test is `expires_at < now`.
- The one-day default expiry applies to every caller, signed in or not,
  although the comment next to it speaks of anonymous callers only.
- An empty custom alias is treated as no alias (`if custom_alias:`), so a
  random code is generated.
- `create_short_link` never stores a link without an expiry. Only an
  update can clear the expiry.

## Model

| member | source | states |
|---|---|---|
| `Links.AlphabetAt` | app/backend/services/link_service.py:18 | every position of the 62-character alphabet holds an ASCII letter or digit |
| `Links.AlphabetIndex` | app/backend/services/link_service.py:18 | every ASCII letter or digit occurs in the alphabet (the inverse of `AlphabetAt`) |
| `Links.CodeFromDraws` | app/backend/services/link_service.py:17-19 | one random choice per draw gives a code exactly as long as the draws, each character a letter or digit |
| `Links.DrawsFor` | app/backend/services/link_service.py:17-19 | every alphanumeric code can come out of the generator: some draws produce exactly it |
| `Links.GenerateShortCode` | app/backend/services/link_service.py:16-19 | the character-by-character loop builds exactly `CodeFromDraws(draws)`: `length` characters, all letters or digits |
| `Links.PickUnusedCode` | app/backend/services/link_service.py:46-50 | the retry loop returns a 6-character alphanumeric code that no row carries, drawn by the first attempt whose code is free (all earlier ones were taken) |
| `Links.IndexOf` | app/backend/services/link_service.py:64 | `.first()`: the position of the first row carrying the code, or the table length when no row does |
| `Links.IndexOfStored` | app/backend/services/link_service.py:64 | with unique codes, looking up a stored row's code finds that very row |
| `Links.GetLinkByCode` | app/backend/services/link_service.py:63-70 | fails with NotFound exactly when no row has the code; otherwise returns a stored row carrying that code |
| `Links.CheckLinkExpiration` | app/backend/services/link_service.py:79-84 | passes exactly when the link has no expiry or `now` is not after it; otherwise fails with Gone |
| `Links.GoneStaysGone` | app/backend/services/link_service.py:79-84 | a link gone at one time is gone at every later time |
| `Links.DefaultExpiryLifetime` | app/backend/services/link_service.py:35-37 | a link with the one-day default works up to one day after creation and is gone after that |
| `Links.Where` | app/backend/services/link_service.py:119-127 | the filter under `search_links` and `get_user_links` returns exactly the rows the test accepts, no more rows than the table has |
| `Links.WhereKeepsOrder` | app/backend/services/link_service.py:119-127 | filtered results keep the table's ascending id order |
| `Links.SearchLinks` | app/backend/services/link_service.py:119-122 | a row is in the result exactly when it is stored and its original URL contains the fragment |
| `Links.GetUserLinks` | app/backend/services/link_service.py:124-127 | a row is in the result exactly when it is stored and owned by the user; ownerless rows never match |
| `Links.RemoveCode` | app/backend/services/link_service.py:95 | the table without the deleted code keeps every other row and no row with that code |
| `Links.RemoveAt` | app/backend/services/link_service.py:95 | with unique codes, cutting out one row is the same as removing its code |
| `Links.DropFound` | app/backend/services/link_service.py:95 | the row cut out by the delete is exactly the one carrying the code; the result is `RemoveCode` of it and stays well formed |
| `Links.DeleteFound` | app/backend/services/link_service.py:86-96 | deleting the row found by a code removes that code and keeps codes unique and ids ascending |
| `Links.LookupAfterAppend` | app/backend/services/link_service.py:52-61 | after inserting a row with a fresh code, that code finds the new row and every other code finds what it found before |
| `Links.LookupAfterReplace` | app/backend/services/link_service.py:72-77 | rewriting a row in place without changing its code changes what that code finds, and nothing else |
| `Links.LookupAfterRemove` | app/backend/services/link_service.py:95-96 | after a delete the code is NotFound and every other code finds what it found before |
| `Links.AppendKeepsWellFormed` | app/models/models.py:17-27 | inserting a row with a fresh code and the next id keeps codes unique and ids ascending |
| `Links.DropKeepsWellFormed` | app/backend/services/link_service.py:95 | removing any one row keeps codes unique and ids ascending |
| `Links.LinkService.constructor` | app/backend/services/link_service.py:13-14 | a service over a well-formed table starts valid on that table |
| `Links.LinkService.CreateShortLink` | app/backend/services/link_service.py:21-61 | ExpirationInPast exactly for an expiry strictly before `now`. AliasTaken exactly for a non-empty alias already stored. Either failure leaves the table unchanged. Success appends one row: the next id, the URL, the caller as owner, clicks 0, and the given expiry or `now` + 1 day. Its code is the alias, or a fresh 6-character generated code, and was absent before |
| `Links.LinkService.UpdateLinkStats` | app/backend/services/link_service.py:72-77 | the stored row gets one more click and `last_accessed_at = now`; no other field or row changes |
| `Links.LinkService.DeleteLink` | app/backend/services/link_service.py:86-96 | NotFound exactly for a missing code. Forbidden exactly when the row's owner is not the caller, including ownerless rows. Both leave the table unchanged. Otherwise the table becomes `RemoveCode` of the code |
| `Links.LinkService.UpdateLink` | app/backend/services/link_service.py:98-117 | NotFound and Forbidden as for delete, table unchanged. Otherwise only that row changes: the new URL, and the given expiry or none. Code, owner, clicks and id stay |
| `Router.CreateShortLink` | app/backend/routers/links.py:14-26 | the alias, caller and expiry go to the service unchanged, and so does the URL (its normalisation is left out). The endpoint fails only with ExpirationInPast or AliasTaken, with the same conditions as the service, for signed-in and anonymous callers alike, and a failure leaves the table and the next id unchanged. On success one row is added. It has the next id, the URL, the caller as owner, the default or given expiry and zero clicks. Its code is fresh: the non-empty alias when one is given, otherwise the first free 6-character generated code |
| `Router.GetLinkInfo` | app/backend/routers/links.py:44-47 | read-only: the stored row with that code, or NotFound exactly when none exists |
| `Router.GetLinkStats` | app/backend/routers/links.py:78-81 | read-only: the statistics of the row with that code, or NotFound exactly when none exists |
| `Router.DeleteLink` | app/backend/routers/links.py:50-58 | fails only with NotFound (missing code) or Forbidden (caller not the owner), with the table unchanged. Otherwise it reports the success message, and the service has deleted the row, leaving the table as `RemoveCode` of the code. The next id never changes |
| `Router.RedirectToUrl` | app/backend/routers/links.py:84-102 | NotFound exactly for an unknown code. Gone exactly for an expired link. Both leave the table unchanged. Otherwise returns the link's original URL and records one click at `now` on that row only, so every other code finds what it found before |

## Left out

- Links.PickUnusedCode: the `while True` retry loop has no bound. The model takes the random draws of successive attempts as a parameter. It requires that some attempt yields a free code, the condition under which the loop ends. A run that never finds a free code is not modelled.
- Links.LinkService.CreateShortLink: needs the same liveness condition on its draws. It applies only when no non-empty alias is given and the expiry is not in the past, which are exactly the calls that reach the retry loop. `Router.CreateShortLink` has the same condition.
- Links.CodeFromDraws: randomness is a parameter. Each `secrets.choice` is a number that picks its character modulo 62. The model does not capture the uniform distribution or the cryptographic strength of the source.
- Time is one integer `now` per request. The redirect reads the clock twice in the source: once for the expiry check (`app/backend/services/link_service.py:80`) and again for the click timestamp (`app/backend/services/link_service.py:74`). The `replace(tzinfo=UTC)` relabelling is not modelled.
- `created_at` is set from `now`. In the source the database supplies it.
- Links.SearchLinks: modelled as exact, case-sensitive substring containment. The store's `LIKE` treats `%` and `_` in the fragment as wildcards. SQLite's `LIKE` also ignores ASCII case. Both are store behaviour.
- Search and user-links endpoints (`app/backend/routers/links.py:29-41`): they return the service's list unchanged. The service functions `Links.SearchLinks` and `Links.GetUserLinks` are modelled instead.
- Update endpoint (`app/backend/routers/links.py:61-75`): it passes `custom_alias=` to `update_link`, which has no such parameter, so the call fails with a `TypeError` before reaching the service. Only the service's `update_link` is modelled, and short codes never change.
- Callers on update, delete and user links are a plain `UserId`. The token resolver may return no user even there, and the source would then crash on `.id`. That crash is not modelled.
- Id assignment is a counter that never reuses an id. SQLite may reuse the largest rowid after it is deleted.
- URL validation (`HttpUrl`) and the normalisation the endpoint applies through `str(link.original_url)` (`app/backend/routers/links.py:22`) are not modelled. URLs are opaque strings, passed through unchanged. The 10-character column width of `short_code` is not enforced on aliases, as SQLite does not enforce it either.
- Session `commit`/`refresh`, concurrent requests and the check-then-insert race are not modelled. The table is one sequential value.
- HTTP status codes and response messages appear only as the error variants. The redirect's re-raise of 404 with a different message is not modelled.
- Users, authentication, the front end and application wiring are not part of this model.
