/**
 * The link registry behind `LinkService`: short-code generation, the
 * queries the service runs against the `links` table (lookup by code,
 * expiry check, search, a user's links) and the service object whose
 * methods insert, update and delete rows.
 *
 * The table is a sequence of rows in id order, so "the first row that
 * matches" and "all rows that match" have a definite meaning.
 */
module Links {
  import opened Models

  /** The failures the service raises, with the HTTP status of each. */
  datatype Error =
    | NotFound          // 404
    | AliasTaken        // 400
    | ExpirationInPast  // 400
    | Gone              // 410
    | Forbidden         // 403

  datatype Result<+T> = Ok(value: T) | Err(error: Error)

  // ---------------------------------------------------------------------
  // Short codes
  // ---------------------------------------------------------------------

  /** `len(string.ascii_letters + string.digits)` */
  const AlphabetSize: nat := 62

  /** The default `length` of `generate_short_code`. */
  const DefaultCodeLength: nat := 6

  predicate IsAlphanumeric(c: char) {
    'a' <= c <= 'z' || 'A' <= c <= 'Z' || '0' <= c <= '9'
  }

  /** A code of the given length over ASCII letters and digits. */
  predicate IsShortCode(code: string, length: nat) {
    |code| == length && forall i :: 0 <= i < |code| ==> IsAlphanumeric(code[i])
  }

  /**
   * Position `i` of `string.ascii_letters + string.digits`: the 26
   * lower-case letters, then the 26 upper-case letters, then the digits.
   */
  function AlphabetAt(i: nat): (c: char)
    requires i < AlphabetSize
    ensures IsAlphanumeric(c)
  {
    if i < 26 then ('a' as int + i) as char
    else if i < 52 then ('A' as int + (i - 26)) as char
    else ('0' as int + (i - 52)) as char
  }

  /** Where an alphanumeric character sits in the alphabet. */
  function AlphabetIndex(c: char): (i: nat)
    requires IsAlphanumeric(c)
    ensures i < AlphabetSize && AlphabetAt(i) == c
  {
    if 'a' <= c <= 'z' then c as int - 'a' as int
    else if 'A' <= c <= 'Z' then 26 + (c as int - 'A' as int)
    else 52 + (c as int - '0' as int)
  }

  /**
   * The code that one call of `secrets.choice(alphabet)` per draw yields,
   * each random draw given as a number that selects its character modulo
   * the alphabet size.
   */
  function CodeFromDraws(draws: seq<nat>): (code: string)
    ensures IsShortCode(code, |draws|)
  {
    if draws == [] then ""
    else CodeFromDraws(draws[..|draws| - 1]) + [AlphabetAt(draws[|draws| - 1] % AlphabetSize)]
  }

  /**
   * Draws that make the generator produce a given alphanumeric code: every
   * such code can come out of `generate_short_code`.
   */
  function DrawsFor(code: string): (draws: seq<nat>)
    requires IsShortCode(code, |code|)
    ensures |draws| == |code| && CodeFromDraws(draws) == code
  {
    if code == "" then []
    else
      var front := code[..|code| - 1];
      assert IsShortCode(front, |front|) by {
        forall i | 0 <= i < |front| ensures IsAlphanumeric(front[i]) {
          assert front[i] == code[i];
        }
      }
      var draws := DrawsFor(front) + [AlphabetIndex(code[|code| - 1])];
      assert draws[..|draws| - 1] == DrawsFor(front);
      assert code == front + [code[|code| - 1]];
      draws
  }

  /** `generate_short_code`: one random choice per character. */
  method GenerateShortCode(length: nat, draws: seq<nat>) returns (code: string)
    requires |draws| == length
    ensures code == CodeFromDraws(draws)
    ensures IsShortCode(code, length)
  {
    code := "";
    for i := 0 to length
      invariant code == CodeFromDraws(draws[..i])
    {
      assert draws[..i + 1][..i] == draws[..i];
      code := code + [AlphabetAt(draws[i] % AlphabetSize)];
    }
    assert draws[..length] == draws;
  }

  // ---------------------------------------------------------------------
  // The table and its invariant
  // ---------------------------------------------------------------------

  predicate HasCode(rows: seq<Link>, code: string) {
    exists i :: 0 <= i < |rows| && rows[i].shortCode == code
  }

  /** The `unique=True` constraint on `short_code`. */
  predicate UniqueCodes(rows: seq<Link>) {
    forall i, j :: 0 <= i < j < |rows| ==> rows[i].shortCode != rows[j].shortCode
  }

  /** Rows sit in the order of their primary keys. */
  predicate IdsAscending(rows: seq<Link>) {
    forall i, j :: 0 <= i < j < |rows| ==> rows[i].id < rows[j].id
  }

  /** A table whose next row will get id `nextId`. */
  predicate WellFormed(rows: seq<Link>, nextId: nat) {
    && UniqueCodes(rows)
    && IdsAscending(rows)
    && (forall i :: 0 <= i < |rows| ==> rows[i].id < nextId)
  }

  // ---------------------------------------------------------------------
  // Queries
  // ---------------------------------------------------------------------

  /** The position of the first row carrying `code`, or `|rows|` if none does. */
  function IndexOf(rows: seq<Link>, code: string): (i: nat)
    ensures i <= |rows|
    ensures i < |rows| ==> rows[i].shortCode == code
    ensures forall j :: 0 <= j < i ==> rows[j].shortCode != code
  {
    if rows == [] then 0
    else if rows[0].shortCode == code then 0
    else 1 + IndexOf(rows[1..], code)
  }

  /** In a table with unique codes, a stored row is found at its own position. */
  lemma IndexOfStored(rows: seq<Link>, k: nat)
    requires UniqueCodes(rows) && k < |rows|
    ensures IndexOf(rows, rows[k].shortCode) == k
  {
  }

  /** `get_link_by_code`: the row with this code, or `NotFound`. */
  function GetLinkByCode(rows: seq<Link>, code: string): (r: Result<Link>)
    ensures r.Err? <==> !HasCode(rows, code)
    ensures r.Err? ==> r.error == NotFound
    ensures r.Ok? ==> r.value in rows && r.value.shortCode == code
  {
    var i := IndexOf(rows, code);
    if i < |rows| then Ok(rows[i]) else Err(NotFound)
  }

  /**
   * `check_link_expiration`: a link is gone once its expiry, if it has one,
   * lies strictly before `now`; a link expiring exactly at `now` still works.
   */
  function CheckLinkExpiration(link: Link, now: Time): (r: Result<()>)
    ensures r.Err? ==> r.error == Gone
    ensures r.Ok? <==> (link.expiresAt.None? || now <= link.expiresAt.value)
  {
    if link.expiresAt.Some? && link.expiresAt.value < now then Err(Gone) else Ok(())
  }

  /** Once gone, a link stays gone as time passes (until an update changes its expiry). */
  lemma GoneStaysGone(link: Link, t: Time, later: Time)
    requires t <= later && CheckLinkExpiration(link, t).Err?
    ensures CheckLinkExpiration(link, later).Err?
  {
  }

  /** A link carrying the one-day default works until a day after creation and is gone afterwards. */
  lemma DefaultExpiryLifetime(link: Link, t: Time)
    requires link.expiresAt == Some(link.createdAt + Day)
    ensures CheckLinkExpiration(link, t).Ok? <==> t <= link.createdAt + Day
  {
  }

  /** The rows that `keep` accepts, in table order. */
  function Where(rows: seq<Link>, keep: Link -> bool): (r: seq<Link>)
    ensures |r| <= |rows|
    ensures forall l :: l in r <==> l in rows && keep(l)
  {
    if rows == [] then []
    else (if keep(rows[0]) then [rows[0]] else []) + Where(rows[1..], keep)
  }

  /** Filtering keeps the table's id order. */
  lemma {:induction false} WhereKeepsOrder(rows: seq<Link>, keep: Link -> bool)
    requires IdsAscending(rows)
    ensures IdsAscending(Where(rows, keep))
  {
    if rows != [] {
      WhereKeepsOrder(rows[1..], keep);
      var tail := Where(rows[1..], keep);
      forall l | l in tail ensures rows[0].id < l.id {
        var k :| 0 <= k < |rows[1..]| && rows[1..][k] == l;
        assert rows[k + 1] == l;
      }
    }
  }

  /** Filtering with a test every row passes gives back the whole table. */
  lemma {:induction false} WhereKeepsAll(rows: seq<Link>, keep: Link -> bool)
    requires forall i :: 0 <= i < |rows| ==> keep(rows[i])
    ensures Where(rows, keep) == rows
  {
    if rows != [] {
      WhereKeepsAll(rows[1..], keep);
    }
  }

  /** SQL `LIKE '%fragment%'` read as plain substring containment. */
  predicate Contains(s: string, fragment: string) {
    exists i :: 0 <= i <= |s| && fragment <= s[i..]
  }

  /** `search_links`: every row whose original URL contains the fragment, and no other. */
  function SearchLinks(rows: seq<Link>, fragment: string): (r: seq<Link>)
    ensures forall l :: l in r <==> l in rows && Contains(l.originalUrl, fragment)
  {
    Where(rows, (l: Link) => Contains(l.originalUrl, fragment))
  }

  /** `get_user_links`: every row the user owns, and no other; ownerless rows never match. */
  function GetUserLinks(rows: seq<Link>, user: UserId): (r: seq<Link>)
    ensures forall l :: l in r <==> l in rows && l.userId == Some(user)
  {
    Where(rows, (l: Link) => l.userId == Some(user))
  }

  /** The table after `db.delete` of the row carrying `code`. */
  function RemoveCode(rows: seq<Link>, code: string): (r: seq<Link>)
    ensures forall l :: l in r <==> l in rows && l.shortCode != code
    ensures !HasCode(r, code)
  {
    Where(rows, OtherThan(code))
  }

  /** The test that keeps every row except the one carrying `code`. */
  function OtherThan(code: string): Link -> bool {
    (l: Link) => l.shortCode != code
  }

  /** `RemoveCode` on a non-empty table: keep the head unless it carries the code, then go on. */
  lemma RemoveCodeCons(rows: seq<Link>, code: string)
    requires rows != []
    ensures RemoveCode(rows, code)
         == (if rows[0].shortCode != code then [rows[0]] else []) + RemoveCode(rows[1..], code)
  {
  }

  lemma TailUnique(rows: seq<Link>)
    requires UniqueCodes(rows) && rows != []
    ensures UniqueCodes(rows[1..])
  {
    var tail := rows[1..];
    forall a, b | 0 <= a < b < |tail| ensures tail[a].shortCode != tail[b].shortCode {
      assert tail[a] == rows[a + 1] && tail[b] == rows[b + 1];
    }
  }

  /** With unique codes, removing the head row's code leaves exactly the rest. */
  lemma RemoveHead(rows: seq<Link>, code: string)
    requires UniqueCodes(rows) && rows != [] && rows[0].shortCode == code
    ensures RemoveCode(rows, code) == rows[1..]
  {
    var tail := rows[1..];
    RemoveCodeCons(rows, code);
    forall k | 0 <= k < |tail| ensures OtherThan(code)(tail[k]) {
      assert tail[k] == rows[k + 1];
    }
    WhereKeepsAll(tail, OtherThan(code));
  }

  /** In a table with unique codes, cutting out the row at `i` is `RemoveCode` of its code. */
  lemma {:induction false} RemoveAt(rows: seq<Link>, i: nat)
    requires UniqueCodes(rows) && i < |rows|
    ensures rows[..i] + rows[i + 1..] == RemoveCode(rows, rows[i].shortCode)
  {
    var code := rows[i].shortCode;
    if i == 0 {
      RemoveHead(rows, code);
    } else {
      var tail := rows[1..];
      TailUnique(rows);
      assert tail[i - 1] == rows[i];
      RemoveAt(tail, i - 1);
      RemoveCodeCons(rows, code);
      SpliceCons(rows, i);
    }
  }

  /** Cutting position `i > 0` out of a sequence keeps its head in front. */
  lemma SpliceCons(rows: seq<Link>, i: nat)
    requires 0 < i < |rows|
    ensures rows[..i] + rows[i + 1..] == [rows[0]] + (rows[1..][..i - 1] + rows[1..][i..])
  {
  }

  /** Appending a row with a fresh code: it is found by its code, and every other lookup answers as before. */
  lemma LookupAfterAppend(rows: seq<Link>, link: Link, code: string)
    requires !HasCode(rows, link.shortCode)
    ensures GetLinkByCode(rows + [link], code)
         == if code == link.shortCode then Ok(link) else GetLinkByCode(rows, code)
  {
    var after := rows + [link];
    var i, j := IndexOf(rows, code), IndexOf(after, code);
    if i < |rows| {
      assert after[i] == rows[i];
    } else if code == link.shortCode {
      assert after[|rows|] == link;
    } else {
      assert !HasCode(after, code) by {
        forall k | 0 <= k < |after| ensures after[k].shortCode != code {
          if k < |rows| { assert after[k] == rows[k]; }
        }
      }
    }
  }

  /** Rewriting a row in place without touching its code: only that code's lookup sees the new row. */
  lemma LookupAfterReplace(rows: seq<Link>, i: nat, updated: Link, code: string)
    requires UniqueCodes(rows) && i < |rows| && updated.shortCode == rows[i].shortCode
    ensures GetLinkByCode(rows[i := updated], code)
         == if code == updated.shortCode then Ok(updated) else GetLinkByCode(rows, code)
  {
    var after := rows[i := updated];
    assert UniqueCodes(after);
    if code == updated.shortCode {
      IndexOfStored(after, i);
    } else {
      var j := IndexOf(rows, code);
      assert IndexOf(after, code) == j by {
        if j < |rows| {
          IndexOfStored(rows, j);
          IndexOfStored(after, j);
        } else {
          assert !HasCode(after, code);
        }
      }
    }
  }

  /** Looking a code up in a non-empty table: the head row if it carries the code, else the rest. */
  lemma GetLinkByCodeCons(rows: seq<Link>, code: string)
    requires rows != []
    ensures GetLinkByCode(rows, code)
         == if rows[0].shortCode == code then Ok(rows[0]) else GetLinkByCode(rows[1..], code)
  {
  }

  /** Deleting a code: that code is no longer found, and every other lookup answers as before. */
  lemma {:induction false} LookupAfterRemove(rows: seq<Link>, removed: string, code: string)
    ensures GetLinkByCode(RemoveCode(rows, removed), code)
         == if code == removed then Err(NotFound) else GetLinkByCode(rows, code)
  {
    if code != removed && rows != [] {
      var after := RemoveCode(rows, removed);
      var tail := RemoveCode(rows[1..], removed);
      RemoveCodeCons(rows, removed);
      LookupAfterRemove(rows[1..], removed, code);
      GetLinkByCodeCons(rows, code);
      if rows[0].shortCode != removed {
        assert after == [rows[0]] + tail;
        GetLinkByCodeCons(after, code);
        assert after[1..] == tail;
      } else {
        assert after == tail;
      }
    }
  }

  /** Appending a row with a fresh code and the next id keeps the table well formed. */
  lemma AppendKeepsWellFormed(rows: seq<Link>, nextId: nat, link: Link)
    requires WellFormed(rows, nextId) && !HasCode(rows, link.shortCode) && link.id == nextId
    ensures WellFormed(rows + [link], nextId + 1)
  {
    var after := rows + [link];
    forall i, j | 0 <= i < j < |after|
      ensures after[i].shortCode != after[j].shortCode && after[i].id < after[j].id
    {
      assert after[i] == rows[i];
      if j < |rows| { assert after[j] == rows[j]; }
    }
  }

  /** Dropping the row at one position keeps the table well formed. */
  lemma DropKeepsWellFormed(rows: seq<Link>, nextId: nat, i: nat)
    requires WellFormed(rows, nextId) && i < |rows|
    ensures WellFormed(rows[..i] + rows[i + 1..], nextId)
  {
    var after := rows[..i] + rows[i + 1..];
    forall a | 0 <= a < |after| ensures after[a] == rows[if a < i then a else a + 1] {
    }
    forall a, b | 0 <= a < b < |after|
      ensures after[a].shortCode != after[b].shortCode && after[a].id < after[b].id
    {
      assert after[a] == rows[if a < i then a else a + 1];
      assert after[b] == rows[if b < i then b else b + 1];
    }
  }

  /** Deleting the row found by `code` is `RemoveCode`, and keeps the table well formed. */
  lemma DeleteFound(rows: seq<Link>, nextId: nat, code: string)
    requires WellFormed(rows, nextId) && HasCode(rows, code)
    ensures IndexOf(rows, code) < |rows|
    ensures rows[..IndexOf(rows, code)] + rows[IndexOf(rows, code) + 1..] == RemoveCode(rows, code)
    ensures WellFormed(RemoveCode(rows, code), nextId)
  {
    RemoveAt(rows, IndexOf(rows, code));
    DropKeepsWellFormed(rows, nextId, IndexOf(rows, code));
  }

  /** `db.delete(link)` on the row `get_link_by_code` found: that one row is cut out. */
  method DropFound(rows: seq<Link>, nextId: nat, code: string) returns (kept: seq<Link>)
    requires WellFormed(rows, nextId) && HasCode(rows, code)
    ensures kept == RemoveCode(rows, code)
    ensures WellFormed(kept, nextId)
  {
    var i := IndexOf(rows, code);
    DeleteFound(rows, nextId, code);
    kept := rows[..i] + rows[i + 1..];
  }

  // ---------------------------------------------------------------------
  // The service object
  // ---------------------------------------------------------------------

  /** A caller asks for a generated code when it gives no alias or an empty one (`if custom_alias:`). */
  predicate WantsGeneratedCode(customAlias: Option<string>) {
    customAlias.None? || customAlias.value == ""
  }

  /** `expires_at < now`: an expiry exactly at `now` is accepted. */
  predicate IsPastExpiry(expiresAt: Option<Time>, now: Time) {
    expiresAt.Some? && expiresAt.value < now
  }

  /**
   * The random draws of successive `generate_short_code()` calls, six per
   * attempt, at least one of which yields a code not yet in the table: the
   * condition under which the retry loop ends.
   */
  predicate SomeAttemptIsFree(rows: seq<Link>, attempts: seq<seq<nat>>) {
    && (forall j :: 0 <= j < |attempts| ==> |attempts[j]| == DefaultCodeLength)
    && exists j :: 0 <= j < |attempts| && !HasCode(rows, CodeFromDraws(attempts[j]))
  }

  /** `code` is what the `j`-th attempt drew, and every earlier attempt drew a taken code. */
  predicate IsFirstFreeAttempt(rows: seq<Link>, attempts: seq<seq<nat>>, code: string) {
    exists j :: 0 <= j < |attempts| && code == CodeFromDraws(attempts[j])
      && forall m :: 0 <= m < j ==> AttemptTaken(rows, attempts, m)
  }

  /** The code drawn by attempt `m` is already in the table. */
  predicate AttemptTaken(rows: seq<Link>, attempts: seq<seq<nat>>, m: nat)
    requires m < |attempts|
  {
    HasCode(rows, CodeFromDraws(attempts[m]))
  }

  predicate OwnedBy(link: Link, user: UserId) {
    link.userId == Some(user)
  }

  /**
   * The retry loop of `create_short_link`: draw a code, ask the table
   * whether it is taken, and draw again until it is not.
   */
  method PickUnusedCode(rows: seq<Link>, attempts: seq<seq<nat>>) returns (code: string)
    requires SomeAttemptIsFree(rows, attempts)
    ensures IsShortCode(code, DefaultCodeLength)
    ensures !HasCode(rows, code)
    ensures IsFirstFreeAttempt(rows, attempts, code)
  {
    ghost var free :| 0 <= free < |attempts| && !HasCode(rows, CodeFromDraws(attempts[free]));
    var k := 0;
    code := GenerateShortCode(DefaultCodeLength, attempts[0]);
    while HasCode(rows, code)
      invariant k <= free
      invariant code == CodeFromDraws(attempts[k])
      invariant forall m :: 0 <= m < k ==> AttemptTaken(rows, attempts, m)
      decreases free - k
    {
      assert AttemptTaken(rows, attempts, k);
      k := k + 1;
      code := GenerateShortCode(DefaultCodeLength, attempts[k]);
    }
    assert !HasCode(rows, code);
    assert code == CodeFromDraws(attempts[k]);
  }

  class LinkService {
    /** The rows of `links`, in id order. */
    var rows: seq<Link>
    /** The id the next inserted row receives. */
    var nextId: nat

    ghost predicate Valid()
      reads this
    {
      WellFormed(rows, nextId)
    }

    /** A service over a session on the given table. */
    constructor (table: seq<Link>, firstFreeId: nat)
      requires WellFormed(table, firstFreeId)
      ensures Valid() && rows == table && nextId == firstFreeId
    {
      rows := table;
      nextId := firstFreeId;
    }

    /**
     * `create_short_link`. The expiry check comes first, then the alias
     * check; on success exactly one row is appended.
     */
    method CreateShortLink(originalUrl: string, currentUser: Option<UserId>,
                           customAlias: Option<string>, expiresAt: Option<Time>,
                           now: Time, attempts: seq<seq<nat>>)
      returns (r: Result<Link>)
      requires Valid()
      requires WantsGeneratedCode(customAlias) && !IsPastExpiry(expiresAt, now)
        ==> SomeAttemptIsFree(rows, attempts)
      modifies this
      ensures Valid()
      ensures r == Err(ExpirationInPast) <==> IsPastExpiry(expiresAt, now)
      ensures r == Err(AliasTaken) <==>
        !IsPastExpiry(expiresAt, now) && !WantsGeneratedCode(customAlias)
        && HasCode(old(rows), customAlias.value)
      ensures r.Err? ==> r.error == ExpirationInPast || r.error == AliasTaken
      ensures r.Err? ==> rows == old(rows) && nextId == old(nextId)
      ensures r.Ok? ==>
        && rows == old(rows) + [r.value]
        && nextId == old(nextId) + 1
        && r.value.id == old(nextId)
        && r.value.originalUrl == originalUrl
        && r.value.userId == currentUser
        && r.value.createdAt == now
        && r.value.expiresAt == Some(if expiresAt.Some? then expiresAt.value else now + Day)
        && r.value.clicks == 0
        && r.value.lastAccessedAt == None
        && !HasCode(old(rows), r.value.shortCode)
        && CheckLinkExpiration(r.value, now).Ok?
      ensures r.Ok? && !WantsGeneratedCode(customAlias) ==> r.value.shortCode == customAlias.value
      ensures r.Ok? && WantsGeneratedCode(customAlias) ==>
        IsShortCode(r.value.shortCode, DefaultCodeLength) && IsFirstFreeAttempt(old(rows), attempts, r.value.shortCode)
    {
      var expiry: Time;
      if expiresAt.Some? {
        if expiresAt.value < now {
          return Err(ExpirationInPast);
        }
        expiry := expiresAt.value;
      } else {
        expiry := now + Day;
      }

      var code: string;
      if !WantsGeneratedCode(customAlias) {
        if GetLinkByCode(rows, customAlias.value).Ok? {
          return Err(AliasTaken);
        }
        code := customAlias.value;
      } else {
        code := PickUnusedCode(rows, attempts);
      }

      var link := Link(nextId, originalUrl, code, currentUser, now, Some(expiry), 0, None);
      AppendKeepsWellFormed(rows, nextId, link);
      rows := rows + [link];
      nextId := nextId + 1;
      r := Ok(link);
    }

    /** `update_link_stats`: one more click, last accessed now; nothing else changes. */
    method UpdateLinkStats(link: Link, now: Time) returns (updated: Link)
      requires Valid() && link in rows
      modifies this
      ensures Valid() && nextId == old(nextId)
      ensures updated == link.(clicks := link.clicks + 1, lastAccessedAt := Some(now))
      ensures IndexOf(old(rows), link.shortCode) < |old(rows)|
      ensures old(rows)[IndexOf(old(rows), link.shortCode)] == link
      ensures rows == old(rows)[IndexOf(old(rows), link.shortCode) := updated]
    {
      var k :| 0 <= k < |rows| && rows[k] == link;
      IndexOfStored(rows, k);
      var i := IndexOf(rows, link.shortCode);
      updated := rows[i].(clicks := rows[i].clicks + 1, lastAccessedAt := Some(now));
      rows := rows[i := updated];
    }

    /** `delete_link`: only the owner may delete, and only the row with that code goes. */
    method DeleteLink(code: string, currentUser: UserId) returns (r: Result<()>)
      requires Valid()
      modifies this
      ensures Valid() && nextId == old(nextId)
      ensures r == Err(NotFound) <==> !HasCode(old(rows), code)
      ensures r == Err(Forbidden) <==>
        HasCode(old(rows), code) && !OwnedBy(GetLinkByCode(old(rows), code).value, currentUser)
      ensures r.Err? ==> r.error == NotFound || r.error == Forbidden
      ensures r.Err? ==> rows == old(rows)
      ensures r.Ok? ==> rows == RemoveCode(old(rows), code)
    {
      var found := GetLinkByCode(rows, code);
      if found.Err? {
        return Err(found.error);
      }
      if found.value.userId != Some(currentUser) {
        return Err(Forbidden);
      }
      rows := DropFound(rows, nextId, code);
      r := Ok(());
    }

    /**
     * `update_link`: only the owner may update; the URL is replaced and the
     * expiry set to the given one or cleared. Code, owner and clicks stay.
     */
    method UpdateLink(code: string, currentUser: UserId, originalUrl: string,
                      expiresAt: Option<Time>)
      returns (r: Result<Link>)
      requires Valid()
      modifies this
      ensures Valid() && nextId == old(nextId)
      ensures r == Err(NotFound) <==> !HasCode(old(rows), code)
      ensures r == Err(Forbidden) <==>
        HasCode(old(rows), code) && !OwnedBy(GetLinkByCode(old(rows), code).value, currentUser)
      ensures r.Err? ==> r.error == NotFound || r.error == Forbidden
      ensures r.Err? ==> rows == old(rows)
      ensures r.Ok? ==>
        && IndexOf(old(rows), code) < |old(rows)|
        && r.value == old(rows)[IndexOf(old(rows), code)].(originalUrl := originalUrl, expiresAt := expiresAt)
        && rows == old(rows)[IndexOf(old(rows), code) := r.value]
      ensures r.Ok? ==> r.value.shortCode == code && OwnedBy(r.value, currentUser)
    {
      var found := GetLinkByCode(rows, code);
      if found.Err? {
        return Err(found.error);
      }
      if found.value.userId != Some(currentUser) {
        return Err(Forbidden);
      }
      var i := IndexOf(rows, code);
      var updated := rows[i].(originalUrl := originalUrl, expiresAt := expiresAt);
      rows := rows[i := updated];
      r := Ok(updated);
    }
  }
}
