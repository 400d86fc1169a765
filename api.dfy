/**
 * The read API over the `content` and `accounts` tables: content-id
 * parameters (literal or base64url), the paged feed, a content item with its
 * replies, depth-limited threads and profile statistics. The tables are
 * sequences of rows in storage order; each handler is a function of them.
 */
module Api {
  import opened Wrappers
  import opened Json
  import opened Strings
  import opened Sorting
  import opened Content
  import Base64
  import Participation

  const AgentHiveApp: string := "agenthive/1.0"
  const AgentHiveTag: string := "agenthive"

  // ------------------------------------------------------------- content ids

  predicate IsAscii(s: string) {
    forall k :: 0 <= k < |s| ==> s[k] < 128 as char
  }

  /** The bytes of an ASCII string: one per character, as UTF-8 encodes them. */
  function AsciiBytes(s: string): (b: seq<Base64.Byte>)
    requires IsAscii(s)
    ensures |b| == |s|
  {
    seq(|s|, k requires 0 <= k < |s| => s[k] as int)
  }

  /** Decoded bytes read back as text, one character per byte. */
  function BytesText(b: seq<Base64.Byte>): (s: string)
    ensures |s| == |b|
  {
    seq(|b|, k requires 0 <= k < |b| => b[k] as char)
  }

  /** The page script's `b64urlEncode`: `btoa` of the id, then the section 5 swap and no padding. */
  function B64UrlEncode(id: string): string
    requires IsAscii(id)
  {
    Base64.UrlEncode(AsciiBytes(id))
  }

  /**
   * `decodeContentIdParam`: a missing or blank parameter is None; a trimmed
   * value starting with `@` is the id itself; anything else is read as
   * unpadded base64url and kept only if the decoded text starts with `@`.
   */
  function DecodeContentIdParam(raw: Option<string>): (r: Option<string>)
    ensures Trim(raw.GetOr("")) == "" ==> r.None?
    ensures var s := Trim(raw.GetOr("")); s != "" && s[0] == '@' ==> r == Some(s)
    ensures r.Some? ==> |r.value| > 0 && r.value[0] == '@'
  {
    var s := Trim(raw.GetOr(""));
    if s == "" then None
    else if s[0] == '@' then Some(s)
    else
      match Base64.UrlDecode(s)
      case None => None
      case Some(bytes) =>
        var decoded := BytesText(bytes);
        if |decoded| > 0 && decoded[0] == '@' then Some(decoded) else None
  }

  /** Base64url text of a non-empty byte string has no surrounding white space. */
  lemma TrimUrlEncoded(b: seq<Base64.Byte>)
    requires b != []
    ensures Trim(Base64.UrlEncode(b)) == Base64.UrlEncode(b)
    ensures |Base64.UrlEncode(b)| > 0 && Base64.UrlEncode(b)[0] != '@'
  {
    var enc := Base64.UrlEncode(b);
    Base64.UrlEncodeChars(b);
    assert enc[0] != '@';
    assert !IsSpace(enc[0]) && !IsSpace(enc[|enc| - 1]);
    TrimOfTrimmed(enc);
  }

  lemma BytesOfAscii(id: string)
    requires IsAscii(id)
    ensures BytesText(AsciiBytes(id)) == id
  {
  }

  /** A link built by the page decodes back to the content id it was built from. */
  lemma ContentIdRoundTrip(id: string)
    requires IsAscii(id) && |id| > 0 && id[0] == '@'
    ensures DecodeContentIdParam(Some(B64UrlEncode(id))) == Some(id)
  {
    var bytes := AsciiBytes(id);
    TrimUrlEncoded(bytes);
    Base64.UrlRoundTrip(bytes);
    BytesOfAscii(id);
  }

  // ---------------------------------------------------------------------- feed

  /** `Math.min(Number(limit ?? 20), 100)`. */
  function FeedLimit(raw: Option<int>): (n: int)
    ensures n <= 100
    ensures n == if raw.None? then 20 else if raw.value < 100 then raw.value else 100
  {
    var n := raw.GetOr(20);
    if n < 100 then n else 100
  }

  /** The feed's `where`: everything, the `agenthive` tag, or (by default) the AgentHive app. */
  predicate InScope(scope: string, r: ContentRow) {
    if scope == "all" then true
    else if scope == "tag" then AgentHiveTag in r.tags
    else r.app == Some(JStr(AgentHiveApp))
  }

  /** The feed's filter: the scope, and `created_at < before` when a cursor parsed. */
  predicate FeedMatch(scope: string, before: Option<int>, r: ContentRow) {
    InScope(scope, r) && (before.None? || r.createdAt < before.value)
  }

  function CreatedAt(r: ContentRow): int {
    r.createdAt
  }

  /** `ORDER BY created_at DESC LIMIT n`. */
  function Newest(rows: seq<ContentRow>, n: int): seq<ContentRow> {
    Take(SortByDesc(rows, CreatedAt), n)
  }

  /**
   * The newest `n` rows: as many as there are up to `n`, all from `rows`,
   * newest first; every row left out is no newer than the last one kept.
   */
  lemma NewestMeaning(rows: seq<ContentRow>, n: int)
    requires n >= 0
    ensures var r := Newest(rows, n);
      && |r| == (if n < |rows| then n else |rows|)
      && (forall k :: 0 <= k < |r| ==> r[k] in rows)
      && (forall i, j :: 0 <= i < j < |r| ==> r[i].createdAt >= r[j].createdAt)
      && (|r| < n ==> forall x :: x in rows ==> x in r)
      && (r != [] ==> forall x :: x in rows && x !in r ==> x.createdAt <= r[|r| - 1].createdAt)
  {
    SortedSameMembers(rows);
    var r := Newest(rows, n);
    if |r| < n {
      assert r == SortByDesc(rows, CreatedAt);
    }
    if r != [] {
      NewestCutoff(rows, n);
    }
  }

  /** Sorting keeps the rows: a row is in the sorted table exactly when it is in the table. */
  lemma SortedSameMembers(rows: seq<ContentRow>)
    ensures forall x :: x in SortByDesc(rows, CreatedAt) <==> x in rows
  {
    var sorted := SortByDesc(rows, CreatedAt);
    forall x ensures x in sorted <==> x in rows {
      assert x in sorted <==> x in multiset(sorted);
    }
  }

  /** Every row the limit cuts off is no newer than the last row kept. */
  lemma NewestCutoff(rows: seq<ContentRow>, n: int)
    requires n >= 0 && Newest(rows, n) != []
    ensures var r := Newest(rows, n);
      forall x :: x in rows && x !in r ==> x.createdAt <= r[|r| - 1].createdAt
  {
    var sorted := SortByDesc(rows, CreatedAt);
    var r := Newest(rows, n);
    SortedSameMembers(rows);
    forall k | 0 <= k < |sorted| ensures sorted[k] in r || sorted[k].createdAt <= r[|r| - 1].createdAt {
      if k < |r| {
        assert r[k] == sorted[k];
      }
    }
    forall x | x in rows && x !in r ensures x.createdAt <= r[|r| - 1].createdAt {
      var k :| 0 <= k < |sorted| && sorted[k] == x;
    }
  }

  /** The rows the feed filter keeps, in table order. */
  function Matching(table: seq<ContentRow>, scope: string, before: Option<int>): (r: seq<ContentRow>)
    ensures forall x :: x in r <==> x in table && FeedMatch(scope, before, x)
  {
    Filter(table, (x: ContentRow) => FeedMatch(scope, before, x))
  }

  lemma MatchingCons(x: ContentRow, rest: seq<ContentRow>, scope: string, before: Option<int>)
    ensures Matching([x] + rest, scope, before) == (if FeedMatch(scope, before, x) then [x] else []) + Matching(rest, scope, before)
  {
    assert ([x] + rest)[1..] == rest;
  }

  /** A feed row with `left(body, 280)`. */
  datatype FeedItem = FeedItem(row: ContentRow, bodyPreview: Option<string>)

  datatype Feed = Feed(items: seq<FeedItem>, nextBefore: Option<int>)

  function Preview(body: Option<string>): (r: Option<string>)
    ensures r.Some? <==> body.Some?
    ensures r.Some? ==> |r.value| <= 280 && |r.value| <= |body.value| && r.value == body.value[..|r.value|]
    ensures r.Some? && |body.value| <= 280 ==> r.value == body.value
  {
    match body
    case None => None
    case Some(b) => Some(if |b| <= 280 then b else b[..280])
  }

  function FeedItems(rows: seq<ContentRow>): (items: seq<FeedItem>)
    ensures |items| == |rows|
    ensures forall k :: 0 <= k < |rows| ==> items[k].row == rows[k] && items[k].bodyPreview == Preview(rows[k].body)
  {
    seq(|rows|, k requires 0 <= k < |rows| => FeedItem(rows[k], Preview(rows[k].body)))
  }

  /** A page and its cursor: the time of its last row, or None when it is empty. */
  function PageOf(rows: seq<ContentRow>): Feed {
    Feed(FeedItems(rows), if rows == [] then None else Some(rows[|rows| - 1].createdAt))
  }

  /**
   * `GET /api/feed`: the newest `limit` matching rows, and the last one's
   * time as the next cursor. `before` is the cursor already parsed (None when
   * absent or not a date). A negative limit is refused by the database.
   */
  function FeedPage(table: seq<ContentRow>, limit: Option<int>, scope: Option<string>, before: Option<int>): (r: Result<Feed, string>)
    ensures r.Err? <==> FeedLimit(limit) < 0
  {
    var n := FeedLimit(limit);
    if n < 0 then Err("LIMIT must not be negative")
    else Ok(PageOf(Newest(Matching(table, scope.GetOr("agenthive"), before), n)))
  }

  /**
   * A page built from rows kept newest first: one item per row with its
   * preview, in order, and a cursor that is None exactly on an empty page and
   * otherwise the time of the oldest row shown.
   */
  lemma PageMeaning(rows: seq<ContentRow>)
    requires forall i, j :: 0 <= i < j < |rows| ==> rows[i].createdAt >= rows[j].createdAt
    ensures var f := PageOf(rows);
      && |f.items| == |rows|
      && (forall k :: 0 <= k < |rows| ==> f.items[k] == FeedItem(rows[k], Preview(rows[k].body)))
      && (f.nextBefore.None? <==> rows == [])
      && (rows != [] ==> forall k :: 0 <= k < |rows| ==> f.nextBefore.value <= rows[k].createdAt)
  {
  }

  /**
   * What a page holds: at most `limit` items, each a matching row of the
   * table with its preview, newest first; a short page holds every matching
   * row; and no matching row left off the page is newer than the cursor.
   */
  lemma FeedMeaning(table: seq<ContentRow>, limit: Option<int>, scope: Option<string>, before: Option<int>)
    requires FeedLimit(limit) >= 0
    ensures var f := FeedPage(table, limit, scope, before);
      var sc := scope.GetOr("agenthive");
      var items := f.value.items;
      && f.Ok?
      && |items| <= FeedLimit(limit)
      && (forall k :: 0 <= k < |items| ==>
            items[k].row in table && FeedMatch(sc, before, items[k].row) && items[k].bodyPreview == Preview(items[k].row.body))
      && (forall i, j :: 0 <= i < j < |items| ==> items[i].row.createdAt >= items[j].row.createdAt)
      && (f.value.nextBefore.None? <==> items == [])
      && (|items| < FeedLimit(limit) ==>
            forall r :: r in table && FeedMatch(sc, before, r) ==> exists k :: 0 <= k < |items| && items[k].row == r)
      && (items != [] ==> forall r :: r in table && FeedMatch(sc, before, r) && (forall k :: 0 <= k < |items| ==> items[k].row != r) ==>
            r.createdAt <= f.value.nextBefore.value)
  {
    var sc := scope.GetOr("agenthive");
    var n := FeedLimit(limit);
    var src := Matching(table, sc, before);
    assert FeedPage(table, limit, scope, before) == Ok(PageOf(Newest(src, n)));
    NewestPage(src, n);
  }

  /** A page of the newest `n` rows of `src`, stated over `src`. */
  lemma NewestPage(src: seq<ContentRow>, n: int)
    requires n >= 0
    ensures var f := PageOf(Newest(src, n));
      var items := f.items;
      && |items| <= n
      && (forall k :: 0 <= k < |items| ==> items[k].row in src && items[k].bodyPreview == Preview(items[k].row.body))
      && (forall i, j :: 0 <= i < j < |items| ==> items[i].row.createdAt >= items[j].row.createdAt)
      && (f.nextBefore.None? <==> items == [])
      && (|items| < n ==> forall r :: r in src ==> exists k :: 0 <= k < |items| && items[k].row == r)
      && (items != [] ==> forall r :: r in src && (forall k :: 0 <= k < |items| ==> items[k].row != r) ==>
            r.createdAt <= f.nextBefore.value)
  {
    var rows := Newest(src, n);
    NewestMeaning(src, n);
    PageMeaning(rows);
    var items := PageOf(rows).items;
    forall r | r in rows ensures exists k :: 0 <= k < |items| && items[k].row == r {
      var k :| 0 <= k < |rows| && rows[k] == r;
      assert items[k].row == r;
    }
  }

  /**
   * The cursor is strict: with a page size of one and two matching rows
   * written at the same time, the first page shows one of them and the page
   * after it shows neither.
   */
  lemma FeedCursorSkipsTies(a: ContentRow, b: ContentRow)
    requires a != b && a.createdAt == b.createdAt
    ensures var first := FeedPage([a, b], Some(1), Some("all"), None);
      first.Ok? && |first.value.items| == 1 && first.value.nextBefore == Some(a.createdAt)
      && FeedPage([a, b], Some(1), Some("all"), first.value.nextBefore) == Ok(Feed([], None))
  {
    TieFirstPage(a, b);
    TieNextPage(a, b);
  }

  lemma TieFirstPage(a: ContentRow, b: ContentRow)
    requires a.createdAt == b.createdAt
    ensures var first := FeedPage([a, b], Some(1), Some("all"), None);
      first.Ok? && |first.value.items| == 1 && first.value.nextBefore == Some(a.createdAt)
  {
    var all := Matching([a, b], "all", None);
    assert a in all;
    var rows := Newest(all, 1);
    NewestMeaning(all, 1);
    assert rows[0] in [a, b];
  }

  lemma TieNextPage(a: ContentRow, b: ContentRow)
    requires a.createdAt == b.createdAt
    ensures FeedPage([a, b], Some(1), Some("all"), Some(a.createdAt)) == Ok(Feed([], None))
  {
    MatchingCons(a, [b], "all", Some(a.createdAt));
    MatchingCons(b, [], "all", Some(a.createdAt));
    assert Matching([a, b], "all", Some(a.createdAt)) == [];
    assert Newest([], 1) == [];
    assert PageOf([]) == Feed([], None);
  }

  // ------------------------------------------------------- content and replies

  /** A reply of `author/permlink`: its parent columns name that content. */
  predicate IsChildOf(r: ContentRow, author: string, permlink: string) {
    r.parentAuthor == Some(author) && r.parentPermlink == Some(permlink)
  }

  /** The rows keyed `author/permlink`. */
  function RowsAt(table: seq<ContentRow>, author: string, permlink: string): (r: seq<ContentRow>)
    ensures forall x :: x in r <==> x in table && x.author == author && x.permlink == permlink
  {
    Filter(table, (x: ContentRow) => x.author == author && x.permlink == permlink)
  }

  function Children(table: seq<ContentRow>, author: string, permlink: string): (r: seq<ContentRow>)
    ensures forall x :: x in r <==> x in table && IsChildOf(x, author, permlink)
  {
    Filter(table, (x: ContentRow) => IsChildOf(x, author, permlink))
  }

  datatype ContentResponse =
    | BadRequest
    | NotFound
    | Found(item: ContentRow, replies: seq<ContentRow>)

  /** `loadContentWithReplies`: the row with the id, then its direct replies oldest first. */
  function LoadContentWithReplies(table: seq<ContentRow>, id: string): Option<(ContentRow, seq<ContentRow>)> {
    var rows := Filter(table, (r: ContentRow) => r.contentId == id);
    if rows == [] then None
    else Some((rows[0], SortBy(Children(table, rows[0].author, rows[0].permlink), CreatedAt)))
  }

  /** The three content routes: 400 for an id that does not decode, 404 for an unknown one. */
  function ContentRoute(table: seq<ContentRow>, raw: Option<string>): ContentResponse {
    match DecodeContentIdParam(raw)
    case None => BadRequest
    case Some(id) =>
      match LoadContentWithReplies(table, id)
      case None => NotFound
      case Some((item, replies)) => Found(item, replies)
  }

  /**
   * The content route's answer: 400 exactly when the parameter does not
   * decode; 404 exactly when no row has the id; otherwise that row and exactly
   * its replies in the table, oldest first, as many as the table holds.
   */
  lemma ContentRouteMeaning(table: seq<ContentRow>, raw: Option<string>)
    ensures var res := ContentRoute(table, raw);
      && (res.BadRequest? <==> DecodeContentIdParam(raw).None?)
      && (res.NotFound? <==> DecodeContentIdParam(raw).Some? && forall r :: r in table ==> r.contentId != DecodeContentIdParam(raw).value)
      && (res.Found? ==>
            && res.item in table && res.item.contentId == DecodeContentIdParam(raw).value
            && (forall r :: r in res.replies <==> r in table && IsChildOf(r, res.item.author, res.item.permlink))
            && multiset(res.replies) == multiset(Children(table, res.item.author, res.item.permlink))
            && SortedBy(res.replies, CreatedAt))
  {
    var d := DecodeContentIdParam(raw);
    if d.Some? {
      var rows := Filter(table, (r: ContentRow) => r.contentId == d.value);
      if rows != [] {
        assert rows[0] in rows;
        var kids := Children(table, rows[0].author, rows[0].permlink);
        var sorted := SortBy(kids, CreatedAt);
        forall r ensures r in sorted <==> r in kids {
          assert r in sorted <==> r in multiset(sorted);
        }
      }
    }
  }

  // -------------------------------------------------------------------- threads

  /** `Math.max(1, Math.min(depth, 10))`. */
  function DepthClamp(depth: int): (d: int)
    ensures 1 <= d <= 10
    ensures 1 <= depth <= 10 ==> d == depth
    ensures depth < 1 ==> d == 1
    ensures depth > 10 ==> d == 10
  {
    if depth < 1 then 1 else if depth > 10 then 10 else depth
  }

  /** A reply returned with the depth at which the recursive query reached it. */
  datatype ThreadReply = ThreadReply(row: ContentRow, depth: int)

  /** Some row of `level` is the parent of `x`. */
  predicate HasParentIn(x: ContentRow, level: seq<ContentRow>) {
    exists p :: p in level && IsChildOf(x, p.author, p.permlink)
  }

  /** One step of the recursive query: the replies of every row of `level`, in order. */
  function NextLevel(table: seq<ContentRow>, level: seq<ContentRow>): (r: seq<ContentRow>)
    ensures forall x :: x in r <==> x in table && HasParentIn(x, level)
  {
    if level == [] then []
    else
      var init := level[..|level| - 1];
      var p := level[|level| - 1];
      assert forall q :: q in level <==> q in init || q == p;
      NextLevel(table, init) + Children(table, p.author, p.permlink)
  }

  /** The rows of one level, tagged with its depth. */
  function AtDepth(level: seq<ContentRow>, d: int): (r: seq<ThreadReply>)
    ensures forall x :: x in r <==> x.depth == d && x.row in level
  {
    var r := seq(|level|, k requires 0 <= k < |level| => ThreadReply(level[k], d));
    assert forall k :: 0 <= k < |level| ==> r[k] == ThreadReply(level[k], d);
    r
  }

  /** The rows the recursive query reaches `i` steps below `level`. */
  function Reach(table: seq<ContentRow>, level: seq<ContentRow>, i: int): seq<ContentRow>
    decreases if i < 0 then 0 else i
  {
    if i <= 0 then level else NextLevel(table, Reach(table, level, i - 1))
  }

  /** The levels `d..maxDepth`, level `d` being the rows `f(d - 1)` tagged with depth `d`. */
  function LevelsFrom(f: int -> seq<ContentRow>, d: int, maxDepth: int): seq<ThreadReply>
    requires 1 <= d <= maxDepth
    decreases maxDepth - d
  {
    AtDepth(f(d - 1), d) + (if d < maxDepth then LevelsFrom(f, d + 1, maxDepth) else [])
  }

  /**
   * `union all` of the levels `d..maxDepth` of the recursive query started
   * from `kids`, the replies to the root: level `d` is what it reaches
   * `d - 1` steps below them.
   */
  function Levels(table: seq<ContentRow>, kids: seq<ContentRow>, d: int, maxDepth: int): seq<ThreadReply>
    requires 1 <= d <= maxDepth
  {
    LevelsFrom(ReachFrom(table, kids), d, maxDepth)
  }

  /** The rows reached `i` steps below `kids`, as a function of `i`. */
  function ReachFrom(table: seq<ContentRow>, kids: seq<ContentRow>): int -> seq<ContentRow> {
    i => Reach(table, kids, i)
  }

  /** The recursive query reaches `x.row` at depth `x.depth` below the root. */
  predicate Reached(table: seq<ContentRow>, kids: seq<ContentRow>, x: ThreadReply) {
    var steps := x.depth - 1;
    0 <= steps && x.row in Reach(table, kids, steps)
  }

  /** A reply is in the levels from `d` exactly when its depth is in `d..maxDepth` and its row is in its level. */
  lemma {:induction false} LevelsFromMember(f: int -> seq<ContentRow>, d: int, maxDepth: int, x: ThreadReply)
    requires 1 <= d <= maxDepth
    ensures x in LevelsFrom(f, d, maxDepth) <==> d <= x.depth <= maxDepth && x.row in f(x.depth - 1)
    decreases maxDepth - d
  {
    var here := AtDepth(f(d - 1), d);
    if d < maxDepth {
      LevelsFromMember(f, d + 1, maxDepth, x);
      assert LevelsFrom(f, d, maxDepth) == here + LevelsFrom(f, d + 1, maxDepth);
    } else {
      assert LevelsFrom(f, d, maxDepth) == here;
    }
  }

  /** A reply is in the levels from `d` exactly when its depth is in `d..maxDepth` and the query reaches its row at that depth. */
  lemma LevelsMember(table: seq<ContentRow>, kids: seq<ContentRow>, d: int, maxDepth: int, x: ThreadReply)
    requires 1 <= d <= maxDepth
    ensures x in Levels(table, kids, d, maxDepth) <==> d <= x.depth <= maxDepth && Reached(table, kids, x)
  {
    var f := ReachFrom(table, kids);
    assert f(x.depth - 1) == Reach(table, kids, x.depth - 1);
    LevelsFromMember(f, d, maxDepth, x);
  }

  lemma LevelsMembers(table: seq<ContentRow>, kids: seq<ContentRow>, d: int, maxDepth: int)
    requires 1 <= d <= maxDepth
    ensures forall x :: x in Levels(table, kids, d, maxDepth) <==> d <= x.depth <= maxDepth && Reached(table, kids, x)
  {
    forall x ensures x in Levels(table, kids, d, maxDepth) <==> d <= x.depth <= maxDepth && Reached(table, kids, x) {
      LevelsMember(table, kids, d, maxDepth, x);
    }
  }

  datatype ThreadResponse =
    | ThreadBadRequest
    | ThreadNotFound
    | Thread(root: ContentRow, replies: seq<ThreadReply>, depth: int)

  function ReplyTime(x: ThreadReply): int {
    x.row.createdAt
  }

  /**
   * `GET /api/thread`: the author is trimmed and lower-cased and the permlink
   * trimmed, both required; the depth defaults to 1 and is clamped to 1..10;
   * the replies of every level up to that depth, oldest first.
   */
  function ThreadRoute(table: seq<ContentRow>, author: Option<string>, permlink: Option<string>, depth: Option<int>): ThreadResponse {
    var a := ToLower(Trim(author.GetOr("")));
    var p := Trim(permlink.GetOr(""));
    if a == "" || p == "" then ThreadBadRequest
    else
      var maxDepth := DepthClamp(depth.GetOr(1));
      var roots := RowsAt(table, a, p);
      if roots == [] then ThreadNotFound
      else Thread(roots[0], SortBy(Levels(table, Children(table, a, p), 1, maxDepth), ReplyTime), maxDepth)
  }

  /** A row reached below the first level has a parent reached one level up. */
  lemma ReachedParent(table: seq<ContentRow>, kids: seq<ContentRow>, x: ThreadReply)
    requires Reached(table, kids, x) && x.depth > 1
    ensures x.row in table
    ensures exists p :: Reached(table, kids, ThreadReply(p, x.depth - 1)) && IsChildOf(x.row, p.author, p.permlink)
  {
    var up := Reach(table, kids, x.depth - 2);
    assert x.row in NextLevel(table, up);
    assert HasParentIn(x.row, up);
    var p :| p in up && IsChildOf(x.row, p.author, p.permlink);
    assert Reached(table, kids, ThreadReply(p, x.depth - 1));
  }

  /** The replies of a row reached in `i` steps are reached in `i + 1` steps. */
  lemma ReachedChild(table: seq<ContentRow>, kids: seq<ContentRow>, i: nat, p: ContentRow, r: ContentRow)
    requires p in Reach(table, kids, i) && r in table && IsChildOf(r, p.author, p.permlink)
    ensures r in Reach(table, kids, i + 1)
  {
    ChildInNext(table, Reach(table, kids, i), p, r);
    ReachStep(table, kids, i);
  }

  /** A reply of a row of `level` is in the next level. */
  lemma ChildInNext(table: seq<ContentRow>, level: seq<ContentRow>, p: ContentRow, r: ContentRow)
    requires p in level && r in table && IsChildOf(r, p.author, p.permlink)
    ensures r in NextLevel(table, level)
  {
    assert HasParentIn(r, level);
  }

  /** One more step of the recursive query is the next level of the rows already reached. */
  lemma ReachStep(table: seq<ContentRow>, kids: seq<ContentRow>, i: int)
    requires i >= 0
    ensures Reach(table, kids, i + 1) == NextLevel(table, Reach(table, kids, i))
  {
  }

  /**
   * The levels below a root: depths lie in 1..maxDepth and rows come from
   * the table; a depth-1 reply answers the root, and every reply to the root
   * is there at depth 1.
   */
  lemma LevelsFirst(table: seq<ContentRow>, author: string, permlink: string, maxDepth: int)
    requires 1 <= maxDepth
    ensures var ls := Levels(table, Children(table, author, permlink), 1, maxDepth);
      && (forall x :: x in ls ==> 1 <= x.depth <= maxDepth && x.row in table)
      && (forall x :: x in ls && x.depth == 1 ==> IsChildOf(x.row, author, permlink))
      && (forall r :: r in table && IsChildOf(r, author, permlink) ==> ThreadReply(r, 1) in ls)
  {
    var kids := Children(table, author, permlink);
    var ls := Levels(table, kids, 1, maxDepth);
    LevelsMembers(table, kids, 1, maxDepth);
    forall x | x in ls ensures x.row in table {
      if x.depth > 1 {
        ReachedParent(table, kids, x);
      } else {
        assert Reach(table, kids, 0) == kids;
      }
    }
    forall r | r in table && IsChildOf(r, author, permlink) ensures ThreadReply(r, 1) in ls {
      assert Reach(table, kids, 0) == kids;
      assert Reached(table, kids, ThreadReply(r, 1));
    }
  }

  /**
   * Deeper levels: a reply below depth 1 answers a reply one level up, and
   * every reply to a row above the last level is in the next level.
   */
  lemma LevelsLinks(table: seq<ContentRow>, kids: seq<ContentRow>, maxDepth: int)
    requires 1 <= maxDepth
    ensures var ls := Levels(table, kids, 1, maxDepth);
      && (forall x :: x in ls && x.depth > 1 ==>
            exists y :: y in ls && y.depth == x.depth - 1 && IsChildOf(x.row, y.row.author, y.row.permlink))
      && (forall y, r :: y in ls && y.depth < maxDepth && r in table && IsChildOf(r, y.row.author, y.row.permlink) ==>
            ThreadReply(r, y.depth + 1) in ls)
  {
    var ls := Levels(table, kids, 1, maxDepth);
    LevelsMembers(table, kids, 1, maxDepth);
    forall x | x in ls && x.depth > 1
      ensures exists y :: y in ls && y.depth == x.depth - 1 && IsChildOf(x.row, y.row.author, y.row.permlink)
    {
      ReachedParent(table, kids, x);
      var p :| Reached(table, kids, ThreadReply(p, x.depth - 1)) && IsChildOf(x.row, p.author, p.permlink);
      assert ThreadReply(p, x.depth - 1) in ls;
    }
    forall y, r | y in ls && y.depth < maxDepth && r in table && IsChildOf(r, y.row.author, y.row.permlink)
      ensures ThreadReply(r, y.depth + 1) in ls
    {
      assert Reached(table, kids, y);
      ReachedChild(table, kids, y.depth - 1, y.row, r);
      assert Reached(table, kids, ThreadReply(r, y.depth + 1));
    }
  }

  /**
   * How the replies of a thread hang together: every depth is in
   * 1..maxDepth and every row comes from the table; a depth-1 reply answers
   * the root and a deeper one answers a reply one level up; and conversely
   * every reply to the root, and every reply to a row above the last level,
   * is there.
   */
  ghost predicate Linked(table: seq<ContentRow>, author: string, permlink: string, replies: seq<ThreadReply>, maxDepth: int) {
    && (forall x :: x in replies ==> 1 <= x.depth <= maxDepth && x.row in table)
    && (forall x :: x in replies && x.depth == 1 ==> IsChildOf(x.row, author, permlink))
    && (forall x :: x in replies && x.depth > 1 ==>
          exists y :: y in replies && y.depth == x.depth - 1 && IsChildOf(x.row, y.row.author, y.row.permlink))
    && (forall r :: r in table && IsChildOf(r, author, permlink) ==> ThreadReply(r, 1) in replies)
    && (forall y, r :: y in replies && y.depth < maxDepth && r in table && IsChildOf(r, y.row.author, y.row.permlink) ==>
          ThreadReply(r, y.depth + 1) in replies)
  }

  /** The levels of the recursive query below a root are linked to it. */
  lemma LevelsLinked(table: seq<ContentRow>, author: string, permlink: string, maxDepth: int)
    requires 1 <= maxDepth
    ensures Linked(table, author, permlink, Levels(table, Children(table, author, permlink), 1, maxDepth), maxDepth)
  {
    LevelsFirst(table, author, permlink, maxDepth);
    LevelsLinks(table, Children(table, author, permlink), maxDepth);
  }

  /** Being linked depends only on which replies there are, not on their order. */
  lemma LinkedSameMembers(table: seq<ContentRow>, author: string, permlink: string, a: seq<ThreadReply>, b: seq<ThreadReply>, maxDepth: int)
    requires forall x :: x in a <==> x in b
    requires Linked(table, author, permlink, a, maxDepth)
    ensures Linked(table, author, permlink, b, maxDepth)
  {
  }

  /** A thread's replies are linked to its root up to its depth in 1..10, oldest first. */
  lemma ThreadShape(table: seq<ContentRow>, author: Option<string>, permlink: Option<string>, depth: Option<int>)
    ensures var t := ThreadRoute(table, author, permlink, depth);
      t.Thread? ==>
        && 1 <= t.depth <= 10
        && SortedBy(t.replies, ReplyTime)
        && Linked(table, t.root.author, t.root.permlink, t.replies, t.depth)
  {
    var t := ThreadRoute(table, author, permlink, depth);
    if t.Thread? {
      var a := ToLower(Trim(author.GetOr("")));
      var p := Trim(permlink.GetOr(""));
      var roots := RowsAt(table, a, p);
      assert roots[0] in roots;
      var ls := Levels(table, Children(table, a, p), 1, t.depth);
      assert t.replies == SortBy(ls, ReplyTime);
      LevelsLinked(table, a, p, t.depth);
      forall x ensures x in t.replies <==> x in ls {
        assert x in t.replies <==> x in multiset(t.replies);
      }
      LinkedSameMembers(table, a, p, ls, t.replies, t.depth);
    }
  }

  /**
   * The thread route's answer: 400 exactly when the trimmed, lower-cased
   * author or the trimmed permlink is empty; 404 exactly when no row has that
   * author and permlink; otherwise such a row is the root and the depth is
   * the requested one clamped to 1..10.
   */
  lemma ThreadRouteMeaning(table: seq<ContentRow>, author: Option<string>, permlink: Option<string>, depth: Option<int>)
    ensures var a := ToLower(Trim(author.GetOr("")));
      var p := Trim(permlink.GetOr(""));
      var t := ThreadRoute(table, author, permlink, depth);
      && (t.ThreadBadRequest? <==> a == "" || p == "")
      && (t.ThreadNotFound? <==> a != "" && p != "" && forall r :: r in table ==> r.author != a || r.permlink != p)
      && (t.Thread? ==> t.root in table && t.root.author == a && t.root.permlink == p && t.depth == DepthClamp(depth.GetOr(1)))
  {
    var a := ToLower(Trim(author.GetOr("")));
    var p := Trim(permlink.GetOr(""));
    ThreadRouteCases(table, author, permlink, depth);
    if a != "" && p != "" {
      var roots := RowsAt(table, a, p);
      if roots != [] {
        assert roots[0] in roots;
      }
    }
  }

  /** Which answer the thread route gives, in terms of the rows keyed by the request. */
  lemma ThreadRouteCases(table: seq<ContentRow>, author: Option<string>, permlink: Option<string>, depth: Option<int>)
    ensures var a := ToLower(Trim(author.GetOr("")));
      var p := Trim(permlink.GetOr(""));
      var roots := RowsAt(table, a, p);
      var t := ThreadRoute(table, author, permlink, depth);
      && (t.ThreadBadRequest? <==> a == "" || p == "")
      && (t.ThreadNotFound? <==> a != "" && p != "" && roots == [])
      && (t.Thread? ==> roots != [] && t.root == roots[0] && t.depth == DepthClamp(depth.GetOr(1)))
  {
  }

  // ------------------------------------------------------------------ profiles

  /** The `accounts` row, or `{ name }` when there is none. */
  datatype ProfileAccount = Known(name: string, account: Participation.Account) | NameOnly(name: string)

  /** `count(*)` and the two `sum`s; a sum over no rows is SQL null. */
  datatype Stats = Stats(total: nat, posts: Option<nat>, comments: Option<nat>)

  datatype ProfileResponse =
    | ProfileBadRequest
    | Profile(account: ProfileAccount, stats: Stats, recent: seq<ContentRow>)

  function IsRoot(r: ContentRow): bool {
    r.isRoot
  }

  function IsComment(r: ContentRow): bool {
    !r.isRoot
  }

  /** The statistics over an author's rows. */
  function StatsOf(mine: seq<ContentRow>): Stats {
    if mine == [] then Stats(0, None, None)
    else Stats(|mine|, Some(|Filter(mine, IsRoot)|), Some(|Filter(mine, IsComment)|))
  }

  /** The rows written by `name`. */
  function Authored(table: seq<ContentRow>, name: string): (r: seq<ContentRow>)
    ensures forall x :: x in r <==> x in table && x.author == name
  {
    Filter(table, (x: ContentRow) => x.author == name)
  }

  /** `GET /api/profile/:name`: the account, the author's statistics and newest 20 rows. */
  function ProfileRoute(accounts: Participation.Accounts, table: seq<ContentRow>, raw: Option<string>): ProfileResponse {
    var name := ToLower(Trim(raw.GetOr("")));
    if name == "" then ProfileBadRequest
    else
      var mine := Authored(table, name);
      Profile(if name in accounts then Known(name, accounts[name]) else NameOnly(name), StatsOf(mine), Newest(mine, 20))
  }

  /** Posts and comments split a sequence of rows. */
  lemma {:induction false} SplitCount(s: seq<ContentRow>)
    ensures |Filter(s, IsRoot)| + |Filter(s, IsComment)| == |s|
  {
    if s != [] {
      SplitCount(s[1..]);
    }
  }

  /**
   * The statistics: the total counts the rows, posts and comments are null
   * exactly when there are none, and otherwise add up to the total.
   */
  lemma StatsMeaning(mine: seq<ContentRow>)
    ensures var st := StatsOf(mine);
      && st.total == |mine|
      && (st.total == 0 <==> st.posts.None? && st.comments.None?)
      && (st.total > 0 ==> st.posts.value + st.comments.value == st.total)
  {
    SplitCount(mine);
  }

  /**
   * A profile: the name is required after trimming and lower-casing; the
   * account is the stored one when there is one; the statistics are those of
   * the author's rows and the recent rows the author's newest 20.
   */
  lemma ProfileMeaning(accounts: Participation.Accounts, table: seq<ContentRow>, raw: Option<string>)
    ensures var res := ProfileRoute(accounts, table, raw);
      var name := ToLower(Trim(raw.GetOr("")));
      && (res.ProfileBadRequest? <==> name == "")
      && (res.Profile? ==>
            && res.account.name == name
            && (res.account.Known? <==> name in accounts)
            && (res.account.Known? ==> res.account.account == accounts[name])
            && res.stats == StatsOf(Authored(table, name))
            && res.recent == Newest(Authored(table, name), 20))
  {
  }

  /**
   * An author's recent rows: at most 20 of the author's rows, newest first;
   * all of them when there are fewer; and no row of the author left out is
   * newer than the last one shown.
   */
  lemma RecentMeaning(table: seq<ContentRow>, name: string)
    ensures var recent := Newest(Authored(table, name), 20);
      && |recent| <= 20
      && (forall k :: 0 <= k < |recent| ==> recent[k] in table && recent[k].author == name)
      && (forall i, j :: 0 <= i < j < |recent| ==> recent[i].createdAt >= recent[j].createdAt)
      && (|recent| < 20 ==> forall r :: r in table && r.author == name ==> r in recent)
      && (recent != [] ==> forall r :: r in table && r.author == name && r !in recent ==>
            r.createdAt <= recent[|recent| - 1].createdAt)
  {
    NewestMeaning(Authored(table, name), 20);
  }
}
