/**
 * The `content` table: one row per content id `@author/permlink`, written by
 * an insert that updates the mutable columns on conflict. Replaying any prefix
 * of the writes and then all of them gives the same table as writing them once,
 * which is what makes the indexer's at-least-once block processing safe.
 */
module Content {
  import opened Wrappers
  import opened Json

  datatype ContentRow = ContentRow(
    contentId: string,
    author: string,
    permlink: string,
    parentAuthor: Option<string>,
    parentPermlink: Option<string>,
    createdAt: int,               // milliseconds since the epoch
    isRoot: bool,
    title: Option<string>,
    body: Option<string>,
    metadata: Json,
    tags: seq<string>,
    app: Option<Json>,
    agentKind: Option<Json>,
    url: string,
    burnValid: Option<bool>)      // nullable column

  type Table = map<string, ContentRow>

  /** The content id `@author/permlink`. */
  function ContentId(author: string, permlink: string): string {
    "@" + author + "/" + permlink
  }

  /** Position of the first '/' in `s`, or |s|. */
  function SlashAt(s: string): (i: nat)
    ensures i <= |s|
    ensures i < |s| ==> s[i] == '/'
    ensures forall k :: 0 <= k < i ==> s[k] != '/'
  {
    if s == [] then 0 else if s[0] == '/' then 0 else 1 + SlashAt(s[1..])
  }

  /** Distinct (author, permlink) pairs get distinct ids, since account names contain no '/'. */
  lemma ContentIdInjective(a1: string, p1: string, a2: string, p2: string)
    requires '/' !in a1 && '/' !in a2
    requires ContentId(a1, p1) == ContentId(a2, p2)
    ensures a1 == a2 && p1 == p2
  {
    var s1 := a1 + "/" + p1;
    var s2 := a2 + "/" + p2;
    assert s1 == ContentId(a1, p1)[1..] && s2 == ContentId(a2, p2)[1..];
    SlashOfJoin(a1, p1);
    SlashOfJoin(a2, p2);
    assert a1 == s1[..|a1|] && a2 == s2[..|a2|];
    assert p1 == s1[|a1| + 1..] && p2 == s2[|a2| + 1..];
  }

  lemma SlashOfJoin(a: string, p: string)
    requires '/' !in a
    ensures SlashAt(a + "/" + p) == |a|
  {
    var s := a + "/" + p;
    assert s[|a|] == '/';
    assert forall k :: 0 <= k < |a| ==> s[k] == a[k];
  }

  /** The columns an insert fixes and a later conflict keeps: id, author, permlink, creation time, root flag. */
  predicate SameKeyColumns(a: ContentRow, b: ContentRow) {
    a.contentId == b.contentId && a.author == b.author && a.permlink == b.permlink
    && a.createdAt == b.createdAt && a.isRoot == b.isRoot
  }

  /**
   * `on conflict (content_id) do update`: the kept columns come from the stored
   * row, every other column (parent, title, body, metadata, tags, app, kind,
   * url, burn flag) from the incoming one.
   */
  function Merge(stored: ContentRow, incoming: ContentRow): (r: ContentRow)
    ensures SameKeyColumns(r, stored)
    ensures r.parentAuthor == incoming.parentAuthor && r.parentPermlink == incoming.parentPermlink
    ensures r.title == incoming.title && r.body == incoming.body && r.metadata == incoming.metadata
    ensures r.tags == incoming.tags && r.app == incoming.app && r.agentKind == incoming.agentKind
    ensures r.url == incoming.url && r.burnValid == incoming.burnValid
  {
    incoming.(contentId := stored.contentId, author := stored.author, permlink := stored.permlink,
              createdAt := stored.createdAt, isRoot := stored.isRoot)
  }

  /** A merge depends on the stored row only through its kept columns. */
  lemma MergeKeyOnly(a: ContentRow, b: ContentRow, incoming: ContentRow)
    requires SameKeyColumns(a, b)
    ensures Merge(a, incoming) == Merge(b, incoming)
  {
  }

  /** One upsert keyed by the incoming row's content id. */
  function Upsert(t: Table, row: ContentRow): (r: Table)
    ensures r.Keys == t.Keys + {row.contentId}
    ensures forall k :: k in t && k != row.contentId ==> r[k] == t[k]
    ensures row.contentId !in t ==> r[row.contentId] == row
    ensures row.contentId in t ==> r[row.contentId] == Merge(t[row.contentId], row)
  {
    t[row.contentId := if row.contentId in t then Merge(t[row.contentId], row) else row]
  }

  /** The upserts of `rows`, in order. */
  function ApplyAll(t: Table, rows: seq<ContentRow>): Table {
    if rows == [] then t else Upsert(ApplyAll(t, rows[..|rows| - 1]), rows[|rows| - 1])
  }

  /** Some row of `rows` has content id `k`. */
  predicate HasId(rows: seq<ContentRow>, k: string) {
    exists i :: 0 <= i < |rows| && rows[i].contentId == k
  }

  /** The last row of `rows` with content id `k`. */
  function LastWithId(rows: seq<ContentRow>, k: string): (r: ContentRow)
    requires HasId(rows, k)
    ensures r in rows && r.contentId == k
  {
    var init := rows[..|rows| - 1];
    if rows[|rows| - 1].contentId == k then rows[|rows| - 1]
    else
      assert forall i :: 0 <= i < |rows| - 1 ==> init[i] == rows[i];
      LastWithId(init, k)
  }

  /** The first row of `rows` with content id `k`. */
  function FirstWithId(rows: seq<ContentRow>, k: string): (r: ContentRow)
    requires HasId(rows, k)
    ensures r in rows && r.contentId == k
  {
    var init := rows[..|rows| - 1];
    if HasId(init, k) then FirstWithId(init, k) else rows[|rows| - 1]
  }

  /** The row whose kept columns survive: the stored one, else the first one written. */
  function Base(t: Table, rows: seq<ContentRow>, k: string): ContentRow
    requires HasId(rows, k)
  {
    if k in t then t[k] else FirstWithId(rows, k)
  }

  /**
   * Closed form of a run of upserts at one key: untouched keys keep their
   * row; a written key holds the kept columns of `Base` and everything else
   * from the last row written to it.
   */
  lemma {:induction false} ApplyAllAt(t: Table, rows: seq<ContentRow>, k: string)
    ensures k in ApplyAll(t, rows) <==> k in t || HasId(rows, k)
    ensures HasId(rows, k) ==> ApplyAll(t, rows)[k] == Merge(Base(t, rows, k), LastWithId(rows, k))
    ensures !HasId(rows, k) && k in t ==> ApplyAll(t, rows)[k] == t[k]
  {
    if rows != [] {
      var init := rows[..|rows| - 1];
      var last := rows[|rows| - 1];
      ApplyAllAt(t, init, k);
      assert forall i :: 0 <= i < |init| ==> init[i] == rows[i];
      assert HasId(rows, k) <==> HasId(init, k) || last.contentId == k;
      if HasId(init, k) {
        assert FirstWithId(rows, k) == FirstWithId(init, k);
      }
    }
  }

  /** A key of a prefix is a key of the whole, with the same first row. */
  lemma {:induction false} HasIdPrefix(rows: seq<ContentRow>, n: nat, k: string)
    requires n <= |rows| && HasId(rows[..n], k)
    ensures HasId(rows, k) && FirstWithId(rows, k) == FirstWithId(rows[..n], k)
    decreases |rows|
  {
    if n < |rows| {
      var init := rows[..|rows| - 1];
      assert init[..n] == rows[..n];
      HasIdPrefix(init, n, k);
      assert forall i :: 0 <= i < |init| ==> init[i] == rows[i];
    } else {
      assert rows[..n] == rows;
    }
  }

  /**
   * Crash-replay: if the first `n` upserts were applied and then the whole run
   * is applied again, the table is the one a single run gives.
   */
  lemma ReplayAfterPrefix(t: Table, rows: seq<ContentRow>, n: nat)
    requires n <= |rows|
    ensures ApplyAll(ApplyAll(t, rows[..n]), rows) == ApplyAll(t, rows)
  {
    var mid := ApplyAll(t, rows[..n]);
    var once := ApplyAll(t, rows);
    var twice := ApplyAll(mid, rows);
    forall k ensures (k in twice <==> k in once) && (k in once ==> twice[k] == once[k]) {
      ApplyAllAt(t, rows[..n], k);
      ApplyAllAt(t, rows, k);
      ApplyAllAt(mid, rows, k);
      if HasId(rows[..n], k) {
        HasIdPrefix(rows, n, k);
        MergeKeyOnly(Base(mid, rows, k), Base(t, rows, k), LastWithId(rows, k));
      } else if HasId(rows, k) {
        MergeKeyOnly(Base(mid, rows, k), Base(t, rows, k), LastWithId(rows, k));
      } else {
        assert !HasId(rows[..n], k) by {
          if HasId(rows[..n], k) {
            HasIdPrefix(rows, n, k);
          }
        }
      }
    }
  }

  /** Applying the same run of upserts twice is the same as applying it once. */
  lemma ReplayIdempotent(t: Table, rows: seq<ContentRow>)
    ensures ApplyAll(ApplyAll(t, rows), rows) == ApplyAll(t, rows)
  {
    ReplayAfterPrefix(t, rows, |rows|);
    assert rows[..|rows|] == rows;
  }

  /** Upserting the same row twice leaves one row, equal to the result of the first upsert. */
  lemma UpsertTwice(t: Table, row: ContentRow)
    ensures Upsert(Upsert(t, row), row) == Upsert(t, row)
  {
  }

  /** Writing one more row is one more upsert. */
  lemma ApplyAllSnoc(t: Table, rows: seq<ContentRow>, row: ContentRow)
    ensures ApplyAll(t, rows + [row]) == Upsert(ApplyAll(t, rows), row)
  {
    assert (rows + [row])[..|rows|] == rows;
  }

  /** Running two batches one after the other is running their concatenation. */
  lemma {:induction false} ApplyAllAppend(t: Table, a: seq<ContentRow>, b: seq<ContentRow>)
    ensures ApplyAll(t, a + b) == ApplyAll(ApplyAll(t, a), b)
    decreases |b|
  {
    if b == [] {
      assert a + b == a;
    } else {
      var binit := b[..|b| - 1];
      ApplyAllAppend(t, a, binit);
      assert (a + b)[..|a + b| - 1] == a + binit;
    }
  }
}
