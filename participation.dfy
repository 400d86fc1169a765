/**
 * The participation scorer: once a day it scores every eligible, non-denied
 * agent on the previous UTC day's activity by its Unique Counterparty Score
 * (distinct eligible accounts replied to, plus root posts, capped), zeroed by
 * the concentration guard and weighted by stake, and upserts the score per
 * (account, date). Checking a counterparty may durably promote it to "real
 * human".
 *
 * The stake weight is a square root; the model keeps its square `wSquared`
 * and the base score `s`, so the stored score is `s * sqrt(wSquared)`.
 */
module Participation {
  import opened Wrappers
  import opened Strings
  import opened Content
  import opened Sorting

  const DAY: int := 86400000
  const HOUR: int := 3600000
  const UCap: int := 10
  const PCap: int := 2
  const MaxRepliesDay: int := 30
  const MaxPostsDay: int := 3
  const PairSpamThreshold: int := 5
  const HumanMinAgeDays: int := 30
  const HumanMinItems: int := 30
  const HumanMinActiveDays: int := 10
  const TrailingDays: int := 6
  const DefaultStakeMin: real := 1000.0

  /** The columns of an `accounts` row the scorer reads or writes. */
  datatype Account = Account(
    stakedAgent: real,
    eligibleAgent: bool,
    isDenied: bool,
    realHuman: bool,          // `real_human_heuristic`
    createdAt: Option<int>)   // milliseconds since the epoch

  type Accounts = map<string, Account>

  // ------------------------------------------------------------ time windows

  /** Midnight (UTC) of the day holding `t`. */
  function DayStart(t: int): (d: int)
    ensures d <= t < d + DAY
    ensures d % DAY == 0
  {
    (t / DAY) * DAY
  }

  /** The UTC date of `t`, as a day number: what `DATE(created_at)` and the score date name. */
  function DayOf(t: int): int {
    t / DAY
  }

  /** `getYesterdayBounds`: the first and last millisecond of the UTC day before the one holding `now`. */
  function YesterdayBounds(now: int): (w: (int, int))
    ensures w.0 % DAY == 0 && w.1 == w.0 + DAY - 1
    ensures w.1 < now <= w.1 + DAY
  {
    var start := DayStart(now) - DAY;
    (start, start + DAY - 1)
  }

  /**
   * `scheduleNextRun`: the wait until the next `runHour`:00 UTC strictly after
   * `now` (today's if it is still ahead, else tomorrow's).
   */
  function NextRunDelay(now: int, runHour: int): int {
    var next := DayStart(now) + runHour * HOUR;
    (if next <= now then next + DAY else next) - now
  }

  /** For an hour of the day, the next run is within a day and falls on that hour. */
  lemma NextRunDelayBounds(now: int, runHour: int)
    requires 0 <= runHour < 24
    ensures 0 < NextRunDelay(now, runHour) <= DAY
    ensures (now + NextRunDelay(now, runHour)) % DAY == runHour * HOUR
  {
    var d := DayStart(now);
    var next := d + runHour * HOUR;
    assert 0 <= runHour * HOUR < DAY;
    if next <= now {
      assert now + NextRunDelay(now, runHour) == (d + DAY) + runHour * HOUR;
      assert (d + DAY) % DAY == 0;
    }
  }

  // ------------------------------------------------ counterparty eligibility

  /** Every content row authored by `name`. */
  function AuthorRows(content: seq<ContentRow>, name: string): seq<ContentRow> {
    Filter(content, (r: ContentRow) => r.author == name)
  }

  /** The number of distinct UTC dates on which `name` authored content. */
  function ActiveDays(content: seq<ContentRow>, name: string): nat {
    |set r | r in content && r.author == name :: DayOf(r.createdAt)|
  }

  /** The human heuristic: at least 30 days old, and 30 or more items or 10 or more active days. */
  predicate Heuristic(acc: Account, content: seq<ContentRow>, now: int, name: string) {
    acc.createdAt.Some? && now - acc.createdAt.value >= HumanMinAgeDays * DAY
    && (|AuthorRows(content, name)| >= HumanMinItems || ActiveDays(content, name) >= HumanMinActiveDays)
  }

  /** `isEligibleCounterparty`: a known account that is an eligible agent, a flagged human, or passes the heuristic. */
  predicate Eligible(accs: Accounts, content: seq<ContentRow>, now: int, name: string) {
    name in accs && (accs[name].eligibleAgent || accs[name].realHuman || Heuristic(accs[name], content, now, name))
  }

  /** The check writes the human flag exactly when only the heuristic makes the account eligible. */
  predicate Promotable(acc: Account, content: seq<ContentRow>, now: int, name: string) {
    !acc.eligibleAgent && !acc.realHuman && Heuristic(acc, content, now, name)
  }

  /** The accounts after checking every name of `names`. */
  function PromoteSet(accs: Accounts, names: set<string>, content: seq<ContentRow>, now: int): (r: Accounts)
    ensures r.Keys == accs.Keys
  {
    map n | n in accs :: if n in names && Promotable(accs[n], content, now, n) then accs[n].(realHuman := true) else accs[n]
  }

  /** Promotion changes no one's eligibility. */
  lemma PromoteSetKeepsEligibility(accs: Accounts, names: set<string>, content: seq<ContentRow>, now: int, n: string)
    ensures Eligible(PromoteSet(accs, names, content, now), content, now, n) == Eligible(accs, content, now, n)
  {
  }

  /** Once promoted, an account stays eligible whatever content or clock a later check sees. */
  lemma PromotionPersists(accs: Accounts, names: set<string>, content: seq<ContentRow>, now: int,
                          n: string, laterContent: seq<ContentRow>, later: int)
    requires n in names && Eligible(accs, content, now, n)
    ensures Eligible(PromoteSet(accs, names, content, now), laterContent, later, n)
  {
  }

  /** Checking two groups of names one after the other is checking their union. */
  lemma PromoteSetUnion(accs: Accounts, a: set<string>, b: set<string>, content: seq<ContentRow>, now: int)
    ensures PromoteSet(PromoteSet(accs, a, content, now), b, content, now) == PromoteSet(accs, a + b, content, now)
  {
    var left := PromoteSet(PromoteSet(accs, a, content, now), b, content, now);
    var right := PromoteSet(accs, a + b, content, now);
    forall n | n in accs ensures left[n] == right[n] {
    }
  }

  // -------------------------------------------------------- activity of a day

  /** `getAgentActivity`: the author's rows in `[start, end]` that are not burn-invalid, oldest first. */
  function Activity(content: seq<ContentRow>, author: string, start: int, end: int): seq<ContentRow> {
    SortBy(Filter(content, (r: ContentRow) => r.author == author && start <= r.createdAt <= end && r.burnValid != Some(false)),
           (r: ContentRow) => r.createdAt)
  }

  /** The activity is exactly the author's rows in the window whose burn flag is unset or true, in creation order. */
  lemma ActivityMeaning(content: seq<ContentRow>, author: string, start: int, end: int)
    ensures forall r :: r in Activity(content, author, start, end) <==>
              r in content && r.author == author && start <= r.createdAt <= end && r.burnValid != Some(false)
    ensures SortedBy(Activity(content, author, start, end), (r: ContentRow) => r.createdAt)
  {
    var f := Filter(content, (r: ContentRow) => r.author == author && start <= r.createdAt <= end && r.burnValid != Some(false));
    var a := Activity(content, author, start, end);
    assert multiset(a) == multiset(f);
    forall r ensures r in a <==> r in f {
      assert r in a <==> r in multiset(a);
      assert r in f <==> r in multiset(f);
    }
  }

  predicate IsReply(r: ContentRow) {
    !r.isRoot && r.parentAuthor.Some? && r.parentAuthor.value != ""
  }

  /** The first three root posts of the activity. */
  function CountedPosts(activity: seq<ContentRow>): seq<ContentRow> {
    Take(Filter(activity, (r: ContentRow) => r.isRoot), MaxPostsDay)
  }

  /** The first thirty replies with a parent author. */
  function CountedReplies(activity: seq<ContentRow>): seq<ContentRow> {
    Take(Filter(activity, IsReply), MaxRepliesDay)
  }

  /** The parent authors of `rows`, in order. */
  function ParentsOf(rows: seq<ContentRow>): (ps: seq<string>)
    ensures |ps| == |rows|
    ensures forall k :: 0 <= k < |rows| ==> ps[k] == rows[k].parentAuthor.GetOr("")
  {
    if rows == [] then [] else ParentsOf(rows[..|rows| - 1]) + [rows[|rows| - 1].parentAuthor.GetOr("")]
  }

  // ---------------------------------------------- the pair guard and the tally

  /** `[a, b].sort()`: the unordered pair as its sorted tuple. */
  function PairKey(a: string, b: string): (string, string) {
    if LexLe(a, b) then (a, b) else (b, a)
  }

  /** For a fixed author, different counterparties have different pair keys. */
  lemma PairKeyInjective(author: string, p: string, q: string)
    requires PairKey(author, p) == PairKey(author, q)
    ensures p == q
  {
  }

  /** The pair counters and the unique-counterparty set. */
  datatype Tally = Tally(pairs: map<(string, string), int>, unique: set<string>)

  /** The reply loop of `calculateUCS` over the parent authors `parents` of the counted replies. */
  function TallyOf(author: string, parents: seq<string>, accs: Accounts, content: seq<ContentRow>, now: int): Tally {
    if parents == [] then Tally(map[], {})
    else
      var p := parents[|parents| - 1];
      TallyStep(TallyOf(author, parents[..|parents| - 1], accs, content, now), author, p, Eligible(accs, content, now, p))
  }

  /** One reply to `p`: skipped when it is a self-reply or the pair has reached the threshold. */
  function TallyStep(t: Tally, author: string, p: string, eligible: bool): Tally {
    if p == author then t
    else
      var key := PairKey(author, p);
      var c := if key in t.pairs then t.pairs[key] else 0;
      if c >= PairSpamThreshold then t
      else Tally(t.pairs[key := c + 1], if eligible then t.unique + {p} else t.unique)
  }

  /** The counterparties of `parents`: every parent author other than `author`. */
  function Counterparties(author: string, parents: seq<string>): set<string> {
    set p | p in parents && p != author
  }

  function Min(a: int, b: int): int {
    if a <= b then a else b
  }

  /**
   * What the reply loop computes: a counter exists exactly for the
   * counterparties seen, each counter is the number of replies to that
   * counterparty capped at 5, and the unique set is exactly the eligible
   * counterparties (self-replies never count, and the first reply to each
   * counterparty always gets past the pair guard).
   */
  lemma {:induction false} TallyShape(author: string, parents: seq<string>, accs: Accounts, content: seq<ContentRow>, now: int)
    ensures var t := TallyOf(author, parents, accs, content, now);
      (forall q :: q != author ==> (PairKey(author, q) in t.pairs <==> q in parents))
      && (forall q :: q != author && q in parents ==>
            t.pairs[PairKey(author, q)] == Min(PairSpamThreshold, multiset(parents)[q]))
      && t.unique == set q | q in Counterparties(author, parents) && Eligible(accs, content, now, q)
  {
    if parents != [] {
      TallyShape(author, parents[..|parents| - 1], accs, content, now);
      TallyShapeStep(author, parents, accs, content, now);
    }
  }

  /** The three facts of `TallyShape` about the tally `t` of `parents`. */
  ghost predicate TallyFits(author: string, parents: seq<string>, t: Tally, accs: Accounts, content: seq<ContentRow>, now: int) {
    KeysFit(author, parents, t) && CountsFit(author, parents, t) && UniqueFits(author, parents, t, accs, content, now)
  }

  ghost predicate KeysFit(author: string, parents: seq<string>, t: Tally) {
    forall q :: q != author ==> (PairKey(author, q) in t.pairs <==> q in parents)
  }

  ghost predicate CountsFit(author: string, parents: seq<string>, t: Tally)
    requires KeysFit(author, parents, t)
  {
    forall q :: q != author && q in parents ==> t.pairs[PairKey(author, q)] == Min(PairSpamThreshold, multiset(parents)[q])
  }

  ghost predicate UniqueFits(author: string, parents: seq<string>, t: Tally, accs: Accounts, content: seq<ContentRow>, now: int) {
    t.unique == set q | q in Counterparties(author, parents) && Eligible(accs, content, now, q)
  }

  lemma TallyShapeStep(author: string, parents: seq<string>, accs: Accounts, content: seq<ContentRow>, now: int)
    requires parents != []
    requires var init := parents[..|parents| - 1];
      TallyFits(author, init, TallyOf(author, init, accs, content, now), accs, content, now)
    ensures TallyFits(author, parents, TallyOf(author, parents, accs, content, now), accs, content, now)
  {
    var init := parents[..|parents| - 1];
    var p := parents[|parents| - 1];
    LastSplit(parents);
    var t := TallyOf(author, init, accs, content, now);
    CountsStep(author, init, p, t, Eligible(accs, content, now, p));
    UniqueStep(author, init, p, t, accs, content, now);
  }

  /** Other counterparties' pair keys differ from the key of `p`. */
  lemma OtherKeys(author: string, p: string)
    ensures forall q :: q != p ==> PairKey(author, q) != PairKey(author, p)
  {
    forall q | q != p ensures PairKey(author, q) != PairKey(author, p) {
      if PairKey(author, q) == PairKey(author, p) {
        PairKeyInjective(author, p, q);
      }
    }
  }

  lemma KeysStep(author: string, init: seq<string>, p: string, t: Tally, e: bool)
    requires KeysFit(author, init, t)
    ensures KeysFit(author, init + [p], TallyStep(t, author, p, e))
  {
    OtherKeys(author, p);
    forall q ensures q in init + [p] <==> q in init || q == p {
    }
  }

  lemma CountsStep(author: string, init: seq<string>, p: string, t: Tally, e: bool)
    requires KeysFit(author, init, t) && CountsFit(author, init, t)
    ensures KeysFit(author, init + [p], TallyStep(t, author, p, e))
    ensures CountsFit(author, init + [p], TallyStep(t, author, p, e))
  {
    KeysStep(author, init, p, t, e);
    OtherKeys(author, p);
    assert multiset(init + [p]) == multiset(init) + multiset{p};
  }

  lemma UniqueStep(author: string, init: seq<string>, p: string, t: Tally, accs: Accounts, content: seq<ContentRow>, now: int)
    requires KeysFit(author, init, t) && UniqueFits(author, init, t, accs, content, now)
    ensures UniqueFits(author, init + [p], TallyStep(t, author, p, Eligible(accs, content, now, p)), accs, content, now)
  {
    assert Counterparties(author, init + [p]) == Counterparties(author, init) + (if p == author then {} else {p});
  }

  /** One more reply: one more tally step, and its parent joins the counterparties unless it is the author. */
  lemma TallyNext(author: string, parents: seq<string>, i: int, accs: Accounts, content: seq<ContentRow>, now: int)
    requires 0 <= i < |parents|
    ensures TallyOf(author, parents[..i + 1], accs, content, now)
         == TallyStep(TallyOf(author, parents[..i], accs, content, now), author, parents[i], Eligible(accs, content, now, parents[i]))
    ensures Counterparties(author, parents[..i + 1])
         == Counterparties(author, parents[..i]) + (if parents[i] == author then {} else {parents[i]})
    ensures var t := TallyOf(author, parents[..i], accs, content, now);
      var key := PairKey(author, parents[i]);
      parents[i] != author && key in t.pairs && t.pairs[key] >= PairSpamThreshold ==> parents[i] in parents[..i]
  {
    assert parents[..i + 1] == parents[..i] + [parents[i]];
    assert parents[..i + 1][..i] == parents[..i];
    TallyShape(author, parents[..i], accs, content, now);
  }

  /** A reply past both guards raises its pair counter and adds an eligible parent to the unique set. */
  lemma TallyCounted(t: Tally, author: string, p: string, eligible: bool)
    requires p != author
    requires PairKey(author, p) !in t.pairs || t.pairs[PairKey(author, p)] < PairSpamThreshold
    ensures var key := PairKey(author, p);
      TallyStep(t, author, p, eligible)
      == Tally(t.pairs[key := (if key in t.pairs then t.pairs[key] else 0) + 1], if eligible then t.unique + {p} else t.unique)
  {
  }

  /** Scoring for an author never depends on promotions made by earlier checks. */
  lemma {:induction false} TallyOfPromoted(author: string, parents: seq<string>, accs: Accounts, names: set<string>,
                                           content: seq<ContentRow>, now: int)
    ensures TallyOf(author, parents, PromoteSet(accs, names, content, now), content, now) == TallyOf(author, parents, accs, content, now)
  {
    if parents != [] {
      TallyOfPromoted(author, parents[..|parents| - 1], accs, names, content, now);
      PromoteSetKeepsEligibility(accs, names, content, now, parents[|parents| - 1]);
    }
  }

  // ------------------------------------------------------ concentration guard

  /** The author's non-root rows in the trailing seven days: `start - 6 days` to `end`. */
  function WindowReplies(content: seq<ContentRow>, author: string, start: int, end: int): seq<ContentRow> {
    Filter(content, (r: ContentRow) => r.author == author && !r.isRoot && start - TrailingDays * DAY <= r.createdAt <= end)
  }

  /** The non-null parent authors of `rows`, in order. */
  function NonNullParents(rows: seq<ContentRow>): (ps: seq<string>)
    ensures |ps| <= |rows|
  {
    if rows == [] then []
    else
      var last := rows[|rows| - 1];
      NonNullParents(rows[..|rows| - 1]) + (if last.parentAuthor.Some? then [last.parentAuthor.value] else [])
  }

  /** The distinct elements of `s`, each once. */
  function Distinct(s: seq<string>): (d: seq<string>)
    ensures forall x :: multiset(d)[x] == if x in s then 1 else 0
  {
    if s == [] then []
    else
      var init := s[..|s| - 1];
      var x := s[|s| - 1];
      LastSplit(s);
      var d := Distinct(init);
      if x in init then d else d + [x]
  }

  /** `GROUP BY`: the count of each distinct element `d[k]` in `m`. */
  function CountsOf(d: seq<string>, m: multiset<string>): (c: seq<int>)
    ensures |c| == |d|
    ensures forall k :: 0 <= k < |c| ==> c[k] == m[d[k]] >= 0
  {
    if d == [] then [] else CountsOf(d[..|d| - 1], m) + [m[d[|d| - 1]]]
  }

  lemma {:induction false} CountsAdd(d: seq<string>, m: multiset<string>, x: string)
    ensures Sum(CountsOf(d, m + multiset{x})) == Sum(CountsOf(d, m)) + multiset(d)[x]
  {
    if d != [] {
      var init := d[..|d| - 1];
      var y := d[|d| - 1];
      CountsAdd(init, m, x);
      LastSplit(d);
      assert CountsOf(d, m + multiset{x}) == CountsOf(init, m + multiset{x}) + [(m + multiset{x})[y]];
      assert CountsOf(d, m) == CountsOf(init, m) + [m[y]];
      SumConcat(CountsOf(init, m + multiset{x}), [(m + multiset{x})[y]]);
      SumConcat(CountsOf(init, m), [m[y]]);
      assert multiset(d)[x] == multiset(init)[x] + (if y == x then 1 else 0);
    }
  }

  /** The group counts add up to the number of grouped rows. */
  lemma {:induction false} GroupCountsSum(s: seq<string>)
    ensures Sum(CountsOf(Distinct(s), multiset(s))) == |s|
  {
    if s != [] {
      GroupCountsSum(s[..|s| - 1]);
      GroupCountsStep(s);
    }
  }

  /** One more grouped row adds one to the group counts. */
  lemma GroupCountsStep(s: seq<string>)
    requires s != []
    requires Sum(CountsOf(Distinct(s[..|s| - 1]), multiset(s[..|s| - 1]))) == |s| - 1
    ensures Sum(CountsOf(Distinct(s), multiset(s))) == |s|
  {
    var init := s[..|s| - 1];
    var x := s[|s| - 1];
    LastSplit(s);
    var d := Distinct(init);
    var ms := multiset(s);
    assert ms == multiset(init) + multiset{x};
    CountsAdd(d, multiset(init), x);
    if x !in init {
      assert Distinct(s) == d + [x];
      CountsNewGroup(d, ms, x);
    }
  }

  /** A new group adds its count to the counts of the old ones. */
  lemma CountsNewGroup(d: seq<string>, m: multiset<string>, x: string)
    ensures Sum(CountsOf(d + [x], m)) == Sum(CountsOf(d, m)) + m[x]
  {
    assert (d + [x])[..|d|] == d;
    SumConcat(CountsOf(d, m), [m[x]]);
  }

  /** `GROUP BY parent_author ORDER BY count DESC LIMIT 3`, summed over the parent authors `ps`. */
  function TopGroups(ps: seq<string>): int {
    Sum(Take(SortByDesc(CountsOf(Distinct(ps), multiset(ps)), (c: int) => c), 3))
  }

  /** The replies to the three most-replied parent authors among `rows`. */
  function Top3Count(rows: seq<ContentRow>): int {
    TopGroups(NonNullParents(rows))
  }

  /** `checkConcentration`: no trailing replies is not concentrated; otherwise top-3 share above 70%. */
  function IsConcentrated(content: seq<ContentRow>, author: string, start: int, end: int): bool {
    var rows := WindowReplies(content, author, start, end);
    |rows| != 0 && 10 * Top3Count(rows) > 7 * |rows|
  }

  /** The top three groups never hold more than all the grouped rows. */
  lemma TopGroupsBounded(ps: seq<string>)
    ensures 0 <= TopGroups(ps) <= |ps|
  {
    var counts := CountsOf(Distinct(ps), multiset(ps));
    var sorted := SortByDesc(counts, (c: int) => c);
    NonNegativeSorted(counts, sorted);
    SumTakeBelow(sorted, 3);
    SumNonNegative(Take(sorted, 3));
    SumPermutation(sorted, counts);
    GroupCountsSum(ps);
  }

  /** The top three never hold more than all the trailing replies. */
  lemma Top3Bounded(rows: seq<ContentRow>)
    ensures 0 <= Top3Count(rows) <= |rows|
  {
    TopGroupsBounded(NonNullParents(rows));
  }

  lemma NonNegativeSorted(counts: seq<int>, sorted: seq<int>)
    requires forall k :: 0 <= k < |counts| ==> counts[k] >= 0
    requires multiset(sorted) == multiset(counts)
    ensures forall k :: 0 <= k < |sorted| ==> sorted[k] >= 0
  {
    forall k | 0 <= k < |sorted| ensures sorted[k] >= 0 {
      assert sorted[k] in multiset(counts);
    }
  }

  /** A concentrated author's top three parent authors hold more than 70% of a non-empty trailing window. */
  lemma ConcentratedMeaning(content: seq<ContentRow>, author: string, start: int, end: int)
    ensures var rows := WindowReplies(content, author, start, end);
      IsConcentrated(content, author, start, end) <==> |rows| > 0 && Top3Count(rows) * 10 > |rows| * 7
    ensures IsConcentrated(content, author, start, end) ==> Top3Count(WindowReplies(content, author, start, end)) <= |WindowReplies(content, author, start, end)|
  {
    Top3Bounded(WindowReplies(content, author, start, end));
  }

  /** An author whose trailing replies all go to at most three accounts is concentrated. */
  lemma AtMostThreeCounterpartiesConcentrated(content: seq<ContentRow>, author: string, start: int, end: int, a: string, b: string, c: string)
    requires |WindowReplies(content, author, start, end)| > 0
    requires forall r :: r in WindowReplies(content, author, start, end) ==> r.parentAuthor in {Some(a), Some(b), Some(c)}
    ensures IsConcentrated(content, author, start, end)
  {
    var rows := WindowReplies(content, author, start, end);
    AllParentsKept(rows);
    NonNullParentsWithin(rows, a, b, c);
    FewGroupsAllTop(NonNullParents(rows), a, b, c);
  }

  /** When at most three values occur, the top three groups hold every row. */
  lemma FewGroupsAllTop(ps: seq<string>, a: string, b: string, c: string)
    requires forall x :: x in ps ==> x == a || x == b || x == c
    ensures TopGroups(ps) == |ps|
  {
    var d := Distinct(ps);
    forall x | x in d ensures x in {a, b, c} {
      assert multiset(d)[x] >= 1;
    }
    DistinctWithin(d, {a, b, c});
    assert |{a, b, c}| <= 3;
    var counts := CountsOf(d, multiset(ps));
    var sorted := SortByDesc(counts, (x: int) => x);
    assert Take(sorted, 3) == sorted;
    SumPermutation(sorted, counts);
    GroupCountsSum(ps);
  }

  /** A sequence without repetitions drawn from `S` is no longer than `S` is large. */
  lemma {:induction false} DistinctWithin(d: seq<string>, S: set<string>)
    requires forall x :: multiset(d)[x] <= 1
    requires forall x :: x in d ==> x in S
    ensures |d| <= |S|
  {
    if d != [] {
      var init := d[..|d| - 1];
      var y := d[|d| - 1];
      LastSplit(d);
      assert multiset(d) == multiset(init) + multiset{y};
      assert multiset(d)[y] == multiset(init)[y] + 1;
      assert multiset(init)[y] == 0;
      forall x ensures multiset(init)[x] <= 1 {
        assert multiset(init)[x] <= multiset(d)[x];
      }
      forall x | x in init ensures x in S - {y} {
        assert x in d;
      }
      DistinctWithin(init, S - {y});
    }
  }

  lemma {:induction false} AllParentsKept(rows: seq<ContentRow>)
    requires forall k :: 0 <= k < |rows| ==> rows[k].parentAuthor.Some?
    ensures |NonNullParents(rows)| == |rows|
  {
    if rows != [] {
      AllParentsKept(rows[..|rows| - 1]);
    }
  }

  lemma {:induction false} NonNullParentsWithin(rows: seq<ContentRow>, a: string, b: string, c: string)
    requires forall r :: r in rows ==> r.parentAuthor in {Some(a), Some(b), Some(c)}
    ensures forall x :: x in NonNullParents(rows) ==> x == a || x == b || x == c
  {
    if rows != [] {
      NonNullParentsWithin(rows[..|rows| - 1], a, b, c);
    }
  }

  // -------------------------------------------------------------- the score

  /** The breakdown `calculateUCS` returns and stores as the score details. */
  datatype Ucs = Ucs(
    u: int,
    p: int,
    cappedU: int,
    cappedP: int,
    s: real,                  // base score
    wSquared: real,           // the stake weight, squared
    staked: real,
    unique: set<string>,
    concentrated: bool,
    countedPosts: int,
    countedReplies: int)

  /** `min(staked, 100 * S_MIN) / S_MIN`: the square of the stake weight. */
  function WSquared(staked: real, sMin: real): real
    requires sMin > 0.0
  {
    (if staked < 100.0 * sMin then staked else 100.0 * sMin) / sMin
  }

  /** The stake weight grows with stake, stops growing at the cap, and is at most 10. */
  lemma WSquaredShape(a: real, b: real, sMin: real)
    requires sMin > 0.0 && a <= b
    ensures WSquared(a, sMin) <= WSquared(b, sMin) <= 100.0
    ensures a >= 100.0 * sMin ==> WSquared(a, sMin) == WSquared(b, sMin) == 100.0
    ensures a >= 0.0 ==> WSquared(a, sMin) >= 0.0
  {
    var cap := 100.0 * sMin;
    var ea := if a < cap then a else cap;
    var eb := if b < cap then b else cap;
    assert ea <= eb <= cap;
    assert eb / sMin - ea / sMin == (eb - ea) / sMin;
    assert cap / sMin == 100.0;
    assert cap / sMin - eb / sMin == (cap - eb) / sMin;
  }

  /** `S = min(U, 10) + 0.5 * min(P, 2)`. */
  function BaseScore(cappedU: int, cappedP: int): real {
    cappedU as real + 0.5 * cappedP as real
  }

  /** The caps, the base score and the stake weight applied to a day's counts. */
  function ScoreOf(unique: set<string>, concentrated: bool, posts: int, replies: int, staked: real, sMin: real): (d: Ucs)
    requires sMin > 0.0
    requires 0 <= posts
    ensures 0 <= d.cappedU <= UCap && 0 <= d.cappedP <= PCap
    ensures d.cappedU <= d.u && d.cappedP <= d.p
    ensures 0.0 <= d.s <= 11.0
    ensures d.concentrated ==> d.u == 0
    ensures !d.concentrated ==> d.u == |unique|
    ensures d.wSquared <= 100.0 && (staked >= 0.0 ==> d.wSquared >= 0.0)
  {
    var u := if concentrated then 0 else |unique|;
    var cu := Min(u, UCap);
    var cp := Min(posts, PCap);
    WSquaredShape(staked, staked, sMin);
    Ucs(u, posts, cu, cp, BaseScore(cu, cp), WSquared(staked, sMin), staked, unique, concentrated, posts, replies)
  }

  /** `calculateUCS` for `author` on the window `[start, end]`. */
  function UcsOf(accs: Accounts, content: seq<ContentRow>, now: int, sMin: real,
                 author: string, staked: real, start: int, end: int): Ucs
    requires sMin > 0.0
  {
    var activity := Activity(content, author, start, end);
    var replies := CountedReplies(activity);
    ScoreOf(TallyOf(author, ParentsOf(replies), accs, content, now).unique, IsConcentrated(content, author, start, end),
            |CountedPosts(activity)|, |replies|, staked, sMin)
  }

  /**
   * The unique counterparties of a score are exactly the eligible accounts,
   * other than the author, that some counted reply answers; at most three
   * posts and thirty replies are counted.
   */
  lemma UcsMeaning(accs: Accounts, content: seq<ContentRow>, now: int, sMin: real,
                   author: string, staked: real, start: int, end: int)
    requires sMin > 0.0
    ensures var d := UcsOf(accs, content, now, sMin, author, staked, start, end);
      d.unique == set q | q in TestedBy(content, author, start, end) && Eligible(accs, content, now, q)
      && author !in d.unique
      && d.countedPosts <= MaxPostsDay && d.countedReplies <= MaxRepliesDay
  {
    var replies := CountedReplies(Activity(content, author, start, end));
    TallyShape(author, ParentsOf(replies), accs, content, now);
  }

  /** The counterparties whose eligibility `calculateUCS` checks for `author`. */
  function TestedBy(content: seq<ContentRow>, author: string, start: int, end: int): set<string> {
    Counterparties(author, ParentsOf(CountedReplies(Activity(content, author, start, end))))
  }

  /** Earlier promotions do not change an author's score. */
  lemma UcsOfPromoted(accs: Accounts, names: set<string>, content: seq<ContentRow>, now: int, sMin: real,
                      author: string, staked: real, start: int, end: int)
    requires sMin > 0.0
    ensures UcsOf(PromoteSet(accs, names, content, now), content, now, sMin, author, staked, start, end)
         == UcsOf(accs, content, now, sMin, author, staked, start, end)
  {
    TallyOfPromoted(author, ParentsOf(CountedReplies(Activity(content, author, start, end))), accs, names, content, now);
  }

  /** The worked example: 3 unique counterparties, 1 post, stake 4000 at `S_MIN` 1000 give S = 3.5, W = 2, score 7. */
  lemma ScoreExample()
    ensures BaseScore(Min(3, UCap), Min(1, PCap)) == 3.5
    ensures WSquared(4000.0, DefaultStakeMin) == 4.0
    ensures 7.0 * 7.0 == BaseScore(3, 1) * BaseScore(3, 1) * WSquared(4000.0, DefaultStakeMin)
  {
  }

  /** The agents scored in a run: eligible and not denied. */
  function Agents(accs: Accounts): set<string> {
    set n | n in accs && accs[n].eligibleAgent && !accs[n].isDenied
  }

  /** A row of `participation_scores`. */
  datatype ScoreRecord = ScoreRecord(details: Ucs, createdAt: int)

  /** The scorer's view of the store: the accounts it reads and flags, and the score table. */
  class Scorer {
    const sMin: real
    var accounts: Accounts
    var scores: map<(string, int), ScoreRecord>

    constructor (sMin: real, accounts: Accounts)
      requires sMin > 0.0
      ensures this.sMin == sMin && this.accounts == accounts && scores == map[]
    {
      this.sMin := sMin;
      this.accounts := accounts;
      scores := map[];
    }

    /** `isEligibleCounterparty`: decides eligibility and persists a heuristic promotion. */
    method IsEligibleCounterparty(name: string, content: seq<ContentRow>, now: int) returns (ok: bool)
      modifies this
      ensures ok == Eligible(old(accounts), content, now, name)
      ensures accounts == PromoteSet(old(accounts), {name}, content, now)
      ensures scores == old(scores)
    {
      ghost var before := accounts;
      if name !in accounts {
        assert PromoteSet(before, {name}, content, now) == before;
        return false;
      }
      var acc := accounts[name];
      if acc.eligibleAgent || acc.realHuman {
        assert PromoteSet(before, {name}, content, now) == before;
        return true;
      }
      if acc.createdAt.Some? && now - acc.createdAt.value >= HumanMinAgeDays * DAY {
        var total := |AuthorRows(content, name)|;
        var activeDays := ActiveDays(content, name);
        if total >= HumanMinItems || activeDays >= HumanMinActiveDays {
          accounts := accounts[name := acc.(realHuman := true)];
          assert PromoteSet(before, {name}, content, now) == accounts;
          return true;
        }
      }
      assert PromoteSet(before, {name}, content, now) == before;
      return false;
    }

    /**
     * The reply loop of `calculateUCS`: self-replies are skipped, a pair that
     * has reached the threshold is skipped, and every other reply counts for its
     * pair and checks (and may promote) its counterparty.
     */
    method TallyReplies(author: string, replies: seq<ContentRow>, content: seq<ContentRow>, now: int)
        returns (pairCounts: map<(string, string), int>, unique: set<string>)
      modifies this
      ensures Tally(pairCounts, unique) == TallyOf(author, ParentsOf(replies), old(accounts), content, now)
      ensures accounts == PromoteSet(old(accounts), Counterparties(author, ParentsOf(replies)), content, now)
      ensures scores == old(scores)
    {
      ghost var parents := ParentsOf(replies);
      ghost var accs0 := accounts;
      unique := {};
      pairCounts := map[];
      assert PromoteSet(accs0, {}, content, now) == accs0;
      for i := 0 to |replies|
        invariant Tally(pairCounts, unique) == TallyOf(author, parents[..i], accs0, content, now)
        invariant accounts == PromoteSet(accs0, Counterparties(author, parents[..i]), content, now)
        invariant scores == old(scores)
      {
        var p := replies[i].parentAuthor.GetOr("");
        pairCounts, unique := CountReply(author, p, parents, i, accs0, pairCounts, unique, content, now);
      }
      assert parents[..|replies|] == parents;
    }

    /** One reply of the loop: skipped for a self-reply or a full pair, otherwise counted and its parent checked. */
    method CountReply(author: string, p: string, ghost parents: seq<string>, ghost i: int, ghost accs0: Accounts,
                      pairs0: map<(string, string), int>, unique0: set<string>, content: seq<ContentRow>, now: int)
        returns (pairCounts: map<(string, string), int>, unique: set<string>)
      requires 0 <= i < |parents| && p == parents[i]
      requires Tally(pairs0, unique0) == TallyOf(author, parents[..i], accs0, content, now)
      requires accounts == PromoteSet(accs0, Counterparties(author, parents[..i]), content, now)
      modifies this
      ensures Tally(pairCounts, unique) == TallyOf(author, parents[..i + 1], accs0, content, now)
      ensures accounts == PromoteSet(accs0, Counterparties(author, parents[..i + 1]), content, now)
      ensures scores == old(scores)
    {
      pairCounts, unique := pairs0, unique0;
      TallyNext(author, parents, i, accs0, content, now);
      if p == author {
        return;
      }
      var key := PairKey(author, p);
      var count := if key in pairCounts then pairCounts[key] else 0;
      if count >= PairSpamThreshold {
        return;
      }
      pairCounts, unique := CountCounterparty(author, p, parents, i, accs0, pairs0, unique0, content, now);
    }

    /** A reply that gets past both guards: its pair counter goes up and its parent is checked. */
    method CountCounterparty(author: string, p: string, ghost parents: seq<string>, ghost i: int, ghost accs0: Accounts,
                             pairs0: map<(string, string), int>, unique0: set<string>, content: seq<ContentRow>, now: int)
        returns (pairCounts: map<(string, string), int>, unique: set<string>)
      requires 0 <= i < |parents| && p == parents[i] && p != author
      requires PairKey(author, p) !in pairs0 || pairs0[PairKey(author, p)] < PairSpamThreshold
      requires Tally(pairs0, unique0) == TallyOf(author, parents[..i], accs0, content, now)
      requires accounts == PromoteSet(accs0, Counterparties(author, parents[..i]), content, now)
      modifies this
      ensures Tally(pairCounts, unique) == TallyOf(author, parents[..i + 1], accs0, content, now)
      ensures accounts == PromoteSet(accs0, Counterparties(author, parents[..i + 1]), content, now)
      ensures scores == old(scores)
    {
      TallyNext(author, parents, i, accs0, content, now);
      var key := PairKey(author, p);
      var count := if key in pairs0 then pairs0[key] else 0;
      pairCounts := pairs0[key := count + 1];
      ghost var tested := Counterparties(author, parents[..i]);
      PromoteSetKeepsEligibility(accs0, tested, content, now, p);
      var ok := IsEligibleCounterparty(p, content, now);
      PromoteSetUnion(accs0, tested, {p}, content, now);
      unique := if ok then unique0 + {p} else unique0;
      TallyCounted(Tally(pairs0, unique0), author, p, Eligible(accs0, content, now, p));
    }

    /** `calculateUCS`: the day's activity, the reply loop, the concentration guard and the score. */
    method CalculateUCS(author: string, staked: real, start: int, end: int, content: seq<ContentRow>, now: int)
        returns (d: Ucs)
      requires sMin > 0.0
      modifies this
      ensures d == UcsOf(old(accounts), content, now, sMin, author, staked, start, end)
      ensures accounts == PromoteSet(old(accounts), TestedBy(content, author, start, end), content, now)
      ensures scores == old(scores)
    {
      var activity := Activity(content, author, start, end);
      var posts := CountedPosts(activity);
      var replies := CountedReplies(activity);
      var pairCounts, unique := TallyReplies(author, replies, content, now);
      var conc := IsConcentrated(content, author, start, end);
      d := ScoreOf(unique, conc, |posts|, |replies|, staked, sMin);
    }

    /** `storeScore`: upsert on (account, date), replacing score, details and time. */
    method StoreScore(account: string, date: int, details: Ucs, now: int)
      modifies this
      ensures scores == old(scores)[(account, date) := ScoreRecord(details, now)]
      ensures accounts == old(accounts)
    {
      scores := scores[(account, date) := ScoreRecord(details, now)];
    }

    /** One agent of a run: its score for the window is computed and stored under the window's day. */
    method ScoreAgent(a: string, snapshot: Accounts, ghost done: set<string>, ghost base: map<(string, int), ScoreRecord>,
                      content: seq<ContentRow>, now: int, start: int, end: int)
      requires sMin > 0.0
      requires a in snapshot && done <= snapshot.Keys
      requires accounts == PromoteSet(snapshot, AllTested(content, done, start, end), content, now)
      requires scores == base + DayScores(snapshot, content, now, sMin, done, start, end)
      modifies this
      ensures accounts == PromoteSet(snapshot, AllTested(content, done + {a}, start, end), content, now)
      ensures scores == base + DayScores(snapshot, content, now, sMin, done + {a}, start, end)
    {
      ghost var tested := AllTested(content, done, start, end);
      UcsOfPromoted(snapshot, tested, content, now, sMin, a, snapshot[a].stakedAgent, start, end);
      var d := CalculateUCS(a, snapshot[a].stakedAgent, start, end, content, now);
      StoreScore(a, DayOf(start), d, now);
      PromoteSetUnion(snapshot, tested, TestedBy(content, a, start, end), content, now);
      AllTestedAdd(content, done, a, start, end);
      DayScoresAdd(snapshot, content, now, sMin, done, a, start, end);
      UnionUpdate(base, DayScores(snapshot, content, now, sMin, done, start, end), (a, DayOf(start)), ScoreRecord(d, now));
    }

    /** The loop of `runDailyScoring` over the agents of the run-start snapshot, in any order. */
    method ScoreAll(snapshot: Accounts, agents: set<string>, content: seq<ContentRow>, now: int, failing: set<string>,
                    start: int, end: int) returns (scored: nat)
      requires sMin > 0.0
      requires agents <= snapshot.Keys && accounts == snapshot
      modifies this
      ensures scored == |agents - failing|
      ensures scores == old(scores) + DayScores(snapshot, content, now, sMin, agents - failing, start, end)
      ensures accounts == PromoteSet(snapshot, AllTested(content, agents - failing, start, end), content, now)
    {
      var remaining := agents;
      ghost var done: set<string> := {};
      scored := 0;
      NothingScoredYet(snapshot, old(scores), content, now, sMin, start, end);
      while remaining != {}
        invariant remaining <= agents
        invariant done == (agents - remaining) - failing
        invariant scored == |done|
        invariant scores == old(scores) + DayScores(snapshot, content, now, sMin, done, start, end)
        invariant accounts == PromoteSet(snapshot, AllTested(content, done, start, end), content, now)
        decreases remaining
      {
        var a :| a in remaining;
        NextDone(agents, remaining, failing, done, a);
        remaining := remaining - {a};
        if a !in failing {
          ScoreAgent(a, snapshot, done, old(scores), content, now, start, end);
          done := done + {a};
          scored := scored + 1;
        }
      }
      NextDone(agents, remaining, failing, done, "");
    }

    /**
     * `runDailyScoring` at time `now`: scores every agent of the run-start
     * snapshot for yesterday, in any order; an agent in `failing` throws
     * before writing anything and is skipped. Returns the number scored.
     */
    method RunDailyScoring(content: seq<ContentRow>, now: int, failing: set<string>) returns (scored: nat)
      requires sMin > 0.0
      modifies this
      ensures var (start, end) := YesterdayBounds(now);
        var done := Agents(old(accounts)) - failing;
        scored == |done|
        && scores == old(scores) + DayScores(old(accounts), content, now, sMin, done, start, end)
        && accounts == PromoteSet(old(accounts), AllTested(content, done, start, end), content, now)
    {
      var (start, end) := YesterdayBounds(now);
      scored := ScoreAll(accounts, Agents(accounts), content, now, failing, start, end);
    }
  }

  /** The bookkeeping of the run loop: the agents done are those taken so far that did not fail. */
  lemma NextDone(agents: set<string>, remaining: set<string>, failing: set<string>, done: set<string>, a: string)
    requires remaining <= agents && done == (agents - remaining) - failing
    ensures done <= agents
    ensures remaining == {} ==> done == agents - failing
    ensures a in remaining ==> a !in done
    ensures a in remaining && a !in failing ==>
      done + {a} == (agents - (remaining - {a})) - failing && |done + {a}| == |done| + 1
    ensures a in remaining && a in failing ==> done == (agents - (remaining - {a})) - failing
  {
  }

  /** Before the first agent: no rows written and no account promoted. */
  lemma NothingScoredYet(accs: Accounts, base: map<(string, int), ScoreRecord>, content: seq<ContentRow>, now: int, sMin: real,
                         start: int, end: int)
    requires sMin > 0.0
    ensures base + DayScores(accs, content, now, sMin, {}, start, end) == base
    ensures PromoteSet(accs, AllTested(content, {}, start, end), content, now) == accs
  {
    AllTestedEmpty(content, start, end);
    PromoteSetEmpty(accs, content, now);
    RestrictEmpty(AllRecords(accs, content, now, sMin, start, end));
    AtDateEmpty(Restrict(AllRecords(accs, content, now, sMin, start, end), {}), DayOf(start));
  }

  lemma AllTestedEmpty(content: seq<ContentRow>, start: int, end: int)
    ensures AllTested(content, {}, start, end) == {}
  {
  }

  lemma PromoteSetEmpty(accs: Accounts, content: seq<ContentRow>, now: int)
    ensures PromoteSet(accs, {}, content, now) == accs
  {
  }

  lemma RestrictEmpty<V>(m: map<string, V>)
    ensures Restrict(m, {}) == map[]
  {
  }

  lemma AtDateEmpty<V>(m: map<string, V>, date: int)
    requires m == map[]
    ensures AtDate(m, date) == map[]
  {
  }

  lemma UnionUpdate<K, V>(m: map<K, V>, n: map<K, V>, k: K, v: V)
    ensures (m + n)[k := v] == m + n[k := v]
  {
  }

  /** The score of every account for the window `[start, end]`. */
  function AllRecords(accs: Accounts, content: seq<ContentRow>, now: int, sMin: real, start: int, end: int): map<string, ScoreRecord>
    requires sMin > 0.0
  {
    map a | a in accs :: ScoreRecord(UcsOf(accs, content, now, sMin, a, accs[a].stakedAgent, start, end), now)
  }

  /** `m` restricted to the keys in `keys`. */
  function Restrict<V>(m: map<string, V>, keys: set<string>): map<string, V> {
    map k | k in m.Keys && k in keys :: m[k]
  }

  lemma RestrictAdd<V>(m: map<string, V>, keys: set<string>, a: string)
    requires a in m
    ensures Restrict(m, keys + {a}) == Restrict(m, keys)[a := m[a]]
  {
  }

  /** The score of each agent of `agents` for the window `[start, end]`. */
  function DayRecords(accs: Accounts, content: seq<ContentRow>, now: int, sMin: real,
                      agents: set<string>, start: int, end: int): map<string, ScoreRecord>
    requires sMin > 0.0
  {
    Restrict(AllRecords(accs, content, now, sMin, start, end), agents)
  }

  /** The rows of `m` keyed by account and `date`. */
  function AtDate<V>(m: map<string, V>, date: int): map<(string, int), V> {
    map k | k in m.Keys :: (k, date) := m[k]
  }

  /** The score rows a run for the window `[start, end]` at time `now` writes for `agents`. */
  function DayScores(accs: Accounts, content: seq<ContentRow>, now: int, sMin: real,
                     agents: set<string>, start: int, end: int): map<(string, int), ScoreRecord>
    requires sMin > 0.0
    requires agents <= accs.Keys
  {
    AtDate(DayRecords(accs, content, now, sMin, agents, start, end), DayOf(start))
  }

  lemma AtDateAdd<V>(m: map<string, V>, date: int, a: string, v: V)
    ensures AtDate(m[a := v], date) == AtDate(m, date)[(a, date) := v]
  {
    var l := AtDate(m[a := v], date);
    var r := AtDate(m, date)[(a, date) := v];
    forall k ensures k in l <==> k in r {
      assert k in l <==> k.1 == date && k.0 in m.Keys + {a};
    }
  }

  lemma DayRecordsAdd(accs: Accounts, content: seq<ContentRow>, now: int, sMin: real,
                      agents: set<string>, a: string, start: int, end: int)
    requires sMin > 0.0
    requires agents <= accs.Keys && a in accs
    ensures DayRecords(accs, content, now, sMin, agents + {a}, start, end)
         == DayRecords(accs, content, now, sMin, agents, start, end)[a :=
              ScoreRecord(UcsOf(accs, content, now, sMin, a, accs[a].stakedAgent, start, end), now)]
  {
    RestrictAdd(AllRecords(accs, content, now, sMin, start, end), agents, a);
  }

  /** Scoring one more agent adds its row at `(agent, day)`. */
  lemma DayScoresAdd(accs: Accounts, content: seq<ContentRow>, now: int, sMin: real,
                     agents: set<string>, a: string, start: int, end: int)
    requires sMin > 0.0
    requires agents <= accs.Keys && a in accs
    ensures DayScores(accs, content, now, sMin, agents + {a}, start, end)
         == DayScores(accs, content, now, sMin, agents, start, end)[(a, DayOf(start)) :=
              ScoreRecord(UcsOf(accs, content, now, sMin, a, accs[a].stakedAgent, start, end), now)]
  {
    DayRecordsAdd(accs, content, now, sMin, agents, a, start, end);
    var v := ScoreRecord(UcsOf(accs, content, now, sMin, a, accs[a].stakedAgent, start, end), now);
    AtDateAdd(DayRecords(accs, content, now, sMin, agents, start, end), DayOf(start), a, v);
  }

  /** Every counterparty checked while scoring the agents of `agents`. */
  function AllTested(content: seq<ContentRow>, agents: set<string>, start: int, end: int): set<string> {
    set a, q | a in agents && q in TestedBy(content, a, start, end) :: q
  }

  lemma AllTestedAdd(content: seq<ContentRow>, agents: set<string>, a: string, start: int, end: int)
    ensures AllTested(content, agents + {a}, start, end) == AllTested(content, agents, start, end) + TestedBy(content, a, start, end)
  {
  }
}
