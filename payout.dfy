/**
 * The payout distributor: a daily participation payout that shares 30% of the
 * day's emission in proportion to the stored scores, and a weekly curated
 * payout that shares 60% of a week's emission over the most-voted contents,
 * 80% to the author and 20% split among the curators. Each run is a
 * `payout_runs` row that goes from `planned` to `executed` or `failed`; each
 * payout is an upsert on (run, account). Amounts are whole milli-units, the
 * three decimals the service rounds down to.
 */
module Payout {
  import opened Wrappers
  import opened Content
  import opened Sorting
  import opened Participation

  const DefaultLaunch: int := 1769904000000     // 2026-02-01T00:00:00Z
  const NCurated: int := 200

  // ---------------------------------------------------------------- emissions

  /** `Math.floor((now - launch) / 1 day)`: whole days since launch, negative before it. */
  function DaysSinceLaunch(now: int, launch: int): (d: int)
    ensures d * DAY <= now - launch < d * DAY + DAY
  {
    (now - launch) / DAY
  }

  /** `getDailyEmissions`: 10000 a day in weeks 1-2, 25000 in weeks 3-4, 100000 from week 5 on. */
  function Emissions(days: int): int {
    if days < 14 then 10000 else if days < 28 then 25000 else 100000
  }

  /** The emission never falls as time passes, and each tier covers exactly its days. */
  lemma EmissionsSchedule(a: int, b: int)
    requires a <= b
    ensures Emissions(a) <= Emissions(b)
    ensures Emissions(a) == 10000 <==> a < 14
    ensures Emissions(a) == 25000 <==> 14 <= a < 28
    ensures Emissions(a) == 100000 <==> 28 <= a
  {
  }

  /** The curated pool's week: seven times the current daily emission (every day of the week uses today's date). */
  method WeeklyEmissions(days: int) returns (w: int)
    ensures w == 7 * Emissions(days)
  {
    w := 0;
    for i := 0 to 7
      invariant w == i * Emissions(days)
    {
      w := w + Emissions(days);
    }
  }

  /** `Math.floor(x * 1000) / 1000`, counted in milli-units. */
  function Milli(x: real): (m: int)
    ensures m as real <= x * 1000.0 < m as real + 1.0
    ensures x >= 0.0 ==> m >= 0
  {
    (x * 1000.0).Floor
  }

  lemma MulMono(a: real, b: real, c: real)
    requires a >= 0.0 && b <= c
    ensures a * b <= a * c
  {
  }

  lemma DivSplit(t: real, s: real, d: real)
    requires d != 0.0
    ensures (t + s) / d == t / d + s / d
  {
  }

  // --------------------------------------------------- the participation payout

  /** A `participation_scores` row. */
  datatype ScoreRow = ScoreRow(account: string, date: int, score: real)

  /** `SELECT ... WHERE date = $1`, in table order. */
  function ScoresOn(table: seq<ScoreRow>, date: int): (r: seq<ScoreRow>)
    ensures forall s :: s in r <==> s in table && s.date == date
  {
    Filter(table, (s: ScoreRow) => s.date == date)
  }

  function TotalScore(scores: seq<ScoreRow>): real {
    if scores == [] then 0.0 else TotalScore(scores[..|scores| - 1]) + scores[|scores| - 1].score
  }

  /**
   * One participation payout. `amount` and `share` are None when they are not
   * numbers: with a zero total every share is `0 / 0`.
   */
  datatype Allocation = Allocation(account: string, amount: Option<int>, score: real, share: Option<real>)

  /** `Math.floor(pool * share * 1000) / 1000`: the milli-units a share of the pool is worth. */
  function ShareAmount(pool: real, share: real): int {
    Milli(pool * share)
  }

  function AllocationOf(s: ScoreRow, pool: real, total: real): Allocation {
    if total == 0.0 then Allocation(s.account, None, s.score, None)
    else
      var share := s.score / total;
      var amount := ShareAmount(pool, share);
      Allocation(s.account, Some(amount), s.score, Some(share))
  }

  /** The allocation loop of `runParticipationPayout`, in score order. */
  function Allocate(scores: seq<ScoreRow>, pool: real, total: real): (r: seq<Allocation>)
    ensures |r| == |scores|
    ensures forall k :: 0 <= k < |r| ==> r[k] == AllocationOf(scores[k], pool, total)
  {
    if scores == [] then []
    else Allocate(scores[..|scores| - 1], pool, total) + [AllocationOf(scores[|scores| - 1], pool, total)]
  }

  /** The milli-units paid by `allocs`, counting an amount that is not a number as nothing. */
  function Paid(allocs: seq<Allocation>): int {
    if allocs == [] then 0 else Paid(allocs[..|allocs| - 1]) + allocs[|allocs| - 1].amount.GetOr(0)
  }

  /**
   * With a positive total and a non-negative pool and scores, every amount is a
   * number, non-negative, at most the exact share and less than one milli-unit below it.
   */
  lemma AllocateEach(scores: seq<ScoreRow>, pool: real, total: real)
    requires total > 0.0 && pool >= 0.0
    requires forall k :: 0 <= k < |scores| ==> scores[k].score >= 0.0
    ensures forall k :: 0 <= k < |scores| ==>
      var a := Allocate(scores, pool, total)[k];
      a.amount.Some? && 0 <= a.amount.value
      && a.amount.value as real <= ExactShare(scores[k], pool, total) < a.amount.value as real + 1.0
  {
    forall k | 0 <= k < |scores|
      ensures var a := Allocate(scores, pool, total)[k];
        a.amount.Some? && 0 <= a.amount.value
        && a.amount.value as real <= ExactShare(scores[k], pool, total) < a.amount.value as real + 1.0
    {
      assert Allocate(scores, pool, total)[k] == AllocationOf(scores[k], pool, total);
      AllocationOfBounds(scores[k], pool, total);
      ShareBounds(scores[k], pool, total);
    }
  }

  /**
   * The amounts add up to at most the pool's part for the scores paid, and
   * fall short of it by less than one milli-unit per score.
   */
  lemma AllocatePaid(scores: seq<ScoreRow>, pool: real, total: real)
    requires total > 0.0 && pool >= 0.0
    requires forall k :: 0 <= k < |scores| ==> scores[k].score >= 0.0
    ensures Paid(Allocate(scores, pool, total)) as real <= pool * 1000.0 * (TotalScore(scores) / total)
    ensures scores != [] ==>
      pool * 1000.0 * (TotalScore(scores) / total) < Paid(Allocate(scores, pool, total)) as real + |scores| as real
  {
    PaidWithinExact(scores, pool, total);
    ExactSharesSum(scores, pool, total);
  }

  /** One score's exact share of `pool` in milli-units, before rounding down. */
  function ExactShare(s: ScoreRow, pool: real, total: real): real
    requires total != 0.0
  {
    pool * 1000.0 * (s.score / total)
  }

  /** The exact shares of `pool` in milli-units, before rounding down. */
  function ExactShares(scores: seq<ScoreRow>, pool: real, total: real): real
    requires total != 0.0
  {
    if scores == [] then 0.0
    else ExactShares(scores[..|scores| - 1], pool, total) + ExactShare(scores[|scores| - 1], pool, total)
  }

  /** A share rounded down lies less than one milli-unit below the exact share. */
  lemma ShareBounds(s: ScoreRow, pool: real, total: real)
    requires total > 0.0 && pool >= 0.0 && s.score >= 0.0
    ensures var a := AllocationOf(s, pool, total).amount.GetOr(0) as real;
      a <= ExactShare(s, pool, total) < a + 1.0
  {
    AllocationOfBounds(s, pool, total);
  }

  /** Rounding each share down pays at most the exact shares, and less than one milli-unit per share below them. */
  lemma {:induction false} PaidWithinExact(scores: seq<ScoreRow>, pool: real, total: real)
    requires total > 0.0 && pool >= 0.0
    requires forall k :: 0 <= k < |scores| ==> scores[k].score >= 0.0
    ensures Paid(Allocate(scores, pool, total)) as real <= ExactShares(scores, pool, total)
    ensures ExactShares(scores, pool, total) <= Paid(Allocate(scores, pool, total)) as real + |scores| as real
    ensures scores != [] ==> ExactShares(scores, pool, total) < Paid(Allocate(scores, pool, total)) as real + |scores| as real
  {
    if scores != [] {
      PaidWithinExact(scores[..|scores| - 1], pool, total);
      PaidLast(scores, pool, total);
      ShareBounds(scores[|scores| - 1], pool, total);
    }
  }

  /** The last score adds its amount to what is paid and its score to the total. */
  lemma PaidLast(scores: seq<ScoreRow>, pool: real, total: real)
    requires scores != []
    ensures var init := scores[..|scores| - 1];
      Paid(Allocate(scores, pool, total)) == Paid(Allocate(init, pool, total)) + AllocationOf(scores[|scores| - 1], pool, total).amount.GetOr(0)
  {
    var init := scores[..|scores| - 1];
    var a := AllocationOf(scores[|scores| - 1], pool, total);
    assert Allocate(scores, pool, total) == Allocate(init, pool, total) + [a];
    PaidAppend(Allocate(init, pool, total), a);
  }

  /** The exact shares of the scores are the pool's part for their total. */
  lemma {:induction false} ExactSharesSum(scores: seq<ScoreRow>, pool: real, total: real)
    requires total != 0.0
    ensures ExactShares(scores, pool, total) == pool * 1000.0 * (TotalScore(scores) / total)
  {
    if scores == [] {
      ZeroShare(pool * 1000.0, total);
    } else {
      var init := scores[..|scores| - 1];
      ExactSharesSum(init, pool, total);
      ShareSplit(pool * 1000.0, TotalScore(init), scores[|scores| - 1].score, total, TotalScore(scores));
    }
  }

  lemma ZeroShare(p: real, total: real)
    requires total != 0.0
    ensures p * (0.0 / total) == 0.0
  {
  }

  lemma ShareSplit(p: real, t: real, s: real, total: real, tsum: real)
    requires total != 0.0 && tsum == t + s
    ensures p * (tsum / total) == p * (t / total) + p * (s / total)
  {
    DivSplit(t, s, total);
  }

  lemma PaidAppend(allocs: seq<Allocation>, a: Allocation)
    ensures Paid(allocs + [a]) == Paid(allocs) + a.amount.GetOr(0)
  {
    assert (allocs + [a])[..|allocs|] == allocs;
  }

  /** One score's payout: a non-negative number of milli-units, at most its exact share and less than one below it. */
  lemma AllocationOfBounds(s: ScoreRow, pool: real, total: real)
    requires total > 0.0 && pool >= 0.0 && s.score >= 0.0
    ensures var a := AllocationOf(s, pool, total);
      a.amount.Some? && 0 <= a.amount.value && a.amount.value as real <= pool * (s.score / total) * 1000.0
      && a.amount.value as real <= pool * 1000.0 * (s.score / total)
      && pool * (s.score / total) * 1000.0 < a.amount.value as real + 1.0
      && pool * 1000.0 * (s.score / total) < a.amount.value as real + 1.0
  {
    var share := s.score / total;
    assert share >= 0.0;
    MulMono(pool, 0.0, share);
  }

  /**
   * When the total is the sum of the scores paid, the payouts stay within the
   * pool and miss less than one milli-unit per score of it.
   */
  lemma AllocateWithinPool(scores: seq<ScoreRow>, pool: real)
    requires TotalScore(scores) > 0.0 && pool >= 0.0
    requires forall k :: 0 <= k < |scores| ==> scores[k].score >= 0.0
    ensures Paid(Allocate(scores, pool, TotalScore(scores))) as real <= pool * 1000.0
    ensures pool * 1000.0 < Paid(Allocate(scores, pool, TotalScore(scores))) as real + |scores| as real
  {
    AllocatePaid(scores, pool, TotalScore(scores));
    assert TotalScore(scores) / TotalScore(scores) == 1.0;
  }

  /** Scores 3 and 1 sharing a pool of 40 get 30 and 10. */
  lemma AllocateExample()
    ensures Allocate([ScoreRow("a", 0, 3.0), ScoreRow("b", 0, 1.0)], 40.0, 4.0)
         == [Allocation("a", Some(30000), 3.0, Some(0.75)), Allocation("b", Some(10000), 1.0, Some(0.25))]
  {
    assert Milli(40.0 * 0.75) == 30000;
    assert Milli(40.0 * 0.25) == 10000;
  }

  /** The allocation loop itself. */
  method BuildAllocations(scores: seq<ScoreRow>, pool: real, total: real) returns (allocs: seq<Allocation>)
    ensures allocs == Allocate(scores, pool, total)
  {
    allocs := [];
    for i := 0 to |scores|
      invariant allocs == Allocate(scores[..i], pool, total)
    {
      var s := scores[i];
      var a: Allocation;
      if total == 0.0 {
        a := Allocation(s.account, None, s.score, None);
      } else {
        var share := s.score / total;
        var amount := ShareAmount(pool, share);
        a := Allocation(s.account, Some(amount), s.score, Some(share));
      }
      assert Allocate(scores[..i + 1], pool, total) == Allocate(scores[..i], pool, total) + [AllocationOf(s, pool, total)];
      assert scores[..i + 1][..i] == scores[..i];
      allocs := allocs + [a];
    }
    assert scores[..|scores|] == scores;
  }

  // -------------------------------------------------------- the curated payout

  /** Day of the week of `t`, 0 for Sunday, as `getUTCDay` numbers it; the epoch began on a Thursday. */
  function WeekDay(t: int): int {
    (t / DAY + 4) % 7
  }

  /** The curated window: Monday 00:00 to the end of the Sunday on or before the day of `now`. */
  function WeekBounds(now: int): (int, int) {
    var sunday := now / DAY - WeekDay(now);
    ((sunday - 6) * DAY, sunday * DAY + DAY - 1)
  }

  /** The window is seven whole days from a Monday to a Sunday, and its Sunday is the latest one not after today. */
  lemma WeekBoundsShape(now: int)
    ensures var (s, e) := WeekBounds(now);
      s % DAY == 0 && e - s == 7 * DAY - 1 && WeekDay(s) == 1 && WeekDay(e) == 0
      && now - 7 * DAY < e < now + DAY
  {
    var d := now / DAY;
    var sunday := d - WeekDay(now);
    assert (sunday * DAY + DAY - 1) / DAY == sunday;
    assert ((sunday - 6) * DAY) / DAY == sunday - 6;
    assert (sunday + 4) % 7 == 0;
    assert (sunday - 6 + 4) % 7 == 1;
  }

  datatype CuratorVote = CuratorVote(contentId: string, curator: string, createdAt: int)

  /** A row of the curated query: a content, its number of votes in the week and their curators. */
  datatype Voted = Voted(contentId: string, author: string, voteCount: int, curators: seq<string>)

  /** The votes on `id` cast in `[start, end]`, in table order. */
  function WeekVotes(votes: seq<CuratorVote>, id: string, start: int, end: int): seq<CuratorVote> {
    Filter(votes, (v: CuratorVote) => v.contentId == id && start <= v.createdAt <= end)
  }

  /** `array_agg(cv.curator)`. */
  function Curators(vs: seq<CuratorVote>): (cs: seq<string>)
    ensures |cs| == |vs|
    ensures forall k :: 0 <= k < |vs| ==> cs[k] == vs[k].curator
  {
    seq(|vs|, k requires 0 <= k < |vs| => vs[k].curator)
  }

  function VotedOf(c: ContentRow, votes: seq<CuratorVote>, start: int, end: int): Voted {
    var vs := WeekVotes(votes, c.contentId, start, end);
    Voted(c.contentId, c.author, |vs|, Curators(vs))
  }

  /** The join and `GROUP BY`: every burn-valid content voted on in `[start, end]`, in table order. */
  function Candidates(contents: seq<ContentRow>, votes: seq<CuratorVote>, start: int, end: int): seq<Voted> {
    if contents == [] then []
    else
      var c := contents[|contents| - 1];
      Candidates(contents[..|contents| - 1], votes, start, end)
        + (if c.burnValid == Some(true) && WeekVotes(votes, c.contentId, start, end) != [] then [VotedOf(c, votes, start, end)] else [])
  }

  /** The query yields exactly the burn-valid contents with a vote in the window, each with its count and curators. */
  lemma {:induction false} CandidatesMeaning(contents: seq<ContentRow>, votes: seq<CuratorVote>, start: int, end: int)
    ensures forall v :: v in Candidates(contents, votes, start, end) <==>
      exists c :: c in contents && c.burnValid == Some(true) && WeekVotes(votes, c.contentId, start, end) != []
                  && v == VotedOf(c, votes, start, end)
    ensures forall v :: v in Candidates(contents, votes, start, end) ==> v.voteCount >= 1 && |v.curators| == v.voteCount
  {
    if contents != [] {
      var init := contents[..|contents| - 1];
      var c := contents[|contents| - 1];
      CandidatesMeaning(init, votes, start, end);
      LastSplit(contents);
    }
  }

  /** `ORDER BY vote_count DESC LIMIT 200`. */
  function SelectCurated(contents: seq<ContentRow>, votes: seq<CuratorVote>, start: int, end: int): seq<Voted> {
    Take(SortByDesc(Candidates(contents, votes, start, end), VoteCount), NCurated)
  }

  /** The ranking key: the number of curator votes. */
  function VoteCount(v: Voted): int {
    v.voteCount
  }

  /**
   * The selection is the top of the ranking: at most 200 contents, all from
   * the query, most votes first, and none left out has more votes than one
   * selected.
   */
  lemma SelectionIsTop(contents: seq<ContentRow>, votes: seq<CuratorVote>, start: int, end: int)
    ensures var r := SelectCurated(contents, votes, start, end);
      |r| <= NCurated
      && (forall i, j :: 0 <= i < j < |r| ==> VoteCount(r[i]) >= VoteCount(r[j]))
      && (forall v :: v in r ==> v in Candidates(contents, votes, start, end))
      && (forall v, w :: v in Candidates(contents, votes, start, end) && v !in r && w in r ==> VoteCount(v) <= VoteCount(w))
  {
    RankingTop(Candidates(contents, votes, start, end));
  }

  lemma RankingTop(cands: seq<Voted>)
    ensures var r := Take(SortByDesc(cands, VoteCount), NCurated);
      |r| <= NCurated
      && (forall i, j :: 0 <= i < j < |r| ==> VoteCount(r[i]) >= VoteCount(r[j]))
      && (forall v :: v in r ==> v in cands)
      && (forall v, w :: v in cands && v !in r && w in r ==> VoteCount(v) <= VoteCount(w))
  {
    TopOfRanking(cands, VoteCount, NCurated);
  }

  datatype EntryReason = CuratedAuthor | CuratedCurator

  /** One line of the curated payout list. */
  datatype Entry = Entry(account: string, amount: int, reason: EntryReason, contentId: string)

  function Total(entries: seq<Entry>): int {
    if entries == [] then 0 else Total(entries[..|entries| - 1]) + entries[|entries| - 1].amount
  }

  lemma {:induction false} TotalConcat(a: seq<Entry>, b: seq<Entry>)
    ensures Total(a + b) == Total(a) + Total(b)
    decreases |b|
  {
    if b == [] {
      assert a + b == a;
    } else {
      TotalConcat(a, b[..|b| - 1]);
      assert (a + b)[..|a + b| - 1] == a + b[..|b| - 1];
    }
  }

  /** Lines that all pay `m` pay `m` times their number. */
  lemma {:induction false} TotalConst(entries: seq<Entry>, m: int)
    requires forall k :: 0 <= k < |entries| ==> entries[k].amount == m
    ensures Total(entries) == |entries| * m
  {
    if entries != [] {
      TotalConst(entries[..|entries| - 1], m);
    }
  }

  /** A content's reward: its votes' share of the pool. */
  function ContentReward(pool: real, votes: int, totalVotes: int): real
    requires totalVotes > 0
  {
    pool * (votes as real / totalVotes as real)
  }

  /** A non-negative pool gives every content with non-negative votes a non-negative reward. */
  lemma ContentRewardNonNegative(pool: real, votes: int, totalVotes: int)
    requires totalVotes > 0 && pool >= 0.0 && votes >= 0
    ensures ContentReward(pool, votes, totalVotes) >= 0.0
  {
    MulMono(pool, 0.0, votes as real / totalVotes as real);
  }

  /** The author's part, `Math.floor(reward * 0.80 * 1000) / 1000`, in milli-units: less than one below 80%. */
  function AuthorAmount(reward: real): (m: int)
    ensures reward >= 0.0 ==> 0 <= m && m as real <= reward * 800.0
    ensures reward * 800.0 < m as real + 1.0
  {
    Milli(reward * 0.80)
  }

  /** Each curator's part, `Math.floor(reward * 0.20 / n * 1000) / 1000`; 0 without curators. */
  function CuratorAmount(reward: real, n: nat): (m: int)
    ensures reward >= 0.0 ==> 0 <= m
  {
    Milli(if n > 0 then reward * 0.20 / n as real else 0.0)
  }

  /**
   * The curators' parts of a non-negative reward add up to at most its 20%,
   * and, when there are curators, fall short of it by less than one milli-unit each.
   */
  lemma CuratorShareBound(reward: real, n: nat)
    requires reward >= 0.0
    ensures n as real * CuratorAmount(reward, n) as real <= reward * 200.0
    ensures n > 0 ==> reward * 200.0 < n as real * CuratorAmount(reward, n) as real + n as real
  {
    if n > 0 {
      var share := reward * 0.20 / n as real;
      var m := Milli(share);
      assert m as real <= share * 1000.0 < m as real + 1.0;
      assert n as real * (share * 1000.0) == reward * 200.0;
      MulMono(n as real, m as real, share * 1000.0);
      PartsBelow(reward * 200.0, n as real, m as real, share * 1000.0);
    }
  }

  /** `n` parts each less than one above `m` and together `r` make `r` less than `n * m + n`. */
  lemma PartsBelow(r: real, n: real, m: real, x: real)
    requires n > 0.0 && n * x == r && x < m + 1.0
    ensures r < n * m + n
  {
    MulStrict(n, x, m + 1.0);
  }

  lemma MulStrict(a: real, b: real, c: real)
    requires a > 0.0 && b < c
    ensures a * b < a * c
  {
  }

  /** One line per curator vote, each paying `m`. */
  function CuratorLines(v: Voted, m: int): (r: seq<Entry>)
    ensures |r| == |v.curators|
    ensures forall k :: 0 <= k < |r| ==> r[k] == Entry(v.curators[k], m, CuratedCurator, v.contentId)
  {
    seq(|v.curators|, k requires 0 <= k < |v.curators| => Entry(v.curators[k], m, CuratedCurator, v.contentId))
  }

  /** The author's line, then one line per curator vote. */
  function SplitEntries(v: Voted, reward: real): seq<Entry> {
    [Entry(v.author, AuthorAmount(reward), CuratedAuthor, v.contentId)]
      + CuratorLines(v, CuratorAmount(reward, |v.curators|))
  }

  /** The lines of one content: the author first, then its curators in vote order, all for that content. */
  lemma SplitShape(v: Voted, reward: real)
    ensures var es := SplitEntries(v, reward);
      |es| == 1 + |v.curators|
      && es[0].account == v.author && es[0].reason == CuratedAuthor
      && (forall k :: 1 <= k < |es| ==> es[k].account == v.curators[k - 1] && es[k].reason == CuratedCurator)
      && (forall k :: 0 <= k < |es| ==> es[k].contentId == v.contentId)
  {
  }

  /**
   * The 80/20 split of a non-negative reward pays nothing negative and never
   * more than the reward. It falls short of the reward by less than one
   * milli-unit per line when the content has curators; without curators only
   * the author's 80% is paid.
   */
  lemma SplitWithinReward(v: Voted, reward: real)
    requires reward >= 0.0
    ensures forall e :: e in SplitEntries(v, reward) ==> e.amount >= 0
    ensures Total(SplitEntries(v, reward)) as real <= reward * 1000.0
    ensures v.curators != [] ==> reward * 1000.0 < Total(SplitEntries(v, reward)) as real + |SplitEntries(v, reward)| as real
    ensures v.curators == [] ==> reward * 800.0 < Total(SplitEntries(v, reward)) as real + 1.0
  {
    var n := |v.curators|;
    var m := CuratorAmount(reward, n);
    var a := AuthorAmount(reward);
    var author := [Entry(v.author, a, CuratedAuthor, v.contentId)];
    var curators := CuratorLines(v, m);
    TotalConcat(author, curators);
    assert Total(author) == a;
    TotalConst(curators, m);
    CuratorShareBound(reward, n);
    PartsWithin(a, n * m, reward);
    if n > 0 {
      PartsAbove(a, n * m, n, reward);
    }
  }

  /** Parts within 80% and 20% of a reward, in thousandths, stay within the whole reward. */
  lemma PartsWithin(a: int, c: int, reward: real)
    requires a as real <= reward * 800.0 && c as real <= reward * 200.0
    ensures (a + c) as real <= reward * 1000.0
  {
  }

  /** Parts less than one, and less than `n`, below 80% and 20% of a reward fall less than `n + 1` short of it. */
  lemma PartsAbove(a: int, c: int, n: nat, reward: real)
    requires reward * 800.0 < a as real + 1.0 && reward * 200.0 < c as real + n as real
    ensures reward * 1000.0 < (a + c) as real + (1 + n) as real
  {
  }

  /** A reward of 100 with two curators pays the author 80 and each curator 10. */
  lemma SplitExample()
    ensures SplitEntries(Voted("@a/p", "a", 2, ["c", "d"]), 100.0)
         == [Entry("a", 80000, CuratedAuthor, "@a/p"), Entry("c", 10000, CuratedCurator, "@a/p"),
             Entry("d", 10000, CuratedCurator, "@a/p")]
  {
    assert AuthorAmount(100.0) == 80000;
    assert CuratorAmount(100.0, 2) == 10000;
  }

  function VoteTotal(selected: seq<Voted>): int {
    if selected == [] then 0 else VoteTotal(selected[..|selected| - 1]) + selected[|selected| - 1].voteCount
  }

  /** The payout list of the curated loop: each content's lines in selection order. */
  function CuratedEntries(selected: seq<Voted>, pool: real, totalVotes: int): seq<Entry>
    requires totalVotes > 0
  {
    if selected == [] then []
    else
      var v := selected[|selected| - 1];
      CuratedEntries(selected[..|selected| - 1], pool, totalVotes) + SplitEntries(v, ContentReward(pool, v.voteCount, totalVotes))
  }

  /** The sum of the contents' rewards. */
  function Rewards(selected: seq<Voted>, pool: real, totalVotes: int): real
    requires totalVotes > 0
  {
    if selected == [] then 0.0
    else
      var v := selected[|selected| - 1];
      Rewards(selected[..|selected| - 1], pool, totalVotes) + ContentReward(pool, v.voteCount, totalVotes)
  }

  /** With non-negative counts, no curated line pays a negative amount. */
  lemma {:induction false} CuratedNonNegative(selected: seq<Voted>, pool: real, totalVotes: int)
    requires totalVotes > 0 && pool >= 0.0
    requires forall k :: 0 <= k < |selected| ==> selected[k].voteCount >= 0
    ensures forall e :: e in CuratedEntries(selected, pool, totalVotes) ==> e.amount >= 0
  {
    if selected != [] {
      var v := selected[|selected| - 1];
      CuratedNonNegative(selected[..|selected| - 1], pool, totalVotes);
      ContentRewardNonNegative(pool, v.voteCount, totalVotes);
      SplitWithinReward(v, ContentReward(pool, v.voteCount, totalVotes));
    }
  }

  /** One more content adds its own lines' total. */
  lemma CuratedSnoc(selected: seq<Voted>, pool: real, totalVotes: int)
    requires totalVotes > 0 && selected != []
    ensures var v := selected[|selected| - 1];
      Total(CuratedEntries(selected, pool, totalVotes))
        == Total(CuratedEntries(selected[..|selected| - 1], pool, totalVotes))
         + Total(SplitEntries(v, ContentReward(pool, v.voteCount, totalVotes)))
  {
    var v := selected[|selected| - 1];
    TotalConcat(CuratedEntries(selected[..|selected| - 1], pool, totalVotes),
                SplitEntries(v, ContentReward(pool, v.voteCount, totalVotes)));
  }

  /** Every content of the selection has at least one curator. */
  predicate AllCurated(selected: seq<Voted>) {
    forall k :: 0 <= k < |selected| ==> selected[k].curators != []
  }

  /**
   * With non-negative counts, the curated lines pay at most the sum of the
   * contents' rewards; when every content has curators they fall short of it
   * by less than one milli-unit per line.
   */
  lemma {:induction false} CuratedBounds(selected: seq<Voted>, pool: real, totalVotes: int)
    requires totalVotes > 0 && pool >= 0.0
    requires forall k :: 0 <= k < |selected| ==> selected[k].voteCount >= 0
    ensures Total(CuratedEntries(selected, pool, totalVotes)) as real <= Rewards(selected, pool, totalVotes) * 1000.0
    ensures AllCurated(selected) ==>
      Rewards(selected, pool, totalVotes) * 1000.0
        <= Total(CuratedEntries(selected, pool, totalVotes)) as real + |CuratedEntries(selected, pool, totalVotes)| as real
    ensures AllCurated(selected) && selected != [] ==>
      Rewards(selected, pool, totalVotes) * 1000.0
        < Total(CuratedEntries(selected, pool, totalVotes)) as real + |CuratedEntries(selected, pool, totalVotes)| as real
  {
    if selected != [] {
      var init := selected[..|selected| - 1];
      var v := selected[|selected| - 1];
      var reward := ContentReward(pool, v.voteCount, totalVotes);
      CuratedBounds(init, pool, totalVotes);
      ContentRewardNonNegative(pool, v.voteCount, totalVotes);
      SplitWithinReward(v, reward);
      CuratedSnoc(selected, pool, totalVotes);
      if AllCurated(selected) {
        assert AllCurated(init) by {
          forall k | 0 <= k < |init| ensures init[k].curators != [] {
            assert init[k] == selected[k];
          }
        }
        assert v.curators != [];
        assert |CuratedEntries(selected, pool, totalVotes)|
            == |CuratedEntries(init, pool, totalVotes)| + |SplitEntries(v, reward)|;
      }
    }
  }

  lemma ShareAdd(pool: real, t: real, c: real, tv: real)
    requires tv != 0.0
    ensures pool * (t / tv) + pool * (c / tv) == pool * ((t + c) / tv)
  {
    DivSplit(t, c, tv);
  }

  /** The contents' rewards add up to the pool's part for their votes. */
  lemma {:induction false} RewardsShare(selected: seq<Voted>, pool: real, totalVotes: int)
    requires totalVotes > 0
    ensures Rewards(selected, pool, totalVotes) == pool * (VoteTotal(selected) as real / totalVotes as real)
  {
    if selected != [] {
      var init := selected[..|selected| - 1];
      var v := selected[|selected| - 1];
      RewardsShare(init, pool, totalVotes);
      ShareAdd(pool, VoteTotal(init) as real, v.voteCount as real, totalVotes as real);
    }
  }

  /**
   * When the total is the votes of the selection, the curated payouts stay
   * within the pool; when every content has curators they miss less than one
   * milli-unit per line of it.
   */
  lemma CuratedWithinPool(selected: seq<Voted>, pool: real)
    requires VoteTotal(selected) > 0 && pool >= 0.0
    requires forall k :: 0 <= k < |selected| ==> selected[k].voteCount >= 0
    ensures Total(CuratedEntries(selected, pool, VoteTotal(selected))) as real <= pool * 1000.0
    ensures AllCurated(selected) ==>
      pool * 1000.0 < Total(CuratedEntries(selected, pool, VoteTotal(selected))) as real
        + |CuratedEntries(selected, pool, VoteTotal(selected))| as real
  {
    CuratedBounds(selected, pool, VoteTotal(selected));
    RewardsShare(selected, pool, VoteTotal(selected));
    WholeShare(pool, VoteTotal(selected) as real);
  }

  lemma WholeShare(pool: real, t: real)
    requires t != 0.0
    ensures pool * (t / t) == pool
  {
    assert t / t == 1.0;
  }

  /** The inner loop: one line per curator of `v`, each paying `m`. */
  method PushCurators(entries: seq<Entry>, v: Voted, m: int) returns (out: seq<Entry>)
    ensures out == entries + CuratorLines(v, m)
  {
    out := entries;
    for j := 0 to |v.curators|
      invariant out == entries + CuratorLines(v, m)[..j]
    {
      out := out + [Entry(v.curators[j], m, CuratedCurator, v.contentId)];
    }
    assert CuratorLines(v, m)[..|v.curators|] == CuratorLines(v, m);
  }

  /** The curated loop: for each content, push the author's line, then one line per curator. */
  method BuildEntries(selected: seq<Voted>, pool: real, totalVotes: int) returns (entries: seq<Entry>)
    requires totalVotes > 0
    ensures entries == CuratedEntries(selected, pool, totalVotes)
  {
    entries := [];
    for i := 0 to |selected|
      invariant entries == CuratedEntries(selected[..i], pool, totalVotes)
    {
      var v := selected[i];
      var reward := ContentReward(pool, v.voteCount, totalVotes);
      ghost var before := entries;
      entries := entries + [Entry(v.author, AuthorAmount(reward), CuratedAuthor, v.contentId)];
      entries := PushCurators(entries, v, CuratorAmount(reward, |v.curators|));
      assert entries == before + SplitEntries(v, reward);
      assert selected[..i + 1][..i] == selected[..i];
    }
    assert selected[..|selected|] == selected;
  }

  // ---------------------------------------------------- aggregation by account

  /** A line of an account's `details`. */
  datatype Detail = Detail(reason: EntryReason, contentId: string, amount: int)

  /** An entry of `byAccount`. */
  datatype AccountPayout = AccountPayout(amount: int, details: seq<Detail>)

  function DetailOf(e: Entry): Detail {
    Detail(e.reason, e.contentId, e.amount)
  }

  /** What the lines of `entries` pay `a`. */
  function AccountTotal(entries: seq<Entry>, a: string): int {
    if entries == [] then 0
    else
      var e := entries[|entries| - 1];
      AccountTotal(entries[..|entries| - 1], a) + (if e.account == a then e.amount else 0)
  }

  /** The lines of `entries` paying `a`, in order. */
  function AccountDetails(entries: seq<Entry>, a: string): seq<Detail> {
    if entries == [] then []
    else
      var e := entries[|entries| - 1];
      AccountDetails(entries[..|entries| - 1], a) + (if e.account == a then [DetailOf(e)] else [])
  }

  function AccountsOf(entries: seq<Entry>): (r: seq<string>)
    ensures |r| == |entries|
    ensures forall k :: 0 <= k < |entries| ==> r[k] == entries[k].account
  {
    seq(|entries|, k requires 0 <= k < |entries| => entries[k].account)
  }

  /** Every line paying `a` is listed in `a`'s details, and the details list nothing else. */
  lemma {:induction false} DetailsComplete(entries: seq<Entry>, a: string)
    ensures forall e :: e in entries && e.account == a ==> DetailOf(e) in AccountDetails(entries, a)
    ensures forall d :: d in AccountDetails(entries, a) ==> exists e :: e in entries && e.account == a && d == DetailOf(e)
  {
    if entries != [] {
      var init := entries[..|entries| - 1];
      DetailsComplete(init, a);
      LastSplit(entries);
    }
  }

  /** The sum of the account totals of the accounts in `order`. */
  function TotalOver(order: seq<string>, entries: seq<Entry>): int {
    if order == [] then 0 else TotalOver(order[..|order| - 1], entries) + AccountTotal(entries, order[|order| - 1])
  }

  /** What the lines of `entries` pay the accounts in `s`. */
  function TotalIn(entries: seq<Entry>, s: set<string>): int {
    if entries == [] then 0
    else
      var e := entries[|entries| - 1];
      TotalIn(entries[..|entries| - 1], s) + (if e.account in s then e.amount else 0)
  }

  lemma {:induction false} TotalInAdd(entries: seq<Entry>, s: set<string>, a: string)
    requires a !in s
    ensures TotalIn(entries, s + {a}) == TotalIn(entries, s) + AccountTotal(entries, a)
  {
    if entries != [] {
      TotalInAdd(entries[..|entries| - 1], s, a);
    }
  }

  lemma {:induction false} TotalInAll(entries: seq<Entry>, s: set<string>)
    requires forall k :: 0 <= k < |entries| ==> entries[k].account in s
    ensures TotalIn(entries, s) == Total(entries)
  {
    if entries != [] {
      TotalInAll(entries[..|entries| - 1], s);
    }
  }

  lemma {:induction false} TotalOverIn(order: seq<string>, entries: seq<Entry>)
    requires forall x :: multiset(order)[x] <= 1
    ensures TotalOver(order, entries) == TotalIn(entries, set x | x in order)
  {
    if order == [] {
      assert (set x | x in order) == {};
      TotalInNone(entries);
    } else {
      var init := order[..|order| - 1];
      var a := order[|order| - 1];
      LastSplit(order);
      assert multiset(order) == multiset(init) + multiset{a};
      assert multiset(order)[a] == multiset(init)[a] + 1;
      assert multiset(init)[a] == 0;
      forall x ensures multiset(init)[x] <= 1 {
        assert multiset(init)[x] <= multiset(order)[x];
      }
      TotalOverIn(init, entries);
      TotalInAdd(entries, (set x | x in init), a);
      assert (set x | x in order) == (set x | x in init) + {a};
    }
  }

  lemma {:induction false} TotalInNone(entries: seq<Entry>)
    ensures TotalIn(entries, {}) == 0
  {
    if entries != [] {
      TotalInNone(entries[..|entries| - 1]);
    }
  }

  /** Aggregating keeps the grand total: the accounts' totals add up to the whole payout list. */
  lemma AggregateTotal(entries: seq<Entry>)
    ensures TotalOver(Distinct(AccountsOf(entries)), entries) == Total(entries)
  {
    var order := Distinct(AccountsOf(entries));
    TotalOverIn(order, entries);
    forall k | 0 <= k < |entries| ensures entries[k].account in set x | x in order {
      assert AccountsOf(entries)[k] == entries[k].account;
      assert multiset(order)[entries[k].account] == 1;
    }
    TotalInAll(entries, (set x | x in order));
  }

  /** One more line grows its account's total and details by it, and no other account's. */
  lemma AccountStep(entries: seq<Entry>, i: int, a: string)
    requires 0 <= i < |entries|
    ensures AccountTotal(entries[..i + 1], a) == AccountTotal(entries[..i], a) + (if entries[i].account == a then entries[i].amount else 0)
    ensures AccountDetails(entries[..i + 1], a) == AccountDetails(entries[..i], a) + (if entries[i].account == a then [DetailOf(entries[i])] else [])
  {
    assert entries[..i + 1][..i] == entries[..i];
  }

  /** One more line joins the accounts, in first-appearance order, if its account is new. */
  lemma AggregateNext(entries: seq<Entry>, i: int)
    requires 0 <= i < |entries|
    ensures var seen := AccountsOf(entries[..i]);
      Distinct(AccountsOf(entries[..i + 1]))
        == if entries[i].account in Distinct(seen) then Distinct(seen) else Distinct(seen) + [entries[i].account]
  {
    assert entries[..i + 1][..i] == entries[..i];
    var seen := AccountsOf(entries[..i]);
    var next := AccountsOf(entries[..i + 1]);
    assert next[..|next| - 1] == seen;
    assert entries[i].account in seen <==> multiset(Distinct(seen))[entries[i].account] == 1;
  }

  /** `byAccount` and its key order hold exactly the accounts of `es`, each with its total and details. */
  ghost predicate Aggregated(byAccount: map<string, AccountPayout>, order: seq<string>, es: seq<Entry>) {
    && order == Distinct(AccountsOf(es))
    && (forall a :: a in byAccount <==> a in order)
    && (forall a :: a in byAccount ==> byAccount[a] == AccountPayout(AccountTotal(es, a), AccountDetails(es, a)))
  }

  /** An account no line pays has a zero total and no details. */
  lemma {:induction false} AccountAbsent(es: seq<Entry>, a: string)
    requires a !in AccountsOf(es)
    ensures AccountTotal(es, a) == 0 && AccountDetails(es, a) == []
  {
    if es != [] {
      var init := es[..|es| - 1];
      assert forall k :: 0 <= k < |init| ==> AccountsOf(init)[k] == AccountsOf(es)[k];
      AccountAbsent(init, a);
    }
  }

  /** The map after line `e` is added, as the loop body leaves it. */
  function AddLine(byAccount: map<string, AccountPayout>, e: Entry): (r: map<string, AccountPayout>)
    ensures r.Keys == byAccount.Keys + {e.account}
  {
    var cur := if e.account in byAccount then byAccount[e.account] else AccountPayout(0, []);
    byAccount[e.account := AccountPayout(cur.amount + e.amount, cur.details + [DetailOf(e)])]
  }

  /** The key order after line `e` is added. */
  function AddKey(byAccount: map<string, AccountPayout>, order: seq<string>, e: Entry): seq<string> {
    if e.account in byAccount then order else order + [e.account]
  }

  /** The body of the aggregation loop, adding line `i`, keeps the key order. */
  lemma AggregateStepOrder(byAccount: map<string, AccountPayout>, order: seq<string>, entries: seq<Entry>, i: int)
    requires 0 <= i < |entries| && Aggregated(byAccount, order, entries[..i])
    ensures AddKey(byAccount, order, entries[i]) == Distinct(AccountsOf(entries[..i + 1]))
    ensures forall a :: a in AddLine(byAccount, entries[i]) <==> a in AddKey(byAccount, order, entries[i])
  {
    AggregateNext(entries, i);
  }

  /** The body of the aggregation loop, adding line `i`, keeps every account's total and details. */
  lemma AggregateStepValues(byAccount: map<string, AccountPayout>, order: seq<string>, entries: seq<Entry>, i: int)
    requires 0 <= i < |entries| && Aggregated(byAccount, order, entries[..i])
    ensures var m := AddLine(byAccount, entries[i]);
      forall a :: a in m ==> m[a] == AccountPayout(AccountTotal(entries[..i + 1], a), AccountDetails(entries[..i + 1], a))
  {
    var e := entries[i];
    var m := AddLine(byAccount, e);
    forall a | a in m
      ensures m[a] == AccountPayout(AccountTotal(entries[..i + 1], a), AccountDetails(entries[..i + 1], a))
    {
      AccountStep(entries, i, a);
      if a == e.account && a !in byAccount {
        assert multiset(order)[a] == 0;
        AccountAbsent(entries[..i], a);
      }
    }
  }

  /** The body of the aggregation loop, adding line `i`, keeps `Aggregated`. */
  lemma AggregateStep(byAccount: map<string, AccountPayout>, order: seq<string>, entries: seq<Entry>, i: int)
    requires 0 <= i < |entries| && Aggregated(byAccount, order, entries[..i])
    ensures Aggregated(AddLine(byAccount, entries[i]), AddKey(byAccount, order, entries[i]), entries[..i + 1])
  {
    AggregateStepOrder(byAccount, order, entries, i);
    AggregateStepValues(byAccount, order, entries, i);
  }

  /** One pass of the aggregation loop: create the account's entry if new, then add the line to it. */
  method AddEntry(byAccount: map<string, AccountPayout>, order: seq<string>, e: Entry)
    returns (byAccount': map<string, AccountPayout>, order': seq<string>)
    ensures byAccount' == AddLine(byAccount, e) && order' == AddKey(byAccount, order, e)
  {
    byAccount' := byAccount;
    order' := order;
    if e.account !in byAccount' {
      byAccount' := byAccount'[e.account := AccountPayout(0, [])];
      order' := order' + [e.account];
    }
    var cur := byAccount'[e.account];
    assert cur == if e.account in byAccount then byAccount[e.account] else AccountPayout(0, []);
    byAccount' := byAccount'[e.account := AccountPayout(cur.amount + e.amount, cur.details + [DetailOf(e)])];
  }

  /** `byAccount`: one entry per account, in the order accounts first appear, summing its lines. */
  method Aggregate(entries: seq<Entry>) returns (byAccount: map<string, AccountPayout>, order: seq<string>)
    ensures order == Distinct(AccountsOf(entries))
    ensures forall a :: a in byAccount <==> a in order
    ensures forall a :: a in byAccount ==> byAccount[a] == AccountPayout(AccountTotal(entries, a), AccountDetails(entries, a))
  {
    byAccount := map[];
    order := [];
    assert entries[..0] == [];
    for i := 0 to |entries|
      invariant Aggregated(byAccount, order, entries[..i])
    {
      AggregateStep(byAccount, order, entries, i);
      byAccount, order := AddEntry(byAccount, order, entries[i]);
    }
    assert entries[..|entries|] == entries;
  }

  /** Aggregate `entries` and list the payout rows and the report's payouts, one per account in `byAccount` order. */
  method AccountRows(entries: seq<Entry>, ws: int, we: int) returns (rows: seq<(string, PayoutRow)>, report: seq<(string, int)>)
    ensures rows == CuratedRows(entries, ws, we)
    ensures report == CuratedReportRows(rows)
  {
    var byAccount, order := Aggregate(entries);
    rows := seq(|order|, k requires 0 <= k < |order| =>
      (order[k], PayoutRow(Some(byAccount[order[k]].amount), WeeklyCurated, CuratedMeta(ws, we, byAccount[order[k]].details))));
    report := seq(|order|, k requires 0 <= k < |order| => (order[k], byAccount[order[k]].amount));
  }

  /** The payout rows of the curated run: one per account, in the order accounts first appear. */
  function CuratedRows(entries: seq<Entry>, weekStart: int, weekEnd: int): seq<(string, PayoutRow)> {
    var order := Distinct(AccountsOf(entries));
    seq(|order|, k requires 0 <= k < |order| =>
      (order[k], PayoutRow(Some(AccountTotal(entries, order[k])), WeeklyCurated,
                           CuratedMeta(weekStart, weekEnd, AccountDetails(entries, order[k])))))
  }

  // ------------------------------------------------------- runs and payout rows

  datatype RunKind = DailyParticipation | WeeklyCurated

  datatype RunStatus = Planned | Executed | Failed

  /** `pr-<kind>-<Date.now()>`: a run is named by its kind and its creation time. */
  datatype RunId = RunId(kind: RunKind, createdAt: int)

  datatype Report =
    | EmptyReport                         // `{}` at creation
    | NoScores(date: int)
    | ParticipationReport(date: int, emissions: int, pool: real, totalScore: real, payouts: seq<(string, Option<int>)>)
    | NoContent
    | CuratedReport(weekStart: int, weekEnd: int, weeklyEmissions: int, pool: real, contentCount: int,
                    paid: seq<(string, int)>)
    | ErrorReport                          // `{ error: err.message }`

  /** A `payout_runs` row; `txIds` is None until the first update sets `executed_tx_ids`. */
  datatype PayoutRun = PayoutRun(kind: RunKind, periodStart: int, periodEnd: int, status: RunStatus,
                                 report: Report, txIds: Option<seq<string>>)

  datatype PayoutMeta =
    | ParticipationMeta(date: int, score: real, share: Option<real>, totalScore: real)
    | CuratedMeta(weekStart: int, weekEnd: int, details: seq<Detail>)

  /** A `payouts` row; the reason is the run kind's name. */
  datatype PayoutRow = PayoutRow(amount: Option<int>, reason: RunKind, meta: PayoutMeta)

  type PayoutKey = (RunId, string)

  /** The payout upserts of `rows` for run `id`, in order. */
  function Recorded(m: map<PayoutKey, PayoutRow>, id: RunId, rows: seq<(string, PayoutRow)>): map<PayoutKey, PayoutRow> {
    if rows == [] then m
    else
      var last := rows[|rows| - 1];
      Recorded(m, id, rows[..|rows| - 1])[(id, last.0) := last.1]
  }

  /**
   * The upsert on (run, account): a run's rows are keyed by account, an
   * account written several times keeps its last row, and other runs' rows
   * are untouched.
   */
  lemma {:induction false} RecordedAt(m: map<PayoutKey, PayoutRow>, id: RunId, rows: seq<(string, PayoutRow)>, key: PayoutKey)
    ensures key.0 != id ==> (key in Recorded(m, id, rows) <==> key in m)
    ensures key.0 != id && key in m ==> Recorded(m, id, rows)[key] == m[key]
    ensures key.0 == id ==> (key in Recorded(m, id, rows) <==> key in m || exists k :: 0 <= k < |rows| && rows[k].0 == key.1)
    ensures forall k :: 0 <= k < |rows| && key == (id, rows[k].0) && (forall j :: k < j < |rows| ==> rows[j].0 != rows[k].0)
              ==> Recorded(m, id, rows)[key] == rows[k].1
    ensures key.0 == id && key in m && (forall k :: 0 <= k < |rows| ==> rows[k].0 != key.1) ==> Recorded(m, id, rows)[key] == m[key]
  {
    if rows != [] {
      var init := rows[..|rows| - 1];
      RecordedAt(m, id, init, key);
      assert forall k :: 0 <= k < |init| ==> init[k] == rows[k];
    }
  }

  function ParticipationRows(allocs: seq<Allocation>, date: int, total: real): seq<(string, PayoutRow)> {
    seq(|allocs|, k requires 0 <= k < |allocs| =>
      (allocs[k].account, PayoutRow(allocs[k].amount, DailyParticipation,
                                    ParticipationMeta(date, allocs[k].score, allocs[k].share, total))))
  }

  function ReportPayouts(allocs: seq<Allocation>): seq<(string, Option<int>)> {
    seq(|allocs|, k requires 0 <= k < |allocs| => (allocs[k].account, allocs[k].amount))
  }

  /** How a run ended: completed, or thrown (with the run if it had been created). */
  datatype Outcome = Completed(id: RunId) | Threw(created: Option<RunId>)

  /**
   * The end of a run that records `rows`: `failed` after the write `fault`
   * threw, with the rows before it recorded; otherwise every row recorded and
   * the run `executed` with `report`. Transfer ids are empty either way.
   */
  ghost predicate Finished(runs: map<RunId, PayoutRun>, payouts: map<PayoutKey, PayoutRow>, id: RunId,
                           rows: seq<(string, PayoutRow)>, report: Report, fault: Option<nat>,
                           outcome: Outcome, runs': map<RunId, PayoutRun>, payouts': map<PayoutKey, PayoutRow>)
    requires id in runs
  {
    if fault.Some? && fault.value < |rows| then
      outcome == Threw(Some(id)) && payouts' == Recorded(payouts, id, rows[..fault.value])
      && runs' == runs[id := runs[id].(status := Failed, report := ErrorReport, txIds := Some([]))]
    else
      outcome == Completed(id) && payouts' == Recorded(payouts, id, rows)
      && runs' == runs[id := runs[id].(status := Executed, txIds := Some([]), report := report)]
  }

  /**
   * The end state of a participation run whose row `id` exists in `runs`:
   * no scores for `date` completes with a `NoScores` report and no payouts;
   * otherwise every score is paid from 30% of the emissions `e`, and the run
   * is `executed` with its report, or `failed` after the write `fault` threw.
   */
  ghost predicate ParticipationDone(runs: map<RunId, PayoutRun>, payouts: map<PayoutKey, PayoutRow>, id: RunId,
                                    table: seq<ScoreRow>, date: int, e: int, fault: Option<nat>,
                                    outcome: Outcome, runs': map<RunId, PayoutRun>, payouts': map<PayoutKey, PayoutRow>)
    requires id in runs
  {
    var scores := ScoresOn(table, date);
    if scores == [] then
      outcome == Completed(id) && payouts' == payouts
      && runs' == runs[id := runs[id].(status := Executed, report := NoScores(date), txIds := Some([]))]
    else
      var plan := ParticipationPlan(scores, date, e);
      Finished(runs, payouts, id, plan.0, plan.1, fault, outcome, runs', payouts')
  }

  /** The rows and the report of a day's participation payment: 30% of the emissions `e` split by score. */
  function ParticipationPlan(scores: seq<ScoreRow>, date: int, e: int): (seq<(string, PayoutRow)>, Report) {
    var total := TotalScore(scores);
    var allocs := Allocate(scores, e as real * 0.30, total);
    (ParticipationRows(allocs, date, total), ParticipationReport(date, e, e as real * 0.30, total, ReportPayouts(allocs)))
  }

  /** The report's `payouts`: each recorded account with its amount. */
  function CuratedReportRows(rows: seq<(string, PayoutRow)>): (r: seq<(string, int)>)
    ensures |r| == |rows|
    ensures forall k :: 0 <= k < |r| ==> r[k] == (rows[k].0, rows[k].1.amount.GetOr(0))
  {
    seq(|rows|, k requires 0 <= k < |rows| => (rows[k].0, rows[k].1.amount.GetOr(0)))
  }

  /**
   * The end state of a curated run whose row `id` exists in `runs`: nothing
   * selected completes with a `NoContent` report and no payouts; otherwise
   * the selection's lines are aggregated per account and recorded, and the
   * run is `executed` with its report, or `failed` after the write `fault`
   * threw.
   */
  ghost predicate CuratedDone(runs: map<RunId, PayoutRun>, payouts: map<PayoutKey, PayoutRow>, id: RunId,
                              selected: seq<Voted>, ws: int, we: int, weekly: int, fault: Option<nat>,
                              outcome: Outcome, runs': map<RunId, PayoutRun>, payouts': map<PayoutKey, PayoutRow>)
    requires id in runs
  {
    if selected == [] then
      outcome == Completed(id) && payouts' == payouts
      && runs' == runs[id := runs[id].(status := Executed, report := NoContent, txIds := Some([]))]
    else
      VoteTotal(selected) > 0
      && var plan := CuratedPlan(selected, ws, we, weekly);
      Finished(runs, payouts, id, plan.0, plan.1, fault, outcome, runs', payouts')
  }

  /** The rows and the report of a week's curated payment: 60% of `weekly` split by votes. */
  function CuratedPlan(selected: seq<Voted>, ws: int, we: int, weekly: int): (seq<(string, PayoutRow)>, Report)
    requires VoteTotal(selected) > 0
  {
    var rows := CuratedRows(CuratedEntries(selected, weekly as real * 0.60, VoteTotal(selected)), ws, we);
    (rows, CuratedReport(ws, we, weekly, weekly as real * 0.60, |selected|, CuratedReportRows(rows)))
  }

  /** The store the distributor writes: `payout_runs` and `payouts`. */
  class Distributor {
    var runs: map<RunId, PayoutRun>
    var payouts: map<PayoutKey, PayoutRow>

    constructor()
      ensures runs == map[] && payouts == map[]
    {
      runs := map[];
      payouts := map[];
    }

    /** `createPayoutRun`: insert a `planned` run; the insert fails when the id is taken. */
    method CreatePayoutRun(kind: RunKind, periodStart: int, periodEnd: int, now: int) returns (id: Option<RunId>)
      modifies this
      ensures id.None? <==> RunId(kind, now) in old(runs)
      ensures id.Some? ==>
        id.value == RunId(kind, now) && runs == old(runs)[id.value := PayoutRun(kind, periodStart, periodEnd, Planned, EmptyReport, None)]
      ensures id.None? ==> runs == old(runs)
      ensures payouts == old(payouts)
    {
      var candidate := RunId(kind, now);
      if candidate in runs {
        return None;
      }
      runs := runs[candidate := PayoutRun(kind, periodStart, periodEnd, Planned, EmptyReport, None)];
      id := Some(candidate);
    }

    /** `updatePayoutRun`: set status, report and transfer ids of an existing run; no row, no change. */
    method UpdatePayoutRun(id: RunId, status: RunStatus, report: Report, txIds: seq<string>)
      modifies this
      ensures id in old(runs) ==> runs == old(runs)[id := old(runs)[id].(status := status, report := report, txIds := Some(txIds))]
      ensures id !in old(runs) ==> runs == old(runs)
      ensures payouts == old(payouts)
    {
      if id in runs {
        runs := runs[id := runs[id].(status := status, report := report, txIds := Some(txIds))];
      }
    }

    /** `recordPayout`: insert or replace the row of (run, account). */
    method RecordPayout(id: RunId, account: string, row: PayoutRow)
      modifies this
      ensures payouts == old(payouts)[(id, account) := row]
      ensures runs == old(runs)
    {
      payouts := payouts[(id, account) := row];
    }

    /** The record loop; the write numbered `fault`, if any, throws and ends it. */
    method RecordAll(id: RunId, rows: seq<(string, PayoutRow)>, fault: Option<nat>) returns (failed: bool)
      modifies this
      ensures failed <==> fault.Some? && fault.value < |rows|
      ensures failed ==> payouts == Recorded(old(payouts), id, rows[..fault.value])
      ensures !failed ==> payouts == Recorded(old(payouts), id, rows)
      ensures runs == old(runs)
    {
      for i := 0 to |rows|
        invariant payouts == Recorded(old(payouts), id, rows[..i])
        invariant fault.Some? ==> i <= fault.value
        invariant runs == old(runs)
      {
        if fault == Some(i) {
          return true;
        }
        assert rows[..i + 1][..i] == rows[..i];
        RecordPayout(id, rows[i].0, rows[i].1);
      }
      assert rows[..|rows|] == rows;
      return false;
    }

    /**
     * `runParticipationPayout` at time `now` for yesterday's scores in
     * `table`; `fault` names the payout write that throws, if any. Transfers
     * are never made, so the transfer ids are always empty.
     */
    method RunParticipationPayout(table: seq<ScoreRow>, now: int, launch: int, dryRun: bool, fault: Option<nat>)
        returns (outcome: Outcome)
      modifies this
      ensures var id := RunId(DailyParticipation, now);
        var (start, end) := YesterdayBounds(now);
        var run := PayoutRun(DailyParticipation, start, end, Planned, EmptyReport, None);
        if id in old(runs) then
          outcome == Threw(None) && runs == old(runs) && payouts == old(payouts)
        else
          ParticipationDone(old(runs)[id := run], old(payouts), id, table, DayOf(start),
                            Emissions(DaysSinceLaunch(now, launch)), fault, outcome, runs, payouts)
    {
      var (start, end) := YesterdayBounds(now);
      var created := CreatePayoutRun(DailyParticipation, start, end, now);
      if created.None? {
        return Threw(None);
      }
      outcome := PayParticipation(created.value, table, DayOf(start), Emissions(DaysSinceLaunch(now, launch)), fault);
    }

    /** The participation run after its row `id` exists: pay the scores of `date` from the day's emissions `e`. */
    method PayParticipation(id: RunId, table: seq<ScoreRow>, date: int, e: int, fault: Option<nat>)
        returns (outcome: Outcome)
      requires id in runs
      modifies this
      ensures ParticipationDone(old(runs), old(payouts), id, table, date, e, fault, outcome, runs, payouts)
    {
      var scores := ScoresOn(table, date);
      if |scores| == 0 {
        UpdatePayoutRun(id, Executed, NoScores(date), []);
        return Completed(id);
      }
      outcome := PayScores(id, scores, date, e, fault);
    }

    /** Split 30% of `e` over the day's `scores` and record the payouts and the run's end. */
    method PayScores(id: RunId, scores: seq<ScoreRow>, date: int, e: int, fault: Option<nat>) returns (outcome: Outcome)
      requires id in runs
      modifies this
      ensures var plan := ParticipationPlan(scores, date, e);
        Finished(old(runs), old(payouts), id, plan.0, plan.1, fault, outcome, runs, payouts)
    {
      var total := TotalScore(scores);
      var pool := e as real * 0.30;
      var allocs := BuildAllocations(scores, pool, total);
      var rows := ParticipationRows(allocs, date, total);
      outcome := RecordRun(id, rows, ParticipationReport(date, e, pool, total, ReportPayouts(allocs)), fault);
    }

    /** The end of a run: record `rows`, then mark the run `failed` if a write threw, else `executed` with `report`. */
    method RecordRun(id: RunId, rows: seq<(string, PayoutRow)>, report: Report, fault: Option<nat>) returns (outcome: Outcome)
      requires id in runs
      modifies this
      ensures Finished(old(runs), old(payouts), id, rows, report, fault, outcome, runs, payouts)
    {
      var failed := RecordAll(id, rows, fault);
      if failed {
        UpdatePayoutRun(id, Failed, ErrorReport, []);
        return Threw(Some(id));
      }
      UpdatePayoutRun(id, Executed, report, []);
      return Completed(id);
    }

    /**
     * `runCuratedPayout` at time `now` over the `content` rows and the
     * `curator_votes` rows `votes`; `fault` names the payout write that
     * throws, if any. Transfers are never made.
     */
    method RunCuratedPayout(contents: seq<ContentRow>, votes: seq<CuratorVote>, now: int, launch: int, dryRun: bool,
                            fault: Option<nat>) returns (outcome: Outcome)
      modifies this
      ensures var id := RunId(WeeklyCurated, now);
        var (ws, we) := WeekBounds(now);
        var run := PayoutRun(WeeklyCurated, ws, we, Planned, EmptyReport, None);
        if id in old(runs) then
          outcome == Threw(None) && runs == old(runs) && payouts == old(payouts)
        else
          CuratedDone(old(runs)[id := run], old(payouts), id, SelectCurated(contents, votes, ws, we), ws, we,
                      7 * Emissions(DaysSinceLaunch(now, launch)), fault, outcome, runs, payouts)
    {
      var (ws, we) := WeekBounds(now);
      var created := CreatePayoutRun(WeeklyCurated, ws, we, now);
      if created.None? {
        return Threw(None);
      }
      var selected := SelectCurated(contents, votes, ws, we);
      SelectedVotesPositive(contents, votes, ws, we);
      if |selected| == 0 {
        UpdatePayoutRun(created.value, Executed, NoContent, []);
        return Completed(created.value);
      }
      var weekly := WeeklyEmissions(DaysSinceLaunch(now, launch));
      outcome := PayCurated(created.value, selected, ws, we, weekly, fault);
    }

    /** The curated run after its row `id` exists and content was selected: split 60% of `weekly` by votes. */
    method PayCurated(id: RunId, selected: seq<Voted>, ws: int, we: int, weekly: int, fault: Option<nat>)
        returns (outcome: Outcome)
      requires id in runs && selected != [] && VoteTotal(selected) > 0
      modifies this
      ensures CuratedDone(old(runs), old(payouts), id, selected, ws, we, weekly, fault, outcome, runs, payouts)
    {
      var rows, summary := PlanCurated(selected, ws, we, weekly);
      outcome := RecordRun(id, rows, summary, fault);
    }

    /** The curated lines of `selected`, aggregated per account, and the run's report. */
    static method PlanCurated(selected: seq<Voted>, ws: int, we: int, weekly: int)
        returns (rows: seq<(string, PayoutRow)>, summary: Report)
      requires VoteTotal(selected) > 0
      ensures (rows, summary) == CuratedPlan(selected, ws, we, weekly)
    {
      var pool := weekly as real * 0.60;
      var totalVotes := VoteTotal(selected);
      var entries := BuildEntries(selected, pool, totalVotes);
      var report;
      rows, report := AccountRows(entries, ws, we);
      summary := CuratedReport(ws, we, weekly, pool, |selected|, report);
    }
  }

  /** Every content selected has at least one vote, so a non-empty selection has a positive vote total. */
  lemma SelectedVotesPositive(contents: seq<ContentRow>, votes: seq<CuratorVote>, start: int, end: int)
    ensures var r := SelectCurated(contents, votes, start, end);
      (forall k :: 0 <= k < |r| ==> r[k].voteCount >= 1) && (r != [] ==> VoteTotal(r) > 0) && AllCurated(r)
  {
    var r := SelectCurated(contents, votes, start, end);
    SelectionIsTop(contents, votes, start, end);
    CandidatesMeaning(contents, votes, start, end);
    assert forall k :: 0 <= k < |r| ==> r[k] in r;
    VoteTotalPositive(r);
  }

  /**
   * The week's selection, when it is not empty, pays out the curated pool to
   * within one milli-unit per line, and never more than the pool.
   */
  lemma CuratedSelectionPaysPool(contents: seq<ContentRow>, votes: seq<CuratorVote>, start: int, end: int, pool: real)
    requires pool >= 0.0
    ensures var r := SelectCurated(contents, votes, start, end);
      (r != [] ==> VoteTotal(r) > 0)
      && (VoteTotal(r) > 0 ==>
            var es := CuratedEntries(r, pool, VoteTotal(r));
            Total(es) as real <= pool * 1000.0 && pool * 1000.0 < Total(es) as real + |es| as real)
  {
    var r := SelectCurated(contents, votes, start, end);
    SelectedVotesPositive(contents, votes, start, end);
    if VoteTotal(r) > 0 {
      assert forall k :: 0 <= k < |r| ==> r[k].voteCount >= 0;
      CuratedWithinPool(r, pool);
    }
  }

  lemma {:induction false} VoteTotalPositive(r: seq<Voted>)
    requires forall k :: 0 <= k < |r| ==> r[k].voteCount >= 1
    ensures r != [] ==> VoteTotal(r) >= |r|
    ensures VoteTotal(r) >= 0
  {
    if r != [] {
      VoteTotalPositive(r[..|r| - 1]);
    }
  }
}
