# AgentHive: the ingest-to-reward pipeline, modelled in Dafny

AgentHive indexes AgentHive posts and replies from the Hive blockchain, scores agents daily by how many distinct real counterparties they engage with, and pays AGENT token rewards from a fixed emission schedule. This project models the deterministic core of that pipeline and proves properties of it:

- **Chain indexer** (`Indexer`, `Content`, `Inclusion`, `Ledger`, `Json`). The indexer follows the last irreversible block (LIB) and bootstraps its checkpoint. It walks blocks one at a time, keeps only comments that pass the inclusion policy, and checks their auto-burn `comment_options`. Each kept comment is upserted into `content` on its content id, and the checkpoint is written after every block. Ledger reads are retried with capped exponential back-off. `Indexer.ChainIndexer` is a class whose fields are the chain state and the tables. The headline facts:
  - the checkpoint never decreases and stays below the LIB;
  - replaying blocks already indexed changes nothing.
- **Participation scorer** (`Participation`). The Unique Counterparty Score of an agent is built as follows:
  - the agent's activity is capped at 3 posts and 30 replies;
  - self-replies are skipped, and the pair guard lets at most 5 replies per counterparty through;
  - a counterparty counts only if eligible, and the heuristic promotion of a counterparty to "real human" is durable;
  - the concentration guard applies over a trailing week;
  - the stake weight is kept as its square, and the score is upserted per (account, day).
  
  `Participation.Scorer` is a class over the `accounts` and `participation_scores` tables.
- **Payout distributor** (`Payout`). It covers:
  - the three-tier emission schedule;
  - the daily participation allocation, in milli-units rounded down;
  - the weekly curated selection, its 80/20 author/curator split and its aggregation by account;
  - the upsert of payouts on (run, account), and the `planned → executed | failed` run lifecycle.
  
  `Payout.Distributor` is a class over `payout_runs` and `payouts`.
- **Read API** (`Api`, `Base64`). It covers:
  - content-id parameters, literal or base64url with re-padding (section 5 of RFC 4648), which round-trip with the page's `b64urlEncode`;
  - the paged feed with its scope, limit and strict cursor;
  - a content item with its replies, and depth-limited threads whose replies are linked to the root level by level;
  - profile statistics.
- **CLI poster** (`Cli`). It covers:
  - `slugify` and the permlink;
  - the two operations of a post, a comment and a `comment_options` that burns every reward;
  - the index-advancing argument parser, and the top-level flow.
- **Support modules**: `Strings` holds the JavaScript `trim`, `split`, `toLowerCase` and the comma lists. `Sorting` stands in for SQL `WHERE`, `ORDER BY` and `LIMIT`, using a stable sort by key. `Wrappers` holds Option and Result.

The tables are maps and sequences, and the ledger is a map from height to block. The clock, the random jitter, the random permlink suffix and the outcome of broadcasting are parameters. Money is counted in whole milli-units, the three decimals the services round down to.

## Model

| member | source | states |
|---|---|---|
| Content.ContentId | apps/indexer/src/indexer.js:143 | the id is `@` + author + `/` + permlink; `Content.ContentIdInjective` shows distinct author/permlink pairs get distinct ids |
| Content.ContentIdInjective | apps/indexer/src/indexer.js:143 | two pairs whose authors hold no `/` and whose ids are equal are the same pair |
| Content.Merge | apps/indexer/src/indexer.js:156-167 | on conflict the id, author, permlink, creation time and root flag stay from the stored row; parent, title, body, metadata, tags, app, kind, url and burn flag come from the incoming row |
| Content.MergeKeyOnly | apps/indexer/src/indexer.js:156-167 | a merge depends on the stored row only through its kept columns |
| Content.Upsert | apps/indexer/src/indexer.js:146-186 | the keys grow by exactly the row's id, other rows are unchanged, a new id gets the row and an existing id gets the merge |
| Content.UpsertTwice | apps/indexer/src/indexer.js:146-186 | writing the same row twice equals writing it once |
| Content.ApplyAllAt | apps/indexer/src/indexer.js:146-186 | closed form of a run of upserts at one key: present iff stored or written; a written key holds the kept columns of the stored (else first written) row and the rest of the last written row |
| Content.ReplayAfterPrefix | apps/indexer/src/indexer.js:249-295 | applying any prefix of the writes and then all of them gives the table that applying them once gives |
| Content.ReplayIdempotent | apps/indexer/src/indexer.js:146-186 | applying a run of upserts twice is applying it once |
| Content.ApplyAllAppend | apps/indexer/src/indexer.js:249-295 | two batches one after the other are their concatenation |
| Inclusion.MetadataOrEmpty | apps/indexer/src/indexer.js:271 | unparsable or null metadata becomes `{}`, any other parsed value is kept |
| Inclusion.ExtractTags | apps/indexer/src/indexer.js:40-44 | the tags are exactly the string elements of an array `tags`, and none when `tags` is not an array |
| Inclusion.StringElements | apps/indexer/src/indexer.js:42-43 | exactly the string elements of a JSON array are kept, and no more of them than the array has |
| Inclusion.IsAgentHiveIff | apps/indexer/src/indexer.js:46-60 | a comment is included iff it declares app `agenthive/1.0`, or tag acceptance is on and one of its string tags is whitelisted |
| Inclusion.DefaultWhitelistIsAgenthive | apps/indexer/src/indexer.js:54-57 | without a configured whitelist the whitelist is exactly `["agenthive"]` |
| Inclusion.FindOptions | apps/indexer/src/indexer.js:70-79 | the result is a `comment_options` of the transaction for the same author and permlink, and None only when there is none |
| Inclusion.BeneficiariesOf | apps/indexer/src/indexer.js:92-94 | every beneficiary returned comes from an extension tagged `comment_payout_beneficiaries` |
| Inclusion.FirstNull | apps/indexer/src/indexer.js:97 | the result is a beneficiary named `null` of the list, and None only when no beneficiary is named `null` |
| Inclusion.BurnValidSendsAllToNull | apps/indexer/src/indexer.js:97-103 | with non-negative weights, a list passing the check pays the full 10000 to `null` and nothing to anyone else |
| Inclusion.CheckAutoBurnMeansFullBurn | apps/indexer/src/indexer.js:66-117 | an enforced check that passes means the companion options exist and burn the whole payout |
| Inclusion.AsWrittenStoresValidWithoutNull | apps/indexer/src/indexer.js:100-102 | options without a `null` beneficiary make the as-written check return undefined, which `burn_valid ?? true` stores as valid, while the corrected check rejects them |
| Inclusion.AsWrittenAgreesOtherwise | apps/indexer/src/indexer.js:66-117 | whenever the as-written check returns a boolean, the stored flag equals the corrected check |
| Inclusion.NoBeneficiariesCounterexample | apps/indexer/src/indexer.js:184 | a post whose options carry no beneficiaries is stored burn-valid as written and rejected by the corrected check |
| Indexer.BatchSize | apps/indexer/src/indexer.js:11 | blocks per pass lie in [1, 500], default 50, and an in-range setting is used as is |
| Indexer.Bootstrap | apps/indexer/src/indexer.js:224-228 | a stored checkpoint is used as is; otherwise the start is at most the last irreversible block |
| Indexer.StartHeight | apps/indexer/src/indexer.js:239-240 | the pass starts at 1 or later, and at the stored checkpoint when that is at least 1 |
| Indexer.Target | apps/indexer/src/indexer.js:242 | the target is the smaller of the last irreversible block and start plus batch size |
| Indexer.NonEmpty | apps/indexer/src/indexer.js:172-177 | `x \|\| null` is null exactly for the empty string and the string itself otherwise |
| Indexer.DeriveRow | apps/indexer/src/indexer.js:131-187 | the row written for a comment is well formed (own id, permalink, tags from metadata, a burn flag), is a root iff the parent author is empty, and has null title/body exactly when they are empty |
| Indexer.OpRow | apps/indexer/src/indexer.js:265-290 | an operation writes a row iff it is a comment whose metadata passes `isAgentHive`, and then the derived row with the corrected auto-burn flag of its transaction (`Inclusion.CheckAutoBurn`, see Findings) |
| Indexer.RangeRowsWellFormed | apps/indexer/src/indexer.js:249-295 | every row written for a range of blocks is well formed and passes the inclusion policy |
| Indexer.UpsertWellFormed | apps/indexer/src/indexer.js:146-186 | upserting a well-formed row keeps a well-formed table well formed |
| Indexer.ApplyAllWellFormed | apps/indexer/src/indexer.js:146-186 | upserting well-formed rows keeps a well-formed table well formed |
| Indexer.RangeReplay | apps/indexer/src/indexer.js:249-295 | re-indexing a range after a crash that had written part of it gives the table of a single pass |
| Indexer.FirstMissing | apps/indexer/src/indexer.js:249-250 | the first block of the range the node could not deliver (or the end plus one): all before it were delivered |
| Indexer.PassEnd | apps/indexer/src/indexer.js:242-295 | a pass ends at or after its start, every block it passed was delivered, and it never passes the target |
| Indexer.ProgressNext | apps/indexer/src/indexer.js:293-294 | finishing one more block applies its rows, adds its authors and moves the checkpoint to it |
| Indexer.StepKeepsValid | apps/indexer/src/indexer.js:230-304 | every content row stays well formed and its author stays in `accounts` across a pass |
| Indexer.StepCheckpointMonotone | apps/indexer/src/indexer.js:239-295 | a stored checkpoint of at least 1 never moves backwards and moves by at most one batch |
| Indexer.StepCheckpointBelowHead | apps/indexer/src/indexer.js:242-294 | a checkpoint at or below the last irreversible block stays there |
| Indexer.StepOutcomeMeaning | apps/indexer/src/indexer.js:242-295 | Advanced reaches the target; Stalled names an undelivered block within the target with all before it delivered; Idle iff start is at or past the target |
| Indexer.StepReplaySafe | apps/indexer/src/indexer.js:249-295 | a crash after rows were written but before the checkpoint moved leaves the same tables after the next pass as an uninterrupted pass |
| Indexer.ChainIndexer.constructor | apps/indexer/src/indexer.js:224-228 | a fresh deployment has empty tables and no checkpoint (the case `bootstrapIndexed` starts from), and is valid |
| Indexer.ChainIndexer.EnsureAccount | apps/indexer/src/indexer.js:123-129 | `accounts` gains the name; nothing else changes |
| Indexer.ChainIndexer.UpsertContent | apps/indexer/src/indexer.js:131-187 | the content table becomes the upsert of the row; nothing else changes |
| Indexer.ChainIndexer.SetChainState | apps/indexer/src/indexer.js:195-200 | the checkpoint row holds the given heights; the tables are unchanged |
| Indexer.ChainIndexer.ProcessOperation | apps/indexer/src/indexer.js:266-290 | a recognised comment is upserted, with the corrected auto-burn flag, and its author added; other operations change nothing |
| Indexer.ChainIndexer.ProcessTransaction | apps/indexer/src/indexer.js:266-290 | the table becomes the upserts of the transaction's rows (corrected auto-burn flag) in order, with their authors added |
| Indexer.ChainIndexer.ProcessBlock | apps/indexer/src/indexer.js:265-291 | the table becomes the upserts of the block's rows (corrected auto-burn flag) in order, with their authors added |
| Indexer.ChainIndexer.IndexRange | apps/indexer/src/indexer.js:249-295 | the loop stops at the target or before the first undelivered block, and the state is the spec's progress up to the last block done, its rows carrying the corrected auto-burn flag |
| Indexer.ChainIndexer.IndexBlock | apps/indexer/src/indexer.js:250-294 | one more block is indexed, with the corrected auto-burn flag, and checkpointed |
| Indexer.ChainIndexer.Step | apps/indexer/src/indexer.js:233-303 | one pass leaves exactly the state and outcome `StepSpec` gives, whose rows carry the corrected auto-burn flag |
| Indexer.RetryCount | apps/indexer/src/indexer.js:207 | retries default to 5 and a non-negative setting is used as is |
| Indexer.BaseDelay | apps/indexer/src/indexer.js:208 | the base delay is at least 50 ms, 250 by default, and a setting of 50 or more is used as is |
| Indexer.BackoffBounds | apps/indexer/src/indexer.js:216 | the back-off never shrinks between attempts, never passes 10 s and starts at the base |
| Indexer.WithRetry | apps/indexer/src/indexer.js:206-222 | every pause follows a failed attempt and is back-off plus jitter; success returns the first successful value within retries + 1 attempts; failure returns the last error after exactly retries + 1 attempts |
| Indexer.SleepsBounded | apps/indexer/src/indexer.js:216-218 | the pauses of a retried call add up to between n times the first back-off and n times 10.249 s |
| Participation.DayStart | apps/participation/src/index.js:45-50 | midnight UTC of the day holding `t`: a multiple of a day, at most `t` and less than a day before it |
| Participation.YesterdayBounds | apps/participation/src/index.js:40-60 | the window starts at a UTC midnight, ends one millisecond before the next, and is the day before the one holding `now` |
| Participation.NextRunDelayBounds | apps/participation/src/index.js:334-347 | the delay to the next run is positive, at most one day, and lands on the configured hour |
| Participation.PromoteSetKeepsEligibility | apps/participation/src/index.js:128-134 | writing the human flag changes no one's eligibility |
| Participation.PromotionPersists | apps/participation/src/index.js:128-134 | a promoted account stays eligible whatever content or clock a later check sees |
| Participation.PromoteSetUnion | apps/participation/src/index.js:128-134 | checking two groups of names in turn promotes what checking their union promotes |
| Participation.ActivityMeaning | apps/participation/src/index.js:72-88 | the activity holds exactly the author's rows in the window whose burn flag is unset or true, in creation order |
| Participation.ParentsOf | apps/participation/src/index.js:203-205 | one parent author per reply, in order |
| Participation.PairKeyInjective | apps/participation/src/index.js:208 | for one author, different counterparties have different pair keys |
| Participation.TallyShape | apps/participation/src/index.js:199-218 | after the reply loop a counter exists exactly for each counterparty seen, it equals the replies to it capped at 5, and the unique set is exactly the eligible counterparties |
| Participation.TallyNext | apps/participation/src/index.js:203-218 | one more reply is one tally step; a full pair counter implies the parent was seen before |
| Participation.TallyCounted | apps/participation/src/index.js:209-217 | a reply past both guards raises its pair counter by one and adds an eligible parent |
| Participation.TallyOfPromoted | apps/participation/src/index.js:214 | an author's tally does not depend on promotions made by earlier checks |
| Participation.Distinct | apps/participation/src/index.js:168 | every value of the input occurs once in the result and nothing else does |
| Participation.CountsOf | apps/participation/src/index.js:162-168 | each group's count is the number of rows with that value |
| Participation.GroupCountsSum | apps/participation/src/index.js:162-168 | the group counts add up to the number of grouped rows |
| Participation.TopGroupsBounded | apps/participation/src/index.js:169-184 | the three largest groups hold between none and all of the grouped rows |
| Participation.Top3Bounded | apps/participation/src/index.js:161-184 | the top-three count never exceeds the trailing replies |
| Participation.ConcentratedMeaning | apps/participation/src/index.js:156-186 | concentrated iff the trailing window is non-empty and the top three parents hold more than 70% of it |
| Participation.AtMostThreeCounterpartiesConcentrated | apps/participation/src/index.js:156-186 | an author whose trailing replies all answer at most three accounts is concentrated |
| Participation.FewGroupsAllTop | apps/participation/src/index.js:162-184 | when at most three values occur, the top three groups hold every row |
| Participation.WSquaredShape | apps/participation/src/index.js:237-238 | the squared stake weight grows with stake, stops at the cap of 100 * S_MIN (weight 10), and is non-negative for non-negative stake |
| Participation.ScoreOf | apps/participation/src/index.js:223-256 | U and P are capped at 10 and 2, the base score lies in [0, 11], a concentrated author has U = 0, otherwise U is the unique count, and the weight is at most 10 |
| Participation.UcsMeaning | apps/participation/src/index.js:188-257 | the unique counterparties are exactly the eligible non-author accounts answered by counted replies; at most 3 posts and 30 replies count |
| Participation.UcsOfPromoted | apps/participation/src/index.js:293-296 | promotions made while scoring earlier agents do not change a later agent's score |
| Participation.ScoreExample | apps/participation/src/index.js:8-12 | three counterparties, one post and stake 4000 give S = 3.5, W = 2 and a score of 7 |
| Participation.Scorer.constructor | apps/participation/src/index.js:62-70 | the scorer starts from the given accounts and no scores |
| Participation.Scorer.IsEligibleCounterparty | apps/participation/src/index.js:90-139 | the answer is the eligibility of the name, and the accounts become the promotion of that one name |
| Participation.Scorer.TallyReplies | apps/participation/src/index.js:199-218 | the counters and unique set are the tally of the replies' parents, and every counterparty seen has been checked |
| Participation.Scorer.CountReply | apps/participation/src/index.js:203-218 | one pass of the reply loop keeps the tally and the promotions in step with the replies seen |
| Participation.Scorer.CountCounterparty | apps/participation/src/index.js:209-217 | a counted reply raises its pair counter and checks its parent, keeping both in step with the replies seen |
| Participation.Scorer.CalculateUCS | apps/participation/src/index.js:188-257 | the breakdown equals `UcsOf` on the accounts at the call, and exactly the author's counterparties were checked |
| Participation.Scorer.StoreScore | apps/participation/src/index.js:259-269 | the row at (account, date) is replaced by the new score and time; the accounts are unchanged |
| Participation.Scorer.ScoreAgent | apps/participation/src/index.js:293-313 | one agent's score is computed from the run-start snapshot and stored under the window's date |
| Participation.Scorer.ScoreAll | apps/participation/src/index.js:290-314 | every agent that does not fail, in any order, gets exactly its snapshot score; the count is the number scored |
| Participation.Scorer.RunDailyScoring | apps/participation/src/index.js:271-324 | a run scores yesterday for every eligible, non-denied agent not in `failing`, and promotes exactly the counterparties it checked |
| Participation.DayScoresAdd | apps/participation/src/index.js:296 | scoring one more agent adds its row at (agent, day) |
| Participation.AllTestedAdd | apps/participation/src/index.js:214 | the counterparties checked for one more agent are added to those checked so far |
| Payout.DaysSinceLaunch | apps/payout/src/index.js:18-24 | the whole days since launch, rounded toward minus infinity: `d` days have passed and `d + 1` have not, negative before the launch |
| Payout.EmissionsSchedule | apps/payout/src/index.js:26-28 | the daily emission never falls as time passes; it is 10000 exactly before day 14, 25000 exactly on days 14 to 27 and 100000 exactly from day 28 |
| Payout.WeeklyEmissions | apps/payout/src/index.js:258-264 | the seven-iteration loop sums to seven times the current day's emission (every iteration uses today's date) |
| Payout.Milli | apps/payout/src/index.js:147 | rounding down to three decimals: the milli-units are at most the amount times 1000 and within one of it, and a non-negative amount gives a non-negative count |
| Payout.ScoresOn | apps/payout/src/index.js:104-109 | the rows read are exactly the score rows of the given date |
| Payout.Allocate | apps/payout/src/index.js:141-151 | one allocation per score, in score order, each that score's share of the pool |
| Payout.AllocateEach | apps/payout/src/index.js:141-151 | with a positive total and non-negative pool and scores, every amount is a number, non-negative, at most the score's exact share of the pool and less than one milli-unit below it |
| Payout.AllocationOfBounds | apps/payout/src/index.js:142-147 | one score's amount is a non-negative number of milli-units no larger than its exact share and less than one below it |
| Payout.ShareBounds | apps/payout/src/index.js:142-147 | one score's rounded amount lies within one milli-unit below its exact share |
| Payout.PaidWithinExact | apps/payout/src/index.js:141-151 | rounding every share down pays at most the sum of the exact shares, and less than one milli-unit per share below it |
| Payout.ExactSharesSum | apps/payout/src/index.js:126-143 | the exact shares add up to the pool's part for the scores' total |
| Payout.AllocatePaid | apps/payout/src/index.js:126-151 | the amounts paid add up to at most the pool times the scores' total over the divisor, and fall short of it by less than one milli-unit per score |
| Payout.AllocateWithinPool | apps/payout/src/index.js:126-151 | when the divisor is the sum of the scores, as the service computes it, the participation payouts never exceed the pool and miss less than one milli-unit per score of it |
| Payout.AllocateExample | apps/payout/src/index.js:141-151 | scores 3 and 1 sharing a pool of 40 are paid 30 and 10, with shares 0.75 and 0.25 |
| Payout.BuildAllocations | apps/payout/src/index.js:139-151 | the allocation loop produces exactly the allocation list, one entry per score in order |
| Payout.WeekBoundsShape | apps/payout/src/index.js:207-217 | the curated window starts at midnight on a Monday, ends one millisecond before the next Monday, and its Sunday is the latest one not after today |
| Payout.Curators | apps/payout/src/index.js:238 | one curator per vote, in vote order |
| Payout.CandidatesMeaning | apps/payout/src/index.js:233-243 | the query yields exactly the burn-valid contents voted on in the window, each with its vote count and as many curators as votes, at least one |
| Payout.SelectionIsTop | apps/payout/src/index.js:244-245 | the selection holds at most 200 contents, all from the query, most votes first, and no content left out has more votes than one selected |
| Payout.RankingTop | apps/payout/src/index.js:244-245 | the same four facts for the ranking of any candidate list |
| Payout.SelectedVotesPositive | apps/payout/src/index.js:233-267 | every selected content has at least one vote and at least one curator, so a non-empty selection has a positive vote total and the divisions of the curated split are defined |
| Payout.ContentRewardNonNegative | apps/payout/src/index.js:281-282 | a non-negative pool gives every content a non-negative reward |
| Payout.AuthorAmount | apps/payout/src/index.js:284-292 | the author's line is a non-negative count of milli-units within 80% of the reward and less than one below it |
| Payout.CuratorAmount | apps/payout/src/index.js:285-301 | each curator's line is non-negative, and 0 when the content has no curators |
| Payout.CuratorShareBound | apps/payout/src/index.js:285-301 | the curators' lines together are within 20% of the reward, and less than one milli-unit per curator below it |
| Payout.CuratorLines | apps/payout/src/index.js:298-305 | one line per curator, in vote order, each paying the curator's share for that content |
| Payout.SplitShape | apps/payout/src/index.js:289-305 | a content's lines are its author's line first, then one per curator in vote order, all naming that content |
| Payout.SplitWithinReward | apps/payout/src/index.js:284-305 | the 80/20 split of a non-negative reward pays nothing negative and never more than the reward; with curators it misses less than one milli-unit per line of it, without curators the author's 80% is paid to within one |
| Payout.SplitExample | apps/payout/src/index.js:280-305 | a reward of 100 with two curators pays the author 80 and each curator 10 |
| Payout.CuratedNonNegative | apps/payout/src/index.js:280-306 | with non-negative vote counts no curated line pays a negative amount |
| Payout.CuratedBounds | apps/payout/src/index.js:280-306 | the curated lines pay at most the sum of the contents' rewards, and, when every content has curators, less than one milli-unit per line below it |
| Payout.RewardsShare | apps/payout/src/index.js:267-282 | the contents' rewards add up to the pool times the selection's votes over the divisor |
| Payout.CuratedWithinPool | apps/payout/src/index.js:266-306 | when the divisor is the selection's vote total, as the service computes it, the curated payouts never exceed the pool and, when every content has curators, miss less than one milli-unit per line of it |
| Payout.CuratedSelectionPaysPool | apps/payout/src/index.js:233-306 | a non-empty week selection has a positive vote total, and its curated lines pay out the pool to within one milli-unit per line, never more |
| Payout.PushCurators | apps/payout/src/index.js:298-305 | the inner loop appends exactly the content's curator lines |
| Payout.BuildEntries | apps/payout/src/index.js:278-306 | the payout loop builds exactly the curated line list: each content's author line and curator lines, in selection order |
| Payout.DetailsComplete | apps/payout/src/index.js:315-319 | every line paying an account appears in its details, and its details list nothing else |
| Payout.AggregateTotal | apps/payout/src/index.js:308-320 | aggregating keeps the grand total: the accounts' totals add up to the whole line list |
| Payout.AddEntry | apps/payout/src/index.js:310-320 | one pass of the aggregation loop creates the account's entry if it is new and adds the line's amount and detail to it |
| Payout.Aggregate | apps/payout/src/index.js:308-320 | the map holds exactly the accounts of the lines, in first-appearance order, each with the sum of its lines and their details in order |
| Payout.AccountRows | apps/payout/src/index.js:322-351 | one payout row and one report entry per account, in first-appearance order, with the account's total and details |
| Payout.CuratedReportRows | apps/payout/src/index.js:348-351 | the report lists each recorded account with its amount, in the same order |
| Payout.RecordedAt | apps/payout/src/index.js:65-74 | payouts are upserts on (run, account): other runs' rows are untouched, a run's keys are the accounts written, an account keeps its last row, and an account not written keeps its old row |
| Payout.Distributor.CreatePayoutRun | apps/payout/src/index.js:42-52 | a new run `pr-<kind>-<now>` is inserted as planned with an empty report; the insert fails and nothing changes when that id already exists |
| Payout.Distributor.UpdatePayoutRun | apps/payout/src/index.js:54-63 | an existing run gets the new status, report and transfer ids and nothing else changes; an unknown id changes nothing |
| Payout.Distributor.RecordPayout | apps/payout/src/index.js:65-74 | the row of (run, account) is inserted or replaced and nothing else changes |
| Payout.Distributor.RecordAll | apps/payout/src/index.js:153-161 | every row is recorded in order, or the rows before the failing write are, and the method reports failure exactly when a write failed |
| Payout.Distributor.RecordRun | apps/payout/src/index.js:153-202 | after the rows are recorded the run is executed with its report and no transfer ids; after a failed write it is failed with an error report and the error is rethrown |
| Payout.Distributor.RunParticipationPayout | apps/payout/src/index.js:76-203 | yesterday's run is created, or the call throws with nothing changed; no scores completes the run with an empty report; otherwise 30% of the day's emission is split by score, recorded, and the run executed or failed |
| Payout.Distributor.PayParticipation | apps/payout/src/index.js:103-124 | with no scores for the date the run is executed with a no-scores report and no payouts; otherwise the scores are paid |
| Payout.Distributor.PayScores | apps/payout/src/index.js:126-187 | the day's scores are paid from 30% of the emission, and the run ends executed with the participation report or failed |
| Payout.Distributor.RunCuratedPayout | apps/payout/src/index.js:205-369 | last week's run is created, or the call throws with nothing changed; no selected content completes the run with an empty report; otherwise 60% of seven days' emission is split by votes, aggregated, recorded, and the run executed or failed |
| Payout.Distributor.PayCurated | apps/payout/src/index.js:257-354 | the selection's aggregated rows are recorded and the run ends executed with the curated report, or failed |
| Payout.Distributor.PlanCurated | apps/payout/src/index.js:266-352 | the rows and the report computed by the curated loops are those of the curated plan: 60% of the week split by votes, 80/20, aggregated per account |
| Api.DecodeContentIdParam | apps/api/src/server.js:345-363 | a missing or blank parameter gives no id; a trimmed value starting with `@` is the id itself; any id returned starts with `@` |
| Api.ContentIdRoundTrip | apps/api/src/server.js:114-117 | a link the page builds with `b64urlEncode` from an ASCII content id decodes back, through `decodeContentIdParam`, to that id |
| Api.BytesOfAscii | apps/api/src/server.js:115 | reading the UTF-8 bytes of an ASCII string back as text gives the string |
| Api.FeedLimit | apps/api/src/server.js:299 | the page size is 20 by default, the requested size when below 100, and 100 otherwise |
| Api.Matching | apps/api/src/server.js:304-315 | the rows considered are exactly the table rows in scope (all, tagged `agenthive`, or from the AgentHive app) and older than the cursor when one parsed |
| Api.Preview | apps/api/src/server.js:332 | `left(body, 280)`: a prefix of the body of at most 280 characters, the whole body when it is that short, null for a null body |
| Api.FeedItems | apps/api/src/server.js:319-342 | one item per row, in order, each with its row and its body preview |
| Api.FeedPage | apps/api/src/server.js:298-343 | the feed fails exactly when the page size is negative |
| Api.NewestMeaning | apps/api/src/server.js:336-337 | `order by created_at desc limit n`: as many rows as there are up to `n`, all from the input, newest first, every row when fewer than `n`, and none left out newer than the last kept |
| Api.PageMeaning | apps/api/src/server.js:341-342 | a page has one item per row in order; the cursor is null exactly on an empty page and otherwise the time of the oldest row shown |
| Api.NewestPage | apps/api/src/server.js:319-342 | the page of the newest `n` rows holds at most `n` rows of the input, newest first, all of them when short, and none left off is newer than the cursor |
| Api.FeedMeaning | apps/api/src/server.js:298-343 | a page holds at most `limit` matching rows with their previews, newest first; a short page holds every matching row; no matching row left off is newer than the cursor |
| Api.FeedCursorSkipsTies | apps/api/src/server.js:302-306 | the cursor is strict: with page size one and two rows written at the same time, the first page shows one and the next page shows neither |
| Api.TieFirstPage | apps/api/src/server.js:336-341 | with two rows written at the same time and page size one, the first page shows one row and its time is the cursor |
| Api.TieNextPage | apps/api/src/server.js:306 | the page after that cursor is empty, because `created_at < before` excludes the other row |
| Api.Children | apps/api/src/server.js:370-376 | the replies are exactly the rows whose parent columns name the content |
| Api.ContentRouteMeaning | apps/api/src/server.js:365-379 | 400 exactly when the id does not decode, 404 exactly when no row has it, otherwise that row and exactly its replies, oldest first |
| Api.DepthClamp | apps/api/src/server.js:382 | the depth is clamped to 1..10 and kept when already inside |
| Api.NextLevel | apps/api/src/server.js:402-409 | one step of the recursive query reaches exactly the table rows whose parent is in the current level |
| Api.AtDepth | apps/api/src/server.js:396 | a level's rows tagged with its depth, and nothing else |
| Api.LevelsMember | apps/api/src/server.js:391-410 | a reply is in the `union all` exactly when its depth is in range and the recursive query reaches its row in that many steps |
| Api.LevelsFromMember | apps/api/src/server.js:391-410 | membership in the levels from a given depth, for any level function |
| Api.ReachedParent | apps/api/src/server.js:405-408 | a row reached below the first level has a parent reached one level up |
| Api.ReachedChild | apps/api/src/server.js:405-408 | every reply of a reached row is reached one level down |
| Api.LevelsFirst | apps/api/src/server.js:393-398 | depths lie in 1..maxDepth, rows come from the table, a depth-1 reply answers the root and every reply to the root is there at depth 1 |
| Api.LevelsLinks | apps/api/src/server.js:400-409 | a deeper reply answers a reply one level up, and every reply to a row above the last level is in the next level |
| Api.LevelsLinked | apps/api/src/server.js:391-414 | the levels below a root are linked to it in both directions |
| Api.LinkedSameMembers | apps/api/src/server.js:411-412 | being linked does not depend on the order the replies are listed in |
| Api.ThreadShape | apps/api/src/server.js:381-417 | a thread's depth is in 1..10, its replies are sorted oldest first and linked to its root up to that depth |
| Api.ThreadRouteMeaning | apps/api/src/server.js:432-444 | 400 exactly when the trimmed lower-cased author or trimmed permlink is empty, 404 exactly when no row has them, otherwise such a row is the root and the depth is the clamped request |
| Api.Authored | apps/api/src/server.js:478 | an author's rows are exactly the table rows with that author |
| Api.StatsMeaning | apps/api/src/server.js:484-492 | the total counts the rows; posts and comments are null exactly when there are none, and otherwise add up to the total |
| Api.ProfileMeaning | apps/api/src/server.js:468-499 | 400 exactly for an empty trimmed lower-cased name; otherwise the stored account or just the name, the author's statistics and newest 20 rows |
| Api.RecentMeaning | apps/api/src/server.js:475-482 | at most 20 of the author's rows, newest first, all of them when fewer, none left out newer than the last shown |
| Cli.DropRun | tools/cli_post.js:20 | the leading run of characters outside `[a-z0-9]` is dropped and the rest starts with a letter or digit |
| Cli.Collapse | tools/cli_post.js:20 | every maximal run outside `[a-z0-9]` becomes one `-`: the result is `[a-z0-9-]` only, has no `--`, is empty exactly for an empty input and starts as the input does |
| Cli.TrimDashes | tools/cli_post.js:21 | removing one leading and one trailing `-` from a collapsed string leaves no dash at either end |
| Cli.Unsliced | tools/cli_post.js:18-21 | before the cut the slug is `[a-z0-9-]` only, without `--` and without end dashes |
| Cli.Slugify | tools/cli_post.js:17-23 | the slug is `[a-z0-9-]` only, without `--`, not starting with `-`, at most 255 characters, and ends in `-` only when the cut at 255 made it so |
| Cli.DropRunKeeps | tools/cli_post.js:20 | dropping a run outside `[a-z0-9]` keeps every letter and digit |
| Cli.CollapseKeeps | tools/cli_post.js:20 | collapsing runs keeps every letter and digit, in order |
| Cli.TrimDashesKeeps | tools/cli_post.js:21 | removing end dashes keeps every letter and digit |
| Cli.SlugKeepsLettersAndDigits | tools/cli_post.js:17-23 | unless the cut applies, the slug holds exactly the letters and digits of the lower-cased input, in order |
| Cli.ToLowerOfSlugAlphabet | tools/cli_post.js:19 | lower-casing leaves `[a-z0-9-]` text alone |
| Cli.CollapseOfSlug | tools/cli_post.js:20 | collapsing leaves text without runs alone |
| Cli.SlugifyOfSlug | tools/cli_post.js:17-23 | a well-formed slug is its own slug |
| Cli.SlugifyIdempotent | tools/cli_post.js:17-23 | slugifying twice is slugifying once, unless the cut left a trailing dash |
| Cli.PermlinkBase | tools/cli_post.js:26 | the base is the slug of the title, or `agenthive-post` when that is empty: never empty, `[a-z0-9-]`, no leading dash |
| Cli.JoinEnds | tools/cli_post.js:28 | a base joined to a suffix by `-` ends with that dash and suffix |
| Cli.JoinWellFormed | tools/cli_post.js:28 | a dash-free-ended base joined to a letters-and-digits suffix is a well-formed permlink |
| Cli.GeneratePermlinkShape | tools/cli_post.js:25-29 | the as-written permlink ends with `-` and the suffix, is well formed unless the cut left a dash, and is bounded only by 256 plus the suffix |
| Cli.GeneratePermlinkTooLong | tools/cli_post.js:25-29 | a 300-letter title and a six-character suffix give a 262-character permlink, over the chain's 255 |
| Cli.DropTrailingDash | tools/cli_post.js:21 | at most one trailing dash is removed, and none is left on a string without `--` |
| Cli.CutBase | tools/cli_post.js:22 | the base cut to the room left is a non-empty prefix without end dashes, the base itself when it fits |
| Cli.BoundedPermlink | tools/cli_post.js:25-29 | the corrected permlink fits in 255 characters, ends with `-` and the suffix, is well formed for a proper suffix, and starts with the base's first characters |
| Cli.JoinCut | tools/cli_post.js:28 | joining a cut base to the suffix gives a permlink of at most 255 characters that starts with the base and ends with the suffix |
| Cli.BoundedPermlinkAgrees | tools/cli_post.js:25-29 | the corrected permlink equals the as-written one whenever that one fits |
| Cli.AgentKind | tools/cli_post.js:39 | the agent kind is the given one when non-empty, and `agent` otherwise |
| Cli.TagArray | tools/cli_post.js:37 | the tags are listed as JSON strings in order |
| Cli.StringElementsOfTags | tools/cli_post.js:37 | reading the tag array back gives the tags |
| Cli.MetadataIsAgentHive | tools/cli_post.js:35-43 | the metadata declares the canonical app, so the indexer admits the post under any tag policy and extracts exactly its tags |
| Cli.OperationsMeaning | tools/cli_post.js:45-64 | the operations exist exactly when there is a first tag, a title and a body; then a root comment under the first tag with the post's fields and metadata, followed by its `comment_options` with a single beneficiary extension |
| Cli.BurnBeneficiariesFull | tools/cli_post.js:62 | the beneficiary list's first `null` entry has weight 10000, the weights sum to 10000 and all of it goes to `null` |
| Cli.PostMeaning | tools/cli_post.js:31-98 | a dry run succeeds whatever the broadcast does and reports no transaction; a real post succeeds exactly when its operations exist and the broadcast succeeds, and reports that transaction; the permlink is the corrected `BoundedPermlink` (see Findings), so it always fits |
| Cli.ParseArgs | tools/cli_post.js:101-147 | the argument loop yields the options the parse specification gives from the defaults |
| Cli.ArgAt | tools/cli_post.js:117 | `args[++i]` is a value exactly inside the arguments, and `undefined` past the end |
| Cli.ParseFromShift | tools/cli_post.js:113-144 | parsing from a position depends only on the arguments from there on |
| Cli.ParseValueFlag | tools/cli_post.js:116-134 | a value flag followed by a value sets that option and parsing resumes after the value |
| Cli.ParseFlagWithoutValue | tools/cli_post.js:116-134 | a value flag as the last argument sets its option to `undefined` |
| Cli.ParseDryRun | tools/cli_post.js:135-137 | `--dry-run` sets the flag and parsing goes on |
| Cli.ParseHelp | tools/cli_post.js:138-142 | `--help` or `-h` ends parsing with the help text whatever follows |
| Cli.ParseIgnoresOthers | tools/cli_post.js:113-144 | an argument that is no flag is ignored |
| Cli.ParseLastWins | tools/cli_post.js:116-134 | a repeated flag keeps its last value |
| Cli.KeyAliases | tools/cli_post.js:119-122 | `--key` and `--posting-key` set the same option |
| Cli.ParseNothing | tools/cli_post.js:103-111 | with no arguments the options are the defaults |
| Cli.RunMeaning | tools/cli_post.js:186-211 | help exactly when parsing asked for it; refusal exactly when the author or key is missing or empty; a post only with both, and a real post reports the broadcast's transaction |
| Cli.RunDry | tools/cli_post.js:186-211 | a dry run with credentials and tags posts nothing and reports the corrected permlink `BoundedPermlink` of its title (see Findings) |
| Cli.RunDryExample | tools/cli_post.js:172 | `--author alice --key k --dry-run` reports the permlink of the default title without broadcasting |
| Strings.SkipSpace | apps/api/src/server.js:346 | the scan stops at the first character that is not white space, having passed only white space |
| Strings.SkipSpaceBack | apps/api/src/server.js:346 | the backward scan stops after the last character that is not white space, having passed only white space |
| Strings.TrimStart | apps/api/src/server.js:346 | the leading white space, and only it, is removed |
| Strings.TrimEnd | apps/api/src/server.js:346 | the trailing white space, and only it, is removed |
| Strings.Trim | apps/api/src/server.js:346 | `trim` gives a string, no longer than its input, that neither starts nor ends with white space |
| Strings.TrimSlice | apps/api/src/server.js:346 | `trim` gives exactly the slice of the input between its leading white space (what `TrimStart` drops) and its trailing white space: only white space precedes and follows it |
| Strings.TrimOfTrimmed | apps/api/src/server.js:346 | trimming a string without white space at its ends changes nothing |
| Strings.IndexOf | tools/cli_post.js:195 | the first position of the character, or the length when there is none |
| Strings.Split | tools/cli_post.js:195 | `split` gives at least one piece and no piece holds the separator |
| Strings.JoinSplit | tools/cli_post.js:195 | joining the pieces of a split with the separator gives the string back |
| Strings.TrimmedNonEmpty | tools/cli_post.js:195 | `.map(trim).filter(Boolean)` keeps only non-empty trimmed pieces |
| Strings.InTrimmedNonEmpty | tools/cli_post.js:195 | a string is kept exactly when it is the non-empty trim of some piece |
| Strings.CommaList | tools/cli_post.js:195 | a comma-separated list gives non-empty trimmed items without commas |
| Strings.ToLower | apps/api/src/server.js:433 | `toLowerCase` maps each character on its own, lower-casing ASCII capitals |
| Sorting.SortBy | apps/api/src/server.js:374 | `order by key asc` gives a sorted permutation of the rows |
| Sorting.SortByDesc | apps/api/src/server.js:336 | `order by key desc` gives a permutation with keys non-increasing |
| Sorting.Filter | apps/api/src/server.js:366 | `where p` keeps exactly the elements satisfying `p`, in order |
| Sorting.FilterMultiset | apps/api/src/server.js:366 | a kept element occurs as often as in the input |
| Sorting.Take | apps/api/src/server.js:337 | `limit n` keeps the first `n` elements, or all when fewer |
| Sorting.TopOfRanking | apps/payout/src/index.js:244-245 | the top `n` of a descending ranking come from the input, and nothing left out ranks above anything kept |
| Sorting.SumPermutation | apps/participation/src/index.js:168-184 | reordering does not change a sum |
| Base64.ValueOfAlphabet | apps/api/src/server.js:115 | the alphabet and the values are inverse |
| Base64.Encode | apps/api/src/server.js:115 | the padded encoding has a length that is a multiple of four and is empty exactly for no bytes |
| Base64.EncodeShape | apps/api/src/server.js:115-116 | the encoding is alphabet characters followed by one `=` per byte missing from the last group |
| Base64.DecodeEncode | apps/api/src/server.js:358 | decoding undoes encoding |
| Base64.StripPadding | apps/api/src/server.js:116 | the trailing run of `=` is removed, and only it |
| Base64.PadFor | apps/api/src/server.js:357 | the padding brings the length to a multiple of four |
| Base64.StripPaddingOf | apps/api/src/server.js:116 | stripping the padding of an encoding gives its alphabet characters |
| Base64.UrlRoundTrip | apps/api/src/server.js:114-117 | the URL-safe unpadded form decodes, after swapping back and re-padding, to the bytes |
| Base64.UrlEncodeChars | apps/api/src/server.js:116 | the URL-safe form uses only letters, digits, `-` and `_`, with at least two characters for non-empty input |

## Left out

- Database and ledger I/O: the `pg` pool, the migrations and the dhive client (with its reconnects and `rpcUrls` rotation) are not modelled. Tables are maps and sequences. The node is a map from height to block, and a missing entry is a block the node failed to deliver.
- Clock and timing: `Date.now()`, `new Date()` and `sleep` are replaced by time parameters in milliseconds. `Math.random` jitter is a parameter below 250. The `setTimeout` rescheduling is modelled only as the delay it computes.
- Logging and process control: console output, the indexer heartbeat, `process.exit` and the help text are not modelled. Also left out are Fastify routing and `listen`, SIGTERM handlers, and the payout service's command dispatch (apps/payout/src/index.js:371-402).
- The stake tracker is not part of this model. The scorer takes the set of eligible, non-denied agents as a snapshot input.
- `checkPairSpam` (apps/participation/src/index.js:141-154) is never called, so it is not modelled.
- Transfers: with or without dry run, no transfer is made and the transfer ids are always empty. The dry-run branch only logs (apps/payout/src/index.js:163-173, 331-339).
- Floating point:
  - Payout amounts are exact integer milli-units, so the error of `Math.floor(x * 1000) / 1000` in binary floating point is not modelled. Neither is the error of summing amounts in `byAccount`.
  - Scores, pools and shares are exact reals.
  - A zero total score gives `0 / 0`, which is modelled as an amount and share that are not numbers.
- `Math.sqrt`: the stake weight is kept as its square `wSquared`, so the stored score is `s * sqrt(wSquared)`.
- `JSON.parse`, `JSON.stringify` and the sha256 `bodyHash` are not modelled. Metadata arrives already parsed, or as "did not parse".
- `Date.parse` of the feed cursor is not modelled: `before` arrives already parsed, or as absent.
- `Number(...)` of query parameters is not modelled. A non-numeric `limit` or `depth` (NaN) is not representable, and `limit` and `depth` arrive as integers or absent.
- Base64:
  - Decoding follows RFC 4648 strictly. Node's `Buffer.from(s, 'base64')` is lenient and skips characters outside the alphabet, so on malformed parameters the model rejects some ids that Node would decode.
  - Decoded bytes are read one character per byte, which agrees with UTF-8 only on ASCII.
- Api.ContentIdRoundTrip: proved for ASCII content ids only, because UTF-8 encoding (`encodeURIComponent`/`unescape`) is not modelled.
- `toLowerCase` is modelled on ASCII letters only; other characters are kept. Unicode case mapping is not modelled.
- SQL ties: when `ORDER BY` keys are equal the database leaves the order open. The model keeps table order, using a stable sort.
- The page's HTML, DOM and feed globals are not modelled; of the embedded browser script only `b64urlEncode` is.
- The `comment_options` payout fields (`max_accepted_payout`, `percent_hbd`, `allow_votes`, `allow_curation_rewards`) are not modelled. Neither is the serialisation of operations, beyond "a field the chain needs is undefined".
- The CLI's beneficiary extension is tagged with the number `0`, while the indexer's auto-burn check matches the string `comment_payout_beneficiaries`. The model keeps the two tags distinct and does not claim that a CLI post passes the indexer's check.
- `PrivateKey.fromString` failing on a bad key is part of the broadcast outcome parameter.
- Indexer.OpRow: stores the corrected auto-burn flag (`Inclusion.CheckAutoBurn`), not `checkAutoBurn(...) ?? true` as apps/indexer/src/indexer.js:100-103 and :184 do. A comment whose companion `comment_options` has no `null` beneficiary, with enforcement on, is stored burn-invalid here and burn-valid by the program, so it drops out of the participation activity and the curated candidates only in the model. The as-written flag is `Inclusion.AutoBurnAsWritten` with `Inclusion.StoredBurnFlag`; see Findings.
- Indexer.ChainIndexer.ProcessOperation: inherits `Indexer.OpRow`'s corrected auto-burn flag.
- Indexer.ChainIndexer.ProcessTransaction: inherits `Indexer.OpRow`'s corrected auto-burn flag.
- Indexer.ChainIndexer.ProcessBlock: inherits `Indexer.OpRow`'s corrected auto-burn flag.
- Indexer.ChainIndexer.IndexRange: its rows (`RangeRows`) carry `Indexer.OpRow`'s corrected auto-burn flag.
- Indexer.ChainIndexer.IndexBlock: its rows carry `Indexer.OpRow`'s corrected auto-burn flag.
- Indexer.ChainIndexer.Step: `StepSpec`'s rows carry `Indexer.OpRow`'s corrected auto-burn flag.
- Cli.Post: builds the corrected permlink `BoundedPermlink`, not `generatePermlink(title)` as tools/cli_post.js:25-29 and :32 do. A 300-letter title with suffix `abcdef` is posted and reported with 255 characters here and 262 by the program. The as-written permlink is `Cli.GeneratePermlink`; see Findings.
- Cli.PostMeaning: "the permlink always fits" is a property of the corrected `BoundedPermlink` that `Cli.Post` uses, not of the program's `generatePermlink`.
- Cli.Run: posts with `Cli.Post`, so it reports and broadcasts the corrected permlink.
- Cli.RunDry: reports the corrected `BoundedPermlink`; it agrees with the program's permlink whenever that one fits (`Cli.BoundedPermlinkAgrees`).
- Payout.Aggregate: the program gathers amounts in a plain object `{}` (apps/payout/src/index.js:309-320). For the valid Hive account name `constructor`, `byAccount['constructor']` is the inherited `Object` function, so no entry is created and `.details.push` throws, which fails the run. The model aggregates that account like any other; names of `Object.prototype` members are not modelled.
- Payout.AddEntry: does not model the inherited `Object.prototype` keys of the plain object; see `Payout.Aggregate`.
- Cli.Run: `--tags` given as the last argument leaves the tags `undefined`. The `split` then throws outside the `try`, and the model reports this as the outcome `TagsUndefined`, not as an unhandled rejection.

## Findings

| source | as written | input that shows it | evidently intended | confidence | as-written member | corrected member |
|---|---|---|---|---|---|---|
| apps/indexer/src/indexer.js:100-102 | `checkAutoBurn` returns `nullBeneficiary && ...`, which is `undefined` when the companion `comment_options` has no `null` beneficiary; `upsertContent` then stores `burn_valid ?? true`, i.e. `true` | a comment whose `comment_options` carries an empty beneficiary list, with enforcement on | such a comment is stored with `burn_valid = false`, like every other failed check | high, not executed | Inclusion.AutoBurnAsWritten, Inclusion.NoBeneficiariesCounterexample | Inclusion.CheckAutoBurn, Inclusion.CheckAutoBurnMeansFullBurn |
| tools/cli_post.js:25-29 | the permlink is the slug (up to 255 characters), `-` and a suffix of up to six characters, with no bound on the whole | a title of 300 letters and the suffix `abcdef` give a 262-character permlink | a permlink within the chain's 255-character limit, as the 255-character cut of the slug suggests | medium, not executed | Cli.GeneratePermlink, Cli.GeneratePermlinkTooLong | Cli.BoundedPermlink, Cli.BoundedPermlinkAgrees |
