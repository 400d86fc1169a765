/**
 * The chain indexer: it follows the last irreversible block, turns every
 * AgentHive `comment` operation of each block into a `content` row (with its
 * author in `accounts`) and checkpoints the last block it finished. Ledger
 * reads are retried with capped exponential back-off.
 */
module Indexer {
  import opened Wrappers
  import opened Json
  import opened Ledger
  import opened Content
  import opened Inclusion
  import opened Sorting

  const DefaultBatchSize: int := 50
  const MaxBatchSize: int := 500
  const DefaultBootstrapLag: int := 50
  const PermalinkBase: string := "https://peakd.com/"

  /** The indexer's settings, as read from its environment (absent: the default). */
  datatype IndexerConfig = IndexerConfig(
    batchSize: Option<int>,
    bootstrapLag: Option<int>,
    tagPolicy: TagPolicy,
    autoBurnEnforced: bool)

  /** Blocks per pass: the setting clamped to [1, 500]. */
  function BatchSize(cfg: IndexerConfig): (n: int)
    ensures 1 <= n <= MaxBatchSize
    ensures cfg.batchSize.None? ==> n == DefaultBatchSize
    ensures cfg.batchSize.Some? && 1 <= cfg.batchSize.value <= MaxBatchSize ==> n == cfg.batchSize.value
  {
    var v := cfg.batchSize.GetOr(DefaultBatchSize);
    if v > MaxBatchSize then MaxBatchSize else if v < 1 then 1 else v
  }

  /** `bootstrapIndexed`: the stored checkpoint, or `lib` minus the (non-negative) bootstrap lag. */
  function Bootstrap(current: Option<int>, lib: int, lag: Option<int>): (b: int)
    ensures current.Some? ==> b == current.value
    ensures current.None? ==> b <= lib
  {
    if current.Some? then current.value
    else
      var l := lag.GetOr(DefaultBootstrapLag);
      lib - (if l < 0 then 0 else l)
  }

  /** The last block treated as done at the start of a pass: the bootstrap value, at least 1. */
  function StartHeight(cfg: IndexerConfig, current: Option<int>, lib: int): (h: int)
    ensures h >= 1
    ensures current.Some? && current.value >= 1 ==> h == current.value
  {
    var b := Bootstrap(current, lib, cfg.bootstrapLag);
    if b < 1 then 1 else b
  }

  /** The last block a pass may reach. */
  function Target(cfg: IndexerConfig, start: int, lib: int): (t: int)
    ensures t <= lib && t <= start + BatchSize(cfg)
    ensures t == lib || t == start + BatchSize(cfg)
  {
    var s := start + BatchSize(cfg);
    if lib < s then lib else s
  }

  /** `x || null` on a string column. */
  function NonEmpty(s: string): (r: Option<string>)
    ensures r.None? <==> s == ""
    ensures r.Some? ==> r.value == s
  {
    if s == "" then None else Some(s)
  }

  /** `jm?.agent?.kind`. */
  function AgentKind(jm: Json): Option<Json> {
    match Member(jm, "agent")
    case Some(agent) => Member(agent, "kind")
    case None => None
  }

  /** The link the indexer stores for a content id. */
  function PermalinkOf(contentId: string): string {
    PermalinkBase + contentId
  }

  /** The facts every row written by the indexer satisfies, whatever was merged into it. */
  predicate RowWellFormed(r: ContentRow) {
    r.contentId == ContentId(r.author, r.permlink)
    && r.url == PermalinkOf(r.contentId)
    && r.tags == ExtractTags(r.metadata)
    && r.burnValid.Some?
  }

  /** Every row is stored under its own content id and is well formed. */
  predicate TableWellFormed(t: Table) {
    forall k :: k in t ==> t[k].contentId == k && RowWellFormed(t[k])
  }

  /** The row `upsertContent` writes for comment `c`, with metadata `jm`, block time `ts` and burn flag `burn`. */
  function DeriveRow(c: Comment, jm: Json, ts: int, burn: bool): (r: ContentRow)
    ensures RowWellFormed(r) && r.author == c.author && r.permlink == c.permlink
    ensures r.isRoot <==> c.parentAuthor == ""
    ensures r.isRoot <==> r.parentAuthor.None?
    ensures r.createdAt == ts && r.metadata == jm && r.burnValid == Some(burn)
    ensures r.title.None? <==> c.title == ""
    ensures r.body.None? <==> c.body == ""
  {
    var id := ContentId(c.author, c.permlink);
    ContentRow(id, c.author, c.permlink, NonEmpty(c.parentAuthor), NonEmpty(c.parentPermlink),
               ts, c.parentAuthor == "", NonEmpty(c.title), NonEmpty(c.body), jm, ExtractTags(jm),
               NonNull(Member(jm, "app")), NonNull(AgentKind(jm)), "https://peakd.com/@" + c.author + "/" + c.permlink,
               Some(burn))
  }

  /** What one operation of `tx` in a block stamped `ts` writes: a row for an AgentHive comment, else nothing. */
  function OpRow(cfg: IndexerConfig, tx: Transaction, ts: int, op: Operation): (r: Option<ContentRow>)
    ensures r.Some? <==> op.CommentOp? && IsAgentHive(MetadataOrEmpty(op.comment.metadata), cfg.tagPolicy)
    ensures r.Some? ==> r.value == DeriveRow(op.comment, MetadataOrEmpty(op.comment.metadata), ts,
                                             CheckAutoBurn(cfg.autoBurnEnforced, op.comment, tx))
  {
    match op
    case CommentOp(c) =>
      var jm := MetadataOrEmpty(c.metadata);
      if IsAgentHive(jm, cfg.tagPolicy) then Some(DeriveRow(c, jm, ts, CheckAutoBurn(cfg.autoBurnEnforced, c, tx)))
      else None
    case _ => None
  }

  function OptionToSeq<T>(o: Option<T>): seq<T> {
    if o.Some? then [o.value] else []
  }

  /** The rows written for the operations `ops` of `tx`, in order. */
  function OpRows(cfg: IndexerConfig, tx: Transaction, ts: int, ops: seq<Operation>): seq<ContentRow> {
    if ops == [] then []
    else OpRows(cfg, tx, ts, ops[..|ops| - 1]) + OptionToSeq(OpRow(cfg, tx, ts, ops[|ops| - 1]))
  }

  /** The rows written for the transactions `txs` of a block stamped `ts`, in order. */
  function TxRows(cfg: IndexerConfig, ts: int, txs: seq<Transaction>): seq<ContentRow> {
    if txs == [] then []
    else
      var tx := txs[|txs| - 1];
      TxRows(cfg, ts, txs[..|txs| - 1]) + OpRows(cfg, tx, ts, tx.operations)
  }

  /** The rows written while processing block `b`, in order. */
  function BlockRows(cfg: IndexerConfig, b: Block): seq<ContentRow> {
    TxRows(cfg, b.timestamp, b.transactions)
  }

  /** The rows written for block `k` of the ledger (none for a block the node did not deliver). */
  function LedgerRows(cfg: IndexerConfig, ledger: map<int, Block>): int -> seq<ContentRow> {
    k => if k in ledger then BlockRows(cfg, ledger[k]) else []
  }

  /** The rows written for blocks `lo + 1 .. hi`, in order. */
  function RangeRows(cfg: IndexerConfig, ledger: map<int, Block>, lo: int, hi: int): seq<ContentRow>
  {
    ConcatRange(LedgerRows(cfg, ledger), lo, hi)
  }

  /** One block more: its rows follow those of the blocks before it. */
  lemma RangeRowsNext(cfg: IndexerConfig, ledger: map<int, Block>, lo: int, hi: int)
    requires lo < hi && hi in ledger
    ensures RangeRows(cfg, ledger, lo, hi) == RangeRows(cfg, ledger, lo, hi - 1) + BlockRows(cfg, ledger[hi])
  {
  }

  lemma OpRowsSnoc(cfg: IndexerConfig, tx: Transaction, ts: int, ops: seq<Operation>, j: int)
    requires 0 <= j < |ops|
    ensures OpRows(cfg, tx, ts, ops[..j + 1]) == OpRows(cfg, tx, ts, ops[..j]) + OptionToSeq(OpRow(cfg, tx, ts, ops[j]))
  {
    assert ops[..j + 1][..j] == ops[..j];
  }

  /** The authors of `rows`: the accounts `ensureAccount` adds for them. */
  function Authors(rows: seq<ContentRow>): set<string> {
    set r | r in rows :: r.author
  }

  lemma AuthorsAppend(a: seq<ContentRow>, b: seq<ContentRow>)
    ensures Authors(a + b) == Authors(a) + Authors(b)
  {
    assert forall r :: r in a + b <==> r in a || r in b;
  }

  /** Every row derived from the operations of a transaction is well formed and agrees with its derivation. */
  lemma {:induction false} OpRowsWellFormed(cfg: IndexerConfig, tx: Transaction, ts: int, ops: seq<Operation>)
    ensures forall r :: r in OpRows(cfg, tx, ts, ops) ==>
              RowWellFormed(r) && r.createdAt == ts && IsAgentHive(r.metadata, cfg.tagPolicy)
  {
    if ops != [] {
      OpRowsWellFormed(cfg, tx, ts, ops[..|ops| - 1]);
    }
  }

  lemma {:induction false} TxRowsWellFormed(cfg: IndexerConfig, ts: int, txs: seq<Transaction>)
    ensures forall r :: r in TxRows(cfg, ts, txs) ==>
              RowWellFormed(r) && r.createdAt == ts && IsAgentHive(r.metadata, cfg.tagPolicy)
  {
    if txs != [] {
      TxRowsWellFormed(cfg, ts, txs[..|txs| - 1]);
      var tx := txs[|txs| - 1];
      OpRowsWellFormed(cfg, tx, ts, tx.operations);
    }
  }

  /** Every row written for a range of blocks is a well-formed AgentHive row. */
  lemma {:induction false} RangeRowsWellFormed(cfg: IndexerConfig, ledger: map<int, Block>, lo: int, hi: int)
    ensures forall r :: r in RangeRows(cfg, ledger, lo, hi) ==> RowWellFormed(r) && IsAgentHive(r.metadata, cfg.tagPolicy)
    decreases hi - lo
  {
    if hi > lo {
      assert RangeRows(cfg, ledger, lo, hi) == RangeRows(cfg, ledger, lo, hi - 1) + LedgerRows(cfg, ledger)(hi);
      RangeRowsWellFormed(cfg, ledger, lo, hi - 1);
      if hi in ledger {
        TxRowsWellFormed(cfg, ledger[hi].timestamp, ledger[hi].transactions);
      }
    }
  }

  /** The rows of a longer range extend those of a shorter one from the same start. */
  lemma {:induction false} RangeRowsSplit(cfg: IndexerConfig, ledger: map<int, Block>, lo: int, mid: int, hi: int)
    requires lo <= mid <= hi
    ensures RangeRows(cfg, ledger, lo, hi) == RangeRows(cfg, ledger, lo, mid) + RangeRows(cfg, ledger, mid, hi)
  {
    ConcatRangeSplit(LedgerRows(cfg, ledger), lo, mid, hi);
  }

  /** Upserting well-formed rows keeps a well-formed table well formed. */
  lemma {:induction false} ApplyAllWellFormed(t: Table, rows: seq<ContentRow>)
    requires TableWellFormed(t)
    requires forall r :: r in rows ==> RowWellFormed(r)
    ensures TableWellFormed(ApplyAll(t, rows))
  {
    if rows != [] {
      ApplyAllWellFormed(t, rows[..|rows| - 1]);
      UpsertWellFormed(ApplyAll(t, rows[..|rows| - 1]), rows[|rows| - 1]);
    }
  }

  /** One upsert of a well-formed row keeps a well-formed table well formed. */
  lemma UpsertWellFormed(t: Table, row: ContentRow)
    requires TableWellFormed(t) && RowWellFormed(row)
    ensures TableWellFormed(Upsert(t, row))
  {
    var u := Upsert(t, row);
    forall k | k in u ensures u[k].contentId == k && RowWellFormed(u[k]) {
      if k == row.contentId && k in t {
        var m := Merge(t[k], row);
        assert m.contentId == t[k].contentId == k;
        assert m.url == row.url == PermalinkOf(k);
      }
    }
  }

  /**
   * Re-indexing blocks `lo + 1 .. hi` after a crash that had already written
   * the rows of `lo + 1 .. mid` (but not the checkpoint) gives the table a
   * single pass gives.
   */
  lemma RangeReplay(cfg: IndexerConfig, ledger: map<int, Block>, t: Table, lo: int, mid: int, hi: int)
    requires lo <= mid <= hi
    ensures ApplyAll(ApplyAll(t, RangeRows(cfg, ledger, lo, mid)), RangeRows(cfg, ledger, lo, hi))
         == ApplyAll(t, RangeRows(cfg, ledger, lo, hi))
  {
    var all := RangeRows(cfg, ledger, lo, hi);
    var first := RangeRows(cfg, ledger, lo, mid);
    RangeRowsSplit(cfg, ledger, lo, mid, hi);
    assert all[..|first|] == first;
    ReplayAfterPrefix(t, all, |first|);
  }

  /** The first block in `lo .. hi` the ledger could not deliver, or `hi + 1`. */
  function FirstMissing(ledger: map<int, Block>, lo: int, hi: int): (m: int)
    requires lo <= hi + 1
    ensures lo <= m <= hi + 1
    ensures forall k :: lo <= k < m ==> k in ledger
    ensures m <= hi ==> m !in ledger
    decreases hi + 1 - lo
  {
    if lo > hi then lo else if lo !in ledger then lo else FirstMissing(ledger, lo + 1, hi)
  }

  /** The first missing block is the only block of the range, or `hi + 1`, with every block
   * before it delivered and itself missing. */
  lemma {:induction false} FirstMissingIs(ledger: map<int, Block>, lo: int, hi: int, m: int)
    requires lo <= m <= hi + 1
    requires forall k :: lo <= k < m ==> k in ledger
    requires m <= hi ==> m !in ledger
    ensures FirstMissing(ledger, lo, hi) == m
    decreases m - lo
  {
    if lo < m {
      FirstMissingIs(ledger, lo + 1, hi, m);
    }
  }

  /** The persisted state: the `chain_state` row, the `content` table and the `accounts` table. */
  datatype IndexerState = IndexerState(
    lastIrreversible: Option<int>,
    lastIndexed: Option<int>,
    content: Table,
    accounts: set<string>)

  /** Every content row has its author in `accounts`, and the content table is well formed. */
  predicate StateValid(s: IndexerState) {
    TableWellFormed(s.content) && forall k :: k in s.content ==> s.content[k].author in s.accounts
  }

  datatype StepOutcome =
    | HeadUnavailable            // the head could not be read; nothing changes
    | Idle                       // nothing new to index; the checkpoint is rewritten
    | Advanced(upTo: int)        // every block up to the target was indexed
    | Stalled(at: int)           // block `at` could not be fetched; the pass ends there

  /** The last block a pass indexes: the target, or the block before the first one the node could not deliver. */
  function PassEnd(cfg: IndexerConfig, current: Option<int>, lib: int, ledger: map<int, Block>): (done: int)
    ensures StartHeight(cfg, current, lib) <= done
    ensures forall k :: StartHeight(cfg, current, lib) < k <= done ==> k in ledger
    ensures done <= Target(cfg, StartHeight(cfg, current, lib), lib) || done == StartHeight(cfg, current, lib)
  {
    var indexed := StartHeight(cfg, current, lib);
    var target := Target(cfg, indexed, lib);
    if indexed >= target then indexed else FirstMissing(ledger, indexed + 1, target) - 1
  }

  /**
   * One pass of the main loop. `head` is the last irreversible block the node
   * reported (None: the read failed after its retries); `ledger` holds the
   * blocks the node delivers (a missing height: the read failed after its
   * retries). The checkpoint is written after every block, so a failure
   * keeps the progress made before it.
   */
  function StepSpec(cfg: IndexerConfig, s: IndexerState, head: Option<int>, ledger: map<int, Block>): (IndexerState, StepOutcome) {
    if head.None? then (s, HeadUnavailable)
    else
      var lib := head.value;
      var indexed := StartHeight(cfg, s.lastIndexed, lib);
      var target := Target(cfg, indexed, lib);
      if indexed >= target then (s.(lastIrreversible := Some(lib), lastIndexed := Some(indexed)), Idle)
      else
        var done := PassEnd(cfg, s.lastIndexed, lib, ledger);
        (Progress(cfg, s, lib, ledger, indexed, done), if done == target then Advanced(done) else Stalled(done + 1))
  }

  /** The state after a pass that started after block `indexed` has finished block `upTo`. */
  function Progress(cfg: IndexerConfig, s: IndexerState, lib: int, ledger: map<int, Block>, indexed: int, upTo: int): IndexerState
  {
    var rows := RangeRows(cfg, ledger, indexed, upTo);
    var s' := s.(content := ApplyAll(s.content, rows), accounts := s.accounts + Authors(rows));
    if upTo > indexed then s'.(lastIrreversible := Some(lib), lastIndexed := Some(upTo)) else s'
  }

  /** A pass that has finished no block has changed nothing. */
  lemma ProgressNone(cfg: IndexerConfig, s: IndexerState, lib: int, ledger: map<int, Block>, indexed: int)
    ensures Progress(cfg, s, lib, ledger, indexed, indexed) == s
  {
    assert RangeRows(cfg, ledger, indexed, indexed) == [];
    assert Authors([]) == {};
  }

  /** Finishing one more block applies its rows and moves the checkpoint to it. */
  lemma ProgressNext(cfg: IndexerConfig, s: IndexerState, lib: int, ledger: map<int, Block>, indexed: int, bn: int)
    requires indexed < bn && bn in ledger
    ensures var p := Progress(cfg, s, lib, ledger, indexed, bn - 1);
      var rows := BlockRows(cfg, ledger[bn]);
      Progress(cfg, s, lib, ledger, indexed, bn)
        == p.(content := ApplyAll(p.content, rows), accounts := p.accounts + Authors(rows),
              lastIrreversible := Some(lib), lastIndexed := Some(bn))
  {
    var before := RangeRows(cfg, ledger, indexed, bn - 1);
    RangeRowsNext(cfg, ledger, indexed, bn);
    ApplyAllAppend(s.content, before, BlockRows(cfg, ledger[bn]));
    AuthorsAppend(before, BlockRows(cfg, ledger[bn]));
  }


  /** Every content row stays well formed and keeps an `accounts` row for its author. */
  lemma StepKeepsValid(cfg: IndexerConfig, s: IndexerState, head: Option<int>, ledger: map<int, Block>)
    requires StateValid(s)
    ensures StateValid(StepSpec(cfg, s, head, ledger).0)
  {
    if head.Some? {
      var lib := head.value;
      var indexed := StartHeight(cfg, s.lastIndexed, lib);
      if indexed < Target(cfg, indexed, lib) {
        var done := PassEnd(cfg, s.lastIndexed, lib, ledger);
        var rows := RangeRows(cfg, ledger, indexed, done);
        RangeRowsWellFormed(cfg, ledger, indexed, done);
        ApplyAllWellFormed(s.content, rows);
        var t := ApplyAll(s.content, rows);
        forall k | k in t ensures t[k].author in s.accounts + Authors(rows) {
          ApplyAllAt(s.content, rows, k);
          if HasId(rows, k) {
            assert LastWithId(rows, k) in rows;
            if k !in s.content {
              assert FirstWithId(rows, k) in rows;
            }
          }
        }
      }
    }
  }

  /** A stored checkpoint of at least 1 never moves backwards, and moves by at most one batch. */
  lemma StepCheckpointMonotone(cfg: IndexerConfig, s: IndexerState, head: Option<int>, ledger: map<int, Block>)
    requires s.lastIndexed.Some? && s.lastIndexed.value >= 1
    ensures var s' := StepSpec(cfg, s, head, ledger).0;
      s'.lastIndexed.Some? && s.lastIndexed.value <= s'.lastIndexed.value <= s.lastIndexed.value + BatchSize(cfg)
  {
  }

  /** Once it has caught up, the checkpoint never passes the last irreversible block the node reported. */
  lemma StepCheckpointBelowHead(cfg: IndexerConfig, s: IndexerState, lib: int, ledger: map<int, Block>)
    requires lib >= 1
    requires s.lastIndexed.None? || s.lastIndexed.value <= lib
    ensures var s' := StepSpec(cfg, s, Some(lib), ledger).0;
      s'.lastIndexed.None? || s'.lastIndexed.value <= lib
  {
  }

  /** The outcome reports exactly where the pass ended. */
  lemma StepOutcomeMeaning(cfg: IndexerConfig, s: IndexerState, lib: int, ledger: map<int, Block>)
    ensures var (s', out) := StepSpec(cfg, s, Some(lib), ledger);
      (out.Advanced? ==> s'.lastIndexed == Some(out.upTo) && out.upTo == Target(cfg, StartHeight(cfg, s.lastIndexed, lib), lib))
      && (out.Stalled? ==>
            out.at !in ledger && out.at <= Target(cfg, StartHeight(cfg, s.lastIndexed, lib), lib)
            && forall k :: StartHeight(cfg, s.lastIndexed, lib) < k < out.at ==> k in ledger)
      && (out.Idle? <==> StartHeight(cfg, s.lastIndexed, lib) >= Target(cfg, StartHeight(cfg, s.lastIndexed, lib), lib))
  {
  }

  /**
   * A crash after some rows of a pass were written but before the checkpoint
   * moved past them is harmless: the next pass from the same checkpoint
   * leaves the same tables as an uninterrupted pass.
   */
  lemma StepReplaySafe(cfg: IndexerConfig, s: IndexerState, lib: int, ledger: map<int, Block>, mid: int)
    requires StartHeight(cfg, s.lastIndexed, lib) <= mid <= PassEnd(cfg, s.lastIndexed, lib, ledger)
    ensures var indexed := StartHeight(cfg, s.lastIndexed, lib);
      var partial := RangeRows(cfg, ledger, indexed, mid);
      var crashed := s.(content := ApplyAll(s.content, partial), accounts := s.accounts + Authors(partial));
      StepSpec(cfg, crashed, Some(lib), ledger).0.content == StepSpec(cfg, s, Some(lib), ledger).0.content
      && StepSpec(cfg, crashed, Some(lib), ledger).0.accounts == StepSpec(cfg, s, Some(lib), ledger).0.accounts
  {
    var indexed := StartHeight(cfg, s.lastIndexed, lib);
    var done := PassEnd(cfg, s.lastIndexed, lib, ledger);
    if indexed < done {
      var partial := RangeRows(cfg, ledger, indexed, mid);
      var all := RangeRows(cfg, ledger, indexed, done);
      RangeReplay(cfg, ledger, s.content, indexed, mid, done);
      RangeRowsSplit(cfg, ledger, indexed, mid, done);
      AuthorsAppend(partial, RangeRows(cfg, ledger, mid, done));
    }
  }

  /** The indexer process: its persisted state and its settings. */
  class ChainIndexer {
    const cfg: IndexerConfig
    var lastIrreversible: Option<int>
    var lastIndexed: Option<int>
    var content: Table
    var accounts: set<string>

    function State(): IndexerState
      reads this
    {
      IndexerState(lastIrreversible, lastIndexed, content, accounts)
    }

    /** A fresh deployment: an empty `chain_state` row and empty tables. */
    constructor (cfg: IndexerConfig)
      ensures this.cfg == cfg
      ensures State() == IndexerState(None, None, map[], {})
      ensures StateValid(State())
    {
      this.cfg := cfg;
      lastIrreversible := None;
      lastIndexed := None;
      content := map[];
      accounts := {};
    }

    /** `ensureAccount`: insert the account, doing nothing when it exists. */
    method EnsureAccount(name: string)
      modifies this
      ensures accounts == old(accounts) + {name}
      ensures content == old(content) && lastIndexed == old(lastIndexed) && lastIrreversible == old(lastIrreversible)
    {
      accounts := accounts + {name};
    }

    /** `upsertContent`. */
    method UpsertContent(row: ContentRow)
      modifies this
      ensures content == Upsert(old(content), row)
      ensures accounts == old(accounts) && lastIndexed == old(lastIndexed) && lastIrreversible == old(lastIrreversible)
    {
      content := Upsert(content, row);
    }

    /** `setChainState`. */
    method SetChainState(lib: int, indexed: int)
      modifies this
      ensures lastIrreversible == Some(lib) && lastIndexed == Some(indexed)
      ensures content == old(content) && accounts == old(accounts)
    {
      lastIrreversible := Some(lib);
      lastIndexed := Some(indexed);
    }

    /** Indexes the AgentHive comments of transaction `tx` of a block stamped `ts`, operation by operation. */
    method ProcessTransaction(tx: Transaction, ts: int)
      modifies this
      ensures content == ApplyAll(old(content), OpRows(cfg, tx, ts, tx.operations))
      ensures accounts == old(accounts) + Authors(OpRows(cfg, tx, ts, tx.operations))
      ensures lastIndexed == old(lastIndexed) && lastIrreversible == old(lastIrreversible)
    {
      var ops := tx.operations;
      for j := 0 to |ops|
        invariant content == ApplyAll(old(content), OpRows(cfg, tx, ts, ops[..j]))
        invariant accounts == old(accounts) + Authors(OpRows(cfg, tx, ts, ops[..j]))
        invariant lastIndexed == old(lastIndexed) && lastIrreversible == old(lastIrreversible)
      {
        ghost var done := OpRows(cfg, tx, ts, ops[..j]);
        ghost var more := OptionToSeq(OpRow(cfg, tx, ts, ops[j]));
        OpRowsSnoc(cfg, tx, ts, ops, j);
        ProcessOperation(tx, ts, ops[j]);
        ApplyAllAppend(old(content), done, more);
        AuthorsAppend(done, more);
      }
      assert ops[..|ops|] == ops;
    }

    /** One operation of a transaction: a recognised comment is stored and its author recorded. */
    method ProcessOperation(tx: Transaction, ts: int, op: Operation)
      modifies this
      ensures content == ApplyAll(old(content), OptionToSeq(OpRow(cfg, tx, ts, op)))
      ensures accounts == old(accounts) + Authors(OptionToSeq(OpRow(cfg, tx, ts, op)))
      ensures lastIndexed == old(lastIndexed) && lastIrreversible == old(lastIrreversible)
    {
      var row := OpRow(cfg, tx, ts, op);
      if row.Some? {
        EnsureAccount(row.value.author);
        UpsertContent(row.value);
        ApplyAllSnoc(old(content), [], row.value);
        assert [] + [row.value] == [row.value];
      }
    }

    /** Indexes every AgentHive comment of block `b`, transaction by transaction. */
    method ProcessBlock(b: Block)
      modifies this
      ensures content == ApplyAll(old(content), BlockRows(cfg, b))
      ensures accounts == old(accounts) + Authors(BlockRows(cfg, b))
      ensures lastIndexed == old(lastIndexed) && lastIrreversible == old(lastIrreversible)
    {
      var txs := b.transactions;
      for i := 0 to |txs|
        invariant content == ApplyAll(old(content), TxRows(cfg, b.timestamp, txs[..i]))
        invariant accounts == old(accounts) + Authors(TxRows(cfg, b.timestamp, txs[..i]))
        invariant lastIndexed == old(lastIndexed) && lastIrreversible == old(lastIrreversible)
      {
        ghost var done := TxRows(cfg, b.timestamp, txs[..i]);
        ghost var more := OpRows(cfg, txs[i], b.timestamp, txs[i].operations);
        assert txs[..i + 1][..i] == txs[..i];
        ProcessTransaction(txs[i], b.timestamp);
        ApplyAllAppend(old(content), done, more);
        AuthorsAppend(done, more);
      }
      assert txs[..|txs|] == txs;
    }

    /** One pass of the main loop, given what the node delivers. */
    method Step(head: Option<int>, ledger: map<int, Block>) returns (outcome: StepOutcome)
      modifies this
      ensures (State(), outcome) == StepSpec(cfg, old(State()), head, ledger)
    {
      if head.None? {
        return HeadUnavailable;
      }
      ghost var s0 := State();
      var lib := head.value;
      var indexed := StartHeight(cfg, lastIndexed, lib);
      var target := Target(cfg, indexed, lib);
      if indexed >= target {
        SetChainState(lib, indexed);
        return Idle;
      }
      var done := IndexRange(lib, indexed, target, ledger);
      FirstMissingIs(ledger, indexed + 1, target, done + 1);
      var stop := done + 1;
      assert done == PassEnd(cfg, s0.lastIndexed, lib, ledger);
      assert State() == StepSpec(cfg, s0, head, ledger).0;
      if stop > target {
        return Advanced(target);
      }
      return Stalled(stop);
    }

    /**
     * The block loop of a pass: indexes `indexed + 1 ..` up to `target`,
     * checkpointing after each block, and stops before the first block the
     * node could not deliver; returns the last block it indexed.
     */
    method IndexRange(lib: int, indexed: int, target: int, ledger: map<int, Block>) returns (done: int)
      requires indexed < target
      modifies this
      ensures indexed <= done <= target
      ensures forall k :: indexed < k <= done ==> k in ledger
      ensures done < target ==> done + 1 !in ledger
      ensures State() == Progress(cfg, old(State()), lib, ledger, indexed, done)
    {
      ghost var s0 := State();
      done := indexed;
      ProgressNone(cfg, s0, lib, ledger, indexed);
      while done < target && done + 1 in ledger
        invariant indexed <= done <= target
        invariant forall k :: indexed < k <= done ==> k in ledger
        invariant State() == Progress(cfg, s0, lib, ledger, indexed, done)
        decreases target - done
      {
        done := IndexBlock(lib, indexed, done, ledger, s0);
      }
    }

    /** Indexes the block after `prev`, moves the checkpoint to it and returns its number. */
    method IndexBlock(lib: int, indexed: int, prev: int, ledger: map<int, Block>, ghost s0: IndexerState)
        returns (bn: int)
      requires indexed <= prev
      requires prev + 1 in ledger
      requires State() == Progress(cfg, s0, lib, ledger, indexed, prev)
      modifies this
      ensures bn == prev + 1
      ensures State() == Progress(cfg, s0, lib, ledger, indexed, bn)
    {
      bn := prev + 1;
      ProgressNext(cfg, s0, lib, ledger, indexed, bn);
      ProcessBlock(ledger[bn]);
      SetChainState(lib, bn);
    }
  }

  // -------------------------------------------------------------- retrying

  /** The outcome of one attempt of a retried call. */
  datatype Attempt<T> = Success(value: T) | Failure(error: string)

  const DefaultRetries: int := 5
  const DefaultBaseMs: int := 250
  const MinBaseMs: int := 50
  const MaxBackoffMs: int := 10000
  const JitterSpanMs: int := 250

  function Pow2(i: nat): (p: nat)
    ensures p >= 1
  {
    if i == 0 then 1 else 2 * Pow2(i - 1)
  }

  lemma {:induction false} Pow2Monotone(i: nat, j: nat)
    requires i <= j
    ensures Pow2(i) <= Pow2(j)
    decreases j
  {
    if i < j {
      Pow2Monotone(i, j - 1);
    }
  }

  /** Attempts after the first one. */
  function RetryCount(retries: Option<int>): (n: nat)
    ensures retries.None? ==> n == DefaultRetries
    ensures retries.Some? && retries.value >= 0 ==> n == retries.value
  {
    var r := retries.GetOr(DefaultRetries);
    if r < 0 then 0 else r
  }

  /** The base delay, at least 50 ms. */
  function BaseDelay(baseMs: Option<int>): (b: int)
    ensures b >= MinBaseMs
    ensures baseMs.None? ==> b == DefaultBaseMs
    ensures baseMs.Some? && baseMs.value >= MinBaseMs ==> b == baseMs.value
  {
    var b := baseMs.GetOr(DefaultBaseMs);
    if b < MinBaseMs then MinBaseMs else b
  }

  /** The pause after failed attempt `i`, before jitter. */
  function Backoff(base: int, i: nat): int {
    if base * Pow2(i) < MaxBackoffMs then base * Pow2(i) else MaxBackoffMs
  }

  /** Back-off never shrinks from one attempt to the next, never passes 10 s, and never drops below the base. */
  lemma BackoffBounds(base: int, i: nat, j: nat)
    requires MinBaseMs <= base && i <= j
    ensures Backoff(base, i) <= Backoff(base, j) <= MaxBackoffMs
    ensures base <= Backoff(base, i) || base > MaxBackoffMs
  {
    Pow2Monotone(i, j);
    ScaleMonotone(base, Pow2(i), Pow2(j));
    ScaleMonotone(base, 1, Pow2(i));
  }

  lemma ScaleMonotone(base: int, a: int, b: int)
    requires 0 <= base && a <= b
    ensures base * a <= base * b
  {
  }

  /**
   * `withRetry`: calls `call(0)`, `call(1)`, ... until one succeeds, at most
   * `retries + 1` times, sleeping `Backoff + jitter(i)` after each failure
   * (the last one included); when all fail, the last error is returned.
   * `sleeps` lists the pauses in order.
   */
  method WithRetry<T>(call: nat -> Attempt<T>, retries: Option<int>, baseMs: Option<int>, jitter: nat -> int)
      returns (r: Result<T, string>, sleeps: seq<int>)
    requires forall i :: 0 <= jitter(i) < JitterSpanMs
    ensures forall j :: 0 <= j < |sleeps| ==> call(j).Failure? && sleeps[j] == Backoff(BaseDelay(baseMs), j) + jitter(j)
    ensures r.Ok? ==> |sleeps| <= RetryCount(retries) && call(|sleeps|) == Success(r.value)
    ensures r.Err? ==> |sleeps| == RetryCount(retries) + 1 && r.error == call(RetryCount(retries)).error
  {
    var n := RetryCount(retries);
    var base := BaseDelay(baseMs);
    var lastErr := "";
    sleeps := [];
    var i: nat := 0;
    while i <= n
      invariant i <= n + 1 && |sleeps| == i
      invariant forall j :: 0 <= j < i ==> call(j).Failure? && sleeps[j] == Backoff(base, j) + jitter(j)
      invariant i > 0 ==> lastErr == call(i - 1).error
    {
      var a := call(i);
      if a.Success? {
        return Ok(a.value), sleeps;
      }
      lastErr := a.error;
      sleeps := sleeps + [Backoff(base, i) + jitter(i)];
      i := i + 1;
    }
    return Err(lastErr), sleeps;
  }

  /** The pauses of a retried call each last between the base delay (capped at 10 s) and 10.249 s. */
  lemma {:induction false} SleepsBounded(sleeps: seq<int>, base: int, jitter: nat -> int)
    requires MinBaseMs <= base
    requires forall i :: 0 <= jitter(i) < JitterSpanMs
    requires forall j :: 0 <= j < |sleeps| ==> sleeps[j] == Backoff(base, j) + jitter(j)
    ensures Sum(sleeps) <= |sleeps| * (MaxBackoffMs + JitterSpanMs - 1)
    ensures Sum(sleeps) >= |sleeps| * Backoff(base, 0)
    decreases |sleeps|
  {
    if sleeps != [] {
      var n := |sleeps| - 1;
      var init := sleeps[..n];
      SleepsBounded(init, base, jitter);
      BackoffBounds(base, 0, n);
      assert Sum(sleeps) == Sum(init) + sleeps[n];
      var hi := MaxBackoffMs + JitterSpanMs - 1;
      var lo := Backoff(base, 0);
      assert |sleeps| * hi == n * hi + hi;
      assert |sleeps| * lo == n * lo + lo;
    }
  }


}
