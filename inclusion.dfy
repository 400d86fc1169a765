/**
 * Which comments the indexer keeps and how it flags them: metadata tags, the
 * inclusion policy (canonical app id, or a whitelisted tag when tag acceptance
 * is on) and the auto-burn check on the companion `comment_options`.
 */
module Inclusion {
  import opened Wrappers
  import opened Json
  import opened Strings
  import opened Ledger

  const CanonicalApp: string := "agenthive/1.0"
  const DefaultWhitelist: string := "agenthive"
  const BeneficiariesExtension: string := "comment_payout_beneficiaries"
  const BurnAccount: string := "null"
  const FullWeight: int := 10000

  /** `safeJsonParse(json_metadata) ?? {}`: metadata that did not parse, or parsed to null, is `{}`. */
  function MetadataOrEmpty(parsed: Option<Json>): (jm: Json)
    ensures jm != JNull
    ensures parsed.Some? && parsed.value != JNull ==> jm == parsed.value
    ensures parsed.None? ==> jm == JObj(map[])
  {
    match parsed
    case Some(v) => if v == JNull then JObj(map[]) else v
    case None => JObj(map[])
  }

  /** The string elements of `items`, in order. */
  function StringElements(items: seq<Json>): (r: seq<string>)
    ensures forall s :: s in r <==> JStr(s) in items
    ensures |r| <= |items|
  {
    if items == [] then []
    else
      var rest := StringElements(items[1..]);
      assert forall v :: v in items <==> v == items[0] || v in items[1..];
      if items[0].JStr? then [items[0].s] + rest else rest
  }

  /** The raw `tags` member when it is an array, else nothing. */
  function TagItems(jm: Json): seq<Json> {
    match Member(jm, "tags")
    case Some(JArr(items)) => items
    case _ => []
  }

  /** `extractTags`: the string elements of `tags` when it is an array, otherwise none. */
  function ExtractTags(jm: Json): (tags: seq<string>)
    ensures forall s :: s in tags <==> JStr(s) in TagItems(jm)
    ensures !(Member(jm, "tags").Some? && Member(jm, "tags").value.JArr?) ==> tags == []
  {
    StringElements(TagItems(jm))
  }

  /** The tag-acceptance switch and the raw whitelist setting (absent: the default). */
  datatype TagPolicy = TagPolicy(acceptTags: bool, whitelist: Option<string>)

  /** The configured whitelist: comma-separated, trimmed, empties dropped. */
  function Whitelist(p: TagPolicy): seq<string> {
    CommaList(p.whitelist.GetOr(DefaultWhitelist))
  }

  predicate DeclaresCanonicalApp(jm: Json) {
    Member(jm, "app") == Some(JStr(CanonicalApp))
  }

  /** `isAgentHive`. */
  function IsAgentHive(jm: Json, p: TagPolicy): bool {
    if DeclaresCanonicalApp(jm) then true
    else if !p.acceptTags then false
    else
      var tags := ExtractTags(jm);
      exists k :: 0 <= k < |tags| && tags[k] in Whitelist(p)
  }

  /**
   * Inclusion policy: canonical metadata is always included; otherwise a comment
   * is included exactly when tag acceptance is on and one of its string tags
   * is on the whitelist.
   */
  lemma IsAgentHiveIff(jm: Json, p: TagPolicy)
    ensures IsAgentHive(jm, p) <==>
      DeclaresCanonicalApp(jm) || (p.acceptTags && exists t :: JStr(t) in TagItems(jm) && t in Whitelist(p))
  {
    var tags := ExtractTags(jm);
    if !DeclaresCanonicalApp(jm) && p.acceptTags {
      if exists t :: JStr(t) in TagItems(jm) && t in Whitelist(p) {
        var t :| JStr(t) in TagItems(jm) && t in Whitelist(p);
        assert t in tags;
        var k :| 0 <= k < |tags| && tags[k] == t;
      }
      if exists k :: 0 <= k < |tags| && tags[k] in Whitelist(p) {
        var k :| 0 <= k < |tags| && tags[k] in Whitelist(p);
        assert JStr(tags[k]) in TagItems(jm);
      }
    }
  }

  /** Without a configured whitelist the only accepted tag is `agenthive`. */
  lemma DefaultWhitelistIsAgenthive(accept: bool)
    ensures Whitelist(TagPolicy(accept, None)) == ["agenthive"]
  {
    var s := DefaultWhitelist;
    assert ',' !in s;
    assert IndexOf(s, ',') == |s|;
    assert IsTrimmed(s);
    TrimOfTrimmed(s);
    assert TrimmedNonEmpty([s]) == [s];
  }

  // ---------------------------------------------------------------- auto-burn

  predicate OptionsFor(op: Operation, author: string, permlink: string) {
    op.OptionsOp? && op.options.author == author && op.options.permlink == permlink
  }

  /** The first `comment_options` of the transaction addressed to `author`/`permlink`. */
  function FindOptions(ops: seq<Operation>, author: string, permlink: string): (r: Option<CommentOptions>)
    ensures r.Some? ==> OptionsOp(r.value) in ops && r.value.author == author && r.value.permlink == permlink
    ensures r.None? ==> forall k :: 0 <= k < |ops| ==> !OptionsFor(ops[k], author, permlink)
  {
    if ops == [] then None
    else if OptionsFor(ops[0], author, permlink) then Some(ops[0].options)
    else
      var r := FindOptions(ops[1..], author, permlink);
      assert forall k :: 1 <= k < |ops| ==> ops[k] == ops[1..][k - 1];
      r
  }

  /** The beneficiaries of every extension tagged `comment_payout_beneficiaries`, concatenated. */
  function BeneficiariesOf(exts: seq<Extension>): (bs: seq<Beneficiary>)
    ensures forall b :: b in bs ==> exists k :: 0 <= k < |exts| && exts[k].tag == TagName(BeneficiariesExtension) && b in exts[k].beneficiaries
  {
    if exts == [] then []
    else
      var rest := BeneficiariesOf(exts[1..]);
      assert forall k :: 1 <= k < |exts| ==> exts[k] == exts[1..][k - 1];
      (if exts[0].tag == TagName(BeneficiariesExtension) then exts[0].beneficiaries else []) + rest
  }

  /** The first beneficiary named `null`. */
  function FirstNull(bs: seq<Beneficiary>): (r: Option<Beneficiary>)
    ensures r.Some? ==> r.value in bs && r.value.account == BurnAccount
    ensures r.None? ==> forall b :: b in bs ==> b.account != BurnAccount
  {
    if bs == [] then None
    else if bs[0].account == BurnAccount then Some(bs[0])
    else FirstNull(bs[1..])
  }

  /** The sum of the weights. */
  function TotalWeight(bs: seq<Beneficiary>): int {
    if bs == [] then 0 else bs[0].weight + TotalWeight(bs[1..])
  }

  /** The sum of the weights paid to `null`. */
  function NullWeight(bs: seq<Beneficiary>): int {
    if bs == [] then 0 else (if bs[0].account == BurnAccount then bs[0].weight else 0) + NullWeight(bs[1..])
  }

  predicate NonNegativeWeights(bs: seq<Beneficiary>) {
    forall b :: b in bs ==> b.weight >= 0
  }

  /**
   * `checkAutoBurn` as it should behave: with enforcement off every comment is
   * burn-valid; with it on, the transaction must hold a `comment_options` for
   * the same author and permlink whose first `null` beneficiary has the full
   * weight and whose weights sum to the full weight.
   */
  function CheckAutoBurn(enforced: bool, c: Comment, tx: Transaction): bool {
    if !enforced then true
    else match FindOptions(tx.operations, c.author, c.permlink)
      case None => false
      case Some(o) =>
        var bs := BeneficiariesOf(o.extensions);
        FirstNull(bs).Some? && FirstNull(bs).value.weight == FullWeight && TotalWeight(bs) == FullWeight
  }

  lemma {:induction false} FirstNullBelowTotal(bs: seq<Beneficiary>)
    requires NonNegativeWeights(bs) && FirstNull(bs).Some?
    ensures FirstNull(bs).value.weight <= TotalWeight(bs)
  {
    if bs[0].account != BurnAccount {
      FirstNullBelowTotal(bs[1..]);
    } else {
      ZeroBelowTotal(bs[1..]);
    }
  }

  lemma {:induction false} ZeroBelowTotal(bs: seq<Beneficiary>)
    requires NonNegativeWeights(bs)
    ensures 0 <= NullWeight(bs) <= TotalWeight(bs)
    ensures TotalWeight(bs) == 0 ==> forall b :: b in bs ==> b.weight == 0
  {
    if bs != [] {
      ZeroBelowTotal(bs[1..]);
    }
  }

  /**
   * A burn-valid beneficiary list with non-negative weights sends everything
   * to `null`: the `null` entries carry the full weight and every other entry
   * carries none.
   */
  lemma {:induction false} BurnValidSendsAllToNull(bs: seq<Beneficiary>)
    requires NonNegativeWeights(bs)
    requires FirstNull(bs).Some? && FirstNull(bs).value.weight == FullWeight && TotalWeight(bs) == FullWeight
    ensures NullWeight(bs) == FullWeight
    ensures forall b :: b in bs && b.account != BurnAccount ==> b.weight == 0
  {
    if bs[0].account == BurnAccount {
      ZeroBelowTotal(bs[1..]);
    } else {
      FirstNullBelowTotal(bs[1..]);
      BurnValidSendsAllToNull(bs[1..]);
    }
  }

  /** A valid enforced check means the companion options burn the whole payout. */
  lemma CheckAutoBurnMeansFullBurn(c: Comment, tx: Transaction)
    requires CheckAutoBurn(true, c, tx)
    requires forall o :: OptionsOp(o) in tx.operations ==> NonNegativeWeights(BeneficiariesOf(o.extensions))
    ensures FindOptions(tx.operations, c.author, c.permlink).Some?
    ensures NullWeight(BeneficiariesOf(FindOptions(tx.operations, c.author, c.permlink).value.extensions)) == FullWeight
  {
    var o := FindOptions(tx.operations, c.author, c.permlink).value;
    BurnValidSendsAllToNull(BeneficiariesOf(o.extensions));
  }

  // ------------------------------------------- the check as the source has it

  /**
   * `checkAutoBurn` as written: `nullBeneficiary && ...` evaluates to
   * `undefined` (None here) when the options name no `null` beneficiary.
   */
  function AutoBurnAsWritten(enforced: bool, c: Comment, tx: Transaction): Option<bool> {
    if !enforced then Some(true)
    else match FindOptions(tx.operations, c.author, c.permlink)
      case None => Some(false)
      case Some(o) =>
        var bs := BeneficiariesOf(o.extensions);
        match FirstNull(bs)
        case None => None
        case Some(b) => Some(b.weight == FullWeight && TotalWeight(bs) == FullWeight)
  }

  /** `burn_valid ?? true`: the flag `upsertContent` stores. */
  function StoredBurnFlag(v: Option<bool>): bool {
    v.GetOr(true)
  }

  /**
   * The defect: when the companion options exist but name no `null`
   * beneficiary, the as-written check logs a rejection yet the row is
   * stored burn-valid; the corrected check flags it invalid.
   */
  lemma AsWrittenStoresValidWithoutNull(c: Comment, tx: Transaction)
    requires FindOptions(tx.operations, c.author, c.permlink).Some?
    requires FirstNull(BeneficiariesOf(FindOptions(tx.operations, c.author, c.permlink).value.extensions)).None?
    ensures AutoBurnAsWritten(true, c, tx).None?
    ensures StoredBurnFlag(AutoBurnAsWritten(true, c, tx))
    ensures !CheckAutoBurn(true, c, tx)
  {
  }

  /** In every other case the stored as-written flag equals the corrected check. */
  lemma AsWrittenAgreesOtherwise(enforced: bool, c: Comment, tx: Transaction)
    requires AutoBurnAsWritten(enforced, c, tx).Some?
    ensures StoredBurnFlag(AutoBurnAsWritten(enforced, c, tx)) == CheckAutoBurn(enforced, c, tx)
  {
  }

  /** A concrete input: a post whose options carry no beneficiaries at all. */
  lemma NoBeneficiariesCounterexample()
    ensures var c := Comment("", "agenthive", "alice", "hello", "Hello", "Hi", None);
            var tx := Transaction([CommentOp(c), OptionsOp(CommentOptions("alice", "hello", []))]);
            StoredBurnFlag(AutoBurnAsWritten(true, c, tx)) && !CheckAutoBurn(true, c, tx)
  {
    var c := Comment("", "agenthive", "alice", "hello", "Hello", "Hi", None);
    var tx := Transaction([CommentOp(c), OptionsOp(CommentOptions("alice", "hello", []))]);
    assert FindOptions(tx.operations, "alice", "hello") == Some(CommentOptions("alice", "hello", []));
  }
}
