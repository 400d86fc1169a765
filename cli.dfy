/**
 * The command-line poster: permlink slugs, the two operations of a post (the
 * comment and a `comment_options` that sends every reward to `null`), the
 * argument parser and the top-level flow. The random permlink suffix and the
 * outcome of signing and broadcasting are parameters.
 */
module Cli {
  import opened Wrappers
  import opened Json
  import opened Strings
  import opened Sorting
  import opened Ledger
  import Inclusion

  /** `slugify` keeps at most this many characters. */
  const SlugMax: int := 255
  /** The base used when the title gives an empty slug. */
  const DefaultBase: string := "agenthive-post"
  /** The longest permlink the chain accepts (it must be shorter than 256 characters). */
  const PermlinkMax: int := 255
  /** `Math.random().toString(36).slice(2, 8)` yields at most six characters. */
  const SuffixMax: int := 6

  // ------------------------------------------------------------------ slugs

  predicate IsSlugChar(c: char) {
    ('a' <= c <= 'z') || ('0' <= c <= '9')
  }

  /** Only `[a-z0-9-]`. */
  predicate SlugAlphabet(s: string) {
    forall k :: 0 <= k < |s| ==> IsSlugChar(s[k]) || s[k] == '-'
  }

  /** No two `-` side by side. */
  predicate NoDoubleDash(s: string) {
    forall k :: 0 <= k < |s| - 1 ==> !(s[k] == '-' && s[k + 1] == '-')
  }

  /** Neither end is a `-`. */
  predicate DashFreeEnds(s: string) {
    s == [] || (s[0] != '-' && s[|s| - 1] != '-')
  }

  /** A well-formed slug of at most 255 characters. */
  predicate IsSlug(s: string) {
    SlugAlphabet(s) && NoDoubleDash(s) && DashFreeEnds(s) && |s| <= SlugMax
  }

  /** `s` without its leading run of characters outside `[a-z0-9]`. */
  function DropRun(s: string): (r: string)
    ensures |r| <= |s| && r == s[|s| - |r|..]
    ensures r == [] || IsSlugChar(r[0])
    ensures s != [] && !IsSlugChar(s[0]) ==> |r| < |s|
    ensures forall k :: 0 <= k < |s| - |r| ==> !IsSlugChar(s[k])
  {
    if s == [] || IsSlugChar(s[0]) then s
    else
      var r := DropRun(s[1..]);
      assert s[1..][|s| - 1 - |r|..] == s[|s| - |r|..];
      assert forall k :: 1 <= k < |s| - |r| ==> s[k] == s[1..][k - 1];
      r
  }

  /** `.replace(/[^a-z0-9]+/g, '-')`: every maximal run outside `[a-z0-9]` becomes one `-`. */
  function Collapse(s: string): (r: string)
    ensures SlugAlphabet(r) && NoDoubleDash(r)
    ensures s == [] <==> r == []
    ensures s != [] && IsSlugChar(s[0]) ==> r[0] == s[0]
    ensures s != [] && !IsSlugChar(s[0]) ==> r[0] == '-'
    decreases |s|
  {
    if s == [] then []
    else if IsSlugChar(s[0]) then [s[0]] + Collapse(s[1..])
    else "-" + Collapse(DropRun(s))
  }

  /** `.replace(/(^-|-$)/g, '')`: one leading and one trailing `-` removed. */
  function TrimDashes(t: string): (r: string)
    ensures |r| <= |t|
    ensures SlugAlphabet(t) && NoDoubleDash(t) ==> SlugAlphabet(r) && NoDoubleDash(r) && DashFreeEnds(r)
  {
    var a := if |t| > 0 && t[0] == '-' then t[1..] else t;
    if |a| > 0 && a[|a| - 1] == '-' then a[..|a| - 1] else a
  }

  /** The slug before it is cut to 255 characters. */
  function Unsliced(s: string): (r: string)
    ensures SlugAlphabet(r) && NoDoubleDash(r) && DashFreeEnds(r)
  {
    TrimDashes(Collapse(ToLower(s)))
  }

  /** `slugify`: lower case, `[a-z0-9-]` only, no `--`, no leading `-`, at most 255 characters, and
   * no trailing `-` unless the cut at 255 made one. */
  function Slugify(s: string): (r: string)
    ensures SlugAlphabet(r) && NoDoubleDash(r)
    ensures r == [] || r[0] != '-'
    ensures |r| <= SlugMax
    ensures |Unsliced(s)| <= SlugMax ==> IsSlug(r)
    ensures r != [] && r[|r| - 1] == '-' ==> |r| == SlugMax
  {
    var t := Unsliced(s);
    if |t| <= SlugMax then t else t[..SlugMax]
  }

  /** Dropping a leading run of non-slug characters keeps every letter and digit. */
  lemma {:induction false} DropRunKeeps(s: string)
    ensures Filter(DropRun(s), IsSlugChar) == Filter(s, IsSlugChar)
  {
    if s != [] && !IsSlugChar(s[0]) {
      DropRunKeeps(s[1..]);
    }
  }

  /** Collapsing runs keeps every letter and digit, in order. */
  lemma {:induction false} CollapseKeeps(s: string)
    ensures Filter(Collapse(s), IsSlugChar) == Filter(s, IsSlugChar)
    decreases |s|
  {
    if s != [] {
      if IsSlugChar(s[0]) {
        CollapseKeeps(s[1..]);
        FilterConcat([s[0]], Collapse(s[1..]), IsSlugChar);
        assert Filter([s[0]], IsSlugChar) == [s[0]];
      } else {
        var d := DropRun(s);
        CollapseKeeps(d);
        DropRunKeeps(s);
        FilterConcat("-", Collapse(d), IsSlugChar);
        assert Filter("-", IsSlugChar) == [];
      }
    }
  }

  /** Removing end dashes keeps every letter and digit. */
  lemma TrimDashesKeeps(t: string)
    ensures Filter(TrimDashes(t), IsSlugChar) == Filter(t, IsSlugChar)
  {
    assert Filter("-", IsSlugChar) == [];
    var a := if |t| > 0 && t[0] == '-' then t[1..] else t;
    if |t| > 0 && t[0] == '-' {
      assert t == "-" + a;
      FilterConcat("-", a, IsSlugChar);
    }
    if |a| > 0 && a[|a| - 1] == '-' {
      assert a == a[..|a| - 1] + "-";
      FilterConcat(a[..|a| - 1], "-", IsSlugChar);
    }
  }

  /** Unless the 255-character cut applies, the slug holds exactly the letters and digits of the
   * lower-cased input, in their order: only runs of other characters turn into dashes. */
  lemma SlugKeepsLettersAndDigits(s: string)
    requires |Unsliced(s)| <= SlugMax
    ensures Filter(Slugify(s), IsSlugChar) == Filter(ToLower(s), IsSlugChar)
  {
    TrimDashesKeeps(Collapse(ToLower(s)));
    CollapseKeeps(ToLower(s));
  }

  /** Lower-casing leaves `[a-z0-9-]` text alone. */
  lemma ToLowerOfSlugAlphabet(s: string)
    requires SlugAlphabet(s)
    ensures ToLower(s) == s
  {
    assert forall k :: 0 <= k < |s| ==> ToLower(s)[k] == s[k];
  }

  /** Collapsing leaves text without runs alone. */
  lemma {:induction false} CollapseOfSlug(s: string)
    requires SlugAlphabet(s) && NoDoubleDash(s)
    ensures Collapse(s) == s
  {
    if s != [] {
      var t := s[1..];
      assert SlugAlphabet(t) && NoDoubleDash(t);
      CollapseOfSlug(t);
      if !IsSlugChar(s[0]) {
        assert t == [] || IsSlugChar(t[0]);
        assert DropRun(s) == DropRun(t) == t;
        assert s == "-" + t;
      } else {
        assert s == [s[0]] + t;
      }
    }
  }

  /** A well-formed slug is its own slug. */
  lemma SlugifyOfSlug(x: string)
    requires IsSlug(x)
    ensures Slugify(x) == x
  {
    ToLowerOfSlugAlphabet(x);
    CollapseOfSlug(x);
  }

  /** Slugifying twice is slugifying once, unless the 255-character cut left a trailing dash. */
  lemma SlugifyIdempotent(s: string)
    requires |Unsliced(s)| <= SlugMax
    ensures Slugify(Slugify(s)) == Slugify(s)
  {
    SlugifyOfSlug(Slugify(s));
  }

  // ------------------------------------------------------------- permlinks

  /** `String(title)`: an absent title reads as the text `undefined`. */
  function TitleText(title: Option<string>): string {
    title.GetOr("undefined")
  }

  /** `slugify(title) || 'agenthive-post'`. */
  function PermlinkBase(title: Option<string>): (b: string)
    ensures b != [] && b[0] != '-' && SlugAlphabet(b) && NoDoubleDash(b) && |b| <= SlugMax
    ensures Slugify(TitleText(title)) != [] ==> b == Slugify(TitleText(title))
    ensures b[|b| - 1] == '-' ==> |b| == SlugMax
  {
    var slug := Slugify(TitleText(title));
    if slug == [] then DefaultBase else slug
  }

  /** `generatePermlink` as written: the base, `-`, and the random suffix, with no length bound. */
  function GeneratePermlink(title: Option<string>, suffix: string): string {
    PermlinkBase(title) + "-" + suffix
  }

  /** Only letters and digits, and at least one. */
  predicate IsSuffix(suffix: string) {
    suffix != [] && forall k :: 0 <= k < |suffix| ==> IsSlugChar(suffix[k])
  }

  /** A permlink made of a slug base, a dash and a suffix of letters and digits: `[a-z0-9-]`,
   * no `--`, and a dash at neither end. */
  predicate WellFormedPermlink(p: string) {
    SlugAlphabet(p) && NoDoubleDash(p) && DashFreeEnds(p)
  }

  /** Dash, then a base-36 suffix: what the permlink ends with. */
  predicate EndsWithSuffix(p: string, suffix: string) {
    |suffix| < |p| && p[|p| - |suffix| - 1] == '-' && p[|p| - |suffix|..] == suffix
  }

  /** Any base joined to a suffix by a dash ends with that dash and suffix. */
  lemma JoinEnds(b: string, suffix: string)
    ensures EndsWithSuffix(b + "-" + suffix, suffix)
  {
    var p := b + "-" + suffix;
    assert p[|p| - |suffix|..] == suffix;
  }

  /** A base without end dashes joined to a suffix of letters and digits is well formed. */
  lemma JoinWellFormed(b: string, suffix: string)
    requires b != [] && DashFreeEnds(b) && SlugAlphabet(b) && NoDoubleDash(b)
    requires IsSuffix(suffix)
    ensures WellFormedPermlink(b + "-" + suffix)
  {
    var p := b + "-" + suffix;
    forall k | 0 <= k < |p|
      ensures IsSlugChar(p[k]) || p[k] == '-'
    {
      if k < |b| {
        assert p[k] == b[k];
      } else if k > |b| {
        assert p[k] == suffix[k - |b| - 1];
      }
    }
    forall k | 0 <= k < |p| - 1
      ensures !(p[k] == '-' && p[k + 1] == '-')
    {
      if k + 1 < |b| {
        assert p[k] == b[k] && p[k + 1] == b[k + 1];
      } else if k + 1 == |b| {
        assert p[k] == b[k];
      } else {
        assert p[k + 1] == suffix[k - |b|];
      }
    }
    assert p[0] == b[0] && p[|p| - 1] == suffix[|suffix| - 1];
  }

  /** The as-written permlink ends with `-` and the suffix, and is well formed unless the
   * 255-character cut left the slug ending in a dash; its length is bounded only by 256 plus
   * the suffix. */
  lemma GeneratePermlinkShape(title: Option<string>, suffix: string)
    ensures EndsWithSuffix(GeneratePermlink(title, suffix), suffix)
    ensures |GeneratePermlink(title, suffix)| <= SlugMax + 1 + |suffix|
    ensures IsSuffix(suffix) && |Unsliced(TitleText(title))| <= SlugMax ==>
              WellFormedPermlink(GeneratePermlink(title, suffix))
  {
    var b := PermlinkBase(title);
    JoinEnds(b, suffix);
    if IsSuffix(suffix) && |Unsliced(TitleText(title))| <= SlugMax {
      assert DashFreeEnds(b) by {
        if Slugify(TitleText(title)) == [] {
          assert b == DefaultBase;
        }
      }
      JoinWellFormed(b, suffix);
    }
  }

  /** A 300-letter title and a six-character suffix give a 262-character permlink, longer than
   * the 255 characters the chain accepts. */
  lemma GeneratePermlinkTooLong()
    ensures |GeneratePermlink(Some(seq(300, _ => 'a')), "abcdef")| == 262 > PermlinkMax
  {
    var title := seq(300, _ => 'a');
    assert SlugAlphabet(title) && NoDoubleDash(title);
    ToLowerOfSlugAlphabet(title);
    CollapseOfSlug(title);
    assert TrimDashes(title) == title;
    assert Slugify(title) == title[..SlugMax];
  }

  /** `x` without one trailing dash. */
  function DropTrailingDash(x: string): (r: string)
    ensures |r| <= |x| && r == x[..|r|]
    ensures |x| - 1 <= |r|
    ensures NoDoubleDash(x) ==> r == [] || r[|r| - 1] != '-'
  {
    if x != [] && x[|x| - 1] == '-' then x[..|x| - 1] else x
  }

  /** The base cut to `room` characters, less a dash left at the cut. */
  function CutBase(base: string, room: int): (cut: string)
    requires base != [] && base[0] != '-' && SlugAlphabet(base) && NoDoubleDash(base)
    requires base[|base| - 1] != '-' || |base| > room
    requires 2 <= room
    ensures cut != [] && DashFreeEnds(cut) && SlugAlphabet(cut) && NoDoubleDash(cut)
    ensures |cut| <= room && |cut| <= |base| && cut == base[..|cut|]
    ensures |base| <= room ==> cut == base
    ensures |base| > room ==> |cut| >= room - 1
  {
    if |base| <= room then base
    else
      var head := base[..room];
      assert NoDoubleDash(head) && head[0] == base[0];
      DropTrailingDash(head)
  }

  /** The permlink with its base cut (and a dash left at the cut removed) so that base, `-` and a
   * suffix of at most six characters fit in 255 characters. */
  function BoundedPermlink(title: Option<string>, suffix: string): (p: string)
    requires |suffix| <= SuffixMax
    ensures |p| <= PermlinkMax
    ensures EndsWithSuffix(p, suffix)
    ensures IsSuffix(suffix) ==> WellFormedPermlink(p)
    ensures |p| - |suffix| - 1 <= |PermlinkBase(title)|
    ensures p[..|p| - |suffix| - 1] == PermlinkBase(title)[..|p| - |suffix| - 1]
    ensures |PermlinkBase(title)| + 1 + |suffix| > PermlinkMax ==> |p| >= PermlinkMax - 1
  {
    var base := PermlinkBase(title);
    var room := PermlinkMax - 1 - |suffix|;
    var cut := CutBase(base, room);
    JoinCut(base, cut, suffix, room);
    cut + "-" + suffix
  }

  /** What joining a cut base to the suffix gives: a permlink of at most 255 characters that
   * starts with the base's first characters and ends with the suffix. */
  lemma JoinCut(base: string, cut: string, suffix: string, room: int)
    requires |suffix| <= SuffixMax && room == PermlinkMax - 1 - |suffix|
    requires cut != [] && DashFreeEnds(cut) && SlugAlphabet(cut) && NoDoubleDash(cut)
    requires |cut| <= room && |cut| <= |base| && cut == base[..|cut|]
    requires |base| > room ==> |cut| >= room - 1
    ensures var p := cut + "-" + suffix;
      |p| <= PermlinkMax
      && EndsWithSuffix(p, suffix)
      && (IsSuffix(suffix) ==> WellFormedPermlink(p))
      && |p| - |suffix| - 1 <= |base|
      && p[..|p| - |suffix| - 1] == base[..|p| - |suffix| - 1]
      && (|base| + 1 + |suffix| > PermlinkMax ==> |p| >= PermlinkMax - 1)
  {
    var p := cut + "-" + suffix;
    JoinEnds(cut, suffix);
    assert p[..|cut|] == cut;
    if IsSuffix(suffix) {
      JoinWellFormed(cut, suffix);
    }
  }

  /** The bounded permlink is the as-written one whenever that one fits. */
  lemma BoundedPermlinkAgrees(title: Option<string>, suffix: string)
    requires |suffix| <= SuffixMax
    requires |PermlinkBase(title)| + 1 + |suffix| <= PermlinkMax
    ensures BoundedPermlink(title, suffix) == GeneratePermlink(title, suffix)
  {
    var base := PermlinkBase(title);
    assert CutBase(base, PermlinkMax - 1 - |suffix|) == base;
  }

  // ------------------------------------------------------------- the post

  /** `agentKind || 'agent'`. */
  function AgentKind(kind: Option<string>): (k: string)
    ensures k != ""
    ensures kind.Some? && kind.value != "" ==> k == kind.value
  {
    if kind.Some? && kind.value != "" then kind.value else "agent"
  }

  /** The tags as a JSON array of strings. */
  function TagArray(tags: seq<string>): (items: seq<Json>)
    ensures |items| == |tags|
    ensures forall k :: 0 <= k < |tags| ==> items[k] == JStr(tags[k])
  {
    seq(|tags|, k requires 0 <= k < |tags| => JStr(tags[k]))
  }

  /** The post's `json_metadata`, as the indexer reads it back after `JSON.parse`. */
  function Metadata(tags: seq<string>, kind: Option<string>): Json {
    JObj(map[
      "app" := JStr(Inclusion.CanonicalApp),
      "tags" := JArr(TagArray(tags)),
      "agent" := JObj(map[
        "kind" := JStr(AgentKind(kind)),
        "version" := JStr("1.0"),
        "capabilities" := JArr([JStr("posting"), JStr("replying")])])])
  }

  /** Reading back an array of strings gives the strings. */
  lemma {:induction false} StringElementsOfTags(tags: seq<string>)
    ensures Inclusion.StringElements(TagArray(tags)) == tags
  {
    if tags != [] {
      assert TagArray(tags)[1..] == TagArray(tags[1..]);
      StringElementsOfTags(tags[1..]);
      assert tags == [tags[0]] + tags[1..];
    }
  }

  /** The metadata declares the canonical app, so the indexer takes the post in under any tag
   * policy, and the tags it extracts are exactly the posted tags, in order. */
  lemma MetadataIsAgentHive(tags: seq<string>, kind: Option<string>, policy: Inclusion.TagPolicy)
    ensures Inclusion.DeclaresCanonicalApp(Metadata(tags, kind))
    ensures Inclusion.IsAgentHive(Metadata(tags, kind), policy)
    ensures Inclusion.ExtractTags(Metadata(tags, kind)) == tags
  {
    assert Inclusion.TagItems(Metadata(tags, kind)) == TagArray(tags);
    StringElementsOfTags(tags);
  }

  /** The burn-everything beneficiary list: all of the payout to `null`. */
  const BurnBeneficiaries: seq<Beneficiary> := [Beneficiary(Inclusion.BurnAccount, Inclusion.FullWeight)]

  /** What `post` hands to the chain, once it has chosen the permlink. */
  datatype PostRequest = PostRequest(
    author: string,
    title: Option<string>,
    body: Option<string>,
    tags: seq<string>,
    agentKind: Option<string>,
    dryRun: bool)

  /** The two operations of a post: the root comment and its `comment_options`. None when a
   * field the chain serialises as a string is undefined (`tags[0]` of an empty list, a missing
   * title or body), which makes broadcasting fail. */
  function Operations(req: PostRequest, permlink: string): Option<seq<Operation>> {
    if req.tags == [] || req.title.None? || req.body.None? then None
    else
      Some([
        CommentOp(Comment("", req.tags[0], req.author, permlink, req.title.value, req.body.value,
                          Some(Metadata(req.tags, req.agentKind)))),
        OptionsOp(CommentOptions(req.author, permlink, [Extension(TagIndex(0), BurnBeneficiaries)]))])
  }

  /** The operations exist exactly when there is a first tag, a title and a body; then they are a
   * root comment under the first tag with metadata the indexer recognises, followed by the
   * `comment_options` for the same author and permlink, whose only extension sends the full weight
   * to `null` and nothing to anyone else. */
  lemma OperationsMeaning(req: PostRequest, permlink: string)
    ensures Operations(req, permlink).Some? <==> req.tags != [] && req.title.Some? && req.body.Some?
    ensures Operations(req, permlink).Some? ==>
      var ops := Operations(req, permlink).value;
      |ops| == 2 && ops[0].CommentOp? && ops[1].OptionsOp? &&
      var c := ops[0].comment;
      c.parentAuthor == "" && c.parentPermlink == req.tags[0] &&
      c.author == req.author && c.permlink == permlink &&
      c.title == req.title.value && c.body == req.body.value &&
      c.metadata.Some? && Inclusion.DeclaresCanonicalApp(c.metadata.value) &&
      Inclusion.ExtractTags(c.metadata.value) == req.tags &&
      Inclusion.FindOptions(ops, req.author, permlink) == Some(ops[1].options) &&
      |ops[1].options.extensions| == 1
  {
    MetadataIsAgentHive(req.tags, req.agentKind, Inclusion.TagPolicy(false, None));
  }

  /** The beneficiary list passes the weight rule of the auto-burn check: its first `null`
   * entry has weight 10000, all weights sum to 10000, and all of it is paid to `null`. */
  lemma BurnBeneficiariesFull()
    ensures Inclusion.FirstNull(BurnBeneficiaries) == Some(Beneficiary(Inclusion.BurnAccount, Inclusion.FullWeight))
    ensures Inclusion.TotalWeight(BurnBeneficiaries) == Inclusion.FullWeight
    ensures Inclusion.NullWeight(BurnBeneficiaries) == Inclusion.FullWeight
  {
    assert BurnBeneficiaries[1..] == [];
  }

  /** What `post` returns on success; `txId` is absent on a dry run. */
  datatype PostResult = PostResult(permlink: string, dryRun: bool, txId: Option<string>)

  /** `post`, with the random suffix of the permlink and the outcome of signing and sending the
   * operations (a transaction id or an error message) as parameters. */
  function Post(req: PostRequest, suffix: string, broadcast: Result<string, string>): Result<PostResult, string>
    requires |suffix| <= SuffixMax
  {
    var permlink := BoundedPermlink(req.title, suffix);
    if req.dryRun then Ok(PostResult(permlink, true, None))
    else match Operations(req, permlink)
      case None => Err("operations cannot be serialised")
      case Some(_) =>
        match broadcast
        case Ok(id) => Ok(PostResult(permlink, false, Some(id)))
        case Err(e) => Err(e)
  }

  /** A dry run succeeds whatever the broadcast would have done and reports no transaction; a
   * real post succeeds exactly when its operations exist and the broadcast succeeds, and then
   * reports that transaction; either way the permlink fits the chain's limit. */
  lemma PostMeaning(req: PostRequest, suffix: string, broadcast: Result<string, string>, other: Result<string, string>)
    requires |suffix| <= SuffixMax
    ensures req.dryRun ==> Post(req, suffix, broadcast) == Post(req, suffix, other)
    ensures req.dryRun ==> Post(req, suffix, broadcast).Ok? && Post(req, suffix, broadcast).value.dryRun &&
                           Post(req, suffix, broadcast).value.txId.None?
    ensures !req.dryRun ==>
      (Post(req, suffix, broadcast).Ok? <==> Operations(req, BoundedPermlink(req.title, suffix)).Some? && broadcast.Ok?)
    ensures !req.dryRun && Post(req, suffix, broadcast).Ok? ==>
      !Post(req, suffix, broadcast).value.dryRun && Post(req, suffix, broadcast).value.txId == Some(broadcast.value)
    ensures !req.dryRun && broadcast.Err? ==> Post(req, suffix, broadcast).Err?
    ensures Post(req, suffix, broadcast).Ok? ==>
      var p := Post(req, suffix, broadcast).value.permlink;
      |p| <= PermlinkMax && EndsWithSuffix(p, suffix) && (IsSuffix(suffix) ==> WellFormedPermlink(p))
  {
  }

  // -------------------------------------------------------------- arguments

  /** The parsed options; None is `undefined`, what `args[++i]` reads past the last argument. */
  datatype Options = Options(
    author: Option<string>,
    key: Option<string>,
    title: Option<string>,
    body: Option<string>,
    tags: Option<string>,
    agentKind: Option<string>,
    dryRun: bool)

  const Defaults: Options := Options(
    Some(""), Some(""),
    Some("AgentHive test post"),
    Some("This is a test post for AgentHive with auto-burn enabled."),
    Some("agenthive,test"),
    Some("agent"),
    false)

  /** `parseArgs` either asks for the help text (and the process exits 0) or yields options. */
  datatype Parsed = HelpRequested | Parsed(options: Options)

  /** The flags that consume the argument after them. */
  const ValueFlags: set<string> :=
    {"--author", "--key", "--posting-key", "--title", "--body", "--tags", "--agent-kind"}

  /** `args[i]`, or `undefined` past the end. */
  function ArgAt(args: seq<string>, i: int): (v: Option<string>)
    ensures v.Some? <==> 0 <= i < |args|
  {
    if 0 <= i < |args| then Some(args[i]) else None
  }

  /** The option a value flag sets; `--key` and `--posting-key` set the same one. */
  function SetOption(o: Options, flag: string, v: Option<string>): Options {
    match flag
    case "--author" => o.(author := v)
    case "--key" => o.(key := v)
    case "--posting-key" => o.(key := v)
    case "--title" => o.(title := v)
    case "--body" => o.(body := v)
    case "--tags" => o.(tags := v)
    case "--agent-kind" => o.(agentKind := v)
    case _ => o
  }

  /** What parsing `args` from position `i` on does to `o`: a value flag takes the next
   * argument and parsing resumes after it, `--dry-run` sets the flag, `--help`/`-h` stops
   * everything, and anything else is skipped. */
  function ParseFrom(args: seq<string>, i: int, o: Options): Parsed
    decreases |args| - i
  {
    if i < 0 || i >= |args| then Parsed(o)
    else if args[i] in ValueFlags then ParseFrom(args, i + 2, SetOption(o, args[i], ArgAt(args, i + 1)))
    else if args[i] == "--dry-run" then ParseFrom(args, i + 1, o.(dryRun := true))
    else if args[i] == "--help" || args[i] == "-h" then HelpRequested
    else ParseFrom(args, i + 1, o)
  }

  /** `parseArgs`: the loop over the arguments, starting from the defaults. */
  method ParseArgs(args: seq<string>) returns (r: Parsed)
    ensures r == ParseFrom(args, 0, Defaults)
  {
    var o := Defaults;
    var i := 0;
    while i < |args|
      invariant 0 <= i <= |args| + 1
      invariant ParseFrom(args, i, o) == ParseFrom(args, 0, Defaults)
      decreases |args| - i
    {
      var arg := args[i];
      if arg == "--author" {
        i := i + 1;
        o := o.(author := ArgAt(args, i));
      } else if arg == "--key" || arg == "--posting-key" {
        i := i + 1;
        o := o.(key := ArgAt(args, i));
      } else if arg == "--title" {
        i := i + 1;
        o := o.(title := ArgAt(args, i));
      } else if arg == "--body" {
        i := i + 1;
        o := o.(body := ArgAt(args, i));
      } else if arg == "--tags" {
        i := i + 1;
        o := o.(tags := ArgAt(args, i));
      } else if arg == "--agent-kind" {
        i := i + 1;
        o := o.(agentKind := ArgAt(args, i));
      } else if arg == "--dry-run" {
        o := o.(dryRun := true);
      } else if arg == "--help" || arg == "-h" {
        return HelpRequested;
      }
      i := i + 1;
    }
    return Parsed(o);
  }

  /** Parsing only looks at the arguments from its position on. */
  lemma {:induction false} ParseFromShift(pre: seq<string>, rest: seq<string>, j: int, o: Options)
    requires 0 <= j
    ensures ParseFrom(pre + rest, |pre| + j, o) == ParseFrom(rest, j, o)
    decreases |rest| - j
  {
    var args := pre + rest;
    var i := |pre| + j;
    if j < |rest| {
      assert args[i] == rest[j];
      assert ArgAt(args, i + 1) == ArgAt(rest, j + 1);
      var a := rest[j];
      if a in ValueFlags {
        ParseFromShift(pre, rest, j + 2, SetOption(o, a, ArgAt(rest, j + 1)));
      } else if a == "--dry-run" {
        ParseFromShift(pre, rest, j + 1, o.(dryRun := true));
      } else if a != "--help" && a != "-h" {
        ParseFromShift(pre, rest, j + 1, o);
      }
    }
  }

  /** A value flag followed by a value sets that option and parsing goes on after the value. */
  lemma ParseValueFlag(flag: string, v: string, rest: seq<string>, o: Options)
    requires flag in ValueFlags
    ensures ParseFrom([flag, v] + rest, 0, o) == ParseFrom(rest, 0, SetOption(o, flag, Some(v)))
  {
    ParseFromShift([flag, v], rest, 0, SetOption(o, flag, Some(v)));
  }

  /** A value flag as the last argument sets its option to `undefined`. */
  lemma ParseFlagWithoutValue(flag: string, o: Options)
    requires flag in ValueFlags
    ensures ParseFrom([flag], 0, o) == Parsed(SetOption(o, flag, None))
  {
  }

  /** `--dry-run` sets the flag and parsing goes on. */
  lemma ParseDryRun(rest: seq<string>, o: Options)
    ensures ParseFrom(["--dry-run"] + rest, 0, o) == ParseFrom(rest, 0, o.(dryRun := true))
  {
    ParseFromShift(["--dry-run"], rest, 0, o.(dryRun := true));
  }

  /** `--help` or `-h` ends parsing with the help text, whatever follows. */
  lemma ParseHelp(flag: string, rest: seq<string>, o: Options)
    requires flag == "--help" || flag == "-h"
    ensures ParseFrom([flag] + rest, 0, o) == HelpRequested
  {
    assert ([flag] + rest)[0] == flag;
  }

  /** An argument that is no flag is ignored. */
  lemma ParseIgnoresOthers(arg: string, rest: seq<string>, o: Options)
    requires arg !in ValueFlags && arg != "--dry-run" && arg != "--help" && arg != "-h"
    ensures ParseFrom([arg] + rest, 0, o) == ParseFrom(rest, 0, o)
  {
    ParseFromShift([arg], rest, 0, o);
  }

  /** When a flag is repeated, the last value wins. */
  lemma ParseLastWins(flag: string, v: string, w: string, rest: seq<string>, o: Options)
    requires flag in ValueFlags
    ensures ParseFrom([flag, v, flag, w] + rest, 0, o) == ParseFrom(rest, 0, SetOption(o, flag, Some(w)))
  {
    ParseValueFlag(flag, v, [flag, w] + rest, o);
    assert [flag, v] + ([flag, w] + rest) == [flag, v, flag, w] + rest;
    ParseValueFlag(flag, w, rest, SetOption(o, flag, Some(v)));
    assert SetOption(SetOption(o, flag, Some(v)), flag, Some(w)) == SetOption(o, flag, Some(w));
  }

  /** `--key` and `--posting-key` are the same option. */
  lemma KeyAliases(v: string, rest: seq<string>, o: Options)
    ensures ParseFrom(["--key", v] + rest, 0, o) == ParseFrom(["--posting-key", v] + rest, 0, o)
    ensures ParseFrom(["--key", v] + rest, 0, o) == ParseFrom(rest, 0, o.(key := Some(v)))
  {
    ParseValueFlag("--key", v, rest, o);
    ParseValueFlag("--posting-key", v, rest, o);
  }

  /** With no arguments the options are the defaults. */
  lemma ParseNothing()
    ensures ParseFrom([], 0, Defaults) == Parsed(Defaults)
  {
  }

  // ------------------------------------------------------------------ main

  /** How a run of the command ends. */
  datatype Outcome =
    | ShowedHelp                    // help text, exit 0
    | MissingCredentials            // error and help text, exit 1
    | TagsUndefined                 // `--tags` was the last argument: `split` throws outside the try
    | PostFailed(error: string)     // exit 1
    | Posted(result: PostResult)

  /** `!value`: absent or empty. */
  predicate Falsy(v: Option<string>) {
    v.None? || v.value == ""
  }

  /** `main`, given the command-line arguments, the permlink suffix and the broadcast outcome. */
  function Run(args: seq<string>, suffix: string, broadcast: Result<string, string>): Outcome
    requires |suffix| <= SuffixMax
  {
    match ParseFrom(args, 0, Defaults)
    case HelpRequested => ShowedHelp
    case Parsed(o) =>
      if Falsy(o.author) || Falsy(o.key) then MissingCredentials
      else if o.tags.None? then TagsUndefined
      else
        var req := PostRequest(o.author.value, o.title, o.body, CommaList(o.tags.value), o.agentKind, o.dryRun);
        match Post(req, suffix, broadcast)
        case Ok(r) => Posted(r)
        case Err(e) => PostFailed(e)
  }

  /** A run posts only with a non-empty author and key; it refuses exactly when the parsed author
   * or key is missing or empty; and a successful real post reports the broadcast's transaction. */
  lemma RunMeaning(args: seq<string>, suffix: string, broadcast: Result<string, string>)
    requires |suffix| <= SuffixMax
    ensures Run(args, suffix, broadcast) == ShowedHelp <==> ParseFrom(args, 0, Defaults) == HelpRequested
    ensures Run(args, suffix, broadcast) == MissingCredentials <==>
      ParseFrom(args, 0, Defaults).Parsed? &&
      (Falsy(ParseFrom(args, 0, Defaults).options.author) || Falsy(ParseFrom(args, 0, Defaults).options.key))
    ensures Run(args, suffix, broadcast).Posted? ==>
      var o := ParseFrom(args, 0, Defaults).options;
      ParseFrom(args, 0, Defaults).Parsed? && !Falsy(o.author) && !Falsy(o.key) && o.tags.Some? &&
      Run(args, suffix, broadcast).result.dryRun == o.dryRun &&
      (!o.dryRun ==> broadcast.Ok? && Run(args, suffix, broadcast).result.txId == Some(broadcast.value))
  {
  }

  /** A dry run with credentials and tags posts nothing and reports the permlink of its title. */
  lemma RunDry(args: seq<string>, suffix: string, broadcast: Result<string, string>)
    requires |suffix| <= SuffixMax
    requires ParseFrom(args, 0, Defaults).Parsed?
    requires var o := ParseFrom(args, 0, Defaults).options;
      !Falsy(o.author) && !Falsy(o.key) && o.tags.Some? && o.dryRun
    ensures Run(args, suffix, broadcast) ==
              Posted(PostResult(BoundedPermlink(ParseFrom(args, 0, Defaults).options.title, suffix), true, None))
  {
  }

  /** The documented example: `--author alice --key k --dry-run` posts the default title under
   * the default tags without broadcasting. */
  lemma RunDryExample(suffix: string, broadcast: Result<string, string>)
    requires |suffix| <= SuffixMax
    ensures Run(["--author", "alice", "--key", "k", "--dry-run"], suffix, broadcast) ==
              Posted(PostResult(BoundedPermlink(Some("AgentHive test post"), suffix), true, None))
  {
    var args := ["--author", "alice", "--key", "k", "--dry-run"];
    ParseValueFlag("--author", "alice", args[2..], Defaults);
    assert args == ["--author", "alice"] + args[2..];
    var o1 := Defaults.(author := Some("alice"));
    ParseValueFlag("--key", "k", args[4..], o1);
    assert args[2..] == ["--key", "k"] + args[4..];
    var o2 := o1.(key := Some("k"));
    ParseDryRun([], o2);
    assert args[4..] == ["--dry-run"] + [];
    assert ParseFrom(args, 0, Defaults) == Parsed(o2.(dryRun := true));
    RunDry(args, suffix, broadcast);
  }
}
