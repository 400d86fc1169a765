/**
 * The ledger as the indexer sees it: blocks of transactions, each a list of
 * `[type, body]` operations. Only the two operation types the services use are
 * given structure; every other well-formed operation is kept by its type name.
 */
module Ledger {
  import opened Wrappers
  import opened Json

  /** A `comment` operation: a root post when `parentAuthor` is empty, else a reply. */
  datatype Comment = Comment(
    parentAuthor: string,
    parentPermlink: string,
    author: string,
    permlink: string,
    title: string,
    body: string,
    metadata: Option<Json>)       // `json_metadata` parsed; None when it is not valid JSON

  /** Discriminator of a `comment_options` extension: a type name or a numeric variant index. */
  datatype ExtensionTag = TagName(name: string) | TagIndex(index: int)

  datatype Beneficiary = Beneficiary(account: string, weight: int)

  /** `[tag, {beneficiaries}]`; a missing beneficiary list is empty. */
  datatype Extension = Extension(tag: ExtensionTag, beneficiaries: seq<Beneficiary>)

  /** A `comment_options` operation. */
  datatype CommentOptions = CommentOptions(author: string, permlink: string, extensions: seq<Extension>)

  datatype Operation =
    | CommentOp(comment: Comment)
    | OptionsOp(options: CommentOptions)
    | OtherOp(kind: string)          // a well-formed operation of any other type
    | Malformed                      // not an array of at least two elements

  datatype Transaction = Transaction(operations: seq<Operation>)

  /** A block; `timestamp` is the block time in milliseconds since the epoch. */
  datatype Block = Block(timestamp: int, transactions: seq<Transaction>)
}
