/**
  The shapes of the data the claim bot reads from the `stakednft` table of the
  `ranchersland` contract, and the replies of the chain's `get_table_rows` call.
 */
module Tables {

  /** Asset ids are the table's primary key (an unsigned 64-bit integer on chain). */
  type AssetId = nat

  /** An account name such as the configured owner. */
  type Account = string

  datatype Option<+T> = None | Some(value: T)

  /** One `stakednft` row. `nextClaim` is `None` when the field is absent or null. */
  datatype Row = Row(owner: Account, assetId: AssetId, nextClaim: Option<int>)

  /** The `lower_bound` of a table query: the empty string at first, later an asset id. */
  datatype Cursor = Unbounded | LowerBound(key: AssetId)

  /**
    What one `get_table_rows` request yields: the rows and the `more` flag, or an
    exception (transport failure, node error, malformed answer).
   */
  datatype Reply = Rows(rows: seq<Row>, more: bool) | Thrown

  /** The `limit` the owner scan passes on every page request. */
  const PageLimit: nat := 100

  /** The JavaScript truthiness of a `next_claim` field: present, not null and not 0. */
  predicate Truthy(field: Option<int>) {
    field.Some? && field.value != 0
  }
}
