/**
  The next-claim lookup (`getNftNextClaim`): a point query on the `stakednft`
  table whose every failure is folded into "no answer".
 */
module Lookup {
  import opened Tables

  /**
    The next-claim time read from the reply to the point query for one asset:
    `None` when the query threw, when it found no row, or when the first row's
    `next_claim` is falsy (absent, null or 0); otherwise that `next_claim`.
   */
  function NextClaim(reply: Reply): (r: Option<int>)
    ensures r.Some? <==> reply.Rows? && |reply.rows| > 0 && Truthy(reply.rows[0].nextClaim)
    ensures r.Some? ==> r.value != 0 && r == reply.rows[0].nextClaim
  {
    match reply
    case Thrown => None
    case Rows(rows, _) =>
      if |rows| == 0 then None
      else if Truthy(rows[0].nextClaim) then rows[0].nextClaim
      else None
  }
}
