# Ranchers-Land claim bot: the claim-scheduling core in Dafny

The bot looks after the staked NFTs of one WAX account in the `ranchersland`
contract. At start-up it scans the contract's `stakednft` table page by page
and collects the ids of the assets the account owns. It then runs a pass over
that list at once, and another every 60 seconds. In a pass, each asset is looked
up for its `next_claim` time. Depending on the answer the asset is skipped, gets
one `claimnft` transaction, or gets a report of how long is left. A 2-second
pause follows every asset.

The model consists of pure functions over abstract inputs:

- `Tables` (tables.dfy) holds the row, cursor and reply shapes of `get_table_rows`,
  the page limit (100) and JavaScript truthiness of `next_claim`.
- `Collect` (collect.dfy) models the owner scan. `Walk` is the page walk. The
  page source is a function from cursor to reply, and fuel bounds the number of
  requests. `OwnedIds` is the owner filter and `Scan` is their composition.
  `GetAssetIdsForOwner` is the loop of the source, proved equal to `Scan`.
  `IsWalk` describes a pagination run without recursion, and the walk is proved
  to find exactly those runs.
- `Lookup` (lookup.dfy) models the next-claim lookup as an `Option<int>`.
- `Scheduler` (scheduler.dfy) has the per-asset decision `Decide`, the pass
  `Pass` and the start-up guard `Launch`. A pass is a function of the id list
  and one `Observation` per asset. An observation is the lookup reply, the
  millisecond clock read after it, and the outcome of the claim transaction.
- `Chain` (chain.dfy) models how the node answers table queries on a table kept
  in key order, with inclusive bounds. The lookup in index.js:64-65 relies on
  inclusive bounds. `Chain` connects the lookup to the asset's own row, and it
  shows the boundary-row repetition of the scan (see Findings).

## Model

| member | source | states |
|---|---|---|
| Collect.OwnedIds | index.js:42-46 | the filter keeps at most one id per row read, and every id it keeps is the asset id of a row owned by the requested owner |
| Collect.OwnedIdsFollowPositions | index.js:42-46 | the k-th collected id is the id of the k-th row whose owner matches, so ids keep row order, every matching row contributes, no other row does, and nothing is sorted or deduplicated |
| Collect.OwnedIdsMembership | index.js:42-46 | an id is collected if and only if some row read carries it and is owned by the requested owner |
| Collect.OwnedIdsAppend | index.js:42-46 | ids collected over consecutive pages are the concatenation of the ids of each page, in page order |
| Collect.KeepOwned | index.js:42-46 | the inner loop appends exactly the owned ids of one page to the ids collected so far |
| Collect.WalkIsRun | index.js:28-52 | every page list that `Walk` returns is a pagination run: the first page is read at the starting cursor, each later page at the last asset id of the page before, every page but the last is non-empty with `more` set, and the last is empty or has `more` false; there are no more pages than the request budget |
| Collect.RunIsWalked | index.js:28-52 | conversely, every such pagination run that fits in the request budget is exactly what `Walk` returns |
| Collect.ScanIsOwnedIdsOfRun | index.js:26-55 | a successful `Scan` returns the owned ids of the rows of a pagination run starting at the empty cursor; a throwing first request fails the scan with no partial list |
| Collect.RunIsScanned | index.js:26-55 | conversely, when a pagination run from the empty cursor fits in the request budget, `Scan` returns exactly the owned ids of that run |
| Collect.GetAssetIdsForOwner | index.js:26-55 | the loop (empty first cursor, filter, break on an empty page or `more` false, next cursor = last row's id, exceptions propagate) computes the owned ids of the walked pages |
| Lookup.NextClaim | index.js:57-77 | the lookup answers `Some(n)` only with a truthy `next_claim` of the first returned row (so never 0), and `None` for a thrown query, an empty reply, or a falsy `next_claim` |
| Chain.LookupReadsOwnRow | index.js:59-73 | on a key-ordered table the point query with both bounds at the id answers with that asset's own truthy `next_claim`, and with `None` when the asset has no row or a falsy `next_claim` |
| Chain.AsWrittenRepeatsBoundaryRow | index.js:48-49 | as written, on a table of 101 rows all owned by the owner, the scan returns 102 ids with the 100th asset id twice |
| Chain.CorrectedWalkCoversTable | index.js:29-53 | with the next cursor just past the last row read, the walk from any cursor reads exactly the rows from that cursor to the end of the table |
| Chain.CorrectedScanReadsEachRowOnce | index.js:26-55 | with that cursor, the scan returns the ids of the owned rows of the whole table, each exactly once and in key order, whatever the page alignment |
| Scheduler.UnixSeconds | index.js:113 | the current time in seconds is the floor of the millisecond clock divided by 1000 |
| Scheduler.CeilMinutes | index.js:121-122 | the reported minutes `m` for `s > 0` seconds satisfy `m >= 1` and `(m-1)*60 < s <= m*60` |
| Scheduler.Decide | index.js:112-123 | for one asset: skip exactly when the lookup has no answer; claim exactly when the answer is at or before now, with that claim's outcome recorded; otherwise wait with `secondsLeft = next_claim - now > 0` and the rounded-up minutes |
| Scheduler.Pass | index.js:110-128 | a pass has one step per id, in list order, each deciding that id on its own observation and followed by the 2000 ms pause, whatever the decision |
| Scheduler.PassClaimsExactlyDue | index.js:111-123 | the claim attempts of a pass are exactly the due ids in list order: one per due position, none for a missing answer or a future `next_claim` |
| Scheduler.PassPacing | index.js:125-126 | the pauses of a pass add up to 2000 ms per asset |
| Scheduler.PassOutlastsPeriod | index.js:146-149 | with 30 assets or more the pauses of one pass alone take at least the 60-second interval between pass starts |
| Scheduler.OutcomesDoNotSteer | index.js:101-107 | a claim that fails (node rejection or other error) changes no other decision or pause of the pass: with the same lookups and clock readings, the two passes agree step by step up to claim outcomes |
| Scheduler.Launch | index.js:130-150 | a failed scan stops the bot; an empty list stops it with no pass; otherwise every pass runs over the same collected list |
| Scheduler.RunClaimsDueAssets | index.js:133-149 | in every pass of a run, the claim attempts are exactly the assets due in that pass; an owner without assets never gets one |

## Left out

- Transaction signing and broadcast (`api.transact` with `blocksBehind: 3`,
  `expireSeconds: 30`, index.js:17-24 and index.js:82-99) are calls into a
  foreign library. A claim is modelled by its outcome, which is an input: a
  committed transaction, a node rejection, or another error.
- Reading the environment and exiting on a missing `PRIVATE_KEY` or `OWNER`
  (index.js:1-15) is process I/O.
- Log lines and the JSON rendering of node errors are presentation only. The
  model keeps the numbers they print.
- Real time is not modelled. `Date.now()` becomes the millisecond clock of each
  observation. It is read once per asset, as in the source. The `setTimeout`
  pause becomes the `pauseMs` of a step, and the `setInterval` loop becomes the
  sequence of rounds given to `Launch`.
- Passes that overlap in time are not modelled. `setInterval` starts a new
  pass every 60 s even if the previous one is still running. `PassOutlastsPeriod`
  shows that with 30 or more assets the pauses alone take at least the 60-second
  period. With any request latency on top, a pass started by the interval timer
  is still running when the next one starts. The first pass is awaited before
  the timer is set (index.js:143-146), so it does not overlap.
- Collect.GetAssetIdsForOwner: the source's `while (true)` is bounded by a
  request budget (`fuel`). A walk that needs more requests ends in
  `FuelExhausted`, which the source does not have: there, a node that keeps
  answering `more` keeps the loop running.
- `next_claim` is an integer or absent. JavaScript numbers, strings or other
  JSON values in that field are not modelled.
- The scan is not retried. A throwing page request fails the whole scan, and
  `main` then rejects (`Aborted`). index.js has no retry for it.
- index.js has no claim retry, no local countdown and no display names, so
  the model has none either.

## Findings

| source | as written | input that shows it | evidently intended | confidence | as-written member | corrected member |
|---|---|---|---|---|---|---|
| index.js:48-49 | after a full page the scan continues with `lower_bound` = the last row's asset id; the node's `lower_bound` is inclusive (the lookup at index.js:64-65 relies on it), so that row is read again at the top of the next page and its id is collected twice when owned | a `stakednft` table of 101 rows all owned by the configured account: the first page is rows 0-99 with `more`, the second starts at row 99 again, and the list holds 102 ids | every owned row reported exactly once, whatever the page alignment | medium (depends on the node's inclusive bound), not executed | Chain.AsWrittenRepeatsBoundaryRow | Chain.CorrectedScanReadsEachRowOnce |

In the corrected scan, `Collect.Scan` uses `AfterLastRow`, so the next cursor
is the last asset id plus one. `Scheduler.Launch` accepts the result of either
scan. With the as-written scan, a repeated id is looked up twice in each pass.
It can also get two claim attempts in one pass, one per list position (see
`PassClaimsExactlyDue`).
