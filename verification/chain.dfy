/**
  How the node answers `get_table_rows` on a table stored in primary-key order,
  and what the owner scan and the next-claim lookup therefore see.

  The node's bounds are inclusive: `lower_bound` starts at the first row whose
  key is at least the bound and `upper_bound` ends after the last row whose key
  is at most the bound. The lookup in index.js:64-65 depends on exactly this
  (it passes the asset id as both bounds and expects that asset's row). The same
  inclusive `lower_bound` makes the owner scan read the last row of every full
  page a second time, since it continues from that row's id (index.js:49).
 */
module Chain {
  import opened Tables
  import Collect
  import Lookup

  /** The rows of a table in strictly increasing key order. */
  ghost predicate Sorted(table: seq<Row>) {
    forall i, j :: 0 <= i < j < |table| ==> table[i].assetId < table[j].assetId
  }

  /** The index of the first row whose key is at least `key` (|table| if none). */
  function FirstAtLeast(table: seq<Row>, key: nat): (i: nat)
    ensures i <= |table|
    ensures forall j :: 0 <= j < i ==> table[j].assetId < key
    ensures i < |table| ==> table[i].assetId >= key
  {
    if |table| == 0 || table[0].assetId >= key then 0
    else 1 + FirstAtLeast(table[1..], key)
  }

  /** The first row at or above `key` is the one the bounds pin down. */
  lemma FirstAtLeastIs(table: seq<Row>, key: nat, i: nat)
    requires i <= |table|
    requires forall j :: 0 <= j < i ==> table[j].assetId < key
    requires i < |table| ==> table[i].assetId >= key
    ensures FirstAtLeast(table, key) == i
  {
    var f := FirstAtLeast(table, key);
    assert f < |table| ==> table[f].assetId >= key;
    assert i < |table| ==> table[i].assetId >= key;
  }

  /** Where a read at `lower` starts. */
  function StartOf(table: seq<Row>, lower: Cursor): (s: nat)
    ensures s <= |table|
  {
    match lower
    case Unbounded => 0
    case LowerBound(key) => FirstAtLeast(table, key)
  }

  /**
    The node's answer to a table query: at most `limit` rows from the first row at
    or above `lower` up to the last row at or below `upper`, and whether rows in
    that range remain after the ones returned.
   */
  function Query(table: seq<Row>, lower: Cursor, upper: Option<AssetId>, limit: nat): (reply: Reply)
    ensures reply.Rows?
    ensures |reply.rows| <= limit
  {
    var s := StartOf(table, lower);
    var t := match upper
      case None => |table|
      case Some(u) => FirstAtLeast(table, u + 1);
    var t' := if t < s then s else t;
    var e := if s + limit < t' then s + limit else t';
    Rows(table[s..e], e < t')
  }

  /** The page requests of the owner scan: `limit: 100`, no upper bound. */
  function Pages(table: seq<Row>): Cursor -> Reply {
    c => Query(table, c, None, PageLimit)
  }

  /** The point query of the lookup: both bounds set to the asset id, `limit: 1`. */
  function PointQuery(table: seq<Row>, id: AssetId): Reply {
    Query(table, LowerBound(id), Some(id), 1)
  }

  /**
    The point query's slice: it starts at the first row at or above `id` and ends
    at the first row above `id`, or one row later, whichever comes first.
   */
  lemma PointQuerySlice(table: seq<Row>, id: AssetId, s: nat, t: nat)
    requires s == FirstAtLeast(table, id) && t == FirstAtLeast(table, id + 1)
    requires s <= t <= s + 1
    ensures PointQuery(table, id) == Rows(table[s..t], false)
  {
    assert StartOf(table, LowerBound(id)) == s;
  }

  /** When the row at the lower bound carries `id`, the point query returns just that row. */
  lemma PointQueryFindsRow(table: seq<Row>, id: AssetId)
    requires Sorted(table)
    requires FirstAtLeast(table, id) < |table| && table[FirstAtLeast(table, id)].assetId == id
    ensures PointQuery(table, id).rows == [table[FirstAtLeast(table, id)]]
  {
    var s := FirstAtLeast(table, id);
    UpperBoundAfterRow(table, id, s);
    PointQuerySlice(table, id, s, s + 1);
    assert table[s..s + 1] == [table[s]];
  }

  /** In a sorted table, the rows at or below the key of row `s` end right after it. */
  lemma UpperBoundAfterRow(table: seq<Row>, id: AssetId, s: nat)
    requires Sorted(table)
    requires s == FirstAtLeast(table, id) && s < |table| && table[s].assetId == id
    ensures FirstAtLeast(table, id + 1) == s + 1
  {
    forall j | 0 <= j < s + 1
      ensures table[j].assetId < id + 1
    {
      if j < s {
        assert table[j].assetId < id;
      }
    }
    if s + 1 < |table| {
      assert table[s].assetId < table[s + 1].assetId;
    }
    FirstAtLeastIs(table, id + 1, s + 1);
  }

  /** When the row at the lower bound does not carry `id` (or there is none), the point query returns nothing. */
  lemma PointQueryFindsNothing(table: seq<Row>, id: AssetId)
    requires !(FirstAtLeast(table, id) < |table| && table[FirstAtLeast(table, id)].assetId == id)
    ensures PointQuery(table, id).rows == []
  {
    var s := FirstAtLeast(table, id);
    if s < |table| {
      FirstAtLeastIs(table, id + 1, s);
    } else {
      FirstAtLeastIs(table, id + 1, |table|);
    }
    PointQuerySlice(table, id, s, s);
  }

  /** The point query returns the row carrying the id when there is one, and nothing otherwise. */
  lemma PointQueryAnswer(table: seq<Row>, id: AssetId)
    requires Sorted(table)
    ensures var s := FirstAtLeast(table, id);
      PointQuery(table, id).rows == (if s < |table| && table[s].assetId == id then [table[s]] else [])
  {
    var s := FirstAtLeast(table, id);
    if s < |table| && table[s].assetId == id {
      PointQueryFindsRow(table, id);
    } else {
      PointQueryFindsNothing(table, id);
    }
  }

  /** In a sorted table the row carrying `id`, if any, is the first one at or above `id`. */
  lemma KeyedRowIsFirstAtLeast(table: seq<Row>, id: AssetId, j: nat)
    requires Sorted(table)
    requires j < |table| && table[j].assetId == id
    ensures FirstAtLeast(table, id) == j
  {
    forall i | 0 <= i < j
      ensures table[i].assetId < id
    {
      assert table[i].assetId < table[j].assetId;
    }
    FirstAtLeastIs(table, id, j);
  }

  /**
    On the chain, the lookup answers with the asset's own `next_claim` when that is
    truthy, and with nothing when the asset has no row or a falsy `next_claim`.
   */
  lemma LookupReadsOwnRow(table: seq<Row>, id: AssetId)
    requires Sorted(table)
    ensures (forall j :: 0 <= j < |table| ==> table[j].assetId != id) ==>
      Lookup.NextClaim(PointQuery(table, id)) == None
    ensures forall j :: 0 <= j < |table| && table[j].assetId == id ==>
      Lookup.NextClaim(PointQuery(table, id)) == (if Truthy(table[j].nextClaim) then table[j].nextClaim else None)
  {
    PointQueryAnswer(table, id);
    forall j | 0 <= j < |table| && table[j].assetId == id
      ensures Lookup.NextClaim(PointQuery(table, id)) == (if Truthy(table[j].nextClaim) then table[j].nextClaim else None)
    {
      KeyedRowIsFirstAtLeast(table, id, j);
    }
  }

  /** The ids of a sequence of rows that are all owned by `owner`. */
  lemma {:induction false} OwnedIdsOfOwnedRows(rows: seq<Row>, owner: Account)
    requires forall j :: 0 <= j < |rows| ==> rows[j].owner == owner
    ensures |Collect.OwnedIds(rows, owner)| == |rows|
    ensures forall k :: 0 <= k < |rows| ==> Collect.OwnedIds(rows, owner)[k] == rows[k].assetId
  {
    if |rows| > 0 {
      OwnedIdsOfOwnedRows(rows[..|rows| - 1], owner);
    }
  }

  /**
    The scan as written reads the boundary row twice: on a table of 101 rows, all
    owned by `owner`, the first page ends at row 99 and the second starts there,
    so the 100th asset id is returned twice and the list is one longer than the table.
   */
  lemma AsWrittenRepeatsBoundaryRow(table: seq<Row>, owner: Account, fuel: nat)
    requires Sorted(table)
    requires |table| == PageLimit + 1
    requires forall j :: 0 <= j < |table| ==> table[j].owner == owner
    requires fuel >= 2
    ensures Collect.Scan(Pages(table), Collect.AtLastRow, owner, fuel).Ok?
    ensures |Collect.Scan(Pages(table), Collect.AtLastRow, owner, fuel).value| == |table| + 1
    ensures Collect.Scan(Pages(table), Collect.AtLastRow, owner, fuel).value[PageLimit - 1] == table[PageLimit - 1].assetId
    ensures Collect.Scan(Pages(table), Collect.AtLastRow, owner, fuel).value[PageLimit] == table[PageLimit - 1].assetId
  {
    var first, second := table[..PageLimit], table[PageLimit - 1..];
    assert Pages(table)(Unbounded) == Rows(first, true);
    var next := Collect.Continue(Collect.AtLastRow, first);
    assert next == LowerBound(table[PageLimit - 1].assetId);
    FirstAtLeastIs(table, table[PageLimit - 1].assetId, PageLimit - 1);
    assert Pages(table)(next) == Rows(second, false);
    var pages := [first, second];
    assert Collect.Walk(Pages(table), Collect.AtLastRow, next, fuel - 1) == Collect.Ok([second]);
    assert Collect.Walk(Pages(table), Collect.AtLastRow, Unbounded, fuel)
        == Collect.Prefixed([first], Collect.Walk(Pages(table), Collect.AtLastRow, next, fuel - 1));
    assert [first] + [second] == pages;
    assert pages[1..] == [second];
    assert Collect.Concat([second]) == second + Collect.Concat([]);
    assert Collect.Concat(pages) == first + second;
    OwnedIdsOfOwnedRows(first + second, owner);
  }

  /** The last index (exclusive) of the page that starts at row `s`. */
  function PageEnd(table: seq<Row>, s: nat): nat {
    if s + PageLimit < |table| then s + PageLimit else |table|
  }

  /** A page request answers the rows from its start to the page end, with `more` set when rows remain. */
  lemma PageShape(table: seq<Row>, cursor: Cursor)
    ensures StartOf(table, cursor) <= PageEnd(table, StartOf(table, cursor)) <= |table|
    ensures Pages(table)(cursor) ==
      Rows(table[StartOf(table, cursor)..PageEnd(table, StartOf(table, cursor))],
           PageEnd(table, StartOf(table, cursor)) < |table|)
  {
  }

  /** The corrected walk from `cursor` succeeds within `fuel` requests and reads the table from the cursor's start to its end. */
  ghost predicate Covers(table: seq<Row>, cursor: Cursor, fuel: nat) {
    var walk := Collect.Walk(Pages(table), Collect.AfterLastRow, cursor, fuel);
    walk.Ok? && Collect.Concat(walk.value) == table[StartOf(table, cursor)..]
  }

  /**
    With the cursor set just past the last row read, every page starts where the
    previous one ended: the walk from any cursor reads exactly the rows from that
    cursor's start to the end of the table, given one request per full page.
   */
  lemma {:induction false} CorrectedWalkCoversTable(table: seq<Row>, cursor: Cursor, fuel: nat)
    requires Sorted(table)
    requires fuel > (|table| - StartOf(table, cursor)) / PageLimit
    ensures Covers(table, cursor, fuel)
    decreases |table| - StartOf(table, cursor)
  {
    if PageEnd(table, StartOf(table, cursor)) == |table| {
      LastPage(table, cursor, fuel);
    } else {
      var next := NextCursor(table, cursor);
      CorrectedWalkCoversTable(table, next, fuel - 1);
      InnerPage(table, cursor, fuel, next);
    }
  }

  /** A page that reaches the end of the table is the last one the walk reads. */
  lemma LastPage(table: seq<Row>, cursor: Cursor, fuel: nat)
    requires fuel > 0
    requires PageEnd(table, StartOf(table, cursor)) == |table|
    ensures Covers(table, cursor, fuel)
  {
    var rows := table[StartOf(table, cursor)..];
    PageShape(table, cursor);
    assert table[StartOf(table, cursor)..PageEnd(table, StartOf(table, cursor))] == rows;
    assert Pages(table)(cursor) == Rows(rows, false);
    assert Collect.Walk(Pages(table), Collect.AfterLastRow, cursor, fuel) == Collect.Ok([rows]);
    Collect.ConcatCons(rows, []);
    assert [rows] + [] == [rows];
  }

  /** The corrected cursor after a full page that does not reach the end of the table. */
  lemma NextCursor(table: seq<Row>, cursor: Cursor) returns (next: Cursor)
    requires Sorted(table)
    requires PageEnd(table, StartOf(table, cursor)) < |table|
    ensures next == Collect.Continue(Collect.AfterLastRow, table[StartOf(table, cursor)..PageEnd(table, StartOf(table, cursor))])
    ensures StartOf(table, next) == PageEnd(table, StartOf(table, cursor))
    ensures (|table| - StartOf(table, cursor)) / PageLimit == (|table| - StartOf(table, next)) / PageLimit + 1
  {
    var s := StartOf(table, cursor);
    var e := PageEnd(table, s);
    next := Collect.Continue(Collect.AfterLastRow, table[s..e]);
    CorrectedStep(table, s, e, next);
  }

  /**
    A full page that does not reach the end of the table is followed by the walk
    from the next cursor; when that walk reads the rest of the table, the whole
    walk reads everything from the page start.
   */
  lemma InnerPage(table: seq<Row>, cursor: Cursor, fuel: nat, next: Cursor)
    requires fuel > 0
    requires PageEnd(table, StartOf(table, cursor)) < |table|
    requires next == Collect.Continue(Collect.AfterLastRow, table[StartOf(table, cursor)..PageEnd(table, StartOf(table, cursor))])
    requires StartOf(table, next) == PageEnd(table, StartOf(table, cursor))
    requires Covers(table, next, fuel - 1)
    ensures Covers(table, cursor, fuel)
  {
    var s := StartOf(table, cursor);
    var e := PageEnd(table, s);
    var rows := table[s..e];
    var rest := Collect.Walk(Pages(table), Collect.AfterLastRow, next, fuel - 1);
    PageShape(table, cursor);
    assert Collect.Walk(Pages(table), Collect.AfterLastRow, cursor, fuel) == Collect.Prefixed([rows], rest);
    Collect.ConcatCons(rows, rest.value);
    SplitAt(table, s, e);
  }

  lemma SplitAt(table: seq<Row>, s: nat, e: nat)
    requires s <= e <= |table|
    ensures table[s..] == table[s..e] + table[e..]
  {
    var left, right := table[s..], table[s..e] + table[e..];
    assert |left| == |right|;
    forall i | 0 <= i < |left|
      ensures left[i] == right[i]
    {
      if i < e - s {
        assert right[i] == table[s..e][i];
      } else {
        assert right[i] == table[e..][i - (e - s)];
      }
    }
  }

  /** After a full page the corrected cursor starts the next page right behind it, one page further on. */
  lemma CorrectedStep(table: seq<Row>, s: nat, e: nat, next: Cursor)
    requires Sorted(table)
    requires s <= |table| && e == PageEnd(table, s) && e < |table|
    requires next == Collect.Continue(Collect.AfterLastRow, table[s..e])
    ensures StartOf(table, next) == e
    ensures (|table| - s) / PageLimit == (|table| - e) / PageLimit + 1
  {
    assert table[s..e][e - s - 1] == table[e - 1];
    forall j | 0 <= j < e
      ensures table[j].assetId < table[e - 1].assetId + 1
    {
      if j < e - 1 {
        assert table[j].assetId < table[e - 1].assetId;
      }
    }
    assert table[e - 1].assetId < table[e].assetId;
    FirstAtLeastIs(table, table[e - 1].assetId + 1, e);
  }

  /**
    The corrected scan returns every owned row of the table exactly once, in key
    order, for tables of any size and any alignment of the page boundaries.
   */
  lemma CorrectedScanReadsEachRowOnce(table: seq<Row>, owner: Account, fuel: nat)
    requires Sorted(table)
    requires fuel > |table| / PageLimit
    ensures Collect.Scan(Pages(table), Collect.AfterLastRow, owner, fuel) == Collect.Ok(Collect.OwnedIds(table, owner))
  {
    CorrectedWalkCoversTable(table, Unbounded, fuel);
    assert Covers(table, Unbounded, fuel);
    assert table[0..] == table;
  }
}
