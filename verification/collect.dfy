/**
  The owner scan (`getAssetIdsForOwner`): walk the `stakednft` table page by page,
  starting from the empty cursor and continuing from the last row of each page,
  and keep the asset id of every row whose owner is the requested account.
 */
module Collect {
  import opened Tables

  /** Why a scan produced no list: a page request threw, or the walk ran out of fuel. */
  datatype Failure = ReadFailed | FuelExhausted

  datatype Result<+T> = Ok(value: T) | Fail(failure: Failure)

  /** How the next cursor is derived from a full page. */
  datatype Resume =
    | AtLastRow     // lower_bound := id of the last row read (what the bot does)
    | AfterLastRow  // lower_bound := that id + 1

  /* ---------------------------------------------------------------------- */
  /* The owner filter                                                       */
  /* ---------------------------------------------------------------------- */

  /** The contribution of one row to the scan. */
  function Own(row: Row, owner: Account): seq<AssetId> {
    if row.owner == owner then [row.assetId] else []
  }

  /** The asset ids of the rows owned by `owner`, in row order, duplicates kept. */
  function OwnedIds(rows: seq<Row>, owner: Account): (ids: seq<AssetId>)
    ensures |ids| <= |rows|
    ensures forall id :: id in ids ==>
      exists j :: 0 <= j < |rows| && rows[j].owner == owner && rows[j].assetId == id
  {
    if |rows| == 0 then []
    else OwnedIds(rows[..|rows| - 1], owner) + Own(rows[|rows| - 1], owner)
  }

  lemma {:induction false} OwnedIdsAppend(a: seq<Row>, b: seq<Row>, owner: Account)
    ensures OwnedIds(a + b, owner) == OwnedIds(a, owner) + OwnedIds(b, owner)
    decreases |b|
  {
    if |b| == 0 {
      assert a + b == a;
    } else {
      var b' := b[..|b| - 1];
      assert (a + b)[..|a + b| - 1] == a + b';
      assert (a + b)[|a + b| - 1] == b[|b| - 1];
      OwnedIdsAppend(a, b', owner);
    }
  }

  /** Strictly increasing positions. */
  ghost predicate Increasing(pos: seq<nat>) {
    forall k, l :: 0 <= k < l < |pos| ==> pos[k] < pos[l]
  }

  /** The positions of the owned rows, in increasing order. */
  function OwnedPositions(rows: seq<Row>, owner: Account): (pos: seq<nat>)
    ensures Increasing(pos)
    ensures forall k :: 0 <= k < |pos| ==> pos[k] < |rows| && rows[pos[k]].owner == owner
    ensures forall j :: 0 <= j < |rows| && rows[j].owner == owner ==> j in pos
  {
    if |rows| == 0 then []
    else
      var n := |rows| - 1;
      OwnedPositions(rows[..n], owner) + (if rows[n].owner == owner then [n] else [])
  }

  /**
    The scan's filter keeps exactly the owned rows: the k-th id is the id of the
    k-th owned row, so ids keep row order, every owned row contributes, no other
    row does, and nothing is sorted or deduplicated.
   */
  lemma {:induction false} OwnedIdsFollowPositions(rows: seq<Row>, owner: Account)
    ensures |OwnedIds(rows, owner)| == |OwnedPositions(rows, owner)|
    ensures forall k :: 0 <= k < |OwnedPositions(rows, owner)| ==>
      OwnedIds(rows, owner)[k] == rows[OwnedPositions(rows, owner)[k]].assetId
  {
    if |rows| > 0 {
      var n := |rows| - 1;
      var init := rows[..n];
      OwnedIdsFollowPositions(init, owner);
      var pos, ids := OwnedPositions(init, owner), OwnedIds(init, owner);
      var all, allPos := OwnedIds(rows, owner), OwnedPositions(rows, owner);
      assert all == ids + Own(rows[n], owner);
      assert allPos == pos + (if rows[n].owner == owner then [n] else []);
      forall k | 0 <= k < |pos|
        ensures all[k] == rows[allPos[k]].assetId
      {
        assert all[k] == ids[k] && allPos[k] == pos[k];
        assert init[pos[k]] == rows[pos[k]];
      }
    }
  }

  /** An id is collected exactly when some row carries it and is owned by `owner`. */
  lemma {:induction false} OwnedIdsMembership(rows: seq<Row>, owner: Account, id: AssetId)
    ensures id in OwnedIds(rows, owner) <==>
      exists j :: 0 <= j < |rows| && rows[j].owner == owner && rows[j].assetId == id
  {
    var pos := OwnedPositions(rows, owner);
    var ids := OwnedIds(rows, owner);
    OwnedIdsFollowPositions(rows, owner);
    if id in ids {
      var k :| 0 <= k < |ids| && ids[k] == id;
      assert rows[pos[k]].owner == owner && rows[pos[k]].assetId == id;
    }
    if exists j :: 0 <= j < |rows| && rows[j].owner == owner && rows[j].assetId == id {
      var j :| 0 <= j < |rows| && rows[j].owner == owner && rows[j].assetId == id;
      var k :| 0 <= k < |pos| && pos[k] == j;
      assert ids[k] == id;
    }
  }

  /* ---------------------------------------------------------------------- */
  /* The page walk                                                          */
  /* ---------------------------------------------------------------------- */

  /** The walk stops on an empty page, or when the chain reports no more rows. */
  predicate Final(rows: seq<Row>, more: bool) {
    |rows| == 0 || !more
  }

  /** The cursor the walk continues from after a non-final page. */
  function Continue(resume: Resume, rows: seq<Row>): Cursor
    requires |rows| > 0
  {
    var last := rows[|rows| - 1].assetId;
    match resume
    case AtLastRow => LowerBound(last)
    case AfterLastRow => LowerBound(last + 1)
  }

  /** All rows of the pages, in page order. */
  function Concat(pages: seq<seq<Row>>): seq<Row> {
    if |pages| == 0 then [] else pages[0] + Concat(pages[1..])
  }

  lemma ConcatCons(rows: seq<Row>, pages: seq<seq<Row>>)
    ensures Concat([rows] + pages) == rows + Concat(pages)
  {
    assert ([rows] + pages)[1..] == pages;
  }

  lemma {:induction false} ConcatAppend(pages: seq<seq<Row>>, rows: seq<Row>)
    ensures Concat(pages + [rows]) == Concat(pages) + rows
  {
    if |pages| == 0 {
      assert pages + [rows] == [rows];
      assert Concat([rows]) == rows + Concat([]);
    } else {
      assert (pages + [rows])[1..] == pages[1..] + [rows];
      ConcatAppend(pages[1..], rows);
    }
  }

  /**
    The pages read by a walk from `cursor` that issues at most `fuel` requests.
    The source's `while (true)` has no bound of its own; the fuel stands for it.
   */
  function Walk(source: Cursor -> Reply, resume: Resume, cursor: Cursor, fuel: nat): (r: Result<seq<seq<Row>>>)
    decreases fuel
  {
    if fuel == 0 then Fail(FuelExhausted)
    else match source(cursor)
      case Thrown => Fail(ReadFailed)
      case Rows(rows, more) =>
        if Final(rows, more) then Ok([rows])
        else Prefixed([rows], Walk(source, resume, Continue(resume, rows), fuel - 1))
  }

  /** Puts pages read earlier in front of a walk's result. */
  function Prefixed(read: seq<seq<Row>>, r: Result<seq<seq<Row>>>): Result<seq<seq<Row>>> {
    match r
    case Ok(pages) => Ok(read + pages)
    case Fail(f) => Fail(f)
  }

  /** `source` answered `rows` at `cursor`, and that page ends the walk exactly when `last`. */
  ghost predicate ReadAt(source: Cursor -> Reply, cursor: Cursor, rows: seq<Row>, last: bool) {
    source(cursor).Rows? && source(cursor).rows == rows && (Final(rows, source(cursor).more) <==> last)
  }

  /** The cursor page `i` of `pages` is requested with. */
  function CursorBefore(resume: Resume, start: Cursor, pages: seq<seq<Row>>, i: nat): Cursor
    requires i < |pages|
    requires i > 0 ==> |pages[i - 1]| > 0
  {
    if i == 0 then start else Continue(resume, pages[i - 1])
  }

  /**
    A pagination run described without recursion: the first page is read at
    `start`, every later page at the cursor derived from the page before it,
    every page but the last continues the walk and the last one stops it.
   */
  ghost predicate IsWalk(source: Cursor -> Reply, resume: Resume, start: Cursor, pages: seq<seq<Row>>) {
    && |pages| > 0
    && (forall i :: 0 <= i < |pages| - 1 ==> |pages[i]| > 0)
    && (forall i :: 0 <= i < |pages| ==>
          ReadAt(source, CursorBefore(resume, start, pages, i), pages[i], i == |pages| - 1))
  }

  lemma IsWalkTail(source: Cursor -> Reply, resume: Resume, start: Cursor, pages: seq<seq<Row>>)
    requires IsWalk(source, resume, start, pages) && |pages| > 1
    ensures IsWalk(source, resume, Continue(resume, pages[0]), pages[1..])
  {
    var tail := pages[1..];
    forall i | 0 <= i < |tail|
      ensures ReadAt(source, CursorBefore(resume, Continue(resume, pages[0]), tail, i), tail[i], i == |tail| - 1)
    {
      assert CursorBefore(resume, Continue(resume, pages[0]), tail, i) == CursorBefore(resume, start, pages, i + 1);
    }
  }

  lemma IsWalkCons(source: Cursor -> Reply, resume: Resume, start: Cursor, rows: seq<Row>, pages: seq<seq<Row>>)
    requires ReadAt(source, start, rows, false)
    requires IsWalk(source, resume, Continue(resume, rows), pages)
    ensures IsWalk(source, resume, start, [rows] + pages)
  {
    var all := [rows] + pages;
    forall i | 0 <= i < |all| - 1
      ensures |all[i]| > 0
    {
      if i > 0 {
        assert all[i] == pages[i - 1];
      }
    }
    forall i | 0 <= i < |all|
      ensures ReadAt(source, CursorBefore(resume, start, all, i), all[i], i == |all| - 1)
    {
      if i == 0 {
        assert CursorBefore(resume, start, all, i) == start;
      } else {
        CursorBeforeCons(resume, start, rows, pages, i);
        assert all[i] == pages[i - 1];
      }
    }
  }

  /** Behind a first page, page `i` is requested where page `i - 1` of the rest is. */
  lemma CursorBeforeCons(resume: Resume, start: Cursor, rows: seq<Row>, pages: seq<seq<Row>>, i: nat)
    requires |rows| > 0 && 0 < i <= |pages|
    requires i > 1 ==> |pages[i - 2]| > 0
    ensures CursorBefore(resume, start, [rows] + pages, i) == CursorBefore(resume, Continue(resume, rows), pages, i - 1)
  {
    var all := [rows] + pages;
    assert all[i - 1] == if i == 1 then rows else pages[i - 2];
  }

  /** Every page list the walk returns is a pagination run from `cursor` of at most `fuel` pages. */
  lemma {:induction false} WalkIsRun(source: Cursor -> Reply, resume: Resume, cursor: Cursor, fuel: nat)
    ensures Walk(source, resume, cursor, fuel).Ok? ==>
      IsWalk(source, resume, cursor, Walk(source, resume, cursor, fuel).value) &&
      |Walk(source, resume, cursor, fuel).value| <= fuel
    decreases fuel
  {
    if fuel > 0 && source(cursor).Rows? {
      var rows, more := source(cursor).rows, source(cursor).more;
      if Final(rows, more) {
        assert CursorBefore(resume, cursor, [rows], 0) == cursor;
      } else {
        var next := Continue(resume, rows);
        WalkIsRun(source, resume, next, fuel - 1);
        if Walk(source, resume, next, fuel - 1).Ok? {
          IsWalkCons(source, resume, cursor, rows, Walk(source, resume, next, fuel - 1).value);
        }
      }
    }
  }

  /** Conversely, the walk finds every pagination run that fits in its fuel. */
  lemma {:induction false} RunIsWalked(source: Cursor -> Reply, resume: Resume, cursor: Cursor, pages: seq<seq<Row>>, fuel: nat)
    requires IsWalk(source, resume, cursor, pages)
    requires |pages| <= fuel
    ensures Walk(source, resume, cursor, fuel) == Ok(pages)
    decreases |pages|
  {
    assert CursorBefore(resume, cursor, pages, 0) == cursor;
    assert ReadAt(source, cursor, pages[0], |pages| == 1);
    if |pages| == 1 {
      assert pages == [pages[0]];
    } else {
      IsWalkTail(source, resume, cursor, pages);
      RunIsWalked(source, resume, Continue(resume, pages[0]), pages[1..], fuel - 1);
      assert [pages[0]] + pages[1..] == pages;
    }
  }

  /* ---------------------------------------------------------------------- */
  /* The scan                                                               */
  /* ---------------------------------------------------------------------- */

  /** The ids of the owned rows across the pages of the walk from the empty cursor. */
  function Scan(source: Cursor -> Reply, resume: Resume, owner: Account, fuel: nat): (r: Result<seq<AssetId>>)
  {
    match Walk(source, resume, Unbounded, fuel)
    case Ok(pages) => Ok(OwnedIds(Concat(pages), owner))
    case Fail(f) => Fail(f)
  }

  /**
    A scan that succeeds returns the owned ids of the rows of some pagination run
    from the empty cursor; a failed first page request makes the whole scan fail,
    with no partial list.
   */
  lemma ScanIsOwnedIdsOfRun(source: Cursor -> Reply, resume: Resume, owner: Account, fuel: nat)
    ensures Scan(source, resume, owner, fuel).Ok? ==>
      exists pages :: IsWalk(source, resume, Unbounded, pages) &&
        Scan(source, resume, owner, fuel).value == OwnedIds(Concat(pages), owner)
    ensures source(Unbounded).Thrown? && fuel > 0 ==> Scan(source, resume, owner, fuel) == Fail(ReadFailed)
  {
    WalkIsRun(source, resume, Unbounded, fuel);
  }

  /** Conversely, every pagination run from the empty cursor that fits in the fuel is the one the scan takes. */
  lemma RunIsScanned(source: Cursor -> Reply, resume: Resume, owner: Account, fuel: nat)
    ensures forall pages :: IsWalk(source, resume, Unbounded, pages) && |pages| <= fuel ==>
      Scan(source, resume, owner, fuel) == Ok(OwnedIds(Concat(pages), owner))
  {
    forall pages | IsWalk(source, resume, Unbounded, pages) && |pages| <= fuel
      ensures Scan(source, resume, owner, fuel) == Ok(OwnedIds(Concat(pages), owner))
    {
      RunIsWalked(source, resume, Unbounded, pages, fuel);
    }
  }

  /** The invariant of the scan loop: the walk so far read `read` and continues at `cursor`. */
  ghost predicate ScanState(source: Cursor -> Reply, owner: Account, fuel: nat,
                            read: seq<seq<Row>>, ids: seq<AssetId>, cursor: Cursor, budget: nat) {
    && Walk(source, AtLastRow, Unbounded, fuel) == Prefixed(read, Walk(source, AtLastRow, cursor, budget))
    && ids == OwnedIds(Concat(read), owner)
  }

  lemma ScanStateStart(source: Cursor -> Reply, owner: Account, fuel: nat)
    ensures ScanState(source, owner, fuel, [], [], Unbounded, fuel)
  {
    var whole := Walk(source, AtLastRow, Unbounded, fuel);
    if whole.Ok? {
      assert [] + whole.value == whole.value;
    }
  }

  /** A scan state whose remaining walk fails is a failed scan. */
  lemma ScanStateFails(source: Cursor -> Reply, owner: Account, fuel: nat,
                       read: seq<seq<Row>>, ids: seq<AssetId>, cursor: Cursor, budget: nat)
    requires ScanState(source, owner, fuel, read, ids, cursor, budget)
    requires budget == 0 || source(cursor).Thrown?
    ensures Scan(source, AtLastRow, owner, fuel) == Fail(if budget == 0 then FuelExhausted else ReadFailed)
  {
  }

  /** Reading the final page `rows` completes the scan with `ids` plus that page's owned ids. */
  lemma ScanStateStops(source: Cursor -> Reply, owner: Account, fuel: nat,
                       read: seq<seq<Row>>, ids: seq<AssetId>, cursor: Cursor, budget: nat)
    requires ScanState(source, owner, fuel, read, ids, cursor, budget)
    requires budget > 0 && source(cursor).Rows? && Final(source(cursor).rows, source(cursor).more)
    ensures Scan(source, AtLastRow, owner, fuel) == Ok(ids + OwnedIds(source(cursor).rows, owner))
  {
    var rows := source(cursor).rows;
    assert Walk(source, AtLastRow, cursor, budget) == Ok([rows]);
    ConcatAppend(read, rows);
    OwnedIdsAppend(Concat(read), rows, owner);
  }

  /** Reading a non-final page `rows` moves the scan on to the cursor after it. */
  lemma ScanStateSteps(source: Cursor -> Reply, owner: Account, fuel: nat,
                       read: seq<seq<Row>>, ids: seq<AssetId>, cursor: Cursor, budget: nat)
    requires ScanState(source, owner, fuel, read, ids, cursor, budget)
    requires budget > 0 && source(cursor).Rows? && !Final(source(cursor).rows, source(cursor).more)
    ensures ScanState(source, owner, fuel, read + [source(cursor).rows], ids + OwnedIds(source(cursor).rows, owner),
                      Continue(AtLastRow, source(cursor).rows), budget - 1)
  {
    var rows := source(cursor).rows;
    var rest := Walk(source, AtLastRow, Continue(AtLastRow, rows), budget - 1);
    assert Walk(source, AtLastRow, cursor, budget) == Prefixed([rows], rest);
    if rest.Ok? {
      assert read + ([rows] + rest.value) == (read + [rows]) + rest.value;
    }
    ConcatAppend(read, rows);
    OwnedIdsAppend(Concat(read), rows, owner);
  }

  /** The inner loop of the scan: append the ids of the owned rows of one page. */
  method KeepOwned(ids: seq<AssetId>, rows: seq<Row>, owner: Account) returns (kept: seq<AssetId>)
    ensures kept == ids + OwnedIds(rows, owner)
  {
    kept := ids;
    var i := 0;
    while i < |rows|
      invariant 0 <= i <= |rows|
      invariant kept == ids + OwnedIds(rows[..i], owner)
    {
      assert rows[..i + 1][..i] == rows[..i];
      assert OwnedIds(rows[..i + 1], owner) == OwnedIds(rows[..i], owner) + Own(rows[i], owner);
      if rows[i].owner == owner {
        kept := kept + [rows[i].assetId];
      }
      i := i + 1;
    }
    assert rows[..i] == rows;
  }

  /**
    `getAssetIdsForOwner`: request pages of at most `PageLimit` rows starting from
    the empty cursor, keep the ids of the owned rows, stop on an empty page or when
    `more` is false, and otherwise continue from the last row's asset id.
   */
  method GetAssetIdsForOwner(source: Cursor -> Reply, owner: Account, fuel: nat) returns (r: Result<seq<AssetId>>)
    ensures r == Scan(source, AtLastRow, owner, fuel)
  {
    var ids: seq<AssetId> := [];
    var cursor := Unbounded;
    var budget := fuel;
    ghost var read: seq<seq<Row>> := [];
    ScanStateStart(source, owner, fuel);
    while true
      invariant ScanState(source, owner, fuel, read, ids, cursor, budget)
      decreases budget
    {
      if budget == 0 {
        ScanStateFails(source, owner, fuel, read, ids, cursor, budget);
        return Fail(FuelExhausted);
      }
      var reply := source(cursor);
      if reply.Thrown? {
        ScanStateFails(source, owner, fuel, read, ids, cursor, budget);
        return Fail(ReadFailed);
      }
      var rows := reply.rows;
      if |rows| == 0 {
        ScanStateStops(source, owner, fuel, read, ids, cursor, budget);
        assert ids + OwnedIds(rows, owner) == ids;
        return Ok(ids);
      }
      var kept := KeepOwned(ids, rows, owner);
      if reply.more {
        ScanStateSteps(source, owner, fuel, read, ids, cursor, budget);
        read := read + [rows];
        ids := kept;
        cursor := Continue(AtLastRow, rows);
        budget := budget - 1;
      } else {
        ScanStateStops(source, owner, fuel, read, ids, cursor, budget);
        return Ok(kept);
      }
    }
  }
}
