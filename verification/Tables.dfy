/** The tables `auction` and `bid_record`, and what becomes of a row under snapshots in any order. */
module Tables {
  import opened Prelude
  import opened Auctions
  import opened Paging

  datatype TableError = NotFound | OutdatedVersion | InvalidState | Duplicated

  function WithSnapshot(row: Auction, s: Snapshot): Auction {
    row.(currentPrice := s.currentPrice, dealPrice := s.dealPrice, bidCount := s.bidCount, status := s.status,
         startTime := s.startTime, endTime := s.endTime, winnerUserId := s.winnerUserId, version := s.version)
  }

  /** The guard of `UpdateStatusSnapshot`. */
  predicate Accepts(rows: map<int, Auction>, a: Auction) {
    a.id in rows && !rows[a.id].deleted && rows[a.id].version < a.version
  }

  function AfterSnapshot(rows: map<int, Auction>, a: Auction): map<int, Auction> {
    if Accepts(rows, a) then rows[a.id := WithSnapshot(rows[a.id], SnapshotOf(a))] else rows
  }

  /** The state in the hash was handed to the table: a newer one fills eight columns of an undeleted row. */
  predicate Wrote(rows: map<int, Auction>, rows': map<int, Auction>, h: Hash) {
    rows' ==
      if h.auctionId in rows && !rows[h.auctionId].deleted && rows[h.auctionId].version < h.version then
        rows[h.auctionId := rows[h.auctionId].(
          currentPrice := h.currentPrice, dealPrice := if h.status == DEAL then Some(h.currentPrice) else None,
          bidCount := h.bidCount, status := h.status, startTime := Some(h.startTime), endTime := Some(h.endTime),
          winnerUserId := if h.winnerUserId > 0 then Some(h.winnerUserId) else None, version := h.version)]
      else rows
  }

  lemma SnapshotIsWritten(rows: map<int, Auction>, h: Hash)
    ensures Wrote(rows, AfterSnapshot(rows, AuctionFromState(StateFromMap(h))), h)
  {
  }

  /** The guard of `UpdatePendingConfig`. */
  predicate Configurable(rows: map<int, Auction>, id: int, shopId: int) {
    id in rows && rows[id].shopId == shopId && rows[id].status == PENDING && !rows[id].deleted
  }

  function WithConfig(row: Auction, a: Auction): Auction {
    row.(startPrice := a.startPrice, bidIncrement := a.bidIncrement, sealPrice := a.sealPrice,
         currentPrice := a.currentPrice, startTime := a.startTime, endTime := a.endTime)
  }

  function AfterConfig(rows: map<int, Auction>, a: Auction): map<int, Auction> {
    if Configurable(rows, a.id, a.shopId) then rows[a.id := WithConfig(rows[a.id], a)] else rows
  }

  predicate Deletable(rows: map<int, Auction>, id: int, shopId: int) {
    && id in rows && rows[id].shopId == shopId && !rows[id].deleted
    && (rows[id].status == PENDING || rows[id].status == FAILED || rows[id].status == CANCELLED)
  }

  function AfterDelete(rows: map<int, Auction>, id: int, shopId: int): map<int, Auction> {
    if Deletable(rows, id, shopId) then rows[id := rows[id].(deleted := true)] else rows
  }

  /** The row is its room's business: running and not deleted. */
  predicate RunsIn(row: Auction, roomId: int) {
    row.roomId == roomId && row.status == RUNNING && !row.deleted
  }

  /** A row with the time it was created at. */
  datatype ListedRow = ListedRow(auction: Auction, createdAt: int)

  /** In a descending order by start time a missing one comes last. */
  predicate LaterStart(a: Auction, b: Auction) {
    a.startTime.Some? && (b.startTime.Some? ==> a.startTime.value > b.startTime.value)
  }

  /** The ORDER BY of the lookup of a room: latest start, then latest creation, then highest number. */
  predicate Before(a: ListedRow, b: ListedRow) {
    || LaterStart(a.auction, b.auction)
    || (a.auction.startTime == b.auction.startTime && a.createdAt > b.createdAt)
    || (a.auction.startTime == b.auction.startTime && a.createdAt == b.createdAt && a.auction.id > b.auction.id)
  }

  /** The first running row of the room. */
  ghost predicate IsCurrent(table: set<ListedRow>, roomId: int, row: ListedRow) {
    && row in table && RunsIn(row.auction, roomId)
    && forall other :: other in table && RunsIn(other.auction, roomId) && other != row ==> Before(row, other)
  }

  predicate OfShop(row: Auction, shopId: int) {
    row.shopId == shopId && !row.deleted
  }

  /** The ORDER BY of the list of a shop: latest creation, then highest number. */
  predicate Newer(a: ListedRow, b: ListedRow) {
    a.createdAt > b.createdAt || (a.createdAt == b.createdAt && a.auction.id > b.auction.id)
  }

  /** The list of a shop: every undeleted row once, in that order. */
  ghost predicate ShopListing(table: set<ListedRow>, shopId: int, list: seq<ListedRow>) {
    && (forall row :: row in list <==> row in table && OfShop(row.auction, shopId))
    && (forall i, j :: 0 <= i < j < |list| ==> Newer(list[i], list[j]))
  }

  /** There is only one such list. */
  lemma {:induction false} ShopListingIsUnique(table: set<ListedRow>, shopId: int, a: seq<ListedRow>, b: seq<ListedRow>)
    requires ShopListing(table, shopId, a) && ShopListing(table, shopId, b)
    ensures a == b
    decreases |a|
  {
    if a == [] {
      NoMemberNoElement(b);
    } else {
      assert a[0] in b;
      assert b != [] && b[0] in a;
      assert a[0] == b[0] by {
        FirstIsNewest(a, b[0]);
        FirstIsNewest(b, a[0]);
      }
      TailLists(table, shopId, a);
      TailLists(table, shopId, b);
      ShopListingIsUnique(table - {a[0]}, shopId, a[1..], b[1..]);
      assert a == [a[0]] + a[1..] && b == [b[0]] + b[1..];
    }
  }

  lemma NoMemberNoElement(list: seq<ListedRow>)
    ensures list == [] || exists row :: row in list
  {
    if list != [] {
      assert list[0] in list;
    }
  }

  lemma FirstIsNewest(list: seq<ListedRow>, row: ListedRow)
    requires row in list && forall i, j :: 0 <= i < j < |list| ==> Newer(list[i], list[j])
    ensures row == list[0] || Newer(list[0], row)
  {
    var i :| 0 <= i < |list| && list[i] == row;
  }

  lemma TailLists(table: set<ListedRow>, shopId: int, list: seq<ListedRow>)
    requires ShopListing(table, shopId, list) && list != []
    ensures ShopListing(table - {list[0]}, shopId, list[1..])
  {
    var tail := list[1..];
    forall i | 0 <= i < |tail|
      ensures tail[i] != list[0]
    {
      assert Newer(list[0], list[i + 1]);
    }
    forall row
      ensures row in tail <==> row in table - {list[0]} && OfShop(row.auction, shopId)
    {
      assert row in list <==> row == list[0] || row in tail by {
        assert list == [list[0]] + tail;
      }
    }
  }

  /** Rows are filed under their primary key. */
  ghost predicate Keyed(rows: map<int, Auction>) {
    forall id :: id in rows ==> rows[id].id == id
  }

  class AuctionTable {
    var rows: map<int, Auction>
    var createdAt: map<int, int>

    constructor ()
      ensures rows == map[] && createdAt == map[]
    {
      rows, createdAt := map[], map[];
    }

    function Listed(id: int): ListedRow
      requires id in rows
      reads this
    {
      ListedRow(rows[id], if id in createdAt then createdAt[id] else 0)
    }

    ghost function Listing(): set<ListedRow>
      reads this
    {
      set id | id in rows :: Listed(id)
    }

    method FindByIDForShop(id: int, shopId: int) returns (r: Result<Auction, TableError>)
      ensures r == if id in rows && rows[id].shopId == shopId && !rows[id].deleted
                   then Success(rows[id]) else Failure(NotFound)
    {
      if id in rows {
        var row := rows[id];
        if row.shopId == shopId && !row.deleted {
          return Success(row);
        }
      }
      r := Failure(NotFound);
    }

    /** Created earlier, or at the same time under a number that is not higher. */
    predicate NoLaterThan(id: int, other: int)
      requires id in rows && other in rows
      reads this
    {
      var t, u := Listed(id).createdAt, Listed(other).createdAt;
      t < u || (t == u && id <= other)
    }

    /** The running auction of a room, the one that comes first. */
    method FindCurrentByRoomID(roomId: int) returns (current: Option<Auction>)
      requires Keyed(rows)
      ensures current.None? <==> forall id :: id in rows ==> !RunsIn(rows[id], roomId)
      ensures current.Some? ==> exists row :: IsCurrent(Listing(), roomId, row) && row.auction == current.value
      // in the columns: of the running rows of the room the one started last, a missing start time counting least
      ensures current.None? <==>
                forall id :: id in rows && rows[id].roomId == roomId && rows[id].status == RUNNING ==> rows[id].deleted
      ensures current.Some? ==>
                && current.value.id in rows && rows[current.value.id] == current.value
                && current.value.roomId == roomId && current.value.status == RUNNING && !current.value.deleted
      ensures current.Some? ==>
                forall id ::
                  id in rows && rows[id].roomId == roomId && rows[id].status == RUNNING && !rows[id].deleted ==>
                  match (current.value.startTime, rows[id].startTime)
                  case (Some(t), Some(u)) => t > u || (t == u && NoLaterThan(id, current.value.id))
                  case (Some(_), None) => true
                  case (None, Some(_)) => false
                  case (None, None) => NoLaterThan(id, current.value.id)
    {
      current := None;
      var best := 0;
      var rest := rows.Keys;
      while rest != {}
        invariant rest <= rows.Keys
        invariant current.None? ==> forall id :: id in rows && id !in rest ==> !RunsIn(rows[id], roomId)
        invariant current.Some? ==>
                    && best in rows && best !in rest && current.value == rows[best] && RunsIn(rows[best], roomId)
                    && forall id :: id in rows && id !in rest && id != best && RunsIn(rows[id], roomId) ==>
                         Before(Listed(best), Listed(id))
        decreases rest
      {
        SomeMember(rest);
        var id :| id in rest;
        rest := rest - {id};
        if RunsIn(rows[id], roomId) {
          if current.None? || Before(Listed(id), Listed(best)) {
            best, current := id, Some(rows[id]);
          }
        }
      }
      if current.Some? {
        assert Listed(best) in Listing();
        assert IsCurrent(Listing(), roomId, Listed(best));
      }
    }

    /** One page of the list of a shop, and how long the whole list is. */
    method ListByShop(shopId: int, page: int, pageSize: int)
      returns (list: seq<ListedRow>, total: nat, ghost whole: seq<ListedRow>)
      requires Keyed(rows)
      ensures ShopListing(Listing(), shopId, whole) && total == |whole|
      ensures list == ListPage(whole, page, pageSize, 10)
      // the k-th entry of a page comes after the full pages before it
      ensures var limit := if pageSize < 1 then 10 else if pageSize > 100 then 100 else pageSize;
              var before := (if page < 1 then 0 else page - 1) * limit;
              && before >= 0
              && list == if 0 <= before < |whole|
                         then whole[before..if before + limit < |whole| then before + limit else |whole|] else []
      // in the columns: exactly the undeleted rows of the shop, the latest created first
      ensures forall id :: id in rows && rows[id].shopId == shopId && !rows[id].deleted ==> Listed(id) in whole
      ensures forall i :: 0 <= i < |whole| ==>
                && whole[i].auction.id in rows && whole[i] == Listed(whole[i].auction.id)
                && whole[i].auction.shopId == shopId && !whole[i].auction.deleted
      ensures forall i, j :: 0 <= i < j < |whole| ==>
                && whole[i].auction.id != whole[j].auction.id && NoLaterThan(whole[j].auction.id, whole[i].auction.id)
    {
      var all := OrderedOfShop(shopId);
      whole := all;
      total := |all|;
      list := ListPage(all, page, pageSize, 10);
      PageEntries(all, page, pageSize, 10);
      forall i, j | 0 <= i < j < |whole|
        ensures whole[i].auction.id != whole[j].auction.id
        ensures NoLaterThan(whole[j].auction.id, whole[i].auction.id)
      {
        assert whole[i] in whole && whole[j] in whole && Newer(whole[i], whole[j]);
      }
    }

    /** The rows the query selects, in its order. */
    method OrderedOfShop(shopId: int) returns (all: seq<ListedRow>)
      requires Keyed(rows)
      ensures ShopListing(Listing(), shopId, all)
    {
      var rest := set id | id in rows && OfShop(rows[id], shopId);
      all := [];
      while rest != {}
        invariant forall id :: id in rest ==> id in rows && OfShop(rows[id], shopId)
        invariant forall id :: id in rows && OfShop(rows[id], shopId) ==> id in rest || Listed(id) in all
        invariant forall row :: row in all ==>
                    row.auction.id in rows && row == Listed(row.auction.id) && OfShop(row.auction, shopId)
        invariant forall i, j :: 0 <= i < j < |all| ==> Newer(all[i], all[j])
        invariant forall row, id :: row in all && id in rest ==> Newer(row, Listed(id))
        decreases rest
      {
        var newest := NewestOf(rest);
        all := all + [Listed(newest)];
        rest := rest - {newest};
      }
    }

    method NewestOf(ids: set<int>) returns (newest: int)
      requires Keyed(rows) && ids != {} && forall id :: id in ids ==> id in rows
      ensures newest in ids
      ensures forall id :: id in ids && id != newest ==> Newer(Listed(newest), Listed(id))
    {
      SomeMember(ids);
      newest :| newest in ids;
      var rest := ids - {newest};
      while rest != {}
        invariant rest <= ids && newest in ids && newest !in rest
        invariant forall id :: id in ids - rest && id != newest ==> Newer(Listed(newest), Listed(id))
        decreases rest
      {
        SomeMember(rest);
        var id :| id in rest;
        if Newer(Listed(id), Listed(newest)) {
          newest := id;
        }
        rest := rest - {id};
      }
    }

    method UpdateStatusSnapshot(a: Auction) returns (r: Result<(), TableError>)
      modifies this
      ensures rows == AfterSnapshot(old(rows), a)
      ensures r == if Accepts(old(rows), a) then Success(()) else Failure(OutdatedVersion)
      // in the columns: a newer version of an undeleted row, eight columns, no other row
      ensures r.Success? <==> a.id in old(rows) && !old(rows)[a.id].deleted && old(rows)[a.id].version < a.version
      ensures r.Failure? ==> rows == old(rows)
      ensures r.Success? ==>
                rows == old(rows)[a.id := old(rows)[a.id].(
                  currentPrice := a.currentPrice, dealPrice := a.dealPrice, bidCount := a.bidCount, status := a.status,
                  startTime := a.startTime, endTime := a.endTime, winnerUserId := a.winnerUserId, version := a.version)]
    {
      if a.id !in rows {
        return Failure(OutdatedVersion);
      }
      var row := rows[a.id];
      if row.deleted || row.version >= a.version {
        return Failure(OutdatedVersion);
      }
      row := row.(currentPrice := a.currentPrice);
      row := row.(dealPrice := a.dealPrice);
      row := row.(bidCount := a.bidCount);
      row := row.(status := a.status);
      row := row.(startTime := a.startTime);
      row := row.(endTime := a.endTime);
      row := row.(winnerUserId := a.winnerUserId);
      row := row.(version := a.version);
      rows := rows[a.id := row];
      r := Success(());
    }

    method UpdatePendingConfig(a: Auction) returns (r: Result<(), TableError>)
      modifies this
      ensures rows == AfterConfig(old(rows), a)
      ensures r == if Configurable(old(rows), a.id, a.shopId) then Success(()) else Failure(InvalidState)
      // in the columns: a pending undeleted row of the shop, six columns, no other row
      ensures r.Success? <==>
                && a.id in old(rows) && old(rows)[a.id].shopId == a.shopId
                && old(rows)[a.id].status == PENDING && !old(rows)[a.id].deleted
      ensures r.Failure? ==> rows == old(rows)
      ensures r.Success? ==>
                rows == old(rows)[a.id := old(rows)[a.id].(
                  startPrice := a.startPrice, bidIncrement := a.bidIncrement, sealPrice := a.sealPrice,
                  currentPrice := a.currentPrice, startTime := a.startTime, endTime := a.endTime)]
    {
      if a.id !in rows {
        return Failure(InvalidState);
      }
      var row := rows[a.id];
      if row.shopId != a.shopId || row.status != PENDING || row.deleted {
        return Failure(InvalidState);
      }
      row := row.(startPrice := a.startPrice, bidIncrement := a.bidIncrement, sealPrice := a.sealPrice);
      row := row.(currentPrice := a.currentPrice, startTime := a.startTime, endTime := a.endTime);
      rows := rows[a.id := row];
      r := Success(());
    }

    method Delete(id: int, shopId: int) returns (r: Result<(), TableError>)
      modifies this
      ensures rows == AfterDelete(old(rows), id, shopId)
      ensures r == if Deletable(old(rows), id, shopId) then Success(()) else Failure(InvalidState)
      ensures r.Success? <==>
                && id in old(rows) && old(rows)[id].shopId == shopId && !old(rows)[id].deleted
                && old(rows)[id].status in {PENDING, FAILED, CANCELLED}
      ensures rows == if r.Success? then old(rows)[id := old(rows)[id].(deleted := true)] else old(rows)
    {
      if id !in rows {
        return Failure(InvalidState);
      }
      var row := rows[id];
      if row.shopId != shopId || row.deleted || row.status !in {PENDING, FAILED, CANCELLED} {
        return Failure(InvalidState);
      }
      rows := rows[id := row.(deleted := true)];
      r := Success(());
    }
  }

  /** The primary key decides: a second row under the same identifier is not written. */
  function AfterRecord(records: map<int, BidRecord>, r: BidRecord): map<int, BidRecord> {
    if r.id in records then records else records[r.id := r]
  }

  class BidRecordTable {
    var records: map<int, BidRecord>

    constructor ()
      ensures records == map[]
    {
      records := map[];
    }

    method CreateIfNotExists(record: BidRecord) returns (r: Result<(), TableError>)
      modifies this
      ensures records == AfterRecord(old(records), record)
      ensures r == if record.id in old(records) then Failure(Duplicated) else Success(())
      ensures records == if r.Success? then old(records)[record.id := record] else old(records)
    {
      if record.id in records {
        return Failure(Duplicated);
      }
      records := records[record.id := record];
      r := Success(());
    }
  }

  // ---- one row under many snapshots ----

  /** The columns that no snapshot writes. */
  predicate SameConfig(a: Auction, b: Auction) {
    && a.id == b.id && a.goodsId == b.goodsId && a.shopId == b.shopId && a.roomId == b.roomId
    && a.startPrice == b.startPrice && a.bidIncrement == b.bidIncrement && a.sealPrice == b.sealPrice
    && a.deleted == b.deleted
  }

  /** A row takes a snapshot that is newer. */
  function Taking(row: Auction, s: Snapshot): (end: Auction)
    ensures SameConfig(row, end)
  {
    if !row.deleted && row.version < s.version then WithSnapshot(row, s) else row
  }

  /** Snapshots reach the row one after the other. */
  function Written(row: Auction, ws: seq<Snapshot>): (end: Auction)
    ensures SameConfig(row, end)
    decreases |ws|
  {
    if ws == [] then row else Written(Taking(row, ws[0]), ws[1..])
  }

  /** The table applies a snapshot to its row and to no other. */
  lemma SnapshotReachesOnlyItsRow(rows: map<int, Auction>, a: Auction)
    ensures a.id in rows ==> AfterSnapshot(rows, a) == rows[a.id := Written(rows[a.id], [SnapshotOf(a)])]
    ensures a.id !in rows ==> AfterSnapshot(rows, a) == rows
  {
    if a.id in rows && !Accepts(rows, a) {
      assert rows[a.id := rows[a.id]] == rows;
    }
  }

  /** s is newer than the row and no snapshot of ws is newer than s. */
  ghost predicate Newest(row: Auction, ws: seq<Snapshot>, s: Snapshot) {
    s in ws && row.version < s.version && forall t :: t in ws ==> t.version <= s.version
  }

  /** The row ends as a newest snapshot, or unchanged when none is newer; its version never falls on the way. */
  lemma {:induction false} RowEndsAtNewest(row: Auction, ws: seq<Snapshot>)
    requires !row.deleted
    ensures row.version <= Written(row, ws).version
    ensures (exists s :: Newest(row, ws, s) && Written(row, ws) == WithSnapshot(row, s)) ||
            ((forall s :: s in ws ==> s.version <= row.version) && Written(row, ws) == row)
    decreases |ws|
  {
    if ws != [] {
      var s, rest := ws[0], ws[1..];
      var next := Taking(row, s);
      RowEndsAtNewest(next, rest);
      assert forall t :: t in ws <==> t == s || t in rest;
      if t :| Newest(next, rest, t) && Written(next, rest) == WithSnapshot(next, t) {
        assert Newest(row, ws, t) && Written(row, ws) == WithSnapshot(row, t);
      } else if row.version < s.version {
        assert Newest(row, ws, s) && Written(row, ws) == WithSnapshot(row, s);
      }
    }
  }

  /** The same snapshots, in any order and any number of copies. */
  ghost predicate SameSnapshots(ws: seq<Snapshot>, ws': seq<Snapshot>) {
    forall s :: s in ws <==> s in ws'
  }

  /** All newest snapshots say the same. */
  ghost predicate Agreed(row: Auction, ws: seq<Snapshot>) {
    forall s, t :: Newest(row, ws, s) && Newest(row, ws, t) ==> s == t
  }

  ghost predicate OrderIndependent(row: Auction, ws: seq<Snapshot>) {
    forall ws' :: SameSnapshots(ws, ws') ==> Written(row, ws') == Written(row, ws)
  }

  lemma NewestWins(row: Auction, ws: seq<Snapshot>, s: Snapshot)
    requires !row.deleted && Newest(row, ws, s)
    ensures Written(row, [s] + ws) == WithSnapshot(row, s)
  {
    var next := WithSnapshot(row, s);
    assert ([s] + ws)[1..] == ws;
    RowEndsAtNewest(next, ws);
    assert forall t :: !Newest(next, ws, t);
  }

  /**
   Reordering and duplication never matter exactly when the newest snapshots agree, and then
   losing anything but them does not matter either.
   */
  lemma ConvergesIffNewestAgree(row: Auction, ws: seq<Snapshot>)
    requires !row.deleted
    ensures OrderIndependent(row, ws) <==> Agreed(row, ws)
    ensures Agreed(row, ws) ==>
              forall ws', s :: (forall t :: t in ws' ==> t in ws) && s in ws' && Newest(row, ws, s) ==>
                Written(row, ws') == WithSnapshot(row, s)
  {
    if Agreed(row, ws) {
      forall ws', s | (forall t :: t in ws' ==> t in ws) && s in ws' && Newest(row, ws, s)
        ensures Written(row, ws') == WithSnapshot(row, s)
      {
        RowEndsAtNewest(row, ws');
        assert Newest(row, ws', s);
        forall t | Newest(row, ws', t)
          ensures t == s
        {
          assert Newest(row, ws, t);
        }
      }
      forall ws' | SameSnapshots(ws, ws')
        ensures Written(row, ws') == Written(row, ws)
      {
        RowEndsAtNewest(row, ws);
        RowEndsAtNewest(row, ws');
        assert forall s :: Newest(row, ws, s) <==> Newest(row, ws', s);
      }
    }
    if OrderIndependent(row, ws) {
      forall s, t | Newest(row, ws, s) && Newest(row, ws, t)
        ensures s == t
      {
        NewestWins(row, ws, s);
        NewestWins(row, ws, t);
        assert SameSnapshots(ws, [s] + ws) && SameSnapshots(ws, [t] + ws);
        assert SnapshotOf(WithSnapshot(row, s)) == s && SnapshotOf(WithSnapshot(row, t)) == t;
      }
    }
  }
}
