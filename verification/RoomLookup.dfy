/** The batch lookup of the rooms' current auctions, measured against the lookup of a single room. */
module RoomLookup {
  import opened Prelude
  import opened Tables

  /** The ORDER BY of the batch lookup puts the room first. */
  predicate BatchBefore(a: ListedRow, b: ListedRow) {
    a.auction.roomId < b.auction.roomId || (a.auction.roomId == b.auction.roomId && Before(a, b))
  }

  /** What the batch query returns: every live row of the rooms once, in the batch order. */
  ghost predicate Answers(table: set<ListedRow>, roomIds: seq<int>, rows: seq<ListedRow>) {
    && (forall row :: row in rows <==>
          row in table && row.auction.roomId in roomIds && RunsIn(row.auction, row.auction.roomId))
    && (forall i, j :: 0 <= i < j < |rows| ==> BatchBefore(rows[i], rows[j]))
  }

  /** The numbers in order of first occurrence. */
  function Distinct(ids: seq<int>): seq<int> {
    if ids == [] then [] else
      var front, last := Distinct(ids[..|ids| - 1]), ids[|ids| - 1];
      if last in front then front else front + [last]
  }

  lemma {:induction false} DistinctMembers(ids: seq<int>)
    ensures forall id :: id in Distinct(ids) <==> id in ids
    ensures forall i, j :: 0 <= i < j < |Distinct(ids)| ==> Distinct(ids)[i] != Distinct(ids)[j]
  {
    if ids != [] {
      DistinctMembers(ids[..|ids| - 1]);
      assert ids == ids[..|ids| - 1] + [ids[|ids| - 1]];
    }
  }

  /** What is kept is exactly what has not occurred before, in the order of the list. */
  lemma {:induction false} DistinctKeepsFirsts(ids: seq<int>) returns (at: seq<nat>)
    ensures Picks(ids, at, Distinct(ids))
    ensures forall k :: 0 <= k < |ids| ==> (k in at <==> ids[k] !in ids[..k])
  {
    at := [];
    if ids != [] {
      var n := |ids| - 1;
      var front, last := ids[..n], ids[n];
      at := DistinctKeepsFirsts(front);
      DistinctMembers(front);
      PicksOneMore(front, at, Distinct(front), last);
      assert ids == front + [last];
      assert forall k :: 0 <= k < n ==> ids[..k] == front[..k];
      assert n !in at;
      if last !in Distinct(front) {
        at := at + [n];
      }
    }
  }

  /** Empty requests and numbers that are not positive are refused; repetitions are dropped. */
  method NormalizeIDList(ids: seq<int>) returns (r: Option<seq<int>>)
    ensures r == if ids != [] && forall i :: 0 <= i < |ids| ==> ids[i] > 0 then Some(Distinct(ids)) else None
  {
    if |ids| == 0 {
      return None;
    }
    var seen: set<int> := {};
    var normalized := [];
    var k := 0;
    while k < |ids|
      invariant 0 <= k <= |ids|
      invariant forall i :: 0 <= i < k ==> ids[i] > 0
      invariant normalized == Distinct(ids[..k])
      invariant forall id :: id in seen <==> id in normalized
    {
      assert ids[..k + 1][..k] == ids[..k];
      if ids[k] <= 0 {
        return None;
      }
      if ids[k] !in seen {
        seen := seen + {ids[k]};
        normalized := normalized + [ids[k]];
      }
      k := k + 1;
    }
    assert ids[..k] == ids;
    r := Some(normalized);
  }

  /** One row in the list for each room that has one. */
  ghost predicate Covers(table: set<ListedRow>, roomIds: seq<int>, list: seq<ListedRow>) {
    && (forall row :: row in list ==> IsCurrent(table, row.auction.roomId, row))
    && (forall row :: row in table && row.auction.roomId in roomIds && RunsIn(row.auction, row.auction.roomId) ==>
          exists first :: first in list && first.auction.roomId == row.auction.roomId)
  }

  /** Keeps the first row of every room. */
  method FirstPerRoom(ghost table: set<ListedRow>, ghost roomIds: seq<int>, rows: seq<ListedRow>)
    returns (list: seq<ListedRow>)
    requires Answers(table, roomIds, rows)
    ensures Covers(table, roomIds, list)
    ensures forall i, j :: 0 <= i < j < |list| ==> list[i].auction.roomId != list[j].auction.roomId
  {
    hide IsCurrent;
    var seen: set<int> := {};
    list := [];
    var k := 0;
    while k < |rows|
      invariant 0 <= k <= |rows|
      invariant forall i :: 0 <= i < k ==> rows[i].auction.roomId in seen
      invariant forall id :: id in seen <==> exists first :: first in list && first.auction.roomId == id
      invariant forall row :: row in list ==> IsCurrent(table, row.auction.roomId, row)
      invariant forall i, j :: 0 <= i < j < |list| ==> list[i].auction.roomId != list[j].auction.roomId
    {
      var row := rows[k];
      if row.auction.roomId !in seen {
        FirstIsCurrent(table, roomIds, rows, k);
        assert forall first :: first in list ==> first.auction.roomId != row.auction.roomId;
        seen := seen + {row.auction.roomId};
        list := list + [row];
        assert list[|list| - 1] == row;
      }
      k := k + 1;
    }
    forall row | row in table && row.auction.roomId in roomIds && RunsIn(row.auction, row.auction.roomId)
      ensures exists first :: first in list && first.auction.roomId == row.auction.roomId
    {
      assert row in rows;
    }
  }

  /** The first row of a room in the batch order is the room's current auction. */
  lemma FirstIsCurrent(table: set<ListedRow>, roomIds: seq<int>, rows: seq<ListedRow>, k: nat)
    requires Answers(table, roomIds, rows) && k < |rows|
    requires forall i :: 0 <= i < k ==> rows[i].auction.roomId != rows[k].auction.roomId
    ensures IsCurrent(table, rows[k].auction.roomId, rows[k])
  {
    assert rows[k] in rows;
    forall other | other in table && RunsIn(other.auction, rows[k].auction.roomId) && other != rows[k]
      ensures Before(rows[k], other)
    {
      assert other in rows;
      var j :| 0 <= j < |rows| && rows[j] == other;
      assert j > k;
      assert BatchBefore(rows[k], rows[j]);
    }
  }

  /** The rooms of the list that have a row, in the order of the list. */
  ghost function Served(table: set<ListedRow>, roomIds: seq<int>): seq<int> {
    if roomIds == [] then [] else
      var front, last := Served(table, roomIds[..|roomIds| - 1]), roomIds[|roomIds| - 1];
      if exists row :: row in table && RunsIn(row.auction, last) then front + [last] else front
  }

  function Rooms(rows: seq<ListedRow>): seq<int> {
    seq(|rows|, i requires 0 <= i < |rows| => rows[i].auction.roomId)
  }

  /** The last row of each room wins the map. */
  method MapByRoom(list: seq<ListedRow>) returns (byRoomId: map<int, ListedRow>)
    ensures forall id :: id in byRoomId ==> byRoomId[id] in list && byRoomId[id].auction.roomId == id
    ensures forall row :: row in list && row.auction.roomId > 0 ==> row.auction.roomId in byRoomId
  {
    byRoomId := map[];
    var k := 0;
    while k < |list|
      invariant 0 <= k <= |list|
      invariant forall id :: id in byRoomId ==> byRoomId[id] in list && byRoomId[id].auction.roomId == id
      invariant forall row :: row in list[..k] && row.auction.roomId > 0 ==> row.auction.roomId in byRoomId
    {
      assert list[..k + 1] == list[..k] + [list[k]];
      if list[k].auction.roomId > 0 {
        byRoomId := byRoomId[list[k].auction.roomId := list[k]];
      }
      k := k + 1;
    }
    assert list[..k] == list;
  }

  lemma FetchedIsLive(table: set<ListedRow>, roomIds: seq<int>, list: seq<ListedRow>, row: ListedRow)
    requires Covers(table, roomIds, list) && row in list
    ensures row in table && RunsIn(row.auction, row.auction.roomId)
  {
    assert IsCurrent(table, row.auction.roomId, row);
  }

  lemma LiveIsFetched(table: set<ListedRow>, roomIds: seq<int>, list: seq<ListedRow>, row: ListedRow)
    requires Covers(table, roomIds, list) && row in table && RunsIn(row.auction, row.auction.roomId)
    requires row.auction.roomId in roomIds
    ensures exists first :: first in list && first.auction.roomId == row.auction.roomId
  {
  }

  lemma ServedHasRow(table: set<ListedRow>, roomIds: seq<int>, list: seq<ListedRow>, byRoomId: map<int, ListedRow>,
                     roomId: int)
    requires Covers(table, roomIds, list) && roomId in roomIds && roomId > 0
    requires forall id :: id in byRoomId ==> byRoomId[id] in list && byRoomId[id].auction.roomId == id
    requires forall row :: row in list && row.auction.roomId > 0 ==> row.auction.roomId in byRoomId
    ensures roomId in byRoomId <==> exists row :: row in table && RunsIn(row.auction, roomId)
  {
    hide Covers;
    if roomId in byRoomId {
      FetchedIsLive(table, roomIds, list, byRoomId[roomId]);
    }
    if row :| row in table && RunsIn(row.auction, roomId) {
      LiveIsFetched(table, roomIds, list, row);
      var first :| first in list && first.auction.roomId == row.auction.roomId;
      assert first.auction.roomId in byRoomId;
    }
  }

  /** The rooms fetch their rows in request order. */
  method OrderByRooms(roomIds: seq<int>, list: seq<ListedRow>, ghost table: set<ListedRow>)
    returns (ordered: seq<ListedRow>)
    requires forall i :: 0 <= i < |roomIds| ==> roomIds[i] > 0
    requires Covers(table, roomIds, list)
    ensures Rooms(ordered) == Served(table, roomIds)
    ensures forall row :: row in ordered ==> IsCurrent(table, row.auction.roomId, row)
  {
    hide IsCurrent;
    var byRoomId := MapByRoom(list);
    ordered := [];
    var k := 0;
    while k < |roomIds|
      invariant 0 <= k <= |roomIds|
      invariant Rooms(ordered) == Served(table, roomIds[..k])
      invariant forall row :: row in ordered ==> IsCurrent(table, row.auction.roomId, row)
    {
      assert roomIds[..k + 1][..k] == roomIds[..k];
      assert roomIds[k] in roomIds;
      ServedHasRow(table, roomIds, list, byRoomId, roomIds[k]);
      if roomIds[k] in byRoomId {
        ordered := ordered + [byRoomId[roomIds[k]]];
      }
      k := k + 1;
    }
    assert roomIds[..k] == roomIds;
  }

  /**
   The batch answers every distinct requested room that has a live auction, in request order,
   with exactly the row the single lookup would return; `rows` is the answer of the database.
   */
  method BatchGetCurrentAuctionsByRoom(requested: seq<int>, ghost table: set<ListedRow>, rows: seq<ListedRow>)
    returns (r: Option<seq<ListedRow>>)
    requires Answers(table, Distinct(requested), rows)
    ensures r.None? <==> requested == [] || exists i :: 0 <= i < |requested| && requested[i] <= 0
    ensures r.Some? ==>
              && Rooms(r.value) == Served(table, Distinct(requested))
              && forall row :: row in r.value ==> IsCurrent(table, row.auction.roomId, row)
  {
    hide Covers, Answers, Served, IsCurrent;
    var roomIds := NormalizeIDList(requested);
    if roomIds.None? {
      return None;
    }
    DistinctMembers(requested);
    var list := FirstPerRoom(table, roomIds.value, rows);
    assert forall i :: 0 <= i < |roomIds.value| ==> roomIds.value[i] in roomIds.value;
    var ordered := OrderByRooms(roomIds.value, list, table);
    r := Some(ordered);
  }

  /** A room has at most one current auction, so the batch leaves no choice. */
  lemma CurrentIsUnique(table: set<ListedRow>, roomId: int, a: ListedRow, b: ListedRow)
    requires IsCurrent(table, roomId, a) && IsCurrent(table, roomId, b)
    ensures a == b
  {
    assert a != b ==> Before(a, b) && Before(b, a);
  }

  /** The rooms answered are exactly those entries of the list that have a running auction, in its order. */
  lemma {:induction false} ServedKeepsOrder(table: set<ListedRow>, roomIds: seq<int>) returns (at: seq<nat>)
    ensures Picks(roomIds, at, Served(table, roomIds))
    ensures forall k :: 0 <= k < |roomIds| ==>
              (k in at <==> exists row :: row in table && RunsIn(row.auction, roomIds[k]))
  {
    at := [];
    if roomIds != [] {
      var n := |roomIds| - 1;
      var front, last := roomIds[..n], roomIds[n];
      at := ServedKeepsOrder(table, front);
      PicksOneMore(front, at, Served(table, front), last);
      assert roomIds == front + [last];
      assert n !in at;
      if exists row :: row in table && RunsIn(row.auction, last) {
        at := at + [n];
      }
    }
  }

  lemma {:induction false} ServedMembers(table: set<ListedRow>, roomIds: seq<int>, id: int)
    ensures id in Served(table, roomIds) <==> id in roomIds && exists row :: row in table && RunsIn(row.auction, id)
  {
    if roomIds != [] {
      ServedMembers(table, roomIds[..|roomIds| - 1], id);
      assert roomIds == roomIds[..|roomIds| - 1] + [roomIds[|roomIds| - 1]];
    }
  }
}
