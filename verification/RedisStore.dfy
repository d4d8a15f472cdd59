/** The store of redis_state.go: one method per script, written in the order of the script's commands. */
module RedisStore {
  import opened Prelude
  import opened Doubles
  import opened Auctions
  import opened RedisScripts

  datatype BidResult = BidResult(state: State, bidRecordId: int, bidTime: int)

  class RedisAuctionStateStore {
    var states: map<int, Hash>
    var roomCurrent: map<int, int>
    var expireIndex: map<int, int>
    var rank: map<int, map<int, int>>
    var markers: map<(int, string), int>
    const bidCountdownMillis: int

    function Model(): Redis
      reads this
    {
      Redis(states, roomCurrent, expireIndex, rank, markers)
    }

    constructor (bidCountdownSeconds: int)
      ensures Model() == EMPTY
      ensures bidCountdownMillis == (if bidCountdownSeconds > 0 then bidCountdownSeconds * 1000 else 30000)
    {
      bidCountdownMillis := if bidCountdownSeconds * 1000 <= 0 then 30 * 1000 else bidCountdownSeconds * 1000;
      states, roomCurrent, expireIndex, rank, markers := map[], map[], map[], map[], map[];
    }

    method LoadAuction(auction: Auction, now: int) returns (r: Result<int, ScriptError>)
      modifies this
      ensures Model() == AfterLoad(old(Model()), LoadedHash(auction, now))
      ensures r == if RoomBusy(old(Model()), LoadedHash(auction, now)) then Failure(RoomAuctionRunning) else Success(1)
      // in the keys themselves: refused exactly while another auction runs in the room, and then nothing is written
      ensures r.Failure? <==>
                && auction.roomId in old(roomCurrent) && old(roomCurrent)[auction.roomId] != auction.id
                && old(roomCurrent)[auction.roomId] in old(states)
                && old(states)[old(roomCurrent)[auction.roomId]].status == RUNNING
      ensures r.Failure? ==> states == old(states) && roomCurrent == old(roomCurrent) && expireIndex == old(expireIndex)
      ensures r.Success? ==>
                && roomCurrent == old(roomCurrent)[auction.roomId := auction.id]
                && auction.id in states && states == old(states)[auction.id := states[auction.id]]
                && expireIndex == old(expireIndex)[auction.id := states[auction.id].endTime]
      ensures r.Success? ==>
                var h := states[auction.id];
                && h.auctionId == auction.id && h.goodsId == auction.goodsId
                && h.shopId == auction.shopId && h.roomId == auction.roomId
                && h.startPrice == auction.startPrice && h.bidIncrement == auction.bidIncrement
                && h.currentPrice == auction.currentPrice && h.bidCount == auction.bidCount
                && h.status == RUNNING && h.version == auction.version && h.expireAt == h.endTime
                && h.sealPrice == (if auction.sealPrice.Some? then auction.sealPrice.value else 0)
                && h.winnerUserId == (if auction.winnerUserId.Some? then auction.winnerUserId.value else 0)
                && h.startTime == (if auction.startTime.Some? then auction.startTime.value else now)
                && h.endTime == (if auction.endTime.Some? then auction.endTime.value else h.startTime + 86400000)
      ensures rank == old(rank) && markers == old(markers)
    {
      var startTime := now;
      if auction.startTime.Some? {
        startTime := auction.startTime.value;
      }
      var endTime := startTime + DAY_MILLIS;
      if auction.endTime.Some? {
        endTime := auction.endTime.value;
      }
      var values := Hash(auction.id, auction.goodsId, auction.shopId, auction.roomId,
                         auction.startPrice, auction.bidIncrement, 0, auction.currentPrice,
                         auction.bidCount, RUNNING, startTime, endTime, 0, endTime, auction.version);
      if auction.sealPrice.Some? {
        values := values.(sealPrice := auction.sealPrice.value);
      }
      if auction.winnerUserId.Some? {
        values := values.(winnerUserId := auction.winnerUserId.value);
      }
      r := RunLoad(values);
    }

    /** The load script, command by command. */
    method RunLoad(values: Hash) returns (r: Result<int, ScriptError>)
      modifies this
      ensures Model() == AfterLoad(old(Model()), values)
      ensures r == if RoomBusy(old(Model()), values) then Failure(RoomAuctionRunning) else Success(1)
    {
      if values.roomId in roomCurrent && roomCurrent[values.roomId] != values.auctionId {
        var current := roomCurrent[values.roomId];
        var currentStatus := if current in states then states[current].status else 0;
        if currentStatus == RUNNING {
          return Failure(RoomAuctionRunning);
        }
        roomCurrent := roomCurrent - {values.roomId};
      }
      states := states[values.auctionId := values];
      roomCurrent := roomCurrent[values.roomId := values.auctionId];
      expireIndex := expireIndex[values.auctionId := values.expireAt];
      r := Success(1);
    }

    /** The bid script, command by command; it answers with sixteen values. */
    method RunPlaceBid(auctionId: int, roomId: int, userId: int, bidPrice: int, requestId: string,
                       bidRecordId: int, now: int, clock: int)
      returns (r: Result<seq<int>, ScriptError>)
      modifies this
      ensures var q := BidRequest(auctionId, roomId, userId, bidPrice, requestId, bidRecordId, now, clock);
              && Model() == AfterBid(old(Model()), q, bidCountdownMillis)
              && (r.Failure? <==> BidVerdict(old(Model()), q).Some?)
              && (r.Failure? ==> BidVerdict(old(Model()), q) == Some(r.error))
      ensures r.Success? ==>
                && auctionId in states
                && var h := states[auctionId];
                   r.value == [
                     h.auctionId, h.goodsId, h.shopId, h.roomId, h.startPrice, h.bidIncrement, h.sealPrice,
                     h.currentPrice, h.bidCount, h.status, h.startTime, h.endTime, h.winnerUserId, h.version,
                     h.expireAt, Double(bidRecordId)]
    {
      hide Nearest;
      var luaRoomId, luaUserId, luaRecordId := Double(roomId), Double(userId), Double(bidRecordId);
      if auctionId !in states {
        return Failure(AuctionNotFound);
      }
      if Double(states[auctionId].roomId) != luaRoomId {
        return Failure(RoomMismatch);
      }
      var req := (auctionId, requestId);
      if req in markers && clock < markers[req] {
        return Failure(DuplicateRequest);
      }
      markers := markers[req := clock + MARKER_MILLIS];
      var h := states[auctionId];
      var status, startTime, endTime := h.status, h.startTime, h.endTime;
      if status != RUNNING {
        return Failure(InvalidState);
      }
      if now < startTime || now > endTime {
        return Failure(AuctionExpired);
      }
      var currentWinner := Double(h.winnerUserId);
      if currentWinner == luaUserId {
        return Failure(ConsecutiveBid);
      }
      var minBidPrice := h.currentPrice + h.bidIncrement;
      if h.sealPrice > 0 && minBidPrice > h.sealPrice {
        minBidPrice := h.sealPrice;
      }
      if bidPrice < minBidPrice {
        return Failure(BidTooLow);
      }
      if h.sealPrice > 0 && bidPrice > h.sealPrice {
        return Failure(BidOverSeal);
      }
      h := h.(bidCount := h.bidCount + 1);
      var bidCount := h.bidCount;
      h := h.(version := h.version + 1);
      var version := h.version;
      var nextExpireAt := now + bidCountdownMillis;
      h := h.(currentPrice := bidPrice, winnerUserId := luaUserId, expireAt := nextExpireAt);
      states := states[auctionId := h];
      var ranked := if auctionId in rank then rank[auctionId] else map[];
      rank := rank[auctionId := ranked[luaUserId := bidPrice]];
      expireIndex := expireIndex[h.auctionId := nextExpireAt];
      var reply := [
        h.auctionId, h.goodsId, h.shopId, h.roomId, h.startPrice, h.bidIncrement, h.sealPrice,
        bidPrice, bidCount, status, startTime, endTime, luaUserId, version, h.expireAt, luaRecordId];
      r := Success(reply);
    }

    method PlaceBid(auctionId: int, roomId: int, userId: int, bidPrice: int, requestId: string,
                    bidRecordId: int, now: int, clock: int)
      returns (r: Result<BidResult, ScriptError>)
      modifies this
      ensures var q := BidRequest(auctionId, roomId, userId, bidPrice, requestId, bidRecordId, now, clock);
              && Model() == AfterBid(old(Model()), q, bidCountdownMillis)
              && (r.Failure? <==> BidVerdict(old(Model()), q).Some?)
              && (r.Failure? ==> BidVerdict(old(Model()), q) == Some(r.error))
      // the reply decodes to what a read of the hash returns afterwards
      ensures r.Success? ==>
                && auctionId in states
                && r.value == BidResult(StateFromMap(states[auctionId]), Double(bidRecordId), now)
      // in the columns of the hash: what is accepted
      ensures r.Success? <==>
                && auctionId in old(states)
                && var h := old(states)[auctionId];
                   && Double(h.roomId) == Double(roomId)
                   && ((auctionId, requestId) in old(markers) ==> clock >= old(markers)[(auctionId, requestId)])
                   && h.status == RUNNING && h.startTime <= now <= h.endTime
                   && Double(h.winnerUserId) != Double(userId)
                   && (bidPrice >= h.currentPrice + h.bidIncrement || (h.sealPrice > 0 && bidPrice >= h.sealPrice))
                   && (h.sealPrice > 0 ==> bidPrice <= h.sealPrice)
      // what an accepted bid writes
      ensures r.Success? ==>
                && states == old(states)[auctionId := old(states)[auctionId].(
                     bidCount := old(states)[auctionId].bidCount + 1, version := old(states)[auctionId].version + 1,
                     currentPrice := bidPrice, winnerUserId := Double(userId), expireAt := now + bidCountdownMillis)]
                && roomCurrent == old(roomCurrent)
                && expireIndex == old(expireIndex)[old(states)[auctionId].auctionId := now + bidCountdownMillis]
                && markers == old(markers)[(auctionId, requestId) := clock + 600000]
                && rank == old(rank)[auctionId :=
                     (if auctionId in old(rank) then old(rank)[auctionId] else map[])[Double(userId) := bidPrice]]
      // what a refused one leaves alone, and which refusals come before the marker
      ensures r.Failure? ==>
                && states == old(states) && roomCurrent == old(roomCurrent)
                && expireIndex == old(expireIndex) && rank == old(rank)
                && markers == if r.error in {AuctionNotFound, RoomMismatch, DuplicateRequest} then old(markers)
                              else old(markers)[(auctionId, requestId) := clock + 600000]
      ensures r == Failure(AuctionNotFound) <==> auctionId !in old(states)
      ensures r == Failure(RoomMismatch) <==>
                auctionId in old(states) && Double(old(states)[auctionId].roomId) != Double(roomId)
      ensures r == Failure(DuplicateRequest) <==>
                && auctionId in old(states) && Double(old(states)[auctionId].roomId) == Double(roomId)
                && (auctionId, requestId) in old(markers) && clock < old(markers)[(auctionId, requestId)]
      // past the marker the checks follow one another
      ensures r.Failure? && r.error !in {AuctionNotFound, RoomMismatch, DuplicateRequest} ==>
                var h := old(states)[auctionId];
                && (r.error == InvalidState <==> h.status != RUNNING)
                && (r.error == AuctionExpired <==> h.status == RUNNING && !(h.startTime <= now <= h.endTime))
                && (r.error == ConsecutiveBid ==> Double(h.winnerUserId) == Double(userId))
                && (r.error in {BidTooLow, BidOverSeal} ==> Double(h.winnerUserId) != Double(userId))
                && (r.error == BidTooLow ==>
                      bidPrice < h.currentPrice + h.bidIncrement && (h.sealPrice > 0 ==> bidPrice < h.sealPrice))
                && (r.error == BidOverSeal ==> 0 < h.sealPrice < bidPrice)
    {
      hide Double;
      var values := RunPlaceBid(auctionId, roomId, userId, bidPrice, requestId, bidRecordId, now, clock);
      if values.Failure? {
        return Failure(values.error);
      }
      r := Success(BidResult(StateFromScript(values.value[..15]), values.value[15], now));
    }

    method FinishAuction(auctionId: int, now: int) returns (r: Result<State, ScriptError>)
      modifies this
      ensures var verdict := EndVerdict(old(Model()), auctionId, Finished);
              && (r.Failure? <==> verdict.Some?)
              && (r.Failure? ==> verdict == Some(r.error) && Model() == old(Model()))
              && (r.Success? ==>
                    && Model() == AfterEnd(old(Model()), auctionId, Finished, now)
                    && r.value == StateFromMap(LuaRead(states[auctionId])))
      // exactly a running auction can be finished, and whether anybody has bid decides how
      ensures r.Success? <==> auctionId in old(states) && old(states)[auctionId].status == RUNNING
      ensures r == Failure(AuctionNotFound) <==> auctionId !in old(states)
      ensures r.Failure? ==> states == old(states) && (r.error == AuctionNotFound || r.error == InvalidState)
      ensures r.Success? ==>
                var h := old(states)[auctionId];
                && states == old(states)[auctionId := h.(
                     version := h.version + 1, status := if h.bidCount > 0 then DEAL else FAILED,
                     endTime := now, expireAt := now)]
                && expireIndex == old(expireIndex) - {h.auctionId} && roomCurrent == old(roomCurrent) - {h.roomId}
                && r.value.status == states[auctionId].status && r.value.currentPrice == h.currentPrice
                && (Double(h.winnerUserId) > 0 ==> r.value.winnerUserId == Some(Double(h.winnerUserId)))
      ensures rank == old(rank) && markers == old(markers)
    {
      if auctionId !in states {
        return Failure(AuctionNotFound);
      }
      if states[auctionId].status != RUNNING {
        return Failure(InvalidState);
      }
      var h := states[auctionId];
      var bidCount, currentPrice, winnerUserId := h.bidCount, h.currentPrice, Double(h.winnerUserId);
      var nextStatus := FAILED;
      if bidCount > 0 {
        nextStatus := DEAL;
      }
      h := Conclude(auctionId, nextStatus, now);
      var reply := [
        h.auctionId, h.goodsId, h.shopId, h.roomId, h.startPrice, h.bidIncrement, h.sealPrice,
        currentPrice, bidCount, nextStatus, h.startTime, now, winnerUserId, h.version, now];
      r := Success(StateFromScript(reply));
    }

    method FinishExpiredAuction(auctionId: int, version: int, expireAt: int, now: int)
      returns (r: Result<(Option<State>, bool), ScriptError>)
      modifies this
      ensures r.Failure? <==> auctionId !in old(states)
      ensures r.Failure? ==> r.error == AuctionNotFound
      ensures Model() == AfterExpire(old(Model()), auctionId, version, expireAt, now)
      ensures r.Success? ==>
                && auctionId in states
                && r.value == if Expires(old(Model()), auctionId, version, expireAt, now)
                              then (Some(StateFromMap(LuaRead(states[auctionId]))), true) else (None, false)
      // exactly a running auction still at that version and expiry is ended, once the expiry has passed
      ensures r.Success? && r.value.1 <==>
                && auctionId in old(states)
                && var h := old(states)[auctionId];
                   h.status == RUNNING && h.version == version && h.expireAt == expireAt && expireAt <= now
      ensures r.Success? && r.value.1 ==>
                var h := old(states)[auctionId];
                && states == old(states)[auctionId := h.(
                     version := h.version + 1, status := if h.bidCount > 0 then DEAL else FAILED,
                     endTime := now, expireAt := now)]
                && expireIndex == old(expireIndex) - {h.auctionId} && roomCurrent == old(roomCurrent) - {h.roomId}
      ensures r.Failure? || !r.value.1 ==>
                states == old(states) && expireIndex == old(expireIndex) && roomCurrent == old(roomCurrent)
      ensures rank == old(rank) && markers == old(markers)
    {
      if auctionId !in states {
        return Failure(AuctionNotFound);
      }
      var h := states[auctionId];
      if h.status != RUNNING || h.version != version || h.expireAt != expireAt || h.expireAt > now {
        return Success((None, false));
      }
      var bidCount, currentPrice, winnerUserId := h.bidCount, h.currentPrice, Double(h.winnerUserId);
      var nextStatus := FAILED;
      if bidCount > 0 {
        nextStatus := DEAL;
      }
      h := Conclude(auctionId, nextStatus, now);
      var reply := [
        1,
        h.auctionId, h.goodsId, h.shopId, h.roomId, h.startPrice, h.bidIncrement, h.sealPrice,
        currentPrice, bidCount, nextStatus, h.startTime, now, winnerUserId, h.version, now];
      r := Success((Some(StateFromScript(reply[1..16])), true));
    }

    method CancelAuction(auctionId: int, now: int) returns (r: Result<State, ScriptError>)
      modifies this
      ensures var verdict := EndVerdict(old(Model()), auctionId, Withdrawn);
              && (r.Failure? <==> verdict.Some?)
              && (r.Failure? ==> verdict == Some(r.error) && Model() == old(Model()))
              && (r.Success? ==>
                    && Model() == AfterEnd(old(Model()), auctionId, Withdrawn, now)
                    && r.value == StateFromMap(states[auctionId]))
      // exactly a pending or running auction can be cancelled, with or without bids
      ensures r.Success? <==> auctionId in old(states) && old(states)[auctionId].status in {PENDING, RUNNING}
      ensures r == Failure(AuctionNotFound) <==> auctionId !in old(states)
      ensures r.Failure? ==> states == old(states) && (r.error == AuctionNotFound || r.error == InvalidState)
      ensures r.Success? ==>
                var h := old(states)[auctionId];
                && states == old(states)[auctionId := h.(
                     version := h.version + 1, status := CANCELLED, endTime := now, expireAt := now)]
                && expireIndex == old(expireIndex) - {h.auctionId} && roomCurrent == old(roomCurrent) - {h.roomId}
                && r.value.status == CANCELLED && r.value.currentPrice == h.currentPrice
      ensures rank == old(rank) && markers == old(markers)
    {
      if auctionId !in states {
        return Failure(AuctionNotFound);
      }
      if states[auctionId].status != PENDING && states[auctionId].status != RUNNING {
        return Failure(InvalidState);
      }
      var h := Conclude(auctionId, CANCELLED, now);
      var reply := [
        h.auctionId, h.goodsId, h.shopId, h.roomId, h.startPrice, h.bidIncrement, h.sealPrice,
        h.currentPrice, h.bidCount, CANCELLED, h.startTime, now, h.winnerUserId, h.version, now];
      r := Success(StateFromScript(reply));
    }

    /** The writes the three ending scripts have in common. */
    method Conclude(auctionId: int, nextStatus: int, now: int) returns (h: Hash)
      requires auctionId in states
      modifies this
      ensures h == old(states[auctionId]).(version := old(states[auctionId]).version + 1, status := nextStatus,
                                           endTime := now, expireAt := now)
      ensures states == old(states)[auctionId := h]
      ensures expireIndex == old(expireIndex) - {h.auctionId}
      ensures roomCurrent == old(roomCurrent) - {h.roomId}
      ensures rank == old(rank) && markers == old(markers)
    {
      h := states[auctionId];
      h := h.(version := h.version + 1);
      h := h.(status := nextStatus, endTime := now, expireAt := now);
      states := states[auctionId := h];
      expireIndex := expireIndex - {h.auctionId};
      roomCurrent := roomCurrent - {h.roomId};
    }

    method GetState(auctionId: int) returns (r: Result<State, ScriptError>)
      ensures r == if auctionId in states then Success(StateFromMap(states[auctionId])) else Failure(AuctionNotFound)
      ensures r.Success? ==>
                var a, h := r.value, states[auctionId];
                && a.auctionId == h.auctionId && a.goodsId == h.goodsId && a.shopId == h.shopId && a.roomId == h.roomId
                && a.startPrice == h.startPrice && a.bidIncrement == h.bidIncrement && a.currentPrice == h.currentPrice
                && a.bidCount == h.bidCount && a.status == h.status && a.version == h.version
                && a.startTime == h.startTime && a.endTime == h.endTime && a.expireAt == h.expireAt
                && a.sealPrice == (if h.sealPrice > 0 then Some(h.sealPrice) else None)
                && a.winnerUserId == (if h.winnerUserId > 0 then Some(h.winnerUserId) else None)
    {
      if auctionId !in states {
        return Failure(AuctionNotFound);
      }
      r := Success(StateFromMap(states[auctionId]));
    }

    method IndexRunningAuction(auctionId: int, expireAt: int)
      modifies this
      ensures Model() == AfterIndex(old(Model()), auctionId, expireAt)
      ensures expireIndex == old(expireIndex)[auctionId := expireAt]
      ensures states == old(states) && roomCurrent == old(roomCurrent) && rank == old(rank) && markers == old(markers)
    {
      expireIndex := expireIndex[auctionId := expireAt];
    }

    method RemoveRunningAuction(auctionId: int)
      modifies this
      ensures Model() == AfterUnindex(old(Model()), auctionId)
      ensures expireIndex == old(expireIndex) - {auctionId}
      ensures states == old(states) && roomCurrent == old(roomCurrent) && rank == old(rank) && markers == old(markers)
    {
      expireIndex := expireIndex - {auctionId};
    }

    /** The due members by rising score, as many as the limit allows; numbers that are not positive are dropped. */
    method ListExpiredAuctionIDs(now: int, limit: int) returns (ids: seq<int>)
      ensures forall id :: id in ids ==> id in Due(Model(), now) && id > 0
      ensures Ranked(expireIndex, ids)
      ensures (forall id :: id in expireIndex ==> id > 0) ==>
                Leading(expireIndex, ids, Due(Model(), now), if limit > 0 then limit else 100)
      // in the index itself: a member is due from the moment its score is reached, and none is passed over
      ensures forall id :: id in ids ==> id in expireIndex && expireIndex[id] <= now
      ensures (forall id :: id in expireIndex ==> id > 0) ==>
                forall id :: id in expireIndex && expireIndex[id] <= now && id !in ids ==>
                  |ids| == (if limit > 0 then limit else 100)
    {
      var count := if limit <= 0 then 100 else limit;
      var values := RangeByScore(now, count);
      ids := [];
      var k := 0;
      while k < |values|
        invariant 0 <= k <= |values|
        invariant forall id :: id in ids ==> id in values[..k] && id > 0
        invariant Ranked(expireIndex, ids)
        invariant (forall id :: id in expireIndex ==> id > 0) ==> ids == values[..k]
      {
        assert values[..k + 1] == values[..k] + [values[k]];
        assert values[k] in values;
        if values[k] > 0 {
          forall id | id in ids
            ensures id in expireIndex && id != values[k] && expireIndex[id] <= expireIndex[values[k]]
          {
            var m :| 0 <= m < k && values[..k][m] == id;
            assert values[m] == id;
          }
          ids := ids + [values[k]];
        }
        k := k + 1;
      }
      assert values[..k] == values;
    }

    /** ZRANGEBYSCORE from minus infinity to now with a count. */
    method RangeByScore(now: int, count: int) returns (values: seq<int>)
      requires count > 0
      ensures forall id :: id in values ==> id in Due(Model(), now)
      ensures Ranked(expireIndex, values)
      ensures Leading(expireIndex, values, Due(Model(), now), count)
      ensures forall id :: id in expireIndex && expireIndex[id] <= now && id !in values ==> |values| == count
    {
      var rest := Due(Model(), now);
      values := [];
      while rest != {} && |values| < count
        invariant rest <= Due(Model(), now)
        invariant |rest| + |values| == |Due(Model(), now)| && |values| <= count
        invariant forall id :: id in Due(Model(), now) ==> (id in values <==> id !in rest)
        invariant forall id :: id in values ==> id in Due(Model(), now)
        invariant Ranked(expireIndex, values)
        invariant forall id, out :: id in values && out in rest ==> expireIndex[id] <= expireIndex[out]
        decreases rest
      {
        var first := Lowest(rest);
        values := values + [first];
        rest := rest - {first};
      }
    }

    /** A member of lowest score. */
    method Lowest(members: set<int>) returns (first: int)
      requires members != {}
      requires forall id :: id in members ==> id in expireIndex
      ensures first in members
      ensures forall id :: id in members ==> expireIndex[first] <= expireIndex[id]
    {
      SomeMember(members);
      first :| first in members;
      var rest := members - {first};
      while rest != {}
        invariant rest <= members && first in members
        invariant forall id :: id in members - rest ==> expireIndex[first] <= expireIndex[id]
        decreases rest
      {
        SomeMember(rest);
        var id :| id in rest;
        if expireIndex[id] < expireIndex[first] {
          first := id;
        }
        rest := rest - {id};
      }
    }
  }
}
