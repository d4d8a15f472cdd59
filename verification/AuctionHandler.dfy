/** The four operations of auction_grpc_handler.go that drive Redis, against the steps of the protocol. */
module AuctionHandler {
  import opened Prelude
  import opened Doubles
  import opened Auctions
  import opened RedisScripts
  import opened RedisStore
  import opened Events
  import opened Tables
  import opened Protocol

  datatype HandlerError = InvalidArgument | Table(error: TableError) | Script(code: ScriptError)

  class AuctionGRPCHandler {
    const auctions: AuctionTable
    const bids: BidRecordTable
    const states: RedisAuctionStateStore
    const delayLevel: int
    var published: seq<Event>

    constructor (auctions: AuctionTable, bids: BidRecordTable, states: RedisAuctionStateStore, delayLevel: int)
      ensures this.auctions == auctions && this.bids == bids && this.states == states
      ensures this.delayLevel == delayLevel && published == []
    {
      this.auctions, this.bids, this.states, this.delayLevel := auctions, bids, states, delayLevel;
      published := [];
    }

    ghost predicate Holds(s: System)
      reads this, auctions, bids, states
    {
      states.Model() == s.redis && auctions.rows == s.auctions && bids.records == s.records
    }

    predicate Owned(s: System, id: int, shopId: int) {
      id in s.auctions && s.auctions[id].shopId == shopId && !s.auctions[id].deleted
    }

    /** A pending auction may start while neither the table nor Redis knows another one running in its room. */
    ghost predicate Startable(s: System, id: int, shopId: int, now: int) {
      && Owned(s, id, shopId) && s.auctions[id].status == PENDING
      && (forall other :: other in s.auctions ==> !RunsIn(s.auctions[other], s.auctions[id].roomId))
      && !RoomBusy(s.redis, LoadedHash(StartedAuction(s.auctions[id], now), now))
    }

    /** The operation published these events and handed the snapshot to the table, as its step left to be done. */
    ghost predicate Did(s: System, s': System, before: seq<Event>, events: seq<Event>, a: Auction)
      reads this, auctions
    {
      && published == before + events
      && (forall i :: 0 <= i < |events| ==> Message(events[i]) in s'.soup)
      && Write(a) in s'.soup
      && auctions.rows == AfterSnapshot(s.auctions, a)
    }

    function FinalEvents(a: Auction): seq<Event> {
      [NewEvent(FinalKind(a), a, map[])]
    }

    /** The events of an accepted bid: the bid itself, and the delayed check when delays are configured. */
    function BidEvents(state: State, q: BidRequest): seq<Event> {
      [NewEvent(BidAccepted, AuctionFromState(state), BidExtra(state, q))] +
      if delayLevel > 0 then [NewEvent(ExpireCheck, AuctionFromState(state), map[ExpireAt := state.expireAt])] else []
    }

    /** What the handler does is what the protocol's bid step leaves to be done. */
    lemma BidEventsAreItems(state: State, q: BidRequest)
      ensures forall i :: 0 <= i < |BidEvents(state, q)| ==> Message(BidEvents(state, q)[i]) in BidItems(state, q)
      ensures Record(HandlerRecord(state, q)) in BidItems(state, q)
      ensures Write(AuctionFromState(state)) in BidItems(state, q)
      // and, with delays configured, nothing else is left to be done
      ensures delayLevel > 0 ==>
                forall item :: item in BidItems(state, q) ==>
                  || item == Record(HandlerRecord(state, q)) || item == Write(AuctionFromState(state))
                  || (item.Message? && item.event in BidEvents(state, q))
    {
      hide Double, NewEvent, AuctionFromState, BidExtra, HandlerRecord;
    }

    /** The events of an accepted bid, in the columns of the new hash. */
    lemma BidEventsTell(h: Hash, q: BidRequest)
      ensures var events := BidEvents(StateFromMap(h), q);
              && |events| == (if delayLevel > 0 then 2 else 1)
              && Tells(events[0], BidAccepted, h)
              && Says(events[0].data, BidRecordId, Double(q.recordId)) && Says(events[0].data, UserId, q.userId)
              && Says(events[0].data, BidPrice, q.price) && Says(events[0].data, BidTime, q.now / 1000)
              && Says(events[0].data, ServerTime, q.now) && Says(events[0].data, ExpireAt, h.expireAt)
              && (delayLevel > 0 ==> Tells(events[1], ExpireCheck, h) && Says(events[1].data, ExpireAt, h.expireAt))
    {
      BidEventTells(h, q);
      CheckTells(h);
      hide Double, NewEvent, Tells, AuctionFromState, StateFromMap, BidExtra;
    }

    lemma BidEventTells(h: Hash, q: BidRequest)
      ensures var e := NewEvent(BidAccepted, AuctionFromState(StateFromMap(h)), BidExtra(StateFromMap(h), q));
              && Tells(e, BidAccepted, h)
              && Says(e.data, BidRecordId, Double(q.recordId)) && Says(e.data, UserId, q.userId)
              && Says(e.data, BidPrice, q.price) && Says(e.data, BidTime, q.now / 1000)
              && Says(e.data, ServerTime, q.now) && Says(e.data, ExpireAt, h.expireAt)
    {
      var extra := BidExtra(StateFromMap(h), q);
      BidExtraAgrees(h, q);
      EventTells(BidAccepted, h, extra);
      hide Double, NewEvent, Tells, AuctionFromState, StateFromMap, BidExtra, SnapshotEventData;
      ExtraIsSaid(BidAccepted, AuctionFromState(StateFromMap(h)), extra);
      BidExtraEntries(h, q);
    }

    lemma BidExtraEntries(h: Hash, q: BidRequest)
      ensures var extra := BidExtra(StateFromMap(h), q);
              && Says(extra, BidRecordId, Double(q.recordId)) && Says(extra, UserId, q.userId)
              && Says(extra, BidPrice, q.price) && Says(extra, BidTime, q.now / 1000)
              && Says(extra, ServerTime, q.now) && Says(extra, ExpireAt, h.expireAt)
    {
      hide Double;
    }

    lemma CheckTells(h: Hash)
      ensures var state := StateFromMap(h);
              var e := NewEvent(ExpireCheck, AuctionFromState(state), map[ExpireAt := state.expireAt]);
              Tells(e, ExpireCheck, h) && Says(e.data, ExpireAt, h.expireAt)
    {
      var extra := map[ExpireAt := h.expireAt];
      assert ExpireAt !in SnapshotEventData(AuctionFromState(StateFromMap(h)));
      EventTells(ExpireCheck, h, extra);
      ExtraIsSaid(ExpireCheck, AuctionFromState(StateFromMap(h)), extra);
      hide NewEvent, Tells, AuctionFromState;
    }

    lemma BidExtraAgrees(h: Hash, q: BidRequest)
      ensures var base, extra := SnapshotEventData(AuctionFromState(StateFromMap(h))), BidExtra(StateFromMap(h), q);
              (forall k :: k in extra && k in base ==> extra[k] == base[k]) && ExpireAt !in base
    {
      hide Double;
    }

    method PlaceBid(auctionId: int, roomId: int, userId: int, bidPrice: int, requestId: string, bidRecordId: int,
                    now: int, clock: int)
      returns (r: Result<State, HandlerError>)
      modifies this, auctions, bids, states
      ensures var q := BidRequest(auctionId, roomId, userId, bidPrice, requestId, bidRecordId, now, clock);
              var invalid := auctionId <= 0 || roomId <= 0 || bidPrice <= 0 || requestId == "";
              && (invalid ==> r == Failure(InvalidArgument) && states.Model() == old(states.Model()))
              && (!invalid ==> states.Model() == AfterBid(old(states.Model()), q, states.bidCountdownMillis))
              && (r.Success? <==> !invalid && BidVerdict(old(states.Model()), q) == None)
              && (!invalid && r.Failure? ==>
                    r.error.Script? && BidVerdict(old(states.Model()), q) == Some(r.error.code))
              && (r.Success? ==>
                    && auctionId in states.states && r.value == StateFromMap(states.states[auctionId])
                    && bids.records == AfterRecord(old(bids.records), HandlerRecord(r.value, q))
                    && auctions.rows == AfterSnapshot(old(auctions.rows), AuctionFromState(r.value))
                    && published == old(published) + BidEvents(r.value, q))
      ensures r.Failure? ==>
                auctions.rows == old(auctions.rows) && bids.records == old(bids.records) && published == old(published)
      // in the columns of the new hash: the event of the bid, with delays configured the check, nothing else
      ensures r.Success? ==>
                var n, h := |old(published)|, states.states[auctionId];
                && |published| == n + (if delayLevel > 0 then 2 else 1) && published[..n] == old(published)
                && Tells(published[n], BidAccepted, h)
                && Says(published[n].data, BidRecordId, Double(bidRecordId)) && Says(published[n].data, UserId, userId)
                && Says(published[n].data, BidPrice, bidPrice) && Says(published[n].data, BidTime, now / 1000)
                && Says(published[n].data, ServerTime, now) && Says(published[n].data, ExpireAt, h.expireAt)
                && (delayLevel > 0 ==>
                      Tells(published[n + 1], ExpireCheck, h) && Says(published[n + 1].data, ExpireAt, h.expireAt))
      // the audit row under the number as a double, unless that is taken, and the row of the auction
      ensures r.Success? ==>
                var key, h := Double(bidRecordId), states.states[auctionId];
                && bids.records == (if key in old(bids.records) then old(bids.records) else old(bids.records)[key :=
                     BidRecord(key, h.auctionId, h.goodsId, h.shopId, h.roomId, userId, bidPrice, now)])
                && Wrote(old(auctions.rows), auctions.rows, h)
    {
      hide Double, AfterBid, BidVerdict, NewEvent, AfterSnapshot, Tells, Wrote;
      ghost var q := BidRequest(auctionId, roomId, userId, bidPrice, requestId, bidRecordId, now, clock);
      if auctionId <= 0 || roomId <= 0 || bidPrice <= 0 || requestId == "" {
        return Failure(InvalidArgument);
      }
      var result := states.PlaceBid(auctionId, roomId, userId, bidPrice, requestId, bidRecordId, now, clock);
      if result.Failure? {
        return Failure(Script(result.error));
      }
      var state := result.value.state;
      var record := BidRecord(result.value.bidRecordId, state.auctionId, state.goodsId, state.shopId, state.roomId,
                              userId, bidPrice, now);
      var created := bids.CreateIfNotExists(record);
      var auction := AuctionFromState(state);
      var extra := map[
        BidRecordId := result.value.bidRecordId, UserId := userId, BidPrice := bidPrice, BidTime := now / 1000,
        CurrentPrice := state.currentPrice, BidCount := state.bidCount, ServerTime := now, ExpireAt := state.expireAt];
      published := published + [NewEvent(BidAccepted, auction, extra)];
      if delayLevel > 0 {
        published := published + [NewEvent(ExpireCheck, auction, map[ExpireAt := state.expireAt])];
      }
      var written := auctions.UpdateStatusSnapshot(auction);
      BidEventsTell(states.states[auctionId], q);
      SnapshotIsWritten(old(auctions.rows), states.states[auctionId]);
      r := Success(state);
    }

    method FinishAuction(id: int, shopId: int, now: int, ghost s: System) returns (r: Result<State, HandlerError>)
      requires Holds(s)
      modifies this, auctions, states
      ensures r.Success? <==> Owned(s, id, shopId) && EndVerdict(s.redis, id, Finished) == None
      ensures r.Success? ==>
                var s', a := Ended(s, id, Finished, now), AuctionFromState(r.value);
                && a.status in {DEAL, FAILED}
                && states.Model() == s'.redis && Did(s, s', old(published), FinalEvents(a), a)
      ensures r.Failure? ==> Holds(s) && published == old(published)
      // in the columns of the hash: a running auction of the shop, told and written as Deal at its price, or as Failed
      ensures r.Success? <==>
                && id in s.auctions && s.auctions[id].shopId == shopId && !s.auctions[id].deleted
                && id in s.redis.states && s.redis.states[id].status == RUNNING
      ensures r.Success? ==>
                var h := s.redis.states[id];
                var ended := h.(version := h.version + 1, status := if h.bidCount > 0 then DEAL else FAILED,
                                endTime := now, expireAt := now, winnerUserId := Double(h.winnerUserId));
                && Published(old(published), published,
                             if h.bidCount > 0 then AuctionFinished else AuctionFailed, ended)
                && Wrote(s.auctions, auctions.rows, ended)
    {
      hide Double, NewEvent, AfterSnapshot, Tells, Wrote;
      var found := auctions.FindByIDForShop(id, shopId);
      if found.Failure? {
        return Failure(Table(found.error));
      }
      var state := states.FinishAuction(id, now);
      if state.Failure? {
        return Failure(Script(state.error));
      }
      var auction := AuctionFromState(state.value);
      if state.value.status == DEAL {
        auction := auction.(dealPrice := Some(state.value.currentPrice));
        published := published + [NewEvent(AuctionFinished, auction, map[])];
      } else {
        published := published + [NewEvent(AuctionFailed, auction, map[])];
      }
      var written := auctions.UpdateStatusSnapshot(auction);
      EventTells(if auction.status == DEAL then AuctionFinished else AuctionFailed, LuaRead(states.states[id]), map[]);
      SnapshotIsWritten(s.auctions, LuaRead(states.states[id]));
      r := Success(state.value);
    }

    method StartAuction(id: int, shopId: int, now: int, ghost s: System)
      returns (r: Result<Auction, HandlerError>)
      requires Holds(s) && Keyed(s.auctions)
      modifies this, auctions, states
      ensures r.Success? <==> Startable(s, id, shopId, now)
      ensures r.Success? ==>
                && r.value == StartedAuction(s.auctions[id], now)
                && states.Model() == AfterLoad(s.redis, LoadedHash(r.value, now))
                && auctions.rows == AfterSnapshot(s.auctions, r.value)
                && published == old(published) + [NewEvent(Started, r.value, map[])]
      ensures r.Failure? ==> auctions.rows == s.auctions && published == old(published) && states.Model() == s.redis
      // this is what the protocol's step does and leaves to be done
      ensures r.Success? ==>
                var s' := WithStart(s, r.value, now);
                states.Model() == s'.redis && Did(s, s', old(published), [NewEvent(Started, r.value, map[])], r.value)
      // in the columns: a pending row whose room is free, and the row, its hash and the event afterwards
      ensures r.Success? <==>
                && id in s.auctions && s.auctions[id].shopId == shopId && !s.auctions[id].deleted
                && s.auctions[id].status == PENDING
                && (forall other :: other in s.auctions && s.auctions[other].roomId == s.auctions[id].roomId ==>
                      s.auctions[other].status != RUNNING || s.auctions[other].deleted)
                && var room := s.auctions[id].roomId;
                   room in s.redis.roomCurrent && s.redis.roomCurrent[room] in s.redis.states ==>
                     s.redis.roomCurrent[room] == id || s.redis.states[s.redis.roomCurrent[room]].status != RUNNING
      ensures r.Success? ==>
                var row := s.auctions[id];
                && r.value == row.(status := RUNNING, startTime := Some(now), version := row.version + 1,
                                   endTime := Some(if row.endTime.Some? then row.endTime.value else now + 86400000))
                && auctions.rows == s.auctions[id := r.value]
                && id in states.states
                && states.states[id].startTime == now && states.states[id].version == row.version + 1
                && states.states[id].expireAt == states.states[id].endTime == r.value.endTime.value
                && |published| == |old(published)| + 1 && published[..|old(published)|] == old(published)
                && var e := published[|old(published)|];
                   && e.kind == Started && e.auctionId == id && e.version == row.version + 1
                   && Says(e.data, StatusCode, RUNNING) && Says(e.data, StartTime, now)
                   && Says(e.data, EndTime, r.value.endTime.value)
    {
      hide NewEvent;
      var found := auctions.FindByIDForShop(id, shopId);
      if found.Failure? {
        return Failure(Table(found.error));
      }
      var auction := found.value;
      if auction.status != PENDING {
        return Failure(Table(TableError.InvalidState));
      }
      var current := auctions.FindCurrentByRoomID(auction.roomId);
      if current.Some? && current.value.id != auction.id {
        return Failure(Script(RoomAuctionRunning));
      }
      if auction.endTime.None? {
        auction := auction.(endTime := Some(now + DAY_MILLIS));
      }
      auction := auction.(status := RUNNING);
      auction := auction.(startTime := Some(now));
      auction := auction.(version := auction.version + 1);
      var loaded := states.LoadAuction(auction, now);
      if loaded.Failure? {
        return Failure(Script(loaded.error));
      }
      var written := auctions.UpdateStatusSnapshot(auction);
      published := published + [NewEvent(Started, auction, map[])];
      RowIsSaid(Started, auction);
      r := Success(auction);
    }

    method CancelAuction(id: int, shopId: int, now: int, ghost s: System) returns (r: Result<Auction, HandlerError>)
      requires Holds(s)
      modifies this, auctions, states
      ensures r.Success? <==>
                && Owned(s, id, shopId)
                && (if s.auctions[id].status == PENDING then Accepts(s.auctions, CancelledRow(s.auctions[id], now))
                    else EndVerdict(s.redis, id, Withdrawn) == None)
      // a pending auction is cancelled in the table alone, a loaded one in Redis
      ensures r.Success? && s.auctions[id].status == PENDING ==>
                && states.Model() == s.redis
                && r.value == CancelledRow(s.auctions[id], now)
                && auctions.rows == AfterSnapshot(s.auctions, r.value)
                && published == old(published) + [NewEvent(AuctionCancelled, r.value, map[])]
      ensures r.Success? && s.auctions[id].status != PENDING ==>
                var s' := Ended(s, id, Withdrawn, now);
                && r.value.status == CANCELLED
                && states.Model() == s'.redis && Did(s, s', old(published), FinalEvents(r.value), r.value)
      ensures r.Failure? ==> auctions.rows == s.auctions && published == old(published) && states.Model() == s.redis
      // in the columns: an auction of the shop that is pending in the table, or running in Redis with or without bids
      ensures Keyed(s.auctions) ==>
                (r.Success? <==>
                   && id in s.auctions && s.auctions[id].shopId == shopId && !s.auctions[id].deleted
                   && (s.auctions[id].status == PENDING ||
                       (id in s.redis.states && s.redis.states[id].status in {PENDING, RUNNING})))
      ensures r.Success? && s.auctions[id].status == PENDING ==>
                var row := s.auctions[id];
                && r.value == row.(status := CANCELLED, endTime := Some(now), version := row.version + 1)
                && (Keyed(s.auctions) ==> auctions.rows == s.auctions[id := r.value])
                && states.Model() == WithCancel(s, r.value).redis
                && Message(NewEvent(AuctionCancelled, r.value, map[])) in WithCancel(s, r.value).soup
                && |published| == |old(published)| + 1 && published[..|old(published)|] == old(published)
                && var e := published[|old(published)|];
                   && e.kind == AuctionCancelled && e.auctionId == row.id && e.version == row.version + 1
                   && Says(e.data, StatusCode, CANCELLED) && Says(e.data, EndTime, now)
      ensures r.Success? && s.auctions[id].status != PENDING ==>
                var h := s.redis.states[id];
                var ended := h.(version := h.version + 1, status := CANCELLED, endTime := now, expireAt := now);
                && Published(old(published), published, AuctionCancelled, ended)
                && Wrote(s.auctions, auctions.rows, ended)
    {
      hide Double, Tells, Wrote, NewEvent;
      var found := auctions.FindByIDForShop(id, shopId);
      if found.Failure? {
        return Failure(Table(found.error));
      }
      var auction := found.value;
      if auction.status == PENDING {
        auction := auction.(status := CANCELLED);
        auction := auction.(endTime := Some(now));
        auction := auction.(version := auction.version + 1);
        var cancelled := auctions.UpdateStatusSnapshot(auction);
        if cancelled.Failure? {
          return Failure(Table(cancelled.error));
        }
        published := published + [NewEvent(AuctionCancelled, auction, map[])];
        RowIsSaid(AuctionCancelled, auction);
        return Success(auction);
      }
      var state := states.CancelAuction(id, now);
      if state.Failure? {
        return Failure(Script(state.error));
      }
      auction := AuctionFromState(state.value);
      published := published + [NewEvent(AuctionCancelled, auction, map[])];
      var written := auctions.UpdateStatusSnapshot(auction);
      EventTells(AuctionCancelled, states.states[id], map[]);
      SnapshotIsWritten(s.auctions, states.states[id]);
      r := Success(auction);
    }

    /** The edit of a pending auction, field by field. */
    method UpdateAuction(id: int, shopId: int, u: Update) returns (r: Result<Auction, HandlerError>)
      requires Keyed(auctions.rows)
      modifies auctions
      // the edit of the protocol, on the row as it is
      ensures r.Success? <==>
                && id > 0 && id in old(auctions.rows) && Configurable(old(auctions.rows), id, shopId)
                && Edited(old(auctions.rows)[id], u).Some?
      ensures r.Success? ==> auctions.rows == AfterConfig(old(auctions.rows), Config(old(auctions.rows)[id], u))
      ensures r.Failure? ==> auctions.rows == old(auctions.rows)
      // in the columns: what is checked of the given fields, and what becomes of the row
      ensures r.Success? <==>
                && id > 0 && id in old(auctions.rows)
                && var row := old(auctions.rows)[id];
                   var start := if u.startPrice.Some? then u.startPrice.value else row.startPrice;
                   var (from, to) := (if u.startTime.Some? then u.startTime else row.startTime,
                                      if u.endTime.Some? then u.endTime else row.endTime);
                   && row.shopId == shopId && !row.deleted && row.status == PENDING
                   && (u.startPrice.Some? ==> u.startPrice.value > 0)
                   && (u.bidIncrement.Some? ==> u.bidIncrement.value > 0)
                   && (u.sealPrice.Some? ==> u.sealPrice.value >= start)
                   && (from.Some? && to.Some? ==> from.value < to.value)
      ensures r.Success? ==>
                var row := old(auctions.rows)[id];
                && r.value == row.(
                     startPrice := if u.startPrice.Some? then u.startPrice.value else row.startPrice,
                     currentPrice := if u.startPrice.Some? then u.startPrice.value else row.currentPrice,
                     bidIncrement := if u.bidIncrement.Some? then u.bidIncrement.value else row.bidIncrement,
                     sealPrice := if u.sealPrice.Some? then u.sealPrice else row.sealPrice,
                     startTime := if u.startTime.Some? then u.startTime else row.startTime,
                     endTime := if u.endTime.Some? then u.endTime else row.endTime)
                && auctions.rows == old(auctions.rows)[id := r.value]
    {
      if id <= 0 {
        return Failure(InvalidArgument);
      }
      var found := auctions.FindByIDForShop(id, shopId);
      if found.Failure? {
        return Failure(Table(found.error));
      }
      var auction := found.value;
      if auction.status != PENDING {
        return Failure(Table(TableError.InvalidState));
      }
      if u.startPrice.Some? {
        if u.startPrice.value <= 0 {
          return Failure(InvalidArgument);
        }
        auction := auction.(startPrice := u.startPrice.value);
        auction := auction.(currentPrice := u.startPrice.value);
      }
      if u.bidIncrement.Some? {
        if u.bidIncrement.value <= 0 {
          return Failure(InvalidArgument);
        }
        auction := auction.(bidIncrement := u.bidIncrement.value);
      }
      if u.sealPrice.Some? {
        if u.sealPrice.value < auction.startPrice {
          return Failure(InvalidArgument);
        }
        auction := auction.(sealPrice := u.sealPrice);
      }
      if u.startTime.Some? {
        auction := auction.(startTime := u.startTime);
      }
      if u.endTime.Some? {
        auction := auction.(endTime := u.endTime);
      }
      if auction.startTime.Some? && auction.endTime.Some? && auction.endTime.value <= auction.startTime.value {
        return Failure(InvalidArgument);
      }
      var configured := auctions.UpdatePendingConfig(auction);
      if configured.Failure? {
        return Failure(Table(configured.error));
      }
      var updated := auctions.FindByIDForShop(id, shopId);
      // Undisturbed, the row is still there.
      assert updated.Success?;
      r := Success(updated.value);
    }
  }
}
