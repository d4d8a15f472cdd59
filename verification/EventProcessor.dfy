/** The event consumer of event_consumer.go, run without interruption, against the steps of the protocol. */
module EventProcessor {
  import opened Prelude
  import opened Doubles
  import opened Auctions
  import opened RedisScripts
  import opened RedisStore
  import opened Events
  import opened Tables
  import opened Protocol

  /** The event that announces an ended auction. */
  function FinalEvent(a: Auction): Event {
    NewEvent(ConclusionKind(a), a, map[])
  }

  /** The ended auction a check finds or brings about, if any. */
  function CheckedEnd(r: Redis, e: Event, now: int): Option<Auction> {
    var expireAt := Int64FromData(e.data, ExpireAt);
    if expireAt <= 0 then None
    else if Expires(r, e.auctionId, e.version, expireAt, now) then
      Some(AuctionFromState(StateFromMap(LuaRead(AfterEnd(r, e.auctionId, TimedOut, now).states[e.auctionId]))))
    else if e.auctionId in r.states && r.states[e.auctionId].status in {DEAL, FAILED} then
      Some(AuctionFromState(StateFromMap(r.states[e.auctionId])))
    else None
  }

  /** What a check publishes and writes is what the protocol leaves to be done: by its own step or by an observation. */
  lemma CheckedEndIsLeft(s: System, raw: Event, now: int, countdown: int)
    requires raw.kind == ExpireCheck && CheckedEnd(s.redis, Delivered(raw), now).Some?
    ensures var a := CheckedEnd(s.redis, Delivered(raw), now).value;
            var s' := Consumed(s, raw, now, false);
            var soup := if s'.redis != s.redis then s'.soup else Apply(s, Observe(raw.auctionId), countdown).soup;
            FinalItems(a) == {Write(a), Message(FinalEvent(a))} && FinalItems(a) <= soup
  {
    hide Nearest, NewEvent;
    var e := Delivered(raw);
    if Expires(s.redis, e.auctionId, e.version, Int64FromData(e.data, ExpireAt), now) {
      var h := AfterEnd(s.redis, e.auctionId, TimedOut, now).states[e.auctionId];
      assert h.version == s.redis.states[e.auctionId].version + 1;
    }
  }

  /** One event of the final kind tells how the auction ended, and the table was handed that state. */
  predicate Announces(before: seq<Event>, after: seq<Event>, rows: map<int, Auction>, rows': map<int, Auction>, h: Hash)
  {
    && Published(before, after, if h.status == DEAL then AuctionFinished else AuctionFailed, h)
    && Wrote(rows, rows', h)
  }

  /** A check announces an end exactly if it is well-formed and leaves its auction at Deal or Failed. */
  lemma ChecksAnnounceEveryEnd(s: System, raw: Event, now: int)
    requires raw.kind == ExpireCheck
    ensures var e, states := Delivered(raw), Consumed(s, raw, now, false).redis.states;
            CheckedEnd(s.redis, e, now).Some? <==>
              && e.auctionId in states && states[e.auctionId].status in {DEAL, FAILED}
              && ExpireAt in e.data && e.data[ExpireAt] > 0
  {
    hide Nearest, NewEvent;
  }

  /** What a check announces, in the columns of the hash it finds; the winner of one it ends comes as a double. */
  lemma CheckedEndInColumns(r: Redis, e: Event, now: int)
    ensures var id, expireAt := e.auctionId, if ExpireAt in e.data then e.data[ExpireAt] else 0;
            CheckedEnd(r, e, now) ==
            if && expireAt > 0 && id in r.states && r.states[id].status == RUNNING
               && r.states[id].version == e.version && r.states[id].expireAt == expireAt <= now then
              var h := r.states[id];
              Some(AuctionFromState(StateFromMap(h.(
                version := h.version + 1, status := if h.bidCount > 0 then DEAL else FAILED, endTime := now,
                expireAt := now, winnerUserId := Double(h.winnerUserId)))))
            else if expireAt > 0 && id in r.states && r.states[id].status in {DEAL, FAILED} then
              Some(AuctionFromState(StateFromMap(r.states[id])))
            else None
  {
    hide Double;
  }

  lemma FinalEventAnnounces(before: seq<Event>, rows: map<int, Auction>, h: Hash)
    ensures var a := AuctionFromState(StateFromMap(h));
            Announces(before, before + [FinalEvent(a)], rows, AfterSnapshot(rows, a), h)
  {
    EventTells(if h.status == DEAL then AuctionFinished else AuctionFailed, h, map[]);
    SnapshotIsWritten(rows, h);
    hide NewEvent, Tells, Wrote, AfterSnapshot;
  }

  /**
   What a check does about an ended auction, in the columns of the hash it finds: exactly one final
   event and the row, if it ends the auction or finds it ended, and nothing otherwise.
   */
  predicate EndIsAnnounced(states: map<int, Hash>, e: Event, now: int, before: seq<Event>, after: seq<Event>,
                           rows: map<int, Auction>, rows': map<int, Auction>)
  {
    var id, expireAt := e.auctionId, if ExpireAt in e.data then e.data[ExpireAt] else 0;
    if && expireAt > 0 && id in states && states[id].status == RUNNING
       && states[id].version == e.version && states[id].expireAt == expireAt <= now then
      var h := states[id];
      Announces(before, after, rows, rows', h.(
        version := h.version + 1, status := if h.bidCount > 0 then DEAL else FAILED, endTime := now,
        expireAt := now, winnerUserId := Double(h.winnerUserId)))
    else if expireAt > 0 && id in states && states[id].status in {DEAL, FAILED} then
      Announces(before, after, rows, rows', states[id])
    else
      after == before && rows' == rows
  }

  lemma CheckIsAnnounced(r: Redis, e: Event, now: int, before: seq<Event>, rows: map<int, Auction>)
    ensures match CheckedEnd(r, e, now)
            case None => EndIsAnnounced(r.states, e, now, before, before, rows, rows)
            case Some(a) =>
              EndIsAnnounced(r.states, e, now, before, before + [FinalEvent(a)], rows, AfterSnapshot(rows, a))
  {
    CheckedEndInColumns(r, e, now);
    hide Double, CheckedEnd, FinalEvent, AfterSnapshot, Announces;
    if e.auctionId in r.states {
      var h := r.states[e.auctionId];
      FinalEventAnnounces(before, rows, h);
      FinalEventAnnounces(before, rows, h.(
        version := h.version + 1, status := if h.bidCount > 0 then DEAL else FAILED, endTime := now,
        expireAt := now, winnerUserId := Double(h.winnerUserId)));
    }
  }

  class AuctionEventProcessor {
    const auctions: AuctionTable
    const bids: BidRecordTable
    const states: RedisAuctionStateStore
    var published: seq<Event>

    constructor (auctions: AuctionTable, bids: BidRecordTable, states: RedisAuctionStateStore)
      ensures this.auctions == auctions && this.bids == bids && this.states == states && published == []
    {
      this.auctions, this.bids, this.states := auctions, bids, states;
      published := [];
    }

    /** The stores hold what the protocol state says. */
    ghost predicate Holds(s: System)
      reads this, auctions, bids, states
    {
      states.Model() == s.redis && auctions.rows == s.auctions && bids.records == s.records
    }

    /** Handles one delivery; false asks for another one. */
    method ConsumeOne(raw: Event, now: int, ghost s: System) returns (ok: bool)
      requires Holds(s)
      modifies this, auctions, bids, states
      ensures raw.auctionId <= 0 ==> !ok && Holds(s) && published == old(published)
      ensures raw.auctionId > 0 ==>
                && states.Model() == Consumed(s, raw, now, false).redis
                && bids.records == Consumed(s, raw, now, false).records
      ensures raw.auctionId > 0 && raw.kind != ExpireCheck ==>
                ok && auctions.rows == Consumed(s, raw, now, false).auctions && published == old(published)
      // an ended auction is published, and its snapshot follows
      ensures raw.auctionId > 0 && raw.kind == ExpireCheck ==>
                (ok <==> Int64FromData(Delivered(raw).data, ExpireAt) > 0 && raw.auctionId in s.redis.states)
      ensures raw.auctionId > 0 && raw.kind == ExpireCheck ==>
                match CheckedEnd(s.redis, Delivered(raw), now)
                case None => auctions.rows == s.auctions && published == old(published)
                case Some(a) =>
                  auctions.rows == AfterSnapshot(s.auctions, a) && published == old(published) + [FinalEvent(a)]
      // in the columns: exactly one final event for an auction that the check ends or finds ended, and its row
      ensures raw.auctionId > 0 && raw.kind == ExpireCheck ==>
                EndIsAnnounced(s.redis.states, Delivered(raw), now,
                               old(published), published, s.auctions, auctions.rows)
    {
      hide Nearest, EndIsAnnounced, AfterSnapshot, AfterRecord, FinalEvent, AuctionFromEvent;
      var event := Delivered(raw);
      if event.auctionId <= 0 {
        return false;
      }
      if event.kind == ExpireCheck {
        ok := ApplyExpireCheck(event, now);
      } else {
        ApplySnapshotEvent(event, now);
        ok := true;
      }
    }

    method ApplySnapshotEvent(event: Event, received: int)
      requires event.kind != ExpireCheck
      modifies auctions, bids
      ensures var record := BidRecordFromEvent(event, received);
              var isBid := event.kind == BidAccepted && record.Some?;
              && bids.records == (if isBid then AfterRecord(old(bids.records), record.value) else old(bids.records))
              && auctions.rows == (if isBid && record.value.id in old(bids.records) then old(auctions.rows)
                                   else AfterSnapshot(old(auctions.rows), AuctionFromEvent(event)))
      // in the keys of the data: the audit row of a numbered bid is on file afterwards, and is this one if it is new
      ensures event.kind == BidAccepted && Int64FromData(event.data, BidRecordId) > 0 ==>
                var d, id := event.data, Int64FromData(event.data, BidRecordId);
                var seconds := Int64FromData(d, BidTime);
                && id in bids.records
                && bids.records == if id in old(bids.records) then old(bids.records) else old(bids.records)[
                     id := BidRecord(
                       id, event.auctionId, Int64FromData(d, GoodsId), event.shopId, event.roomId,
                       Int64FromData(d, UserId), Int64FromData(d, BidPrice),
                       if seconds > 0 then seconds * 1000 else received)]
      ensures event.kind != BidAccepted || Int64FromData(event.data, BidRecordId) <= 0 ==>
                bids.records == old(bids.records)
      // and the row takes a newer version, unless a bid had its audit row already
      ensures var id, d := event.auctionId, event.data;
              var record := Int64FromData(d, BidRecordId);
              auctions.rows ==
              if && !(event.kind == BidAccepted && record > 0 && record in old(bids.records))
                 && id in old(auctions.rows) && !old(auctions.rows)[id].deleted
                 && old(auctions.rows)[id].version < event.version
              then old(auctions.rows)[id := old(auctions.rows)[id].(
                     currentPrice := Int64FromData(d, CurrentPrice), dealPrice := Positive(Int64FromData(d, DealPrice)),
                     bidCount := Int64FromData(d, BidCount), status := Int64FromData(d, StatusCode),
                     startTime := Positive(Int64FromData(d, StartTime)), endTime := Positive(Int64FromData(d, EndTime)),
                     winnerUserId := Positive(Int64FromData(d, WinnerUserId)), version := event.version)]
              else old(auctions.rows)
    {
      var auction := AuctionFromEvent(event);
      if event.kind == BidAccepted {
        var record := BidRecordFromEvent(event, received);
        if record.Some? {
          var created := bids.CreateIfNotExists(record.value);
          if created.Failure? {
            return;
          }
        }
      }
      var written := auctions.UpdateStatusSnapshot(auction);
    }

    method ApplyExpireCheck(event: Event, now: int) returns (ok: bool)
      modifies this, auctions, states
      ensures var expireAt := Int64FromData(event.data, ExpireAt);
              states.Model() == if expireAt <= 0 then old(states.Model())
                                else AfterExpire(old(states.Model()), event.auctionId, event.version, expireAt, now)
      ensures match CheckedEnd(old(states.Model()), event, now)
              case None => auctions.rows == old(auctions.rows) && published == old(published)
              case Some(a) =>
                auctions.rows == AfterSnapshot(old(auctions.rows), a) && published == old(published) + [FinalEvent(a)]
      ensures ok <==> Int64FromData(event.data, ExpireAt) > 0 && event.auctionId in old(states.states)
      ensures EndIsAnnounced(old(states.states), event, now,
                             old(published), published, old(auctions.rows), auctions.rows)
    {
      hide Double, NewEvent, EndIsAnnounced;
      CheckIsAnnounced(states.Model(), event, now, published, auctions.rows);
      var expireAt := Int64FromData(event.data, ExpireAt);
      if expireAt <= 0 {
        return false;
      }
      var finished := states.FinishExpiredAuction(event.auctionId, event.version, expireAt, now);
      if finished.Failure? {
        return false;
      }
      if finished.value.1 {
        PublishAndSnapshotFinalState(AuctionFromState(finished.value.0.value));
        return true;
      }
      var current := states.GetState(event.auctionId);
      if current.Failure? {
        return true;
      }
      if current.value.status == DEAL || current.value.status == FAILED {
        PublishAndSnapshotFinalState(AuctionFromState(current.value));
      }
      ok := true;
    }

    method PublishAndSnapshotFinalState(auction: Auction)
      modifies this, auctions
      ensures auctions.rows == AfterSnapshot(old(auctions.rows), auction)
      ensures published == old(published) + [FinalEvent(auction)]
    {
      var kind := AuctionFailed;
      if auction.status == DEAL {
        kind := AuctionFinished;
      }
      published := published + [NewEvent(kind, auction, map[])];
      var written := auctions.UpdateStatusSnapshot(auction);
    }
  }
}
