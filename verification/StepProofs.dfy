/** Every step of the service keeps the invariant, and lives only grow: so both hold in every run. */
module StepProofs {
  import opened Prelude
  import opened Doubles
  import opened Auctions
  import opened RedisScripts
  import opened Lives
  import opened RedisInvariant
  import opened Events
  import opened Tables
  import opened Protocol
  import opened SystemInvariant

  // ---- parts ----

  lemma ItemOf(s: System, item: Item, countdown: int)
    requires Inv(s, countdown) && item in s.soup
    ensures ItemKnown(item, s.history, countdown)
  {
  }

  lemma LifeOf(s: System, id: int, countdown: int)
    requires Inv(s, countdown) && (id in s.history.lives || id in s.redis.states)
    ensures RedisInv(s.redis, s.history.lives, countdown)
    ensures id in s.history.lives && id in s.redis.states
    ensures var l := s.history.lives[id];
            && Lawful(l, countdown) && Measured(l, countdown) && l.start.auctionId == id
            && s.redis.states[id] == Current(l, countdown)
  {
    hide Lawful, Measured, ItemKnown;
  }

  lemma SnapshotWriteKeeps(rows: map<int, Auction>, h: History, a: Auction, countdown: int)
    requires TableInv(rows, h, countdown) && SnapshotKnown(a, h, countdown)
    requires a.id in h.lives ==> Lawful(h.lives[a.id], countdown)
    ensures TableInv(AfterSnapshot(rows, a), h, countdown)
  {
    if Accepts(rows, a) {
      var row := WithSnapshot(rows[a.id], SnapshotOf(a));
      assert SnapshotOf(row) == SnapshotOf(a);
      if a.id in h.lives {
        EndIsLastStage(SnapshotOf(a), h.lives[a.id], countdown);
      }
      hide FromLife, Lawful, PendingRow;
      NoDrafts(h);
      TableTakesRow(rows, h, a.id, row, {}, countdown);
    }
  }

  lemma NoDrafts(h: History)
    ensures Drafted(h, {}) == h
  {
    assert h.drafts + {} == h.drafts;
  }

  /** A row may become whatever fits, and new contents may be noted. */
  lemma TableTakesRow(rows: map<int, Auction>, h: History, id: int, row: Auction, drafts: set<Auction>, countdown: int)
    requires TableInv(rows, h, countdown) && RowFits(row, id, Drafted(h, drafts), countdown)
    requires id in rows ==> SameLot(row, id, rows[id].goodsId, rows[id].shopId, rows[id].roomId)
    requires forall draft :: draft in drafts ==> DraftFits(draft, rows[id := row])
    ensures TableInv(rows[id := row], Drafted(h, drafts), countdown)
  {
    hide RowKnown, PendingRow;
    var rows', h' := rows[id := row], Drafted(h, drafts);
    forall other | other in rows'
      ensures RowFits(rows'[other], other, h', countdown)
    {
      if other != id {
        assert RowFits(rows[other], other, h, countdown);
      }
    }
    forall draft | draft in h'.drafts
      ensures DraftFits(draft, rows')
    {
      if draft !in drafts {
        assert DraftFits(draft, rows);
      }
    }
  }

  lemma TableStays(rows: map<int, Auction>, h: History, h': History, countdown: int)
    requires TableInv(rows, h, countdown) && Grows(h, h')
    requires h'.lives.Keys == h.lives.Keys && h'.withdrawn == h.withdrawn && h'.drafts == h.drafts
    ensures TableInv(rows, h', countdown)
  {
    forall id | id in rows && id in h'.lives
      ensures RowKnown(rows[id], h'.lives[id], countdown)
    {
      RowStays(rows[id], h.lives[id], h'.lives[id], countdown);
    }
  }

  /** New items join; nothing else happens. */
  lemma ItemsKeep(s: System, items: set<Item>, countdown: int)
    requires Inv(s, countdown) && SoupInv(items, s.history, countdown)
    ensures Inv(s.(soup := s.soup + items), countdown)
  {
  }

  /** What can be read of an auction at any time. */
  ghost predicate Reads(h: Hash, l: Life, countdown: int) {
    && (h.status == RUNNING <==> l.end.None?)
    && h.bidCount == |l.bids| && h.version == l.start.version + Stages(l)
    && (l.end.None? ==> h.expireAt == if l.bids == [] then l.start.expireAt else l.bids[|l.bids| - 1].now + countdown)
    && (l.end.None? ==> StageKnown(l, h.version, h.expireAt, countdown))
  }

  lemma LifeReads(l: Life, countdown: int)
    requires Lawful(l, countdown)
    ensures Reads(Current(l, countdown), l, countdown)
  {
    CurrentInClosedForm(l, countdown);
    hide Lawful;
  }

  lemma HashOf(s: System, id: int, countdown: int)
    requires Inv(s, countdown) && (id in s.history.lives || id in s.redis.states)
    ensures id in s.history.lives && id in s.redis.states
    ensures Reads(s.redis.states[id], s.history.lives[id], countdown)
  {
    LifeOf(s, id, countdown);
    hide *;
    LifeReads(s.history.lives[id], countdown);
  }

  lemma ItemKeeps(s: System, item: Item, countdown: int)
    requires Inv(s, countdown) && ItemKnown(item, s.history, countdown)
    ensures Inv(s.(soup := s.soup + {item}), countdown)
  {
    hide Inv, ItemKnown;
    ItemsKeep(s, {item}, countdown);
  }

  /** One life moves on. */
  lemma LifeKeeps(s: System, redis: Redis, id: int, l: Life, items: set<Item>, clock: int, countdown: int)
    requires Inv(s, countdown) && id in s.history.lives && Extends(s.history.lives[id], l)
    requires var h := s.history.(lives := s.history.lives[id := l]);
             && RedisInv(redis, h.lives, countdown) && Measured(l, countdown) && SoupInv(items, h, countdown)
    ensures var h := s.history.(lives := s.history.lives[id := l]);
            && Inv(s.(redis := redis, history := h, soup := s.soup + items, clock := clock), countdown)
            && Grows(s.history, h)
  {
    hide Nearest, ItemKnown, RedisInv, TableInv, RecordsInv;
    var h := s.history.(lives := s.history.lives[id := l]);
    assert Grows(s.history, h);
    SoupStays(s.soup, s.history, h, countdown);
    TableStays(s.auctions, s.history, h, countdown);
    RecordsStay(s.records, s.history, h);
  }

  // ---- steps on the tables ----

  lemma RowOf(s: System, id: int, countdown: int)
    requires Inv(s, countdown) && id in s.auctions
    ensures RowFits(s.auctions[id], id, s.history, countdown)
  {
  }

  lemma DraftOf(s: System, draft: Auction, countdown: int)
    requires Inv(s, countdown) && draft in s.history.drafts
    ensures DraftFits(draft, s.auctions)
  {
  }

  lemma RowKeeps(s: System, id: int, row: Auction, drafts: set<Auction>, countdown: int)
    requires Inv(s, countdown) && RowFits(row, id, Drafted(s.history, drafts), countdown)
    requires id in s.auctions ==> SameLot(row, id, s.auctions[id].goodsId, s.auctions[id].shopId, s.auctions[id].roomId)
    requires forall draft :: draft in drafts ==> DraftFits(draft, s.auctions[id := row])
    ensures Inv(s.(auctions := s.auctions[id := row], history := Drafted(s.history, drafts)), countdown)
    ensures Grows(s.history, Drafted(s.history, drafts))
  {
    hide RedisInv, ItemKnown, RecordsInv, Measured, TableInv, RowFits, DraftFits;
    var h := Drafted(s.history, drafts);
    assert Grows(s.history, h);
    SoupStays(s.soup, s.history, h, countdown);
    TableTakesRow(s.auctions, s.history, id, row, drafts, countdown);
  }

  lemma CreateKeeps(s: System, row: Auction, countdown: int)
    requires Inv(s, countdown) && row.id > 0 && row.id !in s.auctions && PendingRow(row) && !row.deleted
    ensures Inv(s.(auctions := s.auctions[row.id := row], history := Drafted(s.history, {row})), countdown)
    ensures Grows(s.history, Drafted(s.history, {row}))
  {
    UnknownRow(s, row.id, countdown);
    hide Inv, PendingRow;
    RowKeeps(s, row.id, row, {row}, countdown);
  }

  lemma UnknownRow(s: System, id: int, countdown: int)
    requires Inv(s, countdown) && id !in s.auctions
    ensures id !in s.history.lives && id !in s.history.withdrawn
  {
  }

  /** An edit within range leads from a pending row to a pending row of the same lot. */
  lemma EditIsPending(draft: Auction, u: Update)
    requires PendingRow(draft) && Edited(draft, u).Some? && UpdateInRange(u)
    ensures PendingRow(Config(draft, u))
    ensures SameLot(Config(draft, u), draft.id, draft.goodsId, draft.shopId, draft.roomId)
  {
  }

  /** A row that says Pending is a pending row, started or not. */
  lemma PendingIsPending(s: System, id: int, countdown: int)
    requires Inv(s, countdown) && id in s.auctions && s.auctions[id].status == PENDING
    ensures PendingRow(s.auctions[id]) && id !in s.history.withdrawn
  {
    RowOf(s, id, countdown);
    if id in s.history.lives {
      LifeOf(s, id, countdown);
      if FromLife(SnapshotOf(s.auctions[id]), s.history.lives[id], countdown) {
        EndIsLastStage(SnapshotOf(s.auctions[id]), s.history.lives[id], countdown);
      }
    }
    hide Inv, FromLife, RedisInv, Lawful, Measured;
  }

  lemma ConfigureKeeps(s: System, draft: Auction, u: Update, countdown: int)
    requires Inv(s, countdown) && draft in s.history.drafts && Edited(draft, u).Some? && UpdateInRange(u)
    ensures Inv(WithEdit(s, Config(draft, u)), countdown)
    ensures Grows(s.history, WithEdit(s, Config(draft, u)).history)
  {
    var config := Config(draft, u);
    GrowsReflexive(s.history);
    if Configurable(s.auctions, config.id, config.shopId) {
      var id := config.id;
      DraftOf(s, draft, countdown);
      EditIsPending(draft, u);
      PendingIsPending(s, id, countdown);
      RowOf(s, id, countdown);
      hide Inv, FromLife, Edited, Grows;
      RowKeeps(s, id, WithConfig(s.auctions[id], config), {WithConfig(s.auctions[id], config)}, countdown);
    }
  }

  lemma DeleteKeeps(s: System, id: int, shopId: int, countdown: int)
    requires Inv(s, countdown)
    ensures Inv(s.(auctions := AfterDelete(s.auctions, id, shopId)), countdown)
  {
    if Deletable(s.auctions, id, shopId) {
      RowOf(s, id, countdown);
      assert SnapshotOf(s.auctions[id].(deleted := true)) == SnapshotOf(s.auctions[id]);
      hide FromLife, Inv, Grows;
      NoDrafts(s.history);
      RowKeeps(s, id, s.auctions[id].(deleted := true), {}, countdown);
    }
  }

  lemma TableWithdraws(rows: map<int, Auction>, h: History, a: Auction, countdown: int)
    requires TableInv(rows, h, countdown)
    requires Accepts(rows, a) && a.status == CANCELLED && a.id !in h.lives
    ensures TableInv(AfterSnapshot(rows, a), h.(withdrawn := h.withdrawn + {a.id}), countdown)
  {
    hide RowKnown, PendingRow;
    var rows', h' := AfterSnapshot(rows, a), h.(withdrawn := h.withdrawn + {a.id});
    forall id | id in rows'
      ensures RowFits(rows'[id], id, h', countdown)
    {
      assert RowFits(rows[id], id, h, countdown);
    }
    forall draft | draft in h'.drafts
      ensures DraftFits(draft, rows')
    {
      assert DraftFits(draft, rows);
    }
  }

  lemma CancelPendingKeeps(s: System, draft: Auction, now: int, countdown: int)
    requires Inv(s, countdown)
    requires Accepts(s.auctions, CancelledRow(draft, now)) ==> draft.id !in s.history.lives
    ensures Inv(WithCancel(s, CancelledRow(draft, now)), countdown)
    ensures Grows(s.history, WithCancel(s, CancelledRow(draft, now)).history)
  {
    GrowsReflexive(s.history);
    var a := CancelledRow(draft, now);
    if Accepts(s.auctions, a) {
      hide Nearest, ItemKnown, RedisInv, RecordsInv, TableInv, NewEvent, AfterSnapshot, Accepts;
      var h := s.history.(withdrawn := s.history.withdrawn + {a.id});
      TableWithdraws(s.auctions, s.history, a, countdown);
      SoupStays(s.soup, s.history, h, countdown);
      CarriedMessageKnown(AuctionCancelled, a, h, countdown);
    }
  }

  // ---- steps on Redis ----

  /** What a start loads is a fresh, measured life whose snapshot is the one the handler writes. */
  lemma StartedLife(row: Auction, now: int, countdown: int)
    requires PendingRow(row) && Sane(now) && Sane(now + DAY_MILLIS)
    ensures var a := StartedAuction(row, now);
            var l := Life(LoadedHash(a, now), [], None);
            && FreshStart(l.start) && Lawful(l, countdown) && Measured(l, countdown)
            && Current(l, countdown) == l.start && SnapshotOf(a) == SnapshotOfHash(l.start)
            && l.start.version == 1 && l.start.auctionId == a.id == row.id
            && l.start.goodsId == row.goodsId && l.start.shopId == row.shopId && l.start.roomId == row.roomId
  {
  }

  lemma TableStarts(rows: map<int, Auction>, h: History, id: int, l: Life, countdown: int)
    requires TableInv(rows, h, countdown)
    requires id in rows && id !in h.withdrawn && RowKnown(rows[id], l, countdown)
    ensures TableInv(rows, h.(lives := h.lives[id := l]), countdown)
  {
    hide RowKnown, PendingRow;
    var h' := h.(lives := h.lives[id := l]);
    forall other | other in rows
      ensures RowFits(rows[other], other, h', countdown)
    {
      assert RowFits(rows[other], other, h, countdown);
    }
    forall draft | draft in h'.drafts
      ensures DraftFits(draft, rows)
    {
      assert DraftFits(draft, rows);
    }
  }

  /** The row a start finds at the load, whatever was edited or deleted since it was read. */
  lemma RowAtLoad(s: System, draft: Auction, now: int, countdown: int)
    requires Inv(s, countdown) && draft in s.history.drafts && Sane(now) && Sane(now + DAY_MILLIS)
    requires draft.id !in s.history.lives && draft.id !in s.history.withdrawn
    ensures PendingRow(draft) && draft.id in s.auctions
    ensures RowKnown(s.auctions[draft.id], Life(LoadedHash(StartedAuction(draft, now), now), [], None), countdown)
  {
    DraftOf(s, draft, countdown);
    RowOf(s, draft.id, countdown);
    hide Inv, FromLife;
    StartedLife(draft, now, countdown);
    hide LoadedHash, StartedAuction;
  }

  /** A new life begins. */
  lemma NewLifeKeeps(s: System, a: Auction, now: int, countdown: int)
    requires Inv(s, countdown) && a.id !in s.history.lives && a.id !in s.history.withdrawn
    requires !RoomBusy(s.redis, LoadedHash(a, now)) && a.id in s.auctions
    requires var l := Life(LoadedHash(a, now), [], None);
             && FreshStart(l.start) && Lawful(l, countdown) && Measured(l, countdown)
             && Current(l, countdown) == l.start && SnapshotOf(a) == SnapshotOfHash(l.start)
             && l.start.auctionId == a.id && RowKnown(s.auctions[a.id], l, countdown)
    ensures Inv(WithStart(s, a, now), countdown) && Grows(s.history, WithStart(s, a, now).history)
  {
    hide ItemKnown, RedisInv, RecordsInv, TableInv, LoadedHash, AfterLoad, RoomBusy,
         Measured, Lawful, FreshStart, RowKnown, NewEvent, SnapshotOf, Current;
    var l := Life(LoadedHash(a, now), [], None);
    var h := s.history.(lives := s.history.lives[a.id := l]);
    LoadKeeps(s.redis, s.history.lives, l.start, countdown);
    SnapshotItemsKnown(Started, h, a.id, a, countdown);
    SoupStays(s.soup, s.history, h, countdown);
    RecordsStay(s.records, s.history, h);
    TableStarts(s.auctions, s.history, a.id, l, countdown);
  }

  lemma StartKeeps(s: System, draft: Auction, now: int, countdown: int)
    requires Inv(s, countdown) && draft in s.history.drafts && Sane(now) && Sane(now + DAY_MILLIS)
    requires RoomBusy(s.redis, LoadedHash(StartedAuction(draft, now), now)) ||
             (draft.id !in s.history.lives && draft.id !in s.history.withdrawn)
    ensures Inv(WithStart(s, StartedAuction(draft, now), now), countdown)
    ensures Grows(s.history, WithStart(s, StartedAuction(draft, now), now).history)
  {
    hide Inv, LoadedHash, StartedAuction, RoomBusy, RowKnown, PendingRow, Grows, FreshStart, Lawful, Measured, Current;
    hide SnapshotOf, AfterLoad, StartItems;
    if RoomBusy(s.redis, LoadedHash(StartedAuction(draft, now), now)) {
      GrowsReflexive(s.history);
    } else {
      RowAtLoad(s, draft, now, countdown);
      StartedLife(draft, now, countdown);
      NewLifeKeeps(s, StartedAuction(draft, now), now, countdown);
    }
  }

  lemma BidFromInv(s: System, q: BidRequest, countdown: int)
    requires Inv(s, countdown)
    ensures BidVerdict(s.redis, q) == None ==>
              && q.auctionId in s.history.lives && s.history.lives[q.auctionId].end.None?
              && Extends(s.history.lives[q.auctionId], Extended(s.history.lives[q.auctionId], q))
    ensures BidVerdict(s.redis, q) == None ==>
              var lives := s.history.lives[q.auctionId := Extended(s.history.lives[q.auctionId], q)];
              RedisInv(AfterBid(s.redis, q, countdown), lives, countdown)
    ensures BidVerdict(s.redis, q).Some? ==>
              Inv(s.(redis := AfterBid(s.redis, q, countdown), clock := q.clock), countdown)
  {
    hide SoupInv, TableInv, RecordsInv, Measured, Nearest;
    BidKeeps(s.redis, s.history.lives, q, countdown);
    if BidVerdict(s.redis, q) == None {
      BidKeepsStates(s.redis, s.history.lives, q, countdown);
    }
    hide RedisInv, AfterBid, BidVerdict;
  }

  lemma JustPlaced(r: Redis, lives: Ledger, id: int, q: BidRequest, countdown: int)
    requires RedisInv(r, lives, countdown) && id in lives && lives[id].end.None? && Measured(lives[id], countdown)
    requires lives[id].bids != [] &&
             lives[id].bids[|lives[id].bids| - 1] == Bid(q.userId, q.price, q.request, q.recordId, q.now, q.clock)
    ensures id in r.states && JustBidden(lives[id], q, StateFromMap(r.states[id]), countdown)
    ensures lives[id].start.auctionId == id
  {
    hide Measured, Lawful;
  }

  lemma PlaceBidKeeps(s: System, q: BidRequest, countdown: int)
    requires Inv(s, countdown) && InRange(q, countdown)
    requires q.auctionId in s.redis.states ==> s.redis.states[q.auctionId].bidCount < EXACT
    ensures Inv(WithBid(s, q, countdown), countdown) && Grows(s.history, WithBid(s, q, countdown).history)
  {
    hide Nearest;
    BidFromInv(s, q, countdown);
    if BidVerdict(s.redis, q) == None {
      var id := q.auctionId;
      var l := Extended(s.history.lives[id], q);
      var redis := AfterBid(s.redis, q, countdown);
      var h := s.history.(lives := s.history.lives[id := l]);
      LifeOf(s, id, countdown);
      StatusOfLife(redis, h.lives, id, countdown);
      StatusOfLife(s.redis, s.history.lives, id, countdown);
      CurrentInClosedForm(s.history.lives[id], countdown);
      BidMeasured(s.history.lives[id], q, countdown);
      JustPlaced(redis, h.lives, id, q, countdown);
      hide Inv, RedisInv, Lawful, Measured, AfterBid, BidVerdict, Current, JustBidden, BidItems;
      BidItemsKnown(h, id, q, StateFromMap(redis.states[id]), countdown);
      LifeKeeps(s, redis, id, l, BidItems(StateFromMap(redis.states[id]), q), q.clock, countdown);
    }
  }

  lemma BidMeasured(l: Life, q: BidRequest, countdown: int)
    requires Measured(l, countdown) && |l.bids| < EXACT && l.end.None? && InRange(q, countdown)
    ensures Measured(Extended(l, q), countdown)
  {
  }

  /** The hash of an ended auction; its winner is a double, so the scripts answer with that very hash. */
  lemma EndedHash(r: Redis, lives: Ledger, id: int, countdown: int)
    requires RedisInv(r, lives, countdown) && id in lives
    ensures id in r.states && r.states[id] == Current(lives[id], countdown) && Lawful(lives[id], countdown)
    ensures r.states[id].auctionId == id && LuaRead(r.states[id]) == r.states[id]
  {
    hide Nearest;
    StatusOfLife(r, lives, id, countdown);
    WinnerIsDouble(lives[id], Stages(lives[id]), countdown);
  }

  lemma EndedKeepsRest(s: System, id: int, exit: Exit, now: int, l: Life, h: History, countdown: int)
    requires Inv(s, countdown) && id in s.redis.states && id in s.history.lives
    requires l == Closed(s.history.lives[id], exit, now) && Extends(s.history.lives[id], l)
    requires h == s.history.(lives := s.history.lives[id := l])
    requires var r := AfterEnd(s.redis, id, exit, now);
             && RedisInv(r, h.lives, countdown) && Measured(l, countdown) && Lawful(l, countdown)
             && id in r.states && r.states[id] == Current(l, countdown)
             && r.states[id].auctionId == id && LuaRead(r.states[id]) == r.states[id]
    ensures Inv(Ended(s, id, exit, now), countdown) && Grows(s.history, Ended(s, id, exit, now).history)
  {
    hide Inv, RedisInv, Lawful, Measured, Current, AfterEnd, NewEvent, Nearest, Grows, Extends;
    var redis := AfterEnd(s.redis, id, exit, now);
    var a := AuctionFromState(StateFromMap(redis.states[id]));
    SnapshotItemsKnown(FinalKind(a), h, id, a, countdown);
    LifeKeeps(s, redis, id, l, FinalItems(a), s.clock, countdown);
  }

  lemma EndedKeeps(s: System, id: int, exit: Exit, now: int, countdown: int)
    requires Inv(s, countdown) && Sane(now)
    requires id in s.redis.states && s.redis.states[id].status == RUNNING
    ensures Inv(Ended(s, id, exit, now), countdown)
    ensures Grows(s.history, Ended(s, id, exit, now).history)
  {
    LifeOf(s, id, countdown);
    var l := Closed(s.history.lives[id], exit, now);
    var redis := AfterEnd(s.redis, id, exit, now);
    var h := s.history.(lives := s.history.lives[id := l]);
    StatusOfLife(s.redis, s.history.lives, id, countdown) by { hide Inv, Lawful; }
    assert Measured(l, countdown);
    hide *;
    EndKeeps(s.redis, s.history.lives, id, exit, now, countdown);
    EndedHash(redis, h.lives, id, countdown);
    EndedKeepsRest(s, id, exit, now, l, h, countdown);
  }

  lemma NeverPending(s: System, id: int, exit: Exit, countdown: int)
    requires Inv(s, countdown) && EndVerdict(s.redis, id, exit) == None
    ensures s.redis.states[id].status == RUNNING
  {
    StatusOfLife(s.redis, s.history.lives, id, countdown);
  }

  lemma ObserveKeeps(s: System, id: int, countdown: int)
    requires Inv(s, countdown) && id in s.redis.states && s.redis.states[id].status in {DEAL, FAILED}
    ensures var a := AuctionFromState(StateFromMap(s.redis.states[id]));
            Inv(s.(soup := s.soup + FinalItems(a)), countdown)
  {
    hide Nearest;
    LifeOf(s, id, countdown);
    StatusOfLife(s.redis, s.history.lives, id, countdown);
    hide Inv, RedisInv, Lawful, Measured, Current, NewEvent;
    var a := AuctionFromState(StateFromMap(s.redis.states[id]));
    SnapshotItemsKnown(FinalKind(a), s.history, id, a, countdown);
    ItemsKeep(s, FinalItems(a), countdown);
  }

  // ---- the scanner ----

  /** A known stage with the present expiry but another version is not the first. */
  lemma StageVersion(l: Life, version: int, expireAt: int, countdown: int)
    requires StageKnown(l, version, expireAt, countdown)
    ensures l.start.version <= version
    ensures l.bids == [] ==> version == l.start.version && expireAt == l.start.expireAt
  {
    assert At(l, 0, countdown) == l.start;
  }

  lemma ListKeeps(s: System, ids: set<int>, now: int, countdown: int)
    requires Inv(s, countdown) && Enabled(s, List(ids, now), countdown)
    ensures Inv(Apply(s, List(ids, now), countdown), countdown)
  {
    var items := set id | id in ids :: Candidate(id, now);
    ItemsKeep(s, items, countdown);
  }

  lemma DecisionIsKnown(r: Redis, h: History, id: int, now: int, countdown: int)
    requires ItemKnown(Candidate(id, now), h, countdown)
    requires id in r.states && Reads(r.states[id], h.lives[id], countdown)
    ensures ItemKnown(Decision(r, id, now), h, countdown)
  {
    hide StageKnown;
    var bids := h.lives[id].bids;
    if Decision(r, id, now).Reindex? {
      assert r.states[id].expireAt == bids[|bids| - 1].now + countdown;
    }
  }

  lemma SecondDecisionIsKnown(r: Redis, h: History, id: int, countdown: int)
    requires ItemKnown(Recheck(id), h, countdown)
    requires id in r.states && Reads(r.states[id], h.lives[id], countdown)
    ensures ItemKnown(SecondDecision(r, id), h, countdown)
  {
    hide StageKnown;
    var bids := h.lives[id].bids;
    if SecondDecision(r, id).Reindex? {
      assert r.states[id].expireAt == bids[|bids| - 1].now + countdown;
    }
  }

  /** The scanner never carries an expiry back to the index that no accepted bid has set. */
  lemma ExamineKeeps(s: System, c: Item, countdown: int)
    requires Inv(s, countdown) && c in s.soup && c.Candidate?
    ensures Inv(s.(soup := s.soup + {Decision(s.redis, c.id, c.now)}), countdown)
  {
    ItemOf(s, c, countdown);
    HashOf(s, c.id, countdown);
    hide *;
    DecisionIsKnown(s.redis, s.history, c.id, c.now, countdown);
    ItemKeeps(s, Decision(s.redis, c.id, c.now), countdown);
  }

  lemma TryFinishKeeps(s: System, f: Item, countdown: int)
    requires Inv(s, countdown) && f in s.soup && f.Finish? && Sane(f.now)
    ensures if Expires(s.redis, f.id, f.version, f.expireAt, f.now)
            then var s' := Ended(s, f.id, TimedOut, f.now); Inv(s', countdown) && Grows(s.history, s'.history)
            else Inv(s.(soup := s.soup + {Recheck(f.id)}), countdown)
  {
    if Expires(s.redis, f.id, f.version, f.expireAt, f.now) {
      hide Inv, Ended, Grows;
      EndedKeeps(s, f.id, TimedOut, f.now, countdown);
    } else {
      ItemOf(s, f, countdown);
      HashOf(s, f.id, countdown);
      StageVersion(s.history.lives[f.id], f.version, f.expireAt, countdown);
      hide Inv, StageKnown;
      ItemKeeps(s, Recheck(f.id), countdown);
    }
  }

  lemma RereadKeeps(s: System, r: Item, countdown: int)
    requires Inv(s, countdown) && r in s.soup && r.Recheck?
    ensures Inv(s.(soup := s.soup + {SecondDecision(s.redis, r.id)}), countdown)
  {
    ItemOf(s, r, countdown);
    HashOf(s, r.id, countdown);
    hide *;
    SecondDecisionIsKnown(s.redis, s.history, r.id, countdown);
    ItemKeeps(s, SecondDecision(s.redis, r.id), countdown);
  }

  lemma IndexStepKeeps(s: System, item: Item, countdown: int)
    requires Inv(s, countdown) && item in s.soup
    ensures item.Reindex? ==> Inv(s.(redis := AfterIndex(s.redis, item.id, item.expireAt)), countdown)
    ensures item.Remove? ==> Inv(s.(redis := AfterUnindex(s.redis, item.id)), countdown)
  {
    ItemOf(s, item, countdown);
    if item.Reindex? || item.Remove? {
      LifeOf(s, item.id, countdown);
      hide SoupInv, TableInv, RecordsInv, Measured, RedisInv, Lawful;
      if item.Reindex? {
        var bids := s.history.lives[item.id].bids;
        var i :| 0 <= i < |bids| && item.expireAt == bids[i].now + countdown;
        IndexKeeps(s.redis, s.history.lives, item.id, item.expireAt, i, countdown);
      } else {
        UnindexKeeps(s.redis, s.history.lives, item.id, countdown);
      }
    }
  }

  // ---- the consumer ----

  lemma RecordWriteKeeps(records: map<int, BidRecord>, r: BidRecord, lives: Ledger)
    requires RecordsInv(records, lives) && RecordKnown(r, lives)
    ensures RecordsInv(AfterRecord(records, r), lives)
  {
  }

  lemma ExpireCheckKeeps(s: System, e: Event, now: int, countdown: int)
    requires Inv(s, countdown) && Sane(now)
    ensures var s' := WithExpire(s, e.auctionId, e.version, Int64FromData(e.data, ExpireAt), now);
            Inv(s', countdown) && Grows(s.history, s'.history)
  {
    hide Inv, Grows, Ended;
    if Expires(s.redis, e.auctionId, e.version, Int64FromData(e.data, ExpireAt), now) {
      EndedKeeps(s, e.auctionId, TimedOut, now, countdown);
    } else {
      GrowsReflexive(s.history);
    }
  }

  lemma GrowsReflexive(h: History)
    ensures Grows(h, h)
  {
  }

  lemma SnapshotMessageKeeps(s: System, raw: Event, now: int, crash: bool, countdown: int)
    requires Inv(s, countdown) && MessageKnown(raw, s.history, countdown) && raw.kind != ExpireCheck
    ensures Inv(Consumed(s, raw, now, crash), countdown)
    ensures Consumed(s, raw, now, crash).history == s.history
  {
    hide Nearest, SnapshotKnown, RecordKnown, AuctionFromEvent, BidRecordFromEvent;
    hide TableInv, RecordsInv, AfterSnapshot, AfterRecord;
    var e := Delivered(raw);
    SnapshotWriteKeeps(s.auctions, s.history, AuctionFromEvent(e), countdown);
    var r := BidRecordFromEvent(e, now);
    if e.kind == BidAccepted && r.Some? {
      RecordWriteKeeps(s.records, r.value, s.history.lives);
    }
  }

  lemma ConsumeKeeps(s: System, m: Item, now: int, crash: bool, countdown: int)
    requires Inv(s, countdown) && m in s.soup && m.Message? && Sane(now)
    ensures Inv(Consumed(s, m.event, now, crash), countdown)
    ensures Grows(s.history, Consumed(s, m.event, now, crash).history)
  {
    ItemOf(s, m, countdown);
    GrowsReflexive(s.history);
    hide Inv, Grows, WithExpire, MessageKnown;
    var e := Delivered(m.event);
    if e.kind == ExpireCheck {
      ExpireCheckKeeps(s, e, now, countdown);
    } else {
      hide Consumed;
      SnapshotMessageKeeps(s, m.event, now, crash, countdown);
    }
  }

  lemma WriteSnapshotKeeps(s: System, w: Item, countdown: int)
    requires Inv(s, countdown) && w in s.soup && w.Write?
    ensures Inv(s.(auctions := AfterSnapshot(s.auctions, w.auction)), countdown)
  {
    ItemOf(s, w, countdown);
    hide RedisInv, SoupInv, TableInv, RecordsInv, SnapshotKnown, Measured, AfterSnapshot;
    SnapshotWriteKeeps(s.auctions, s.history, w.auction, countdown);
  }

  lemma WriteRecordKeeps(s: System, r: Item, countdown: int)
    requires Inv(s, countdown) && r in s.soup && r.Record?
    ensures Inv(s.(records := AfterRecord(s.records, r.record)), countdown)
  {
    ItemOf(s, r, countdown);
    hide RedisInv, SoupInv, TableInv, RecordsInv, RecordKnown, Measured, AfterRecord;
    RecordWriteKeeps(s.records, r.record, s.history.lives);
  }

  /** The manual finish and the cancel of a running auction. */
  lemma ManualEndKeeps(s: System, id: int, exit: Exit, now: int, countdown: int)
    requires Inv(s, countdown) && Sane(now)
    ensures EndVerdict(s.redis, id, exit) == None ==>
              Inv(Ended(s, id, exit, now), countdown) && Grows(s.history, Ended(s, id, exit, now).history)
  {
    if EndVerdict(s.redis, id, exit) == None {
      NeverPending(s, id, exit, countdown);
      EndedKeeps(s, id, exit, now, countdown);
    }
  }

  // ---- all steps ----

  lemma StepKeeps(s: System, step: Step, countdown: int)
    requires Inv(s, countdown) && Enabled(s, step, countdown)
    ensures Inv(Apply(s, step, countdown), countdown)
    ensures Grows(s.history, Apply(s, step, countdown).history)
  {
    hide Inv, Grows, Ended, Consumed, WithBid, WithEdit, WithCancel, WithStart, Drafted, EndVerdict;
    hide AfterConfig, AfterDelete, AfterSnapshot, AfterRecord, FinalItems;
    GrowsReflexive(s.history);
    match step
    case Create(row) => CreateKeeps(s, row, countdown);
    case Configure(draft, update) => ConfigureKeeps(s, draft, update, countdown);
    case Delete(id, shopId) => DeleteKeeps(s, id, shopId, countdown);
    case CancelPending(draft, now) => CancelPendingKeeps(s, draft, now, countdown);
    case Start(draft, now) => StartKeeps(s, draft, now, countdown);
    case PlaceBid(q) => PlaceBidKeeps(s, q, countdown);
    case FinishManually(id, now) => ManualEndKeeps(s, id, Finished, now, countdown);
    case Cancel(id, now) => ManualEndKeeps(s, id, Withdrawn, now, countdown);
    case List(ids, now) => ListKeeps(s, ids, now, countdown);
    case Examine(c) => ExamineKeeps(s, c, countdown);
    case TryFinish(f) => TryFinishKeeps(s, f, countdown);
    case Reread(r) => RereadKeeps(s, r, countdown);
    case WriteIndex(i) => IndexStepKeeps(s, i, countdown);
    case ClearIndex(i) => IndexStepKeeps(s, i, countdown);
    case Observe(id) =>
      if id in s.redis.states && s.redis.states[id].status in {DEAL, FAILED} {
        ObserveKeeps(s, id, countdown);
      }
    case WriteSnapshot(w) => WriteSnapshotKeeps(s, w, countdown);
    case WriteRecord(r) => WriteRecordKeeps(s, r, countdown);
    case Consume(m, now, crash) => ConsumeKeeps(s, m, now, crash, countdown);
  }

  lemma GrowsTransitive(h: History, h': History, h'': History)
    requires Grows(h, h') && Grows(h', h'')
    ensures Grows(h, h'')
  {
  }

  /** Along every run the invariant holds and lives only grow. */
  lemma {:induction false} RunKeeps(s: System, steps: seq<Step>, countdown: int)
    requires Inv(s, countdown) && Possible(s, steps, countdown)
    ensures Inv(Outcome(s, steps, countdown), countdown)
    ensures Grows(s.history, Outcome(s, steps, countdown).history)
    decreases |steps|
  {
    if steps != [] {
      var next := Apply(s, steps[0], countdown);
      StepKeeps(s, steps[0], countdown);
      RunKeeps(next, steps[1..], countdown);
      GrowsTransitive(s.history, next.history, Outcome(s, steps, countdown).history);
    }
  }

  lemma ReachableKeeps(s: System, countdown: int)
    requires Reachable(s, countdown)
    ensures Inv(s, countdown)
  {
    var steps :| Possible(INITIAL, steps, countdown) && Outcome(INITIAL, steps, countdown) == s;
    RunKeeps(INITIAL, steps, countdown);
  }
}
