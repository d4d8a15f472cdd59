/**
 A start and a pending cancel check the status in the row and act in a later step. When somebody
 else has loaded the auction meanwhile, or the handler of an earlier start died before its write
 to the table, the row still says Pending although Redis holds the auction. This module says
 exactly when such a late action does no harm.
 */
module Reloads {
  import opened Prelude
  import opened Doubles
  import opened Auctions
  import opened RedisScripts
  import opened Lives
  import opened RedisInvariant
  import opened Events
  import opened Tables
  import opened Protocol
  import opened SystemInvariant
  import opened StepProofs
  import opened Theorems
  import opened Deliveries

  // ---- the keys in Redis ----

  /** A second load of an auction in its own room leaves keys that some history explains exactly when nobody has bid. */
  lemma SecondLoadIsExplainedIff(r: Redis, lives: Ledger, h: Hash, countdown: int)
    requires RedisInv(r, lives, countdown) && FreshStart(h) && h.auctionId in lives
    requires h.roomId == r.states[h.auctionId].roomId && !RoomBusy(r, h)
    ensures (exists lives': Ledger :: RedisInv(AfterLoad(r, h), lives', countdown)) <==> lives[h.auctionId].bids == []
  {
    var id, r' := h.auctionId, AfterLoad(r, h);
    if lives': Ledger :| RedisInv(r', lives', countdown) {
      CurrentInClosedForm(lives'[id], countdown);
      if lives[id].bids != [] {
        LeadersStay(r, lives, h, lives', countdown);
      }
    }
    if lives[id].bids == [] {
      StatusOfLife(r, lives, id, countdown);
      LoadKeeps(r, lives, h, countdown);
    }
  }

  lemma LeadersStay(r: Redis, lives: Ledger, h: Hash, lives': Ledger, countdown: int)
    requires RedisInv(r, lives, countdown) && h.auctionId in lives && lives[h.auctionId].bids != []
    requires RedisInv(AfterLoad(r, h), lives', countdown) && h.auctionId in lives'
    ensures lives'[h.auctionId].bids != []
  {
    hide Nearest;
    var id := h.auctionId;
    LeaderboardIsExact(lives[id], countdown);
    assert RankOf(AfterLoad(r, h), id) == RankOf(r, id) == Ranking(lives[id].bids);
  }

  // ---- the whole service ----

  /** Some history of lives and cancellations accounts for everything in the state. */
  ghost predicate Explained(s: System, countdown: int) {
    exists h: History :: Inv(s.(history := h), countdown)
  }

  /** A pending cancel that acts on what it has read, whatever has happened since; a refused one does nothing. */
  function LateCancel(s: System, draft: Auction, now: int): System {
    WithCancel(s, CancelledRow(draft, now)).(history := s.history)
  }

  /** A start that loads what it has read, whatever has happened since. */
  function LateStart(s: System, draft: Auction, now: int): System {
    WithStart(s, StartedAuction(draft, now), now).(history := s.history)
  }

  function Loaded(draft: Auction, now: int): Hash {
    LoadedHash(StartedAuction(draft, now), now)
  }

  /** The version of the first state of any life that explains a hash. */
  lemma FirstVersionOf(h: Hash, l: Life, countdown: int)
    requires Reads(h, l, countdown)
    ensures l.start.version == h.version - h.bidCount - if h.status == RUNNING then 0 else 1
  {
    hide StageKnown;
  }

  // ---- a late cancel ----

  /** A cancelled row never has the version of a life's first state. */
  lemma CancelledIsNotFirst(row: Auction, l: Life, countdown: int)
    requires RowKnown(row, l, countdown) && row.status == CANCELLED && FreshStart(l.start)
    ensures row.version != l.start.version
  {
    assert At(l, 0, countdown) == l.start;
  }

  lemma CancelledIsNoFirstState(s: System, id: int, countdown: int)
    requires Inv(s, countdown) && id in s.redis.states && id in s.auctions && s.auctions[id].status == CANCELLED
    ensures var h := s.redis.states[id];
            s.auctions[id].version != h.version - h.bidCount - if h.status == RUNNING then 0 else 1
  {
    RowOf(s, id, countdown);
    HashOf(s, id, countdown);
    LifeOf(s, id, countdown);
    hide Inv, Reads, RowKnown, RedisInv, Measured, PendingRow;
    FirstVersionOf(s.redis.states[id], s.history.lives[id], countdown);
    CancelledIsNotFirst(s.auctions[id], s.history.lives[id], countdown);
  }

  lemma CancelOfUnloaded(s: System, draft: Auction, now: int, countdown: int)
    requires Inv(s, countdown) && draft in s.history.drafts
    requires Accepts(s.auctions, CancelledRow(draft, now)) ==> draft.id !in s.redis.states
    ensures Explained(LateCancel(s, draft, now), countdown)
  {
    assert draft.id !in s.redis.states ==> draft.id !in s.history.lives;
    hide Inv, NewEvent, AfterSnapshot, Accepts;
    CancelPendingKeeps(s, draft, now, countdown);
    var after := WithCancel(s, CancelledRow(draft, now));
    assert LateCancel(s, draft, now).(history := after.history) == after;
  }

  lemma CancelOfLoaded(s: System, draft: Auction, now: int, h: History, countdown: int)
    requires Inv(s, countdown) && draft in s.history.drafts && draft.id in s.redis.states
    requires Accepts(s.auctions, CancelledRow(draft, now))
    ensures !Inv(LateCancel(s, draft, now).(history := h), countdown)
  {
    var id, t := draft.id, LateCancel(s, draft, now).(history := h);
    DraftOf(s, draft, countdown);
    RowOf(s, id, countdown);
    HashOf(s, id, countdown);
    hide Inv, Reads, NewEvent, FromLife;
    FirstVersionOf(s.redis.states[id], s.history.lives[id], countdown);
    assert id in t.auctions && t.auctions[id].status == CANCELLED && t.auctions[id].version == 1;
    if Inv(t, countdown) {
      CancelledIsNoFirstState(t, id, countdown);
    }
  }

  /** A late pending cancel contradicts Redis exactly when its write is accepted though Redis holds the auction. */
  lemma LateCancelIsExplainedIff(s: System, draft: Auction, now: int, countdown: int)
    requires Reachable(s, countdown) && draft in s.history.drafts
    ensures Explained(LateCancel(s, draft, now), countdown) <==>
              (Accepts(s.auctions, CancelledRow(draft, now)) ==> draft.id !in s.redis.states)
  {
    ReachableKeeps(s, countdown);
    hide Inv, LateCancel, Reachable, Accepts;
    if Accepts(s.auctions, CancelledRow(draft, now)) && draft.id in s.redis.states {
      forall h: History
        ensures !Inv(LateCancel(s, draft, now).(history := h), countdown)
      {
        CancelOfLoaded(s, draft, now, h, countdown);
      }
    } else {
      CancelOfUnloaded(s, draft, now, countdown);
    }
  }

  /** Such a cancel keeps only the first state of the auction from the row: any later one undoes it. */
  lemma LateCancelIsUndone(s: System, draft: Auction, now: int, a: Auction, countdown: int)
    requires Reachable(s, countdown) && draft in s.history.drafts && draft.id in s.redis.states
    requires Accepts(s.auctions, CancelledRow(draft, now))
    requires a.id == draft.id && a.id in s.history.lives && FromLife(SnapshotOf(a), s.history.lives[a.id], countdown)
    ensures var rows := LateCancel(s, draft, now).auctions;
            && a.id in rows && rows[a.id].status == CANCELLED
            && (Accepts(rows, a) <==> a.version > s.history.lives[a.id].start.version)
  {
    ReachableKeeps(s, countdown);
    DraftOf(s, draft, countdown);
    RowOf(s, draft.id, countdown);
    hide Inv, NewEvent, Reachable;
  }

  // ---- a late start ----

  /** Lives without bids that begin in the same visible state. */
  ghost predicate Alike(l: Life, l': Life) {
    && l.bids == [] == l'.bids && l.end.None? && l'.end.None?
    && SnapshotOfHash(l.start) == SnapshotOfHash(l'.start)
    && l.start.version == l'.start.version && l.start.expireAt == l'.start.expireAt
  }

  lemma SnapshotIsAlike(x: Snapshot, l: Life, l': Life, countdown: int)
    requires FromLife(x, l, countdown) && Alike(l, l')
    ensures FromLife(x, l', countdown)
  {
    assert At(l, 0, countdown) == l.start && At(l', 0, countdown) == l'.start;
  }

  /** What is known of an item does not tell such lives apart. */
  lemma ItemIsAlike(item: Item, h: History, id: int, l': Life, countdown: int)
    requires ItemKnown(item, h, countdown) && id in h.lives && Alike(h.lives[id], l')
    ensures ItemKnown(item, h.(lives := h.lives[id := l']), countdown)
  {
    var h' := h.(lives := h.lives[id := l']);
    match item
    case Candidate(c, now) =>
    case Finish(f, version, expireAt, now) => StageIsAlike(f, version, expireAt, h, id, l', countdown);
    case Recheck(c) =>
    case Reindex(c, expireAt) =>
      var i :| 0 <= i < |h.lives[c].bids| && expireAt == h.lives[c].bids[i].now + countdown;
      assert c != id && h'.lives[c].bids[i] == h.lives[c].bids[i];
    case Remove(c) =>
    case Write(a) => KnownIsAlike(a, h, id, l', countdown);
    case Record(r) => RecordIsAlike(r, h, id, l');
    case Message(raw) =>
      hide SnapshotKnown, RecordKnown, AuctionFromEvent, BidRecordFromEvent, StageKnown, Delivered, Alike;
      var e := Delivered(raw);
      if e.kind == ExpireCheck {
        StageIsAlike(e.auctionId, e.version, Int64FromData(e.data, ExpireAt), h, id, l', countdown);
      } else {
        KnownIsAlike(AuctionFromEvent(e), h, id, l', countdown);
        if e.kind == BidAccepted {
          forall now | BidRecordFromEvent(e, now).Some?
            ensures RecordKnown(BidRecordFromEvent(e, now).value, h'.lives)
          {
            RecordIsAlike(BidRecordFromEvent(e, now).value, h, id, l');
          }
        }
      }
  }

  lemma StageIsAlike(c: int, version: int, expireAt: int, h: History, id: int, l': Life, countdown: int)
    requires c in h.lives && StageKnown(h.lives[c], version, expireAt, countdown)
    requires id in h.lives && Alike(h.lives[id], l')
    ensures StageKnown(h.lives[id := l'][c], version, expireAt, countdown)
  {
    assert At(h.lives[id], 0, countdown) == h.lives[id].start && At(l', 0, countdown) == l'.start;
  }

  lemma KnownIsAlike(a: Auction, h: History, id: int, l': Life, countdown: int)
    requires SnapshotKnown(a, h, countdown) && id in h.lives && Alike(h.lives[id], l')
    ensures SnapshotKnown(a, h.(lives := h.lives[id := l']), countdown)
  {
    hide FromLife, Alike;
    if a.id == id && FromLife(SnapshotOf(a), h.lives[id], countdown) {
      SnapshotIsAlike(SnapshotOf(a), h.lives[id], l', countdown);
    }
  }

  lemma RecordIsAlike(r: BidRecord, h: History, id: int, l': Life)
    requires RecordKnown(r, h.lives) && id in h.lives && Alike(h.lives[id], l')
    ensures RecordKnown(r, h.lives[id := l'])
  {
    var i :| r.auctionId in h.lives && RecordOf(r, h.lives[r.auctionId], i);
    assert r.auctionId != id;
    assert RecordOf(r, h.lives[id := l'][r.auctionId], i);
  }

  /** Row, drafts and life of an auction agree on the columns that nothing ever writes. */
  lemma LotOf(s: System, draft: Auction, countdown: int)
    requires Inv(s, countdown) && draft in s.history.drafts && draft.id in s.history.lives
    ensures PendingRow(draft) && draft.id in s.auctions && draft.id !in s.history.withdrawn
    ensures var l, row := s.history.lives[draft.id], s.auctions[draft.id];
            && RowKnown(row, l, countdown)
            && SameLot(row, draft.id, draft.goodsId, draft.shopId, draft.roomId) && l.start.roomId == draft.roomId
  {
    DraftOf(s, draft, countdown);
    RowOf(s, draft.id, countdown);
    hide FromLife, PendingRow;
  }

  /** The start loads what the present life began with, to all appearances. */
  lemma StartIsAlike(l: Life, hash: Hash, h: Hash, countdown: int)
    requires Lawful(l, countdown) && hash == Current(l, countdown) && FreshStart(h)
    requires SnapshotOfHash(hash) == SnapshotOfHash(h)
    ensures Alike(l, Life(h, [], None))
  {
    CurrentInClosedForm(l, countdown);
  }

  lemma RowIsAlike(row: Auction, l: Life, l': Life, countdown: int)
    requires RowKnown(row, l, countdown) && Alike(l, l') && l'.start.version == 1
    requires SameLot(row, l'.start.auctionId, l'.start.goodsId, l'.start.shopId, l'.start.roomId)
    ensures RowKnown(row, l', countdown)
  {
    if FromLife(SnapshotOf(row), l, countdown) {
      SnapshotIsAlike(SnapshotOf(row), l, l', countdown);
    }
    hide FromLife, PendingRow;
  }

  /** What is loaded once more begins a life like the present one. */
  lemma RepeatedLife(s: System, draft: Auction, now: int, countdown: int)
    requires Inv(s, countdown) && draft in s.history.drafts && draft.id in s.history.lives && draft.id in s.redis.states
    requires Sane(now) && Sane(now + DAY_MILLIS)
    requires SnapshotOfHash(s.redis.states[draft.id]) == SnapshotOfHash(Loaded(draft, now))
    ensures var id, a := draft.id, StartedAuction(draft, now);
            var l, l' := s.history.lives[id], Life(LoadedHash(a, now), [], None);
            && FreshStart(l'.start) && Lawful(l', countdown) && Measured(l', countdown)
            && Current(l', countdown) == l'.start && SnapshotOf(a) == SnapshotOfHash(l'.start)
            && l'.start.auctionId == a.id == id && l.start.roomId == l'.start.roomId
            && Alike(l, l') && id in s.auctions && id !in s.history.withdrawn && RowKnown(s.auctions[id], l', countdown)
  {
    var id := draft.id;
    LotOf(s, draft, countdown);
    LifeOf(s, id, countdown);
    StartedLife(draft, now, countdown);
    var l, l' := s.history.lives[id], Life(Loaded(draft, now), [], None);
    hide Inv, RedisInv, Lawful, Measured, FromLife, RowKnown, Current, PendingRow, LoadedHash, StartedAuction,
         SnapshotOf, FreshStart;
    StartIsAlike(l, s.redis.states[id], l'.start, countdown);
    RowIsAlike(s.auctions[id], l, l', countdown);
  }

  /** A life is begun anew to all appearances. */
  lemma AlikeLifeKeeps(s: System, a: Auction, now: int, countdown: int)
    requires Inv(s, countdown) && a.id in s.history.lives && a.id in s.auctions && a.id !in s.history.withdrawn
    requires !RoomBusy(s.redis, LoadedHash(a, now))
    requires var l := Life(LoadedHash(a, now), [], None);
             && FreshStart(l.start) && Lawful(l, countdown) && Measured(l, countdown)
             && Current(l, countdown) == l.start && SnapshotOf(a) == SnapshotOfHash(l.start)
             && l.start.auctionId == a.id && s.history.lives[a.id].start.roomId == l.start.roomId
             && Alike(s.history.lives[a.id], l) && RowKnown(s.auctions[a.id], l, countdown)
    ensures Inv(WithStart(s, a, now), countdown)
  {
    hide ItemKnown, RedisInv, RecordsInv, TableInv, LoadedHash, AfterLoad, RoomBusy,
         Measured, Lawful, FreshStart, RowKnown, NewEvent, SnapshotOf, Current;
    var l := Life(LoadedHash(a, now), [], None);
    var h := s.history.(lives := s.history.lives[a.id := l]);
    assert s.history.lives[a.id].bids == [];
    hide Alike;
    LoadKeeps(s.redis, s.history.lives, l.start, countdown);
    SnapshotItemsKnown(Started, h, a.id, a, countdown);
    SoupIsAlike(s.soup, s.history, a.id, l, countdown);
    RecordsAreAlike(s.records, s.history, a.id, l);
    TableStarts(s.auctions, s.history, a.id, l, countdown);
  }

  lemma RepeatedStartKeeps(s: System, draft: Auction, now: int, countdown: int)
    requires Inv(s, countdown) && draft in s.history.drafts && draft.id in s.history.lives && draft.id in s.redis.states
    requires Sane(now) && Sane(now + DAY_MILLIS) && !RoomBusy(s.redis, Loaded(draft, now))
    requires SnapshotOfHash(s.redis.states[draft.id]) == SnapshotOfHash(Loaded(draft, now))
    ensures var h := s.history.(lives := s.history.lives[draft.id := Life(Loaded(draft, now), [], None)]);
            Inv(LateStart(s, draft, now).(history := h), countdown)
  {
    hide Inv, Alike, RoomBusy, LoadedHash, StartedAuction, RowKnown, FreshStart, Lawful, Measured, Current, SnapshotOf,
         AfterLoad;
    RepeatedLife(s, draft, now, countdown);
    AlikeLifeKeeps(s, StartedAuction(draft, now), now, countdown);
    var after := WithStart(s, StartedAuction(draft, now), now);
    assert LateStart(s, draft, now).(history := after.history) == after;
  }

  lemma SoupIsAlike(soup: set<Item>, h: History, id: int, l': Life, countdown: int)
    requires SoupInv(soup, h, countdown) && id in h.lives && Alike(h.lives[id], l')
    ensures SoupInv(soup, h.(lives := h.lives[id := l']), countdown)
  {
    hide ItemKnown, Alike;
    forall item | item in soup
      ensures ItemKnown(item, h.(lives := h.lives[id := l']), countdown)
    {
      ItemIsAlike(item, h, id, l', countdown);
    }
  }

  lemma RecordsAreAlike(records: map<int, BidRecord>, h: History, id: int, l': Life)
    requires RecordsInv(records, h.lives) && id in h.lives && Alike(h.lives[id], l')
    ensures RecordsInv(records, h.lives[id := l'])
  {
    hide RecordKnown, Alike;
    forall key | key in records
      ensures RecordKnown(records[key], h.lives[id := l'])
    {
      RecordIsAlike(records[key], h, id, l');
    }
  }

  /** What a history that explains a late start must say of the auction. */
  lemma AfterLateStart(s: System, draft: Auction, now: int, h: History, countdown: int)
    requires Inv(LateStart(s, draft, now).(history := h), countdown)
    requires !RoomBusy(s.redis, Loaded(draft, now)) && PendingRow(draft)
    ensures var loaded := Loaded(draft, now);
            && loaded.status == RUNNING && loaded.bidCount == 0
            && draft.id in h.lives && Reads(loaded, h.lives[draft.id], countdown)
            && loaded == Current(h.lives[draft.id], countdown) && Lawful(h.lives[draft.id], countdown)
  {
    var t := LateStart(s, draft, now).(history := h);
    assert draft.id in t.redis.states && t.redis.states[draft.id] == Loaded(draft, now) by { hide Inv; }
    HashOf(t, draft.id, countdown);
    LifeOf(t, draft.id, countdown);
    hide Inv, RedisInv, Measured, Reads, Lawful, Current;
  }

  /** A history that explains a repeated start knows only its first state, so the state before was no other. */
  lemma RepeatedStartIsAlike(s: System, draft: Auction, now: int, h: History, countdown: int)
    requires PendingRow(draft) && draft.id in s.redis.states
    requires UnderWay(s, draft.id, SnapshotOfHash(s.redis.states[draft.id]))
    requires !RoomBusy(s.redis, Loaded(draft, now))
    requires Inv(LateStart(s, draft, now).(history := h), countdown)
    ensures SnapshotOfHash(s.redis.states[draft.id]) == SnapshotOfHash(Loaded(draft, now))
  {
    var t, x := LateStart(s, draft, now).(history := h), SnapshotOfHash(s.redis.states[draft.id]);
    assert s.soup <= t.soup && t.history == h by { hide Inv; }
    hide *;
    AfterLateStart(s, draft, now, h, countdown);
    StaysUnderWay(s, t, draft.id, x);
    UnderWayIsFromLife(t, draft.id, x, countdown);
    OnlyFirst(x, Loaded(draft, now), h.lives[draft.id], countdown);
  }

  lemma OnlyFirst(x: Snapshot, h: Hash, l: Life, countdown: int)
    requires FromLife(x, l, countdown) && h == Current(l, countdown) && Reads(h, l, countdown)
    requires h.status == RUNNING && h.bidCount == 0
    ensures x == SnapshotOfHash(h)
  {
    hide StageKnown;
  }

  lemma StaysUnderWay(s: System, t: System, id: int, x: Snapshot)
    requires s.soup <= t.soup && UnderWay(s, id, x)
    ensures UnderWay(t, id, x)
  {
    hide Brings;
  }

  lemma PresentIsUnderWay(s: System, id: int, countdown: int)
    requires id in s.history.lives && AllUnderWay(s, id, countdown)
    requires id in s.redis.states && s.redis.states[id] == Current(s.history.lives[id], countdown)
    ensures UnderWay(s, id, SnapshotOfHash(s.redis.states[id]))
  {
    hide UnderWay, At, SnapshotOf;
  }

  lemma StartOfLoaded(s: System, draft: Auction, now: int, countdown: int)
    requires Inv(s, countdown) && draft in s.history.drafts && Sane(now) && Sane(now + DAY_MILLIS)
    requires draft.id in s.history.lives && draft.id in s.redis.states && PendingRow(draft)
    requires !RoomBusy(s.redis, Loaded(draft, now))
    requires UnderWay(s, draft.id, SnapshotOfHash(s.redis.states[draft.id]))
    ensures Explained(LateStart(s, draft, now), countdown) <==>
              SnapshotOfHash(s.redis.states[draft.id]) == SnapshotOfHash(Loaded(draft, now))
  {
    hide Inv, LateStart, Loaded, SnapshotOf, RoomBusy, UnderWay, PendingRow;
    if h :| Inv(LateStart(s, draft, now).(history := h), countdown) {
      RepeatedStartIsAlike(s, draft, now, h, countdown);
    }
    if SnapshotOfHash(s.redis.states[draft.id]) == SnapshotOfHash(Loaded(draft, now)) {
      RepeatedStartKeeps(s, draft, now, countdown);
    }
  }

  lemma StartOfUnloaded(s: System, draft: Auction, now: int, countdown: int)
    requires Inv(s, countdown) && draft in s.history.drafts && Sane(now) && Sane(now + DAY_MILLIS)
    requires draft.id !in s.history.lives && draft.id !in s.history.withdrawn
    ensures Explained(LateStart(s, draft, now), countdown)
  {
    hide Inv, NewEvent, LoadedHash, StartedAuction, AfterLoad, RoomBusy, StartItems;
    StartKeeps(s, draft, now, countdown);
    var after := WithStart(s, StartedAuction(draft, now), now);
    assert LateStart(s, draft, now).(history := after.history) == after;
  }

  /** A start of an auction that has been cancelled since it was read contradicts the row for good. */
  lemma StartOfWithdrawn(s: System, draft: Auction, now: int, h: History, countdown: int)
    requires PendingRow(draft) && !RoomBusy(s.redis, Loaded(draft, now))
    requires draft.id in s.auctions && s.auctions[draft.id].status == CANCELLED
    ensures !Inv(LateStart(s, draft, now).(history := h), countdown)
  {
    var t := LateStart(s, draft, now).(history := h);
    assert t.auctions == s.auctions && t.history == h;
    if Inv(t, countdown) {
      AfterLateStart(s, draft, now, h, countdown);
      RowOf(t, draft.id, countdown);
      hide Inv, LateStart, Loaded, Lawful, Reads, RoomBusy, Current;
      EndIsLastStage(SnapshotOf(s.auctions[draft.id]), h.lives[draft.id], countdown);
    }
  }

  lemma UnloadedRow(s: System, draft: Auction, countdown: int)
    requires Inv(s, countdown) && draft in s.history.drafts && draft.id !in s.redis.states
    ensures draft.id in s.auctions && draft.id !in s.history.lives
    ensures draft.id in s.history.withdrawn ==> s.auctions[draft.id].status == CANCELLED
    ensures draft.id !in s.history.withdrawn ==> s.auctions[draft.id].status == PENDING
  {
    DraftOf(s, draft, countdown);
    RowOf(s, draft.id, countdown);
  }

  /**
   A start that loads what it read at any earlier time is explained exactly when Redis does not hold
   the auction and the row is pending still, or Redis holds it in the very state that is loaded
   again: no bid, no end, the same version and times.
   */
  lemma LateStartIsExplainedIff(s: System, draft: Auction, now: int, countdown: int)
    requires Reachable(s, countdown) && draft in s.history.drafts && Sane(now) && Sane(now + DAY_MILLIS)
    requires !RoomBusy(s.redis, Loaded(draft, now))
    ensures draft.id in s.auctions
    ensures Explained(LateStart(s, draft, now), countdown) <==>
              if draft.id in s.redis.states
              then SnapshotOfHash(s.redis.states[draft.id]) == SnapshotOfHash(Loaded(draft, now))
              else s.auctions[draft.id].status == PENDING
  {
    ReachableKeeps(s, countdown);
    DraftOf(s, draft, countdown);
    hide Inv, Reachable, LateStart, Loaded, RoomBusy, PendingRow, SnapshotOf, AllUnderWay, Reads, UnderWay;
    if draft.id in s.redis.states {
      HashOf(s, draft.id, countdown);
      LifeOf(s, draft.id, countdown);
      EveryStateIsUnderWay(s, draft.id, countdown);
      PresentIsUnderWay(s, draft.id, countdown);
      StartOfLoaded(s, draft, now, countdown);
    } else {
      UnloadedRow(s, draft, countdown);
      if draft.id in s.history.withdrawn {
        forall h: History
          ensures !Inv(LateStart(s, draft, now).(history := h), countdown)
        {
          StartOfWithdrawn(s, draft, now, h, countdown);
        }
      } else {
        StartOfUnloaded(s, draft, now, countdown);
      }
    }
  }
}
