/** The inductive invariant of the whole service. Items never go stale because lives only grow. */
module SystemInvariant {
  import opened Prelude
  import opened Doubles
  import opened Auctions
  import opened RedisScripts
  import opened Lives
  import opened RedisInvariant
  import opened Events
  import opened Protocol

  // ---- what is known about items and rows ----

  /** All amounts and times of a life are in the exact range. */
  ghost predicate Measured(l: Life, countdown: int) {
    && Sane(l.start.startTime) && Sane(l.start.endTime) && Amount(l.start.startPrice) && Amount(l.start.bidIncrement)
    && l.start.sealPrice <= EXACT / 2
    && |l.bids| <= EXACT
    && (forall i :: 0 <= i < |l.bids| ==> MeasuredBid(l.bids[i], countdown))
    && (l.end.Some? ==> Sane(l.end.value.now))
  }

  predicate MeasuredBid(b: Bid, countdown: int) {
    Amount(b.price) && Sane(b.now / 1000) && Sane(b.now + countdown) && b.userId > 0 && b.recordId > 0
  }

  /** s is the snapshot of the state the life was in at version s.version. */
  ghost predicate FromLife(s: Snapshot, l: Life, countdown: int) {
    && l.start.version <= s.version <= l.start.version + Stages(l)
    && s == SnapshotOfHash(At(l, s.version - l.start.version, countdown))
  }

  ghost predicate SnapshotKnown(a: Auction, h: History, countdown: int) {
    || (a.id in h.withdrawn && a.status == CANCELLED)
    || (a.id in h.lives && FromLife(SnapshotOf(a), h.lives[a.id], countdown))
  }

  /** The two ways the audit row of an accepted bid is written: by the handler and from the event. */
  function DirectRecord(l: Life, b: Bid): BidRecord {
    BidRecord(Double(b.recordId), l.start.auctionId, l.start.goodsId, l.start.shopId, l.start.roomId,
              b.userId, b.price, b.now)
  }

  function ReplayedRecord(l: Life, b: Bid): BidRecord {
    BidRecord(Double(b.recordId), l.start.auctionId, Double(l.start.goodsId), l.start.shopId, l.start.roomId,
              Double(b.userId), b.price, b.now / 1000 * 1000)
  }

  ghost predicate RecordOf(r: BidRecord, l: Life, i: int) {
    0 <= i < |l.bids| && (r == DirectRecord(l, l.bids[i]) || r == ReplayedRecord(l, l.bids[i]))
  }

  ghost predicate RecordKnown(r: BidRecord, lives: Ledger) {
    exists i :: r.auctionId in lives && RecordOf(r, lives[r.auctionId], i)
  }

  /** A check or a scanner's call names a stage of the life and the expiry of that stage. */
  ghost predicate StageKnown(l: Life, version: int, expireAt: int, countdown: int) {
    && l.start.version <= version <= l.start.version + |l.bids|
    && At(l, version - l.start.version, countdown).expireAt == expireAt
  }

  ghost predicate MessageKnown(raw: Event, h: History, countdown: int) {
    var e := Delivered(raw);
    if e.kind == ExpireCheck then
      e.auctionId in h.lives && StageKnown(h.lives[e.auctionId], e.version, Int64FromData(e.data, ExpireAt), countdown)
    else
      && SnapshotKnown(AuctionFromEvent(e), h, countdown)
      && (e.kind == BidAccepted ==>
            forall now :: BidRecordFromEvent(e, now).Some? ==> RecordKnown(BidRecordFromEvent(e, now).value, h.lives))
  }

  ghost predicate ItemKnown(item: Item, h: History, countdown: int) {
    match item
    case Candidate(id, now) =>
      id in h.lives && (h.lives[id].bids == [] && h.lives[id].end.None? ==> h.lives[id].start.expireAt <= now)
    case Finish(id, version, expireAt, now) =>
      id in h.lives && StageKnown(h.lives[id], version, expireAt, countdown) && expireAt <= now
    case Recheck(id) => id in h.lives && (h.lives[id].bids != [] || h.lives[id].end.Some?)
    case Reindex(id, expireAt) =>
      id in h.lives && exists i :: 0 <= i < |h.lives[id].bids| && expireAt == h.lives[id].bids[i].now + countdown
    case Remove(id) => id in h.lives && h.lives[id].end.Some?
    case Write(a) => SnapshotKnown(a, h, countdown)
    case Record(r) => RecordKnown(r, h.lives)
    case Message(e) => MessageKnown(e, h, countdown)
  }

  ghost predicate SoupInv(soup: set<Item>, h: History, countdown: int) {
    forall item :: item in soup ==> ItemKnown(item, h, countdown)
  }

  /** The columns that nothing ever writes. */
  predicate SameLot(a: Auction, id: int, goodsId: int, shopId: int, roomId: int) {
    a.id == id && a.goodsId == goodsId && a.shopId == shopId && a.roomId == roomId
  }

  /** The row of a started auction is still a pending one, or shows a state its life went through. */
  ghost predicate RowKnown(row: Auction, l: Life, countdown: int) {
    && SameLot(row, l.start.auctionId, l.start.goodsId, l.start.shopId, l.start.roomId) && l.start.version == 1
    && (PendingRow(row) || FromLife(SnapshotOf(row), l, countdown))
  }

  ghost predicate RowFits(row: Auction, id: int, h: History, countdown: int) {
    && row.id == id > 0
    && (row.deleted ==> row.status in {PENDING, FAILED, CANCELLED})
    && (id in h.lives ==> RowKnown(row, h.lives[id], countdown))
    && (id in h.withdrawn ==> row.status == CANCELLED)
    && (id !in h.lives && id !in h.withdrawn ==> PendingRow(row))
    && (row.status == PENDING && !row.deleted ==> row in h.drafts)
  }

  /** What a pending row once held differs from what it holds in nothing but its configuration. */
  ghost predicate DraftFits(draft: Auction, rows: map<int, Auction>) {
    && PendingRow(draft) && !draft.deleted && draft.id in rows
    && SameLot(rows[draft.id], draft.id, draft.goodsId, draft.shopId, draft.roomId)
  }

  ghost predicate TableInv(rows: map<int, Auction>, h: History, countdown: int) {
    && h.lives.Keys <= rows.Keys && h.withdrawn <= rows.Keys && h.lives.Keys !! h.withdrawn
    && (forall id :: id in rows ==> RowFits(rows[id], id, h, countdown))
    && (forall draft :: draft in h.drafts ==> DraftFits(draft, rows))
  }

  ghost predicate RecordsInv(records: map<int, BidRecord>, lives: Ledger) {
    forall id :: id in records ==> records[id].id == id && RecordKnown(records[id], lives)
  }

  ghost predicate Inv(s: System, countdown: int) {
    && RedisInv(s.redis, s.history.lives, countdown)
    && (forall id :: id in s.history.lives ==> Measured(s.history.lives[id], countdown))
    && SoupInv(s.soup, s.history, countdown)
    && TableInv(s.auctions, s.history, countdown)
    && RecordsInv(s.records, s.history.lives)
  }

  // ---- lives only grow, so what is known stays known ----

  ghost predicate Grows(h: History, h': History) {
    && (forall id :: id in h.lives ==> id in h'.lives && Extends(h.lives[id], h'.lives[id]))
    && h.withdrawn <= h'.withdrawn && h.drafts <= h'.drafts
  }

  lemma FromLifeStays(s: Snapshot, l: Life, l': Life, countdown: int)
    requires FromLife(s, l, countdown) && Extends(l, l')
    ensures FromLife(s, l', countdown)
  {
    StagesStay(l, l', s.version - l.start.version, countdown);
  }

  /** A snapshot that is not of a running auction is that of the present state. */
  lemma EndIsLastStage(x: Snapshot, l: Life, countdown: int)
    requires FromLife(x, l, countdown) && Lawful(l, countdown)
    ensures x.status != PENDING
    ensures x.status != RUNNING ==> x == SnapshotOfHash(Current(l, countdown))
  {
    var k := x.version - l.start.version;
    if k <= |l.bids| {
      BiddenIsSummary(l.start, l.bids[..k], countdown);
    } else {
      CurrentInClosedForm(l, countdown);
    }
  }

  lemma SnapshotStays(a: Auction, h: History, h': History, countdown: int)
    requires SnapshotKnown(a, h, countdown) && Grows(h, h')
    ensures SnapshotKnown(a, h', countdown)
  {
    if a.id in h.lives && FromLife(SnapshotOf(a), h.lives[a.id], countdown) {
      FromLifeStays(SnapshotOf(a), h.lives[a.id], h'.lives[a.id], countdown);
    }
  }

  lemma RecordStays(r: BidRecord, h: History, h': History)
    requires RecordKnown(r, h.lives) && Grows(h, h')
    ensures RecordKnown(r, h'.lives)
  {
    var i :| r.auctionId in h.lives && RecordOf(r, h.lives[r.auctionId], i);
    assert RecordOf(r, h'.lives[r.auctionId], i);
  }

  lemma StageStays(l: Life, l': Life, version: int, expireAt: int, countdown: int)
    requires StageKnown(l, version, expireAt, countdown) && Extends(l, l')
    ensures StageKnown(l', version, expireAt, countdown)
  {
    StagesStay(l, l', version - l.start.version, countdown);
  }

  lemma MessageStays(raw: Event, h: History, h': History, countdown: int)
    requires MessageKnown(raw, h, countdown) && Grows(h, h')
    ensures MessageKnown(raw, h', countdown)
  {
    var e := Delivered(raw);
    if e.kind == ExpireCheck {
      StageStays(h.lives[e.auctionId], h'.lives[e.auctionId], e.version, Int64FromData(e.data, ExpireAt), countdown);
    } else {
      SnapshotStays(AuctionFromEvent(e), h, h', countdown);
      if e.kind == BidAccepted {
        forall now | BidRecordFromEvent(e, now).Some?
          ensures RecordKnown(BidRecordFromEvent(e, now).value, h'.lives)
        {
          RecordStays(BidRecordFromEvent(e, now).value, h, h');
        }
      }
    }
  }

  lemma ItemStays(item: Item, h: History, h': History, countdown: int)
    requires ItemKnown(item, h, countdown) && Grows(h, h')
    ensures ItemKnown(item, h', countdown)
  {
    match item
    case Candidate(id, now) =>
    case Finish(id, version, expireAt, now) => StageStays(h.lives[id], h'.lives[id], version, expireAt, countdown);
    case Recheck(id) =>
    case Reindex(id, expireAt) =>
      var i :| 0 <= i < |h.lives[id].bids| && expireAt == h.lives[id].bids[i].now + countdown;
      assert h'.lives[id].bids[i] == h.lives[id].bids[i];
    case Remove(id) =>
    case Write(a) => SnapshotStays(a, h, h', countdown);
    case Record(r) => RecordStays(r, h, h');
    case Message(e) => MessageStays(e, h, h', countdown);
  }

  lemma SoupStays(soup: set<Item>, h: History, h': History, countdown: int)
    requires SoupInv(soup, h, countdown) && Grows(h, h')
    ensures SoupInv(soup, h', countdown)
  {
    forall item | item in soup
      ensures ItemKnown(item, h', countdown)
    {
      ItemStays(item, h, h', countdown);
    }
  }

  lemma RecordsStay(records: map<int, BidRecord>, h: History, h': History)
    requires RecordsInv(records, h.lives) && Grows(h, h')
    ensures RecordsInv(records, h'.lives)
  {
    forall id | id in records
      ensures RecordKnown(records[id], h'.lives)
    {
      RecordStays(records[id], h, h');
    }
  }

  lemma RowStays(row: Auction, l: Life, l': Life, countdown: int)
    requires RowKnown(row, l, countdown) && Extends(l, l')
    ensures RowKnown(row, l', countdown)
  {
    if FromLife(SnapshotOf(row), l, countdown) {
      FromLifeStays(SnapshotOf(row), l, l', countdown);
    }
  }

  // ---- the items of each step are known ----

  /** The snapshot of the current state, and the event that carries it. */
  lemma CurrentSnapshotKnown(h: History, id: int, a: Auction, countdown: int)
    requires id in h.lives && Lawful(h.lives[id], countdown) && Measured(h.lives[id], countdown)
    requires a.id == id && SnapshotOf(a) == SnapshotOfHash(Current(h.lives[id], countdown))
    ensures SnapshotKnown(a, h, countdown)
    ensures SnapshotCarried(a)
  {
    hide Nearest;
    var l := h.lives[id];
    CurrentInClosedForm(l, countdown);
    WinnerIsDouble(l, Stages(l), countdown);
    if l.bids != [] {
      assert MeasuredBid(l.bids[|l.bids| - 1], countdown);
    }
    SmallSnapshotIsCarried(a);
  }

  lemma CarriedMessageKnown(kind: Kind, a: Auction, h: History, countdown: int)
    requires kind != ExpireCheck && kind != BidAccepted
    requires SnapshotKnown(a, h, countdown)
    requires SnapshotCarried(a) || (a.id in h.withdrawn && a.status == CANCELLED)
    ensures ItemKnown(Message(NewEvent(kind, a, map[])), h, countdown)
  {
    hide SnapshotKnown, SnapshotCarried, AuctionFromEvent, BidRecordFromEvent, RecordKnown, NewEvent, Delivered;
    DeliveredSnapshotKnown(kind, a, h, countdown);
    DeliveredHeader(kind, a, map[]);
  }

  lemma DeliveredSnapshotKnown(kind: Kind, a: Auction, h: History, countdown: int)
    requires SnapshotKnown(a, h, countdown)
    requires SnapshotCarried(a) || (a.id in h.withdrawn && a.status == CANCELLED)
    ensures SnapshotKnown(AuctionFromEvent(Delivered(NewEvent(kind, a, map[]))), h, countdown)
  {
    hide Nearest, FromLife, AuctionFromEvent, NewEvent, Delivered;
    var back := AuctionFromEvent(Delivered(NewEvent(kind, a, map[])));
    if SnapshotCarried(a) {
      DeliveredSnapshot(kind, a, map[]);
      SameSnapshotKnown(back, a, h, countdown);
    } else {
      DeliveredAuction(kind, a, map[]);
      SmallIsExact(CANCELLED);
    }
  }

  lemma BothKnown(item: Item, other: Item, h: History, countdown: int)
    requires ItemKnown(item, h, countdown) && ItemKnown(other, h, countdown)
    ensures SoupInv({item, other}, h, countdown)
  {
  }

  lemma SnapshotItemsKnown(kind: Kind, h: History, id: int, a: Auction, countdown: int)
    requires kind != ExpireCheck && kind != BidAccepted
    requires id in h.lives && Lawful(h.lives[id], countdown) && Measured(h.lives[id], countdown)
    requires a.id == id && SnapshotOf(a) == SnapshotOfHash(Current(h.lives[id], countdown))
    ensures SoupInv({Write(a), Message(NewEvent(kind, a, map[]))}, h, countdown)
  {
    hide Nearest;
    CurrentSnapshotKnown(h, id, a, countdown);
    CarriedMessageKnown(kind, a, h, countdown);
    BothKnown(Write(a), Message(NewEvent(kind, a, map[])), h, countdown);
  }

  lemma BidRecordKnown(l: Life, q: BidRequest, e: Event, now: int, countdown: int)
    requires l.bids != [] && l.bids[|l.bids| - 1] == Bid(q.userId, q.price, q.request, q.recordId, q.now, q.clock)
    requires MeasuredBid(l.bids[|l.bids| - 1], countdown)
    requires e.auctionId == l.start.auctionId && e.shopId == l.start.shopId && e.roomId == l.start.roomId
    requires Int64FromData(e.data, BidRecordId) == Double(Double(q.recordId))
    requires Int64FromData(e.data, UserId) == Double(q.userId)
    requires Int64FromData(e.data, BidPrice) == Double(q.price)
    requires Int64FromData(e.data, BidTime) == Double(q.now / 1000)
    requires Int64FromData(e.data, GoodsId) == Double(l.start.goodsId)
    ensures BidRecordFromEvent(e, now) == Some(ReplayedRecord(l, l.bids[|l.bids| - 1]))
  {
    hide Nearest;
    DoubleTwice(q.recordId);
    SmallIsExact(q.price);
    SmallIsExact(q.now / 1000);
  }

  /** What the consumer reads from the entries a bid event adds. */
  lemma DeliveredExtras(a: Auction, s: State, q: BidRequest)
    ensures var d := Delivered(NewEvent(BidAccepted, a, BidExtra(s, q))).data;
            && Int64FromData(d, BidRecordId) == Double(Double(q.recordId))
            && Int64FromData(d, UserId) == Double(q.userId)
            && Int64FromData(d, BidPrice) == Double(q.price)
            && Int64FromData(d, BidTime) == Double(q.now / 1000)
            && Int64FromData(d, GoodsId) == Double(a.goodsId)
  {
    var e, base, x := NewEvent(BidAccepted, a, BidExtra(s, q)), SnapshotEventData(a), BidExtra(s, q);
    SnapshotEntries(a);
    hide Double, Delivered, SnapshotEventData, MergeEventData;
    DeliveredField(e, base, x, BidRecordId);
    DeliveredField(e, base, x, UserId);
    DeliveredField(e, base, x, BidPrice);
    DeliveredField(e, base, x, BidTime);
    DeliveredField(e, base, x, GoodsId);
  }

  /** The life right after an accepted bid, and the state the script answers with. */
  ghost predicate JustBidden(l: Life, q: BidRequest, s: State, countdown: int) {
    && Lawful(l, countdown) && Measured(l, countdown) && l.end.None?
    && l.bids != [] && l.bids[|l.bids| - 1] == Bid(q.userId, q.price, q.request, q.recordId, q.now, q.clock)
    && s == StateFromMap(Current(l, countdown))
  }

  /** The entries a bid event repeats agree with its snapshot. */
  lemma BidExtraAgrees(s: State, q: BidRequest)
    ensures var base, extra := SnapshotEventData(AuctionFromState(s)), BidExtra(s, q);
            forall k :: k in extra && k in base ==> extra[k] == base[k]
  {
    hide Nearest;
    SnapshotEntries(AuctionFromState(s));
  }

  lemma BidSnapshotKnown(h: History, id: int, q: BidRequest, s: State, countdown: int)
    requires id in h.lives && h.lives[id].start.auctionId == id && JustBidden(h.lives[id], q, s, countdown)
    ensures var e := Delivered(NewEvent(BidAccepted, AuctionFromState(s), BidExtra(s, q)));
            SnapshotKnown(AuctionFromEvent(e), h, countdown)
  {
    hide Nearest;
    var a := AuctionFromState(s);
    CurrentInClosedForm(h.lives[id], countdown);
    CurrentSnapshotKnown(h, id, a, countdown);
    BidExtraAgrees(s, q);
    DeliveredSnapshot(BidAccepted, a, BidExtra(s, q));
    SameSnapshotKnown(AuctionFromEvent(Delivered(NewEvent(BidAccepted, a, BidExtra(s, q)))), a, h, countdown);
  }

  lemma SameSnapshotKnown(a: Auction, b: Auction, h: History, countdown: int)
    requires SnapshotKnown(b, h, countdown) && a.id == b.id && SnapshotOf(a) == SnapshotOf(b)
    ensures SnapshotKnown(a, h, countdown)
  {
    assert SnapshotOf(a).status == SnapshotOf(b).status;
  }

  lemma BidEventRecordKnown(h: History, id: int, q: BidRequest, s: State, now: int, countdown: int)
    requires id in h.lives && h.lives[id].start.auctionId == id && JustBidden(h.lives[id], q, s, countdown)
    ensures var r := BidRecordFromEvent(Delivered(NewEvent(BidAccepted, AuctionFromState(s), BidExtra(s, q))), now);
            r.Some? && RecordKnown(r.value, h.lives)
  {
    hide Nearest;
    var l, a := h.lives[id], AuctionFromState(s);
    CurrentInClosedForm(l, countdown);
    DeliveredExtras(a, s, q);
    assert MeasuredBid(l.bids[|l.bids| - 1], countdown);
    var e := Delivered(NewEvent(BidAccepted, a, BidExtra(s, q)));
    BidRecordKnown(l, q, e, now, countdown);
    assert RecordOf(BidRecordFromEvent(e, now).value, l, |l.bids| - 1);
  }

  lemma BidEventKnown(h: History, id: int, q: BidRequest, s: State, countdown: int)
    requires id in h.lives && h.lives[id].start.auctionId == id && JustBidden(h.lives[id], q, s, countdown)
    ensures ItemKnown(Message(NewEvent(BidAccepted, AuctionFromState(s), BidExtra(s, q))), h, countdown)
  {
    hide JustBidden, SnapshotKnown, RecordKnown, AuctionFromEvent, BidRecordFromEvent;
    hide BidExtra, AuctionFromState, NewEvent, Delivered;
    DeliveredHeader(BidAccepted, AuctionFromState(s), BidExtra(s, q));
    BidSnapshotKnown(h, id, q, s, countdown);
    var e := Delivered(NewEvent(BidAccepted, AuctionFromState(s), BidExtra(s, q)));
    forall now
      ensures BidRecordFromEvent(e, now).Some? && RecordKnown(BidRecordFromEvent(e, now).value, h.lives)
    {
      BidEventRecordKnown(h, id, q, s, now, countdown);
    }
  }

  lemma CheckKnown(h: History, id: int, q: BidRequest, s: State, countdown: int)
    requires id in h.lives && h.lives[id].start.auctionId == id && JustBidden(h.lives[id], q, s, countdown)
    ensures ItemKnown(Message(NewEvent(ExpireCheck, AuctionFromState(s), map[ExpireAt := s.expireAt])), h, countdown)
  {
    hide Double;
    var l, a := h.lives[id], AuctionFromState(s);
    CurrentInClosedForm(l, countdown);
    assert MeasuredBid(l.bids[|l.bids| - 1], countdown);
    hide Lawful, Measured, SnapshotEventData, AuctionFromEvent, BidRecordFromEvent, SnapshotKnown, RecordKnown;
    SmallIsExact(s.expireAt);
    var raw := NewEvent(ExpireCheck, a, map[ExpireAt := s.expireAt]);
    DeliveredField(raw, SnapshotEventData(a), map[ExpireAt := s.expireAt], ExpireAt);
    assert Int64FromData(Delivered(raw).data, ExpireAt) == s.expireAt;
  }

  lemma BidItemsKnown(h: History, id: int, q: BidRequest, s: State, countdown: int)
    requires id in h.lives && h.lives[id].start.auctionId == id && JustBidden(h.lives[id], q, s, countdown)
    ensures SoupInv(BidItems(s, q), h, countdown)
  {
    hide Nearest;
    var l, a := h.lives[id], AuctionFromState(s);
    CurrentInClosedForm(l, countdown);
    CurrentSnapshotKnown(h, id, a, countdown);
    assert RecordOf(HandlerRecord(s, q), l, |l.bids| - 1);
    var r, e := Record(HandlerRecord(s, q)), Message(NewEvent(BidAccepted, a, BidExtra(s, q)));
    var c, w := Message(NewEvent(ExpireCheck, a, map[ExpireAt := s.expireAt])), Write(a);
    BidEventKnown(h, id, q, s, countdown);
    CheckKnown(h, id, q, s, countdown);
    BothKnown(r, e, h, countdown);
    BothKnown(c, w, h, countdown);
    assert BidItems(s, q) == {r, e} + {c, w};
  }
}
