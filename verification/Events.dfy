/** The messages the service publishes, their way through JSON, and what the consumer reads out of them. */
module Events {
  import opened Prelude
  import opened Doubles
  import opened Auctions

  datatype Kind = Started | BidAccepted | AuctionFinished | AuctionFailed | AuctionCancelled | ExpireCheck

  /** The keys of an event's data that somebody reads. */
  datatype Key =
    | GoodsId | ShopId | RoomId | StartPrice | BidIncrement | CurrentPrice | BidCount | StatusCode
    | StartTime | EndTime | WinnerUserId | DealPrice | SealPrice
    | BidRecordId | UserId | BidPrice | BidTime | ServerTime | ExpireAt

  type Data = map<Key, int>

  datatype Event = Event(kind: Kind, auctionId: int, shopId: int, roomId: int, version: int, data: Data)

  function SnapshotEventData(a: Auction): Data {
    map[
      GoodsId := a.goodsId, ShopId := a.shopId, RoomId := a.roomId,
      StartPrice := a.startPrice, BidIncrement := a.bidIncrement,
      CurrentPrice := a.currentPrice, BidCount := a.bidCount, StatusCode := a.status,
      StartTime := OrElse(a.startTime, 0), EndTime := OrElse(a.endTime, 0),
      WinnerUserId := OrElse(a.winnerUserId, 0), DealPrice := OrElse(a.dealPrice, 0),
      SealPrice := OrElse(a.sealPrice, 0)]
  }

  function MergeEventData(base: Data, extra: Data): Data {
    base + extra
  }

  function NewEvent(kind: Kind, a: Auction, extra: Data): Event {
    Event(kind, a.id, a.shopId, a.roomId, a.version, MergeEventData(SnapshotEventData(a), extra))
  }

  predicate Says(d: Data, key: Key, value: int) {
    key in d && d[key] == value
  }

  /** The event announces the auction in the state of the hash: typed fields and every column, 0 for what is missing. */
  predicate Tells(e: Event, kind: Kind, h: Hash) {
    && e.kind == kind && e.auctionId == h.auctionId && e.shopId == h.shopId && e.roomId == h.roomId
    && e.version == h.version
    && Says(e.data, GoodsId, h.goodsId) && Says(e.data, ShopId, h.shopId) && Says(e.data, RoomId, h.roomId)
    && Says(e.data, StartPrice, h.startPrice) && Says(e.data, BidIncrement, h.bidIncrement)
    && Says(e.data, CurrentPrice, h.currentPrice) && Says(e.data, BidCount, h.bidCount)
    && Says(e.data, StatusCode, h.status) && Says(e.data, StartTime, h.startTime) && Says(e.data, EndTime, h.endTime)
    && Says(e.data, WinnerUserId, if h.winnerUserId > 0 then h.winnerUserId else 0)
    && Says(e.data, DealPrice, if h.status == DEAL then h.currentPrice else 0)
    && Says(e.data, SealPrice, if h.sealPrice > 0 then h.sealPrice else 0)
  }

  /** Exactly one event was published, and it tells this state. */
  predicate Published(before: seq<Event>, after: seq<Event>, kind: Kind, h: Hash) {
    |after| == |before| + 1 && after[..|before|] == before && Tells(after[|before|], kind, h)
  }

  /** The event of a decoded hash, next to extra entries that agree with it. */
  lemma EventTells(kind: Kind, h: Hash, extra: Data)
    requires var base := SnapshotEventData(AuctionFromState(StateFromMap(h)));
             forall k :: k in extra && k in base ==> extra[k] == base[k]
    ensures Tells(NewEvent(kind, AuctionFromState(StateFromMap(h)), extra), kind, h)
  {
    var a := AuctionFromState(StateFromMap(h));
    var base, e := SnapshotEventData(a), NewEvent(kind, a, extra);
    SnapshotEntries(a);
    assert forall k :: k in base ==> k in e.data && e.data[k] == base[k];
  }

  /** The typed fields and some columns of an event that carries a row. */
  lemma RowIsSaid(kind: Kind, a: Auction)
    ensures var e := NewEvent(kind, a, map[]);
            && e.kind == kind && e.auctionId == a.id && e.version == a.version
            && Says(e.data, StatusCode, a.status)
            && Says(e.data, StartTime, OrElse(a.startTime, 0)) && Says(e.data, EndTime, OrElse(a.endTime, 0))
  {
    SnapshotEntries(a);
    assert forall k :: k in SnapshotEventData(a) ==> Says(NewEvent(kind, a, map[]).data, k, SnapshotEventData(a)[k]);
  }

  lemma ExtraIsSaid(kind: Kind, a: Auction, extra: Data)
    ensures forall k :: k in extra ==> Says(NewEvent(kind, a, extra).data, k, extra[k])
  {
  }

  /** Unmarshalling keeps the typed fields and turns every number of the data into a double. */
  function Delivered(e: Event): Event {
    e.(data := map k | k in e.data :: Double(e.data[k]))
  }

  function Int64FromData(data: Data, key: Key): int {
    if key in data then data[key] else 0
  }

  function AuctionFromEvent(e: Event): Auction {
    Auction(
      e.auctionId, Int64FromData(e.data, GoodsId), e.shopId, e.roomId,
      Int64FromData(e.data, StartPrice), Int64FromData(e.data, BidIncrement),
      Positive(Int64FromData(e.data, SealPrice)), Int64FromData(e.data, CurrentPrice),
      Positive(Int64FromData(e.data, DealPrice)), Int64FromData(e.data, BidCount),
      Int64FromData(e.data, StatusCode),
      Positive(Int64FromData(e.data, StartTime)), Positive(Int64FromData(e.data, EndTime)),
      Positive(Int64FromData(e.data, WinnerUserId)), e.version, false)
  }

  /** The audit row of a bid event; without a bid time the time of receipt stands in. */
  function BidRecordFromEvent(e: Event, received: int): Option<BidRecord> {
    var id := Int64FromData(e.data, BidRecordId);
    if id <= 0 then None else
      var seconds := Int64FromData(e.data, BidTime);
      Some(BidRecord(
             id, e.auctionId, Int64FromData(e.data, GoodsId), e.shopId, e.roomId,
             Int64FromData(e.data, UserId), Int64FromData(e.data, BidPrice),
             if seconds <= 0 then received else seconds * 1000))
  }

  /** The value is absent, or positive and a double. */
  predicate Carried(x: Option<int>) {
    x.Some? ==> x.value > 0 && Representable(x.value)
  }

  /** The columns a snapshot writes come through the message unharmed. */
  predicate SnapshotCarried(a: Auction) {
    && Representable(a.currentPrice) && Representable(a.bidCount) && Representable(a.status)
    && Carried(a.dealPrice) && Carried(a.startTime) && Carried(a.endTime) && Carried(a.winnerUserId)
  }

  function DoubledOption(x: Option<int>): Option<int> {
    Positive(Double(OrElse(x, 0)))
  }

  /** What the consumer sees of an auction: every number of the data as a double. */
  function Doubled(a: Auction): Auction {
    Auction(
      a.id, Double(a.goodsId), a.shopId, a.roomId,
      Double(a.startPrice), Double(a.bidIncrement), DoubledOption(a.sealPrice), Double(a.currentPrice),
      DoubledOption(a.dealPrice), Double(a.bidCount), Double(a.status),
      DoubledOption(a.startTime), DoubledOption(a.endTime), DoubledOption(a.winnerUserId), a.version, false)
  }

  /** Extra entries do not disturb the snapshot as long as they agree with it. */
  lemma DeliveredAuction(kind: Kind, a: Auction, extra: Data)
    requires forall k :: k in extra && k in SnapshotEventData(a) ==> extra[k] == SnapshotEventData(a)[k]
    ensures AuctionFromEvent(Delivered(NewEvent(kind, a, extra))) == Doubled(a)
  {
    var base, e := SnapshotEventData(a), NewEvent(kind, a, extra);
    forall k | k in base
      ensures Int64FromData(Delivered(e).data, k) == Double(base[k])
    {
      DeliveredField(e, base, extra, k);
    }
    SnapshotEntries(a);
  }

  /** The typed fields are not touched on the way. */
  lemma DeliveredHeader(kind: Kind, a: Auction, extra: Data)
    ensures var e := Delivered(NewEvent(kind, a, extra));
            && e.kind == kind && e.auctionId == a.id && e.version == a.version
            && e.shopId == a.shopId && e.roomId == a.roomId
  {
  }

  /** An entry comes through as a double; extra entries go before those of the snapshot. */
  lemma DeliveredField(e: Event, base: Data, extra: Data, key: Key)
    requires e.data == MergeEventData(base, extra) && (key in base || key in extra)
    ensures Int64FromData(Delivered(e).data, key) == Double(if key in extra then extra[key] else base[key])
  {
    hide Double;
    assert key in e.data;
  }

  lemma SnapshotEntries(a: Auction)
    ensures var d := SnapshotEventData(a);
            && (forall k :: k in {GoodsId, StartPrice, BidIncrement, CurrentPrice, BidCount, StatusCode} ==> k in d)
            && (forall k :: k in {StartTime, EndTime, WinnerUserId, DealPrice, SealPrice} ==> k in d)
            && d[GoodsId] == a.goodsId && d[StartPrice] == a.startPrice && d[BidIncrement] == a.bidIncrement
            && d[CurrentPrice] == a.currentPrice && d[BidCount] == a.bidCount && d[StatusCode] == a.status
            && d[StartTime] == OrElse(a.startTime, 0) && d[EndTime] == OrElse(a.endTime, 0)
            && d[WinnerUserId] == OrElse(a.winnerUserId, 0) && d[DealPrice] == OrElse(a.dealPrice, 0)
            && d[SealPrice] == OrElse(a.sealPrice, 0)
  {
  }

  /** Publishing an auction and reading it back gives the same auction exactly when its numbers are doubles. */
  lemma EventRoundTrip(kind: Kind, a: Auction)
    ensures var back := AuctionFromEvent(Delivered(NewEvent(kind, a, map[])));
            && (SnapshotOf(back) == SnapshotOf(a) <==> SnapshotCarried(a))
            && (back == a.(deleted := false) <==>
                  && SnapshotCarried(a) && Carried(a.sealPrice)
                  && Representable(a.goodsId) && Representable(a.startPrice) && Representable(a.bidIncrement))
  {
    DeliveredAuction(kind, a, map[]);
    OptionalField(a.dealPrice);
    OptionalField(a.startTime);
    OptionalField(a.endTime);
    OptionalField(a.winnerUserId);
    OptionalField(a.sealPrice);
  }

  /** The snapshot survives next to extra entries, too. */
  lemma DeliveredSnapshot(kind: Kind, a: Auction, extra: Data)
    requires forall k :: k in extra && k in SnapshotEventData(a) ==> extra[k] == SnapshotEventData(a)[k]
    requires SnapshotCarried(a)
    ensures var back := AuctionFromEvent(Delivered(NewEvent(kind, a, extra)));
            back.id == a.id && SnapshotOf(back) == SnapshotOf(a)
  {
    hide Nearest;
    DeliveredAuction(kind, a, extra);
    OptionalField(a.dealPrice);
    OptionalField(a.startTime);
    OptionalField(a.endTime);
    OptionalField(a.winnerUserId);
  }

  lemma OptionalField(x: Option<int>)
    ensures DoubledOption(x) == x <==> Carried(x)
  {
    SmallIsExact(0);
  }

  /** Numbers up to 2^53 always come through. */
  lemma SmallSnapshotIsCarried(a: Auction)
    requires -EXACT <= a.currentPrice <= EXACT && -EXACT <= a.bidCount <= EXACT && -EXACT <= a.status <= EXACT
    requires a.dealPrice.Some? ==> 0 < a.dealPrice.value <= EXACT
    requires a.startTime.Some? ==> 0 < a.startTime.value <= EXACT
    requires a.endTime.Some? ==> 0 < a.endTime.value <= EXACT
    requires Carried(a.winnerUserId)
    ensures SnapshotCarried(a)
  {
    SmallIsExact(a.currentPrice);
    SmallIsExact(a.bidCount);
    SmallIsExact(a.status);
    SmallIsExact(OrElse(a.dealPrice, 0));
    SmallIsExact(OrElse(a.startTime, 0));
    SmallIsExact(OrElse(a.endTime, 0));
  }
}
