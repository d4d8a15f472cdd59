/** The records of the auction service: Redis hash, run-time state, database rows. */
module Auctions {
  import opened Prelude

  const PENDING := 0
  const RUNNING := 1
  const DEAL := 2
  const FAILED := 3
  const CANCELLED := 4

  const DAY_MILLIS := 86400000

  /** The hash `auction:<id>:state`; times are Unix milliseconds, 0 stands for "no seal price" and "no winner". */
  datatype Hash = Hash(
    auctionId: int, goodsId: int, shopId: int, roomId: int,
    startPrice: int, bidIncrement: int, sealPrice: int, currentPrice: int,
    bidCount: int, status: int, startTime: int, endTime: int,
    winnerUserId: int, expireAt: int, version: int)

  /** `AuctionState`: what the service works with after decoding a hash or a script reply. */
  datatype State = State(
    auctionId: int, goodsId: int, shopId: int, roomId: int,
    startPrice: int, bidIncrement: int, sealPrice: Option<int>, currentPrice: int,
    bidCount: int, status: int, startTime: int, endTime: int,
    winnerUserId: Option<int>, expireAt: int, version: int)

  /** A row of the table `auction`. */
  datatype Auction = Auction(
    id: int, goodsId: int, shopId: int, roomId: int,
    startPrice: int, bidIncrement: int, sealPrice: Option<int>, currentPrice: int,
    dealPrice: Option<int>, bidCount: int, status: int,
    startTime: Option<int>, endTime: Option<int>, winnerUserId: Option<int>,
    version: int, deleted: bool)

  /** A row of the table `bid_record`. */
  datatype BidRecord = BidRecord(
    id: int, auctionId: int, goodsId: int, shopId: int, roomId: int,
    userId: int, bidPrice: int, bidTime: int)

  function Positive(x: int): Option<int> {
    if x > 0 then Some(x) else None
  }

  function OrElse(x: Option<int>, default: int): int {
    match x
    case Some(v) => v
    case None => default
  }

  /** Decodes the full hash, as a read of the state does. */
  function StateFromMap(h: Hash): State {
    State(h.auctionId, h.goodsId, h.shopId, h.roomId,
          h.startPrice, h.bidIncrement, Positive(h.sealPrice), h.currentPrice,
          h.bidCount, h.status, h.startTime, h.endTime,
          Positive(h.winnerUserId), h.expireAt, h.version)
  }

  /** Decodes the first fifteen values of a script's reply. */
  function StateFromScript(values: seq<int>): State
    requires |values| >= 15
  {
    State(values[0], values[1], values[2], values[3],
          values[4], values[5], Positive(values[6]), values[7],
          values[8], values[9], values[10], values[11],
          Positive(values[12]), values[14], values[13])
  }

  /** The row a state stands for; a concluded deal is priced at the current price. */
  function AuctionFromState(s: State): Auction {
    Auction(s.auctionId, s.goodsId, s.shopId, s.roomId,
            s.startPrice, s.bidIncrement, s.sealPrice, s.currentPrice,
            if s.status == DEAL then Some(s.currentPrice) else None,
            s.bidCount, s.status, Some(s.startTime), Some(s.endTime),
            s.winnerUserId, s.version, false)
  }

  /** The columns that `UpdateStatusSnapshot` writes. */
  datatype Snapshot = Snapshot(
    currentPrice: int, dealPrice: Option<int>, bidCount: int, status: int,
    startTime: Option<int>, endTime: Option<int>, winnerUserId: Option<int>, version: int)

  function SnapshotOf(a: Auction): Snapshot {
    Snapshot(a.currentPrice, a.dealPrice, a.bidCount, a.status, a.startTime, a.endTime, a.winnerUserId, a.version)
  }

  function SnapshotOfHash(h: Hash): Snapshot {
    SnapshotOf(AuctionFromState(StateFromMap(h)))
  }

  /** The hash that starting an auction loads; a missing end lies a day after the start. */
  function LoadedHash(a: Auction, now: int): Hash {
    var startTime := OrElse(a.startTime, now);
    var endTime := OrElse(a.endTime, startTime + DAY_MILLIS);
    Hash(a.id, a.goodsId, a.shopId, a.roomId,
         a.startPrice, a.bidIncrement, OrElse(a.sealPrice, 0), a.currentPrice,
         a.bidCount, RUNNING, startTime, endTime,
         OrElse(a.winnerUserId, 0), endTime, a.version)
  }

  /** Loading a started auction and reading the state back gives the same row exactly when this holds. */
  predicate Loadable(a: Auction) {
    && a.status == RUNNING && a.dealPrice == None && !a.deleted
    && a.startTime.Some? && a.endTime.Some?
    && (a.sealPrice.Some? ==> a.sealPrice.value > 0)
    && (a.winnerUserId.Some? ==> a.winnerUserId.value > 0)
  }

  lemma LoadedReadsBack(a: Auction, now: int)
    ensures AuctionFromState(StateFromMap(LoadedHash(a, now))) == a <==> Loadable(a)
  {
    var b := AuctionFromState(StateFromMap(LoadedHash(a, now)));
    assert b.sealPrice == a.sealPrice <==> (a.sealPrice.Some? ==> a.sealPrice.value > 0);
    assert b.winnerUserId == a.winnerUserId <==> (a.winnerUserId.Some? ==> a.winnerUserId.value > 0);
  }
}
