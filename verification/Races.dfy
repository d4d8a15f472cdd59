/**
 What goes wrong outside the assumptions of the protocol, and what the protocol itself allows,
 by example: every state below is reachable. The exact conditions are in other modules.
 */
module Races {
  import opened Prelude
  import opened Doubles
  import opened Auctions
  import opened RedisScripts
  import opened Lives
  import opened RedisInvariant
  import opened Events
  import opened Tables
  import opened Protocol
  import opened SystemInvariant
  import opened Theorems
  import opened Clocks
  import opened Deliveries
  import opened ShownPrice
  import opened Reloads
  import opened FallingPrices
  import IdGenerator

  const ROW := Auction(1, 11, 12, 13, 100, 10, None, 100, None, 0, PENDING, None, Some(9000000), None, 0, false)

  /** What a start at 1000000 loads. */
  const LOADED := Hash(1, 11, 12, 13, 100, 10, 0, 100, 0, RUNNING, 1000000, 9000000, 0, 9000000, 1)

  /** The auction has been created and loaded, and nothing else has happened; the row still says Pending. */
  function Opened(): System {
    System(AfterLoad(EMPTY, LOADED), History(map[1 := Life(LOADED, [], None)], {}, {ROW}), map[1 := ROW], map[],
           StartItems(StartedAuction(ROW, 1000000)), 0)
  }

  function Created(): System {
    System(EMPTY, History(map[], {}, {ROW}), map[1 := ROW], map[], {}, 0)
  }

  lemma CreatedIsReachable(countdown: int)
    ensures Reachable(Created(), countdown)
  {
    Beginning(countdown);
    OneStepFurther(INITIAL, Create(ROW), countdown);
    assert Apply(INITIAL, Create(ROW), countdown) == Created();
  }

  lemma OpenedIsReachable(countdown: int)
    ensures Reachable(Opened(), countdown)
  {
    CreatedIsReachable(countdown);
    hide Reachable, StartItems;
    assert LoadedHash(StartedAuction(ROW, 1000000), 1000000) == LOADED;
    OneStepFurther(Created(), Start(ROW, 1000000), countdown);
    assert Apply(Created(), Start(ROW, 1000000), countdown) == Opened();
  }

  const BID := BidRequest(1, 13, 5, 110, "r", 7, 1000500, 0)
  const LATER_BID := BidRequest(1, 13, 6, 120, "s", 8, 1000400, 0)

  /** The countdown leaves the expiry of both bids in the exact range. */
  predicate Usual(countdown: int) {
    0 <= countdown <= DAY_MILLIS
  }

  lemma BidIsAccepted()
    ensures BidVerdict(Opened().redis, BID) == None
  {
    SmallIsExact(0);
    SmallIsExact(5);
    SmallIsExact(13);
  }

  /** An accepted bid is a step of the protocol, and joins the life of its auction. */
  lemma BidIsAStep(s: System, q: BidRequest, countdown: int)
    requires Reachable(s, countdown) && Enabled(s, PlaceBid(q), countdown)
    requires BidVerdict(s.redis, q) == None && q.auctionId in s.history.lives
    ensures Reachable(WithBid(s, q, countdown), countdown)
    ensures var l, h := s.history.lives[q.auctionId], WithBid(s, q, countdown).history;
            h.lives == s.history.lives[q.auctionId := Extended(l, q)]
  {
    OneStepFurther(s, PlaceBid(q), countdown);
    hide Nearest, NewEvent, AfterBid, BidVerdict, Reachable;
  }

  lemma BiddenIsReachable(countdown: int)
    requires Usual(countdown)
    ensures Reachable(WithBid(Opened(), BID, countdown), countdown)
    ensures var h := WithBid(Opened(), BID, countdown).history;
            1 in h.lives && h.lives[1] == Life(LOADED, [Bid(5, 110, "r", 7, 1000500, 0)], None)
  {
    BidIsAccepted();
    OpenedIsReachable(countdown);
    hide Nearest, NewEvent, WithBid, BidVerdict, Reachable, StartItems;
    BidIsAStep(Opened(), BID, countdown);
  }

  /**
   A start can be repeated while the row still says Pending, be it by a race or because the first
   handler died before its write. The second load wipes the bids accepted since the first: the
   version falls and the leaderboard names a bidder the hash does not know.
   */
  lemma SecondStartForgetsBids(countdown: int)
    requires Usual(countdown)
    ensures var bidden := WithBid(Opened(), BID, countdown);
            && Reachable(bidden, countdown) && 1 in bidden.auctions && bidden.auctions[1].status == PENDING
            && 1 in bidden.redis.states && bidden.redis.states[1].version == 2 && bidden.redis.states[1].bidCount == 1
            && var again := LateStart(bidden, ROW, 1000600);
               && 1 in again.redis.states && again.redis.states[1].status == RUNNING
               && again.redis.states[1].version == 1 && again.redis.states[1].bidCount == 0
               && RankOf(again.redis, 1) == map[5 := 110]
               && !Explained(again, countdown)
  {
    BidIsAccepted();
    BiddenIsReachable(countdown);
    var bidden := WithBid(Opened(), BID, countdown);
    SmallIsExact(5);
    hide Nearest, NewEvent, Reachable, Explained, BidVerdict;
    LateStartIsExplainedIff(bidden, ROW, 1000600, countdown);
  }

  /**
   If the handler of a start dies after the load, the row stays pending; a cancel then says so in the
   table, while the auction goes on in Redis and takes bids.
   */
  lemma CancelMissesLoadedAuction(countdown: int)
    ensures var cancelled := LateCancel(Opened(), ROW, 1000100);
            && Reachable(Opened(), countdown)
            && 1 in cancelled.auctions && cancelled.auctions[1].status == CANCELLED
            && 1 in cancelled.redis.states && cancelled.redis.states[1].status == RUNNING
            && BidVerdict(cancelled.redis, BID) == None
            && !Explained(cancelled, countdown)
  {
    OpenedIsReachable(countdown);
    BidIsAccepted();
    hide Nearest, NewEvent, Reachable, Explained;
    LateCancelIsExplainedIff(Opened(), ROW, 1000100, countdown);
  }

  /** The auction has been created and cancelled. */
  function Cancelled(): System {
    WithCancel(Created(), CancelledRow(ROW, 1000100))
  }

  lemma CancelledIsReachable(countdown: int)
    ensures Reachable(Cancelled(), countdown)
  {
    CreatedIsReachable(countdown);
    hide Reachable, NewEvent;
    OneStepFurther(Created(), CancelPending(ROW, 1000100), countdown);
  }

  lemma CancellationIsUnderWay(s: System, a: Auction)
    requires Message(NewEvent(AuctionCancelled, a, map[])) in s.soup && SnapshotCarried(a)
    ensures UnderWay(s, a.id, SnapshotOf(a))
  {
    var m := Message(NewEvent(AuctionCancelled, a, map[]));
    DeliveredSnapshot(AuctionCancelled, a, map[]);
    hide NewEvent, Delivered, AuctionFromEvent, SnapshotOf, SnapshotCarried;
    DeliveredHeader(AuctionCancelled, a, map[]);
    assert Brings(m, a.id, SnapshotOf(a));
  }

  /**
   A start and a cancel of one auction both read it pending; the cancel is through before the start
   loads. The row says Cancelled, Redis runs, and two different snapshots of version 1 are on their
   way, so that their order decides.
   */
  lemma StartRacesPendingCancel(countdown: int)
    ensures var t, x, y := LateStart(Cancelled(), ROW, 1000200), SnapshotOf(StartedAuction(ROW, 1000200)),
                           SnapshotOf(CancelledRow(ROW, 1000100));
            && Reachable(Cancelled(), countdown) && ROW in Cancelled().history.drafts
            && 1 in t.auctions && t.auctions[1].status == CANCELLED
            && 1 in t.redis.states && t.redis.states[1].status == RUNNING
            && UnderWay(t, 1, x) && UnderWay(t, 1, y) && x.version == y.version == 1
            && !OrderIndependent(ROW, [x, y])
            && !Explained(t, countdown)
  {
    CancelledIsReachable(countdown);
    var s, a, b := Cancelled(), StartedAuction(ROW, 1000200), CancelledRow(ROW, 1000100);
    hide Reachable, NewEvent, Explained;
    LateStartIsExplainedIff(s, ROW, 1000200, countdown);
    var t := LateStart(s, ROW, 1000200);
    WriteIsUnderWay(t, a);
    SmallSnapshotIsCarried(b);
    CancellationIsUnderWay(t, b);
    TwoNewestDisagree(ROW, SnapshotOf(a), SnapshotOf(b));
  }

  lemma TwoNewestDisagree(row: Auction, x: Snapshot, y: Snapshot)
    requires !row.deleted && row.version < x.version == y.version && x != y
    ensures !OrderIndependent(row, [x, y])
  {
    var ws := [x, y];
    assert Newest(row, ws, x) && Newest(row, ws, y);
    ConvergesIffNewestAgree(row, ws);
  }

  lemma BiddenCount(countdown: int)
    ensures var r := WithBid(Opened(), BID, countdown).redis; 1 in r.states && r.states[1].bidCount == 1
    ensures WithBid(Opened(), BID, countdown).clock == 0
  {
    BidIsAccepted();
    hide Nearest, NewEvent, BidVerdict;
  }

  lemma LaterBidIsEnabled(s: System, countdown: int)
    requires Usual(countdown) && 1 in s.redis.states && s.redis.states[1].bidCount == 1 && s.clock == 0
    ensures Enabled(s, PlaceBid(LATER_BID), countdown)
  {
  }

  lemma BiddenTwiceIsReachable(countdown: int) returns (s: System)
    requires Usual(countdown)
    ensures Reachable(s, countdown) && 1 in s.history.lives
    ensures s.history.lives[1] == Life(LOADED, [Bid(5, 110, "r", 7, 1000500, 0), Bid(6, 120, "s", 8, 1000400, 0)], None)
  {
    BiddenIsReachable(countdown);
    BiddenCount(countdown);
    LaterBidIsAccepted(countdown);
    var bidden := WithBid(Opened(), BID, countdown);
    LaterBidIsEnabled(bidden, countdown);
    hide *;
    BidIsAStep(bidden, LATER_BID, countdown);
    s := WithBid(bidden, LATER_BID, countdown);
  }

  /** A second bid stamped earlier than the first: some run with these two bids has the auction overdue and unseen. */
  lemma BackwardClockHidesOverdue(countdown: int)
    requires Usual(countdown)
    ensures var bids := [Bid(5, 110, "r", 7, 1000500, 0), Bid(6, 120, "s", 8, 1000400, 0)];
            CanHide(1, Life(LOADED, bids, None), countdown)
  {
    var s := BiddenTwiceIsReachable(countdown);
    hide Reachable;
    HiddenIffClockRanBack(s, 1, countdown);
    assert s.history.lives[1].bids[0].now > s.history.lives[1].bids[1].now;
  }

  lemma LaterBidIsAccepted(countdown: int)
    ensures BidVerdict(WithBid(Opened(), BID, countdown).redis, LATER_BID) == None
  {
    BidIsAccepted();
    SmallIsExact(0);
    SmallIsExact(5);
    SmallIsExact(6);
    SmallIsExact(13);
    assert (1, "s") != (1, "r") by {
      assert "s"[0] != "r"[0];
    }
    hide NewEvent;
  }

  const DEARER := Update(None, Some(50), None, None, None)

  /** The row of a loaded auction is still pending, so an edit is accepted that Redis never sees. */
  lemma EditRacesStart(countdown: int)
    ensures Enabled(Opened(), Configure(ROW, DEARER), countdown)
    ensures var edited := Apply(Opened(), Configure(ROW, DEARER), countdown);
            && Reachable(edited, countdown)
            && 1 in edited.auctions && edited.auctions[1].bidIncrement == 50
            && 1 in edited.redis.states && MinBid(edited.redis.states[1]) == 110
            && NextBidPrice(edited.redis.states[1].currentPrice, 50, edited.auctions[1].sealPrice) == 150
            && !ShowsLeast(edited.auctions[1], edited.redis.states[1])
  {
    hide NewEvent, StartItems;
    OpenedIsReachable(countdown);
    OneStepFurther(Opened(), Configure(ROW, DEARER), countdown);
    var edited := Apply(Opened(), Configure(ROW, DEARER), countdown);
    RulesDecidePrice(edited.auctions[1], edited.redis.states[1]);
  }

  /** The row of a loaded auction can be deleted before its first snapshot; the auction goes on without it. */
  lemma DeletionMissesLoadedAuction(countdown: int)
    ensures Enabled(Opened(), Delete(1, 12), countdown)
    ensures var s := Apply(Opened(), Delete(1, 12), countdown);
            && Reachable(s, countdown)
            && 1 in s.auctions && s.auctions[1].deleted
            && 1 in s.redis.states && s.redis.states[1].status == RUNNING
  {
    hide NewEvent, StartItems;
    OpenedIsReachable(countdown);
    OneStepFurther(Opened(), Delete(1, 12), countdown);
  }

  // ---- a price that falls ----

  /** A row with a seal price, the edit that raises the start price alone past it, and the row after that. */
  const SEALED := ROW.(sealPrice := Some(150))
  const RAISE := Update(Some(200), None, None, None, None)
  const RAISED := SEALED.(startPrice := 200, currentPrice := 200)

  lemma RaisedIsReachable(countdown: int) returns (s: System)
    ensures Reachable(s, countdown) && RAISED in s.history.drafts && s.redis == EMPTY
    ensures 1 !in s.history.lives && 1 !in s.history.withdrawn
  {
    Beginning(countdown);
    OneStepFurther(INITIAL, Create(SEALED), countdown);
    var created := Apply(INITIAL, Create(SEALED), countdown);
    hide Reachable;
    assert Edited(SEALED, RAISE) == Some(RAISED);
    OneStepFurther(created, Configure(SEALED, RAISE), countdown);
    s := Apply(created, Configure(SEALED, RAISE), countdown);
  }

  /** After the edit the auction starts at 200, and a bid of 150 lets the price fall. */
  lemma RaisedStartLetsPriceFall(countdown: int) returns (s: System)
    requires Usual(countdown)
    ensures Reachable(s, countdown) && 1 in s.redis.states && s.redis.states[1].status == RUNNING
    ensures s.redis.states[1].currentPrice == 200 && s.redis.states[1].sealPrice == 150
    ensures CanFall(s, 1, countdown)
  {
    var raised := RaisedIsReachable(countdown);
    hide Reachable, StartItems, CanFall;
    OneStepFurther(raised, Start(RAISED, 1000000), countdown);
    s := Apply(raised, Start(RAISED, 1000000), countdown);
    var h := s.redis.states[1];
    assert h.startTime <= 1000000 <= h.endTime && Sane(1000000 / 1000) && Sane(1000000 + countdown);
    PriceFallsInSomeRunIff(s, 1, countdown);
  }

  // ---- an audit row that is lost ----

  /** The first two record numbers of one millisecond. */
  function RecordNumber(sequence: int): int {
    IdGenerator.Memory(0, IdGenerator.EPOCH_MILLIS + 0x10_0000_0000, sequence).Packed()
  }

  function BidOf(userId: int, price: int, request: string, sequence: int): BidRequest {
    BidRequest(1, 13, userId, price, request, RecordNumber(sequence), 1000500, 0)
  }

  const FIRST := BidOf(5, 110, "r", 0)
  const SECOND := BidOf(6, 120, "s", 1)

  lemma NumbersMeet()
    ensures RecordNumber(0) > 0 && RecordNumber(1) > 0 && Double(RecordNumber(0)) == Double(RecordNumber(1))
  {
    IdGenerator.SameMilliCanMeet(0, IdGenerator.EPOCH_MILLIS + 0x10_0000_0000);
  }

  lemma FirstIsAccepted()
    ensures BidVerdict(Opened().redis, FIRST) == None
  {
    SmallIsExact(0);
    SmallIsExact(5);
    SmallIsExact(13);
    hide RecordNumber;
  }

  lemma SecondIsAccepted(countdown: int)
    ensures BidVerdict(WithBid(Opened(), FIRST, countdown).redis, SECOND) == None
  {
    FirstIsAccepted();
    SmallIsExact(0);
    SmallIsExact(5);
    SmallIsExact(6);
    SmallIsExact(13);
    assert (1, "s") != (1, "r") by {
      assert "s"[0] != "r"[0];
    }
    hide NewEvent, RecordNumber;
  }

  function BidPlaced(q: BidRequest): Bid {
    Bid(q.userId, q.price, q.request, q.recordId, q.now, q.clock)
  }

  /** Auction 1 is the only one, and no audit row has been written. */
  ghost predicate OnlyBids(s: System, bids: seq<Bid>, countdown: int) {
    Reachable(s, countdown) && s.records == map[] && s.history.lives == map[1 := Life(LOADED, bids, None)]
  }

  lemma BidJoins(s: System, bids: seq<Bid>, q: BidRequest, countdown: int)
    requires OnlyBids(s, bids, countdown) && q.auctionId == 1
    requires Enabled(s, PlaceBid(q), countdown) && BidVerdict(s.redis, q) == None
    ensures var t := WithBid(s, q, countdown);
            && OnlyBids(t, bids + [BidPlaced(q)], countdown) && s.soup <= t.soup
            && Record(HandlerRecord(Reply(s, q, countdown), q)) in t.soup
  {
    hide BidVerdict, Enabled, Reachable, Reply, HandlerRecord;
    BidIsAStep(s, q, countdown);
    BidLeavesBoth(s, q, countdown);
    OnlyRedisMoves(s, q, countdown);
    hide WithBid;
  }

  lemma OnlyRedisMoves(s: System, q: BidRequest, countdown: int)
    ensures WithBid(s, q, countdown).records == s.records && s.soup <= WithBid(s, q, countdown).soup
  {
    hide BidVerdict, AfterBid, BidItems;
  }

  lemma FirstIsEnabled(countdown: int)
    requires Usual(countdown)
    ensures Enabled(Opened(), PlaceBid(FIRST), countdown)
  {
    NumbersMeet();
    hide StartItems, RecordNumber;
  }

  lemma FirstCount(countdown: int)
    ensures var s := WithBid(Opened(), FIRST, countdown);
            1 in s.redis.states && s.redis.states[1].bidCount == 1 && s.clock == 0
  {
    FirstIsAccepted();
    hide Nearest, NewEvent, BidVerdict, RecordNumber;
  }

  lemma SecondIsEnabled(s: System, countdown: int)
    requires Usual(countdown) && 1 in s.redis.states && s.redis.states[1].bidCount == 1 && s.clock == 0
    ensures Enabled(s, PlaceBid(SECOND), countdown)
  {
    NumbersMeet();
    hide RecordNumber;
  }

  /** The handler's record is carried to the table. */
  lemma RecordIsWritten(s: System, r: BidRecord, countdown: int)
    requires Reachable(s, countdown) && Record(r) in s.soup
    ensures Reachable(s.(records := AfterRecord(s.records, r)), countdown)
  {
    hide Reachable;
    OneStepFurther(s, WriteRecord(Record(r)), countdown);
  }

  lemma BothAreWritten(s: System, bids: seq<Bid>, r1: BidRecord, r2: BidRecord, countdown: int) returns (t: System)
    requires OnlyBids(s, bids, countdown) && Record(r1) in s.soup && Record(r2) in s.soup && r1.id == r2.id
    ensures Reachable(t, countdown) && t.history == s.history && t.records == map[r1.id := r1]
  {
    hide Reachable;
    RecordIsWritten(s, r1, countdown);
    t := s.(records := AfterRecord(s.records, r1));
    RecordIsWritten(t, r2, countdown);
    t := t.(records := AfterRecord(t.records, r2));
  }

  lemma LostRow(s: System, first: Bid, second: Bid, r: BidRecord, countdown: int)
    requires Reachable(s, countdown) && s.history.lives == map[1 := Life(LOADED, [first, second], None)]
    requires Double(first.recordId) == Double(second.recordId) && first.price != second.price
    requires s.records == map[Double(first.recordId) := r]
    ensures AllFiled(s) && Distinguishable(s.history.lives[1]) && !RecordsApart(s.history.lives) && !AllOwn(s)
  {
    hide Reachable, Double, AllOwn;
    assert !ApartAt(s.history.lives, 1, 0, 1, 1);
    OwnRowsIffApart(s, countdown);
  }

  /** Both handlers have written their records; the second write found the number taken, and its row is lost. */
  lemma SecondRowIsLost(countdown: int) returns (s: System)
    requires Usual(countdown)
    ensures Reachable(s, countdown) && 1 in s.history.lives
    ensures s.history.lives[1].bids == [BidPlaced(FIRST), BidPlaced(SECOND)]
    ensures AllFiled(s) && Distinguishable(s.history.lives[1]) && !RecordsApart(s.history.lives) && !AllOwn(s)
    ensures Double(SECOND.recordId) in s.records && s.records[Double(SECOND.recordId)].userId == FIRST.userId == 5
  {
    OpenedIsReachable(countdown);
    FirstIsAccepted();
    FirstIsEnabled(countdown);
    assert OnlyBids(Opened(), [], countdown);
    BidJoins(Opened(), [], FIRST, countdown);
    FirstCount(countdown);
    SecondIsAccepted(countdown);
    NumbersMeet();
    hide Nearest, NewEvent, BidVerdict, Reachable, WithBid, RecordNumber, Opened, Enabled, OnlyBids, AllFiled, AllOwn,
         RecordsApart, Distinguishable, Reply;
    var once := WithBid(Opened(), FIRST, countdown);
    SecondIsEnabled(once, countdown);
    assert [] + [BidPlaced(FIRST)] == [BidPlaced(FIRST)];
    BidJoins(once, [BidPlaced(FIRST)], SECOND, countdown);
    s := SecondIsRefused(once, countdown);
  }

  lemma SecondIsRefused(once: System, countdown: int) returns (s: System)
    requires BidVerdict(Opened().redis, FIRST) == None && once == WithBid(Opened(), FIRST, countdown)
    requires Record(HandlerRecord(Reply(Opened(), FIRST, countdown), FIRST)) in once.soup
    requires BidVerdict(once.redis, SECOND) == None
    requires var twice := WithBid(once, SECOND, countdown);
             && OnlyBids(twice, [BidPlaced(FIRST)] + [BidPlaced(SECOND)], countdown) && once.soup <= twice.soup
             && Record(HandlerRecord(Reply(once, SECOND, countdown), SECOND)) in twice.soup
    ensures Reachable(s, countdown) && 1 in s.history.lives
    ensures s.history.lives[1].bids == [BidPlaced(FIRST), BidPlaced(SECOND)]
    ensures AllFiled(s) && Distinguishable(s.history.lives[1]) && !RecordsApart(s.history.lives) && !AllOwn(s)
    ensures Double(SECOND.recordId) in s.records && s.records[Double(SECOND.recordId)].userId == FIRST.userId == 5
  {
    NumbersMeet();
    hide Nearest, BidVerdict, Reachable, WithBid, RecordNumber, Opened, AllFiled, AllOwn, RecordsApart, Distinguishable,
         Reply;
    var twice := WithBid(once, SECOND, countdown);
    var bids := [BidPlaced(FIRST)] + [BidPlaced(SECOND)];
    var r1 := HandlerRecord(Reply(Opened(), FIRST, countdown), FIRST);
    var r2 := HandlerRecord(Reply(once, SECOND, countdown), SECOND);
    s := BothAreWritten(twice, bids, r1, r2, countdown);
    assert bids == [BidPlaced(FIRST), BidPlaced(SECOND)];
    LostRow(s, BidPlaced(FIRST), BidPlaced(SECOND), r1, countdown);
  }
}
