/** What holds in every reachable state, and along every run, of the service. */
module Theorems {
  import opened Prelude
  import opened Doubles
  import opened Auctions
  import opened RedisScripts
  import opened Lives
  import opened RedisInvariant
  import opened Events
  import IdGenerator
  import opened Tables
  import opened Protocol
  import opened SystemInvariant
  import opened StepProofs

  // ---- the hash and its history ----

  /**
   For every interleaving the hash is a function of what was loaded, the accepted bids (their
   number and the last of them) and the end. Neighbouring bids come from different bidders.
   */
  lemma HashIsItsHistory(s: System, id: int, countdown: int)
    requires Reachable(s, countdown) && id in s.redis.states
    ensures id in s.history.lives
    ensures var l, h := s.history.lives[id], s.redis.states[id];
            && h == Current(l, countdown)
            // all other columns are as they were loaded
            && h == l.start.(bidCount := h.bidCount, version := h.version, currentPrice := h.currentPrice,
                             status := h.status, winnerUserId := h.winnerUserId,
                             endTime := h.endTime, expireAt := h.expireAt)
            && h.bidCount == |l.bids|
            && h.version == l.start.version + |l.bids| + (if l.end.Some? then 1 else 0)
            && (l.bids == [] ==> h.currentPrice == l.start.startPrice && h.winnerUserId == 0)
            && (l.bids != [] ==>
                  && h.currentPrice == l.bids[|l.bids| - 1].price
                  && h.winnerUserId == Double(l.bids[|l.bids| - 1].userId))
            && (l.end.None? ==> h.status == RUNNING && h.endTime == l.start.endTime)
            && (l.end.None? ==>
                  h.expireAt == if l.bids == [] then l.start.endTime else l.bids[|l.bids| - 1].now + countdown)
            && (l.end.Some? ==> h.endTime == h.expireAt == l.end.value.now)
            && (l.end.Some? && l.end.value.exit == Withdrawn ==> h.status == CANCELLED)
            && (l.end.Some? && l.end.value.exit != Withdrawn ==> h.status == if l.bids != [] then DEAL else FAILED)
            && (forall i :: 0 < i < |l.bids| ==> Double(l.bids[i - 1].userId) != Double(l.bids[i].userId))
  {
    ReachableKeeps(s, countdown);
    var l := s.history.lives[id];
    CurrentInClosedForm(l, countdown);
    forall i | 0 < i < |l.bids|
      ensures Double(l.bids[i - 1].userId) != Double(l.bids[i].userId)
    {
      BidRule(l, i, countdown);
    }
  }

  /** An ended auction never changes again, whoever still acts on it: exactly one step ends it. */
  lemma EndedStaysEnded(s: System, steps: seq<Step>, id: int, countdown: int)
    requires Reachable(s, countdown) && Possible(s, steps, countdown)
    requires id in s.redis.states && s.redis.states[id].status != RUNNING
    ensures var s' := Outcome(s, steps, countdown);
            id in s'.redis.states && s'.redis.states[id] == s.redis.states[id]
  {
    ReachableKeeps(s, countdown);
    StatusOfLife(s.redis, s.history.lives, id, countdown);
    RunKeeps(s, steps, countdown);
  }

  lemma FiledUnderItsNumber(s: System, id: int, countdown: int)
    requires Reachable(s, countdown) && id in s.redis.states
    ensures id in s.history.lives && s.redis.states[id].auctionId == id
  {
    ReachableKeeps(s, countdown);
    HashOf(s, id, countdown);
    LifeOf(s, id, countdown);
    CurrentInClosedForm(s.history.lives[id], countdown);
  }

  /** A running auction can be finished by hand at any time, and is a deal exactly if somebody has bid. */
  lemma RunningCanBeFinished(s: System, id: int, now: int, countdown: int)
    requires Reachable(s, countdown) && id in s.redis.states && s.redis.states[id].status == RUNNING && Sane(now)
    ensures Enabled(s, FinishManually(id, now), countdown) && id in s.history.lives
    ensures var h, r := s.redis.states[id], Apply(s, FinishManually(id, now), countdown);
            && r.redis.states == s.redis.states[id := h.(
                 version := h.version + 1, status := if h.bidCount > 0 then DEAL else FAILED,
                 endTime := now, expireAt := now)]
            && id !in r.redis.expireIndex && h.roomId !in r.redis.roomCurrent
            && r.history.lives == s.history.lives[id := s.history.lives[id].(end := Some(Ending(Finished, now)))]
  {
    FiledUnderItsNumber(s, id, countdown);
    hide Reachable, Ended;
    EndLeaves(s, id, Finished, now);
  }

  /** A running auction can be cancelled at any time, with or without bids. */
  lemma RunningCanBeCancelled(s: System, id: int, now: int, countdown: int)
    requires Reachable(s, countdown) && id in s.redis.states && s.redis.states[id].status == RUNNING && Sane(now)
    ensures Enabled(s, Cancel(id, now), countdown) && id in s.history.lives
    ensures var h, r := s.redis.states[id], Apply(s, Cancel(id, now), countdown);
            && r.redis.states == s.redis.states[id := h.(
                 version := h.version + 1, status := CANCELLED, endTime := now, expireAt := now)]
            && id !in r.redis.expireIndex && h.roomId !in r.redis.roomCurrent
            && r.history.lives == s.history.lives[id := s.history.lives[id].(end := Some(Ending(Withdrawn, now)))]
  {
    FiledUnderItsNumber(s, id, countdown);
    hide Reachable, Ended;
    EndLeaves(s, id, Withdrawn, now);
  }

  lemma EndLeaves(s: System, id: int, exit: Exit, now: int)
    requires id in s.redis.states && s.redis.states[id].auctionId == id && id in s.history.lives
    ensures var h, r := s.redis.states[id], Ended(s, id, exit, now);
            && r.redis.states == s.redis.states[id := h.(
                 version := h.version + 1,
                 status := if exit == Withdrawn then CANCELLED else if h.bidCount > 0 then DEAL else FAILED,
                 endTime := now, expireAt := now)]
            && id !in r.redis.expireIndex && h.roomId !in r.redis.roomCurrent
            && r.history.lives == s.history.lives[id := s.history.lives[id].(end := Some(Ending(exit, now)))]
  {
    hide Nearest, NewEvent;
  }

  /** What a scanner has read as overdue was so at that version. */
  lemma ReadAsOverdue(s: System, finish: Item, countdown: int)
    requires Reachable(s, countdown) && finish in s.soup && finish.Finish?
    ensures finish.id in s.history.lives && finish.id in s.redis.states && finish.expireAt <= finish.now
    ensures var h := s.redis.states[finish.id];
            h.status == RUNNING && h.version == finish.version ==> h.expireAt == finish.expireAt
  {
    ReachableKeeps(s, countdown);
    ItemOf(s, finish, countdown);
    HashOf(s, finish.id, countdown);
    var l := s.history.lives[finish.id];
    hide Inv, Reachable, StageKnown, Reads;
    StageOrLater(s.redis.states[finish.id], l, finish.version, finish.expireAt, countdown);
  }

  /** What a scanner has read as overdue it times out if nothing has changed it since, and leaves alone otherwise. */
  lemma OverdueAuctionsTimeOut(s: System, finish: Item, countdown: int)
    requires Reachable(s, countdown) && finish in s.soup && finish.Finish? && Sane(finish.now)
    ensures Enabled(s, TryFinish(finish), countdown) && finish.id in s.redis.states
    ensures var h, r := s.redis.states[finish.id], Apply(s, TryFinish(finish), countdown).redis;
            if h.status == RUNNING && h.version == finish.version then
              r.states == s.redis.states[finish.id := h.(
                version := h.version + 1, status := if h.bidCount > 0 then DEAL else FAILED,
                endTime := finish.now, expireAt := finish.now)]
            else r == s.redis
  {
    ReadAsOverdue(s, finish, countdown);
    FiledUnderItsNumber(s, finish.id, countdown);
    hide Reachable, Ended;
    if Expires(s.redis, finish.id, finish.version, finish.expireAt, finish.now) {
      EndLeaves(s, finish.id, TimedOut, finish.now);
    }
  }

  /** Prices and countdown of a live auction, read off its hash. */
  lemma PriceAndExpiryInRange(s: System, id: int, countdown: int)
    requires Reachable(s, countdown) && countdown >= 0
    requires id in s.redis.states && s.redis.states[id].status == RUNNING
    requires s.redis.states[id].sealPrice == 0 || s.redis.states[id].startPrice <= s.redis.states[id].sealPrice
    ensures var h := s.redis.states[id];
            var floor := h.startPrice + h.bidCount * h.bidIncrement;
            && h.currentPrice >= (if h.sealPrice > 0 && floor > h.sealPrice then h.sealPrice else floor)
            && (h.sealPrice > 0 ==> h.currentPrice <= h.sealPrice)
            && h.expireAt <= h.endTime + countdown
  {
    ReachableKeeps(s, countdown);
    LifeOf(s, id, countdown);
    HashOf(s, id, countdown);
    var l := s.history.lives[id];
    hide Inv, Reachable, RedisInv, Measured, Reads;
    CurrentInClosedForm(l, countdown);
    PriceFloor(l, |l.bids|, countdown);
    ExpiryIsBounded(l, countdown);
    hide Lawful, Current;
  }

  /** The greatest sum of a life. */
  lemma SumsOf(l: Life, countdown: int)
    requires Lawful(l, countdown) && Measured(l, countdown)
    ensures var h := Current(l, countdown);
            && 0 <= h.currentPrice <= EXACT / 2 && 0 <= h.bidIncrement <= EXACT / 2
            && 0 <= h.currentPrice + h.bidIncrement <= EXACT && 0 <= h.sealPrice <= EXACT
  {
    hide Nearest;
    CurrentInClosedForm(l, countdown);
    if l.bids != [] {
      assert MeasuredBid(l.bids[|l.bids| - 1], countdown);
    }
  }

  /** The sum the bid script forms, and the prices it compares with, are doubles in every reachable state. */
  lemma SumsAreExact(s: System, id: int, countdown: int)
    requires Reachable(s, countdown) && id in s.redis.states && s.redis.states[id].status == RUNNING
    ensures var h := s.redis.states[id];
            && Representable(h.currentPrice) && Representable(h.sealPrice)
            && Representable(h.currentPrice + h.bidIncrement)
  {
    hide Reachable, Representable, RedisInv, Lawful, Measured, Current;
    ReachableKeeps(s, countdown);
    LifeOf(s, id, countdown);
    hide Inv;
    var h := s.redis.states[id];
    SumsOf(s.history.lives[id], countdown);
    SmallIsExact(h.currentPrice);
    SmallIsExact(h.sealPrice);
    SmallIsExact(h.currentPrice + h.bidIncrement);
  }

  /** The sorted set of an auction names each bidder with their best price; the stored winner leads it. */
  lemma LeaderboardInRedis(s: System, id: int, countdown: int)
    requires Reachable(s, countdown) && id in s.redis.states
    ensures id in s.history.lives
    ensures var l, h, rank := s.history.lives[id], s.redis.states[id], RankOf(s.redis, id);
            && (forall u :: u in rank ==> Highest(l, |l.bids|, u, rank[u]) && rank[u] <= h.currentPrice)
            && (forall i :: 0 <= i < |l.bids| ==> Double(l.bids[i].userId) in rank)
            && (h.bidCount > 0 ==> h.winnerUserId in rank && rank[h.winnerUserId] == h.currentPrice)
  {
    ReachableKeeps(s, countdown);
    var l := s.history.lives[id];
    LeaderboardIsExact(l, countdown);
    CurrentInClosedForm(l, countdown);
  }

  // ---- rooms ----

  /** A room never has two running auctions, and points at the one it has. */
  lemma RoomsAreExclusive(s: System, id: int, other: int, countdown: int)
    requires Reachable(s, countdown)
    requires id in s.redis.states && s.redis.states[id].status == RUNNING
    requires other in s.redis.states && s.redis.states[other].status == RUNNING
    ensures s.redis.states[id].roomId in s.redis.roomCurrent && s.redis.roomCurrent[s.redis.states[id].roomId] == id
    ensures s.redis.states[id].roomId == s.redis.states[other].roomId ==> id == other
  {
    ReachableKeeps(s, countdown);
  }

  /** A room is free to load another auction exactly when none is running in it. */
  lemma RoomIsBusyWhileRunning(s: System, h: Hash, countdown: int)
    requires Reachable(s, countdown)
    ensures RoomBusy(s.redis, h) <==>
            exists id :: id in s.redis.states && id != h.auctionId &&
                         s.redis.states[id].status == RUNNING && s.redis.states[id].roomId == h.roomId
  {
    ReachableKeeps(s, countdown);
    if RoomBusy(s.redis, h) {
      assert Hosts(s.redis, h.roomId, s.redis.roomCurrent[h.roomId]);
    }
  }

  /** A room has a current auction exactly while that runs in it; in particular ended auctions leave none behind. */
  lemma CurrentAuctionsAreExact(s: System, room: int, id: int, countdown: int)
    requires Reachable(s, countdown)
    ensures (room in s.redis.roomCurrent && s.redis.roomCurrent[room] == id) <==>
            (id in s.redis.states && s.redis.states[id].status == RUNNING && s.redis.states[id].roomId == room)
  {
    ReachableKeeps(s, countdown);
    if room in s.redis.roomCurrent {
      assert Hosts(s.redis, room, s.redis.roomCurrent[room]);
    }
  }

  // ---- the expiry index ----

  /** No bid was stamped later than the last one by more than skew. */
  ghost predicate NoneLater(bids: seq<Bid>, skew: int) {
    forall i :: 0 <= i < |bids| ==> bids[i].now <= bids[|bids| - 1].now + skew
  }

  /**
   However scanners, consumers, handlers and bids interleave, a running auction is in the index;
   its score is the end time before the first bid, and later the expiry some bid has set, which is
   past the true one by at most as much as some bid was stamped later than the last.
   */
  lemma IndexIsSound(s: System, id: int, skew: int, countdown: int)
    requires Reachable(s, countdown)
    requires id in s.redis.states && s.redis.states[id].status == RUNNING
    ensures id in s.history.lives && id in s.redis.expireIndex
    ensures var bids, score, expireAt := s.history.lives[id].bids, s.redis.expireIndex[id], s.redis.states[id].expireAt;
            && (bids == [] ==> score == expireAt)
            && (bids != [] ==> expireAt == bids[|bids| - 1].now + countdown)
            && (bids != [] ==> exists i :: 0 <= i < |bids| && score == bids[i].now + countdown)
            && (bids != [] && NoneLater(bids, skew) ==> score <= expireAt + skew)
  {
    ReachableKeeps(s, countdown);
    StatusOfLife(s.redis, s.history.lives, id, countdown);
    CurrentInClosedForm(s.history.lives[id], countdown);
    assert ScoreFits(s.history.lives[id], s.redis.expireIndex[id], countdown);
  }

  /** As long as no bid was stamped later than the last one, an overdue auction is not hidden from a scan. */
  lemma NothingOverdueIsHidden(s: System, id: int, now: int, countdown: int)
    requires Reachable(s, countdown)
    requires id in s.redis.states && s.redis.states[id].status == RUNNING && s.redis.states[id].expireAt <= now
    requires id in s.history.lives ==> NoneLater(s.history.lives[id].bids, 0)
    ensures id in Due(s.redis, now)
  {
    IndexIsSound(s, id, 0, countdown);
  }

  /** What the scanner's drain assumes holds in every reachable state with such bid clocks. */
  lemma ScannerCanRely(s: System, now: int, countdown: int)
    requires Reachable(s, countdown)
    requires forall id :: id in s.history.lives && s.history.lives[id].end.None? ==>
               NoneLater(s.history.lives[id].bids, 0)
    ensures Filed(s.redis) && OverdueIsDue(s.redis, now)
  {
    ReachableKeeps(s, countdown);
    forall id | id in s.redis.states
      ensures s.redis.states[id].auctionId == id
      ensures s.redis.states[id].status == RUNNING <==> s.history.lives[id].end.None?
    {
      StatusOfLife(s.redis, s.history.lives, id, countdown);
    }
    forall id | id in s.redis.states && s.redis.states[id].status == RUNNING && s.redis.states[id].expireAt <= now
      ensures id in Due(s.redis, now)
    {
      NothingOverdueIsHidden(s, id, now, countdown);
    }
  }

  // ---- expire checks ----

  /** The hash is the stage that was asked about exactly if the life is still there. */
  lemma StageOrLater(h: Hash, l: Life, version: int, expireAt: int, countdown: int)
    requires StageKnown(l, version, expireAt, countdown) && Reads(h, l, countdown)
    ensures h.status == RUNNING && h.version == version <==> l.end.None? && version == l.start.version + |l.bids|
    ensures l.end.None? && version == l.start.version + |l.bids| ==> h.expireAt == expireAt
  {
  }

  /**
   A published check ends its auction exactly when the auction is still in the state the check was
   published for and that state's expiry has passed. Any later change makes it harmless.
   */
  lemma ChecksEndOnlyTheirOwnState(s: System, m: Item, now: int, countdown: int)
    requires Reachable(s, countdown)
    requires m in s.soup && m.Message? && m.event.kind == ExpireCheck
    ensures m.event.auctionId in s.history.lives
    ensures var e, l := Delivered(m.event), s.history.lives[m.event.auctionId];
            var expireAt := Int64FromData(e.data, ExpireAt);
            && (Expires(s.redis, e.auctionId, e.version, expireAt, now) <==>
                  l.end.None? && e.version == l.start.version + |l.bids| && expireAt <= now)
            && (l.end.None? && e.version == l.start.version + |l.bids| &&
                l.start.endTime + countdown <= now && countdown >= 0 ==>
                  Expires(s.redis, e.auctionId, e.version, expireAt, now))
  {
    ReachableKeeps(s, countdown);
    ItemOf(s, m, countdown);
    var e := Delivered(m.event);
    HashOf(s, e.auctionId, countdown);
    LifeOf(s, e.auctionId, countdown);
    var l := s.history.lives[e.auctionId];
    if l.end.None? && countdown >= 0 {
      ExpiryIsBounded(l, countdown);
    }
    hide Inv, Reachable, RedisInv, Lawful, Measured, Delivered, Current;
    StageOrLater(s.redis.states[e.auctionId], l, e.version, Int64FromData(e.data, ExpireAt), countdown);
  }

  // ---- snapshots and the table ----

  /** A snapshot of the auction is on its way to the table, directly or in an event. */
  ghost predicate UnderWay(s: System, id: int, x: Snapshot) {
    exists item :: item in s.soup && Brings(item, id, x)
  }

  ghost predicate Brings(item: Item, id: int, x: Snapshot) {
    || (item.Write? && item.auction.id == id && SnapshotOf(item.auction) == x)
    || (item.Message? && item.event.kind != ExpireCheck &&
        var a := AuctionFromEvent(Delivered(item.event)); a.id == id && SnapshotOf(a) == x)
  }

  lemma UnderWayIsFromLife(s: System, id: int, x: Snapshot, countdown: int)
    requires Inv(s, countdown) && id in s.history.lives && UnderWay(s, id, x)
    ensures FromLife(x, s.history.lives[id], countdown)
  {
    hide Nearest, AuctionFromEvent, SnapshotOf, FromLife, BidRecordFromEvent, RecordKnown, RedisInv, RecordsInv;
    var item :| item in s.soup && Brings(item, id, x);
    assert ItemKnown(item, s.history, countdown);
  }

  /**
   A snapshot in the columns of its life: so many bids, the price and the bidder of the last of them,
   the end if it is over. Only a deal has a deal price, and that is the price of the last bid.
   */
  ghost predicate Depicts(x: Snapshot, l: Life) {
    var k := x.version - l.start.version;
    && 0 <= k <= Stages(l)
    && x.bidCount == (if k <= |l.bids| then k else |l.bids|)
    && x.currentPrice == (if x.bidCount == 0 then l.start.startPrice else l.bids[x.bidCount - 1].price)
    && x.winnerUserId == (if x.bidCount == 0 then None else Some(Double(l.bids[x.bidCount - 1].userId)))
    && x.startTime == Some(l.start.startTime)
    && x.endTime == Some(if k <= |l.bids| then l.start.endTime else l.end.value.now)
    && x.status == (if k <= |l.bids| then RUNNING
                    else if l.end.value.exit == Withdrawn then CANCELLED
                    else if l.bids == [] then FAILED else DEAL)
    && x.dealPrice == if x.status == DEAL then Some(l.bids[|l.bids| - 1].price) else None
  }

  lemma FromLifeDepicts(x: Snapshot, l: Life, countdown: int)
    requires FromLife(x, l, countdown) && Lawful(l, countdown) && Measured(l, countdown)
    ensures Depicts(x, l)
  {
    hide Nearest;
    var k := x.version - l.start.version;
    var bids := if k <= |l.bids| then l.bids[..k] else l.bids;
    BiddenIsSummary(l.start, bids, countdown);
    if bids != [] {
      assert MeasuredBid(l.bids[|bids| - 1], countdown);
      DoublePositive(l.bids[|bids| - 1].userId);
    }
  }

  /** Every snapshot on its way to the table, written or carried by an event, depicts the life of its auction. */
  lemma SnapshotsDepictLives(s: System, id: int, x: Snapshot, countdown: int)
    requires Reachable(s, countdown) && id in s.history.lives && UnderWay(s, id, x)
    ensures Depicts(x, s.history.lives[id])
  {
    ReachableKeeps(s, countdown);
    UnderWayIsFromLife(s, id, x, countdown);
    LifeOf(s, id, countdown);
    hide *;
    FromLifeDepicts(x, s.history.lives[id], countdown);
  }

  lemma RowDepicts(row: Auction, l: Life, countdown: int)
    requires RowKnown(row, l, countdown) && Lawful(l, countdown) && Measured(l, countdown)
    ensures PendingRow(row) || Depicts(SnapshotOf(row), l)
  {
    hide FromLife, Lawful, Measured, Depicts, PendingRow;
    if !PendingRow(row) {
      FromLifeDepicts(SnapshotOf(row), l, countdown);
    }
  }

  /**
   In every reachable state the row of a started auction is pending still or depicts its life. A row
   says Deal exactly with the price of the last bid as its deal price, and no other row has one.
   */
  lemma RowsDepictLives(s: System, id: int, countdown: int)
    requires Reachable(s, countdown) && id in s.auctions && id in s.history.lives
    ensures var row, l := s.auctions[id], s.history.lives[id];
            && (PendingRow(row) ||
                Depicts(Snapshot(row.currentPrice, row.dealPrice, row.bidCount, row.status, row.startTime, row.endTime,
                                 row.winnerUserId, row.version), l))
            && (row.status == DEAL ==> l.bids != [] && row.dealPrice == Some(l.bids[|l.bids| - 1].price))
            && (row.status != DEAL ==> row.dealPrice == None)
  {
    ReachableKeeps(s, countdown);
    RowOf(s, id, countdown);
    LifeOf(s, id, countdown);
    hide Inv, RedisInv, Reachable, Lawful, Measured, FromLife, RowKnown;
    RowDepicts(s.auctions[id], s.history.lives[id], countdown);
  }

  lemma OnePerVersion(x: Snapshot, y: Snapshot, l: Life, countdown: int)
    requires FromLife(x, l, countdown) && FromLife(y, l, countdown)
    ensures x.version == y.version ==> x == y
  {
  }

  lemma PresentSnapshot(x: Snapshot, h: Hash, l: Life, countdown: int)
    requires FromLife(x, l, countdown) && h == Current(l, countdown) && Reads(h, l, countdown)
    ensures x.version == h.version ==> x == SnapshotOfHash(h)
  {
    hide StageKnown;
  }

  /** Whoever produced them and however they travel, two snapshots of one version are equal. */
  lemma VersionDeterminesSnapshot(s: System, id: int, x: Snapshot, y: Snapshot, countdown: int)
    requires Reachable(s, countdown) && id in s.history.lives
    requires UnderWay(s, id, x) && UnderWay(s, id, y) && x.version == y.version
    ensures x == y
    ensures id in s.redis.states
    ensures x.version == s.redis.states[id].version ==> x == SnapshotOfHash(s.redis.states[id])
  {
    ReachableKeeps(s, countdown);
    UnderWayIsFromLife(s, id, x, countdown);
    UnderWayIsFromLife(s, id, y, countdown);
    LifeOf(s, id, countdown);
    HashOf(s, id, countdown);
    hide *;
    OnePerVersion(x, y, s.history.lives[id], countdown);
    PresentSnapshot(x, s.redis.states[id], s.history.lives[id], countdown);
  }

  /** Whatever selection of the snapshots under way reaches the row, in whatever order: the newest decides. */
  lemma SelectionsConverge(s: System, id: int, ws: seq<Snapshot>, countdown: int)
    requires Reachable(s, countdown) && id in s.history.lives && id in s.auctions && !s.auctions[id].deleted
    requires forall x :: x in ws ==> UnderWay(s, id, x)
    ensures OrderIndependent(s.auctions[id], ws)
    ensures forall x :: Newest(s.auctions[id], ws, x) ==> Written(s.auctions[id], ws) == WithSnapshot(s.auctions[id], x)
  {
    var row := s.auctions[id];
    forall x, y | Newest(row, ws, x) && Newest(row, ws, y)
      ensures x == y
    {
      assert x.version <= y.version && y.version <= x.version;
      VersionDeterminesSnapshot(s, id, x, y, countdown);
    }
    ConvergesIffNewestAgree(row, ws);
  }

  lemma StepRaisesVersions(s: System, step: Step, id: int, countdown: int)
    requires Inv(s, countdown) && Enabled(s, step, countdown) && id in s.auctions
    ensures var s' := Apply(s, step, countdown);
            id in s'.auctions && s.auctions[id].version <= s'.auctions[id].version
  {
    hide Nearest, Inv;
  }

  lemma {:induction false} VersionsRise(s: System, steps: seq<Step>, id: int, countdown: int)
    requires Inv(s, countdown) && Possible(s, steps, countdown) && id in s.auctions
    ensures var s' := Outcome(s, steps, countdown);
            id in s'.auctions && s.auctions[id].version <= s'.auctions[id].version
    decreases |steps|
  {
    if steps != [] {
      StepRaisesVersions(s, steps[0], id, countdown);
      StepKeeps(s, steps[0], countdown);
      VersionsRise(Apply(s, steps[0], countdown), steps[1..], id, countdown);
    }
  }

  /** The version of a row never falls, and the row of a started auction always shows a state its life went through. */
  lemma RowVersionNeverFalls(s: System, steps: seq<Step>, id: int, countdown: int)
    requires Reachable(s, countdown) && Possible(s, steps, countdown) && id in s.auctions
    ensures var s' := Outcome(s, steps, countdown);
            && id in s'.auctions && s.auctions[id].version <= s'.auctions[id].version
            && (id in s'.history.lives ==> RowKnown(s'.auctions[id], s'.history.lives[id], countdown))
  {
    ReachableKeeps(s, countdown);
    RunKeeps(s, steps, countdown);
    VersionsRise(s, steps, id, countdown);
  }

  /**
   A deleted row never says Running or Deal. If Redis holds the auction, the row shows Redis's state
   exactly if it was not pending: then it had failed or been cancelled. A pending row was deleted
   before its first snapshot, and the auction may be running or end in a deal all the same.
   */
  lemma DeletedRowShowsRedisIff(s: System, id: int, countdown: int)
    requires Reachable(s, countdown) && id in s.auctions && s.auctions[id].deleted
    ensures s.auctions[id].status != RUNNING && s.auctions[id].status != DEAL
    ensures id in s.redis.states ==>
              && id in s.history.lives
              && (SnapshotOf(s.auctions[id]) == SnapshotOfHash(s.redis.states[id]) <==>
                    s.auctions[id].status != PENDING)
              && (s.redis.states[id].status in {RUNNING, DEAL} ==> PendingRow(s.auctions[id]))
  {
    ReachableKeeps(s, countdown);
    if id in s.redis.states {
      CurrentInClosedForm(s.history.lives[id], countdown);
      if !PendingRow(s.auctions[id]) {
        EndIsLastStage(SnapshotOf(s.auctions[id]), s.history.lives[id], countdown);
      }
    }
  }

  /** Once the row has taken the final snapshot of an ended auction it shows Redis's state in every later state. */
  lemma FinalSnapshotSticks(s: System, steps: seq<Step>, id: int, countdown: int)
    requires Reachable(s, countdown) && Possible(s, steps, countdown)
    requires id in s.redis.states && s.redis.states[id].status != RUNNING
    requires id in s.auctions && s.auctions[id].version == s.redis.states[id].version
    ensures var s' := Outcome(s, steps, countdown);
            && id in s'.auctions && id in s'.redis.states
            && SnapshotOf(s'.auctions[id]) == SnapshotOfHash(s'.redis.states[id]) == SnapshotOfHash(s.redis.states[id])
  {
    ReachableKeeps(s, countdown);
    StatusOfLife(s.redis, s.history.lives, id, countdown);
    RunKeeps(s, steps, countdown);
    VersionsRise(s, steps, id, countdown);
    EndedStaysEnded(s, steps, id, countdown);
    RowShowsState(Outcome(s, steps, countdown), id, countdown);
  }

  lemma RowAtPresent(row: Auction, id: int, hash: Hash, h: History, countdown: int)
    requires RowFits(row, id, h, countdown) && id in h.lives
    requires hash == Current(h.lives[id], countdown) && Reads(hash, h.lives[id], countdown)
    requires row.version >= hash.version
    ensures SnapshotOf(row) == SnapshotOfHash(hash)
  {
    hide StageKnown;
  }

  /** A row that has caught up with Redis shows exactly its state. */
  lemma RowShowsState(s: System, id: int, countdown: int)
    requires Inv(s, countdown) && id in s.redis.states && id in s.auctions
    requires s.auctions[id].version >= s.redis.states[id].version
    ensures SnapshotOf(s.auctions[id]) == SnapshotOfHash(s.redis.states[id])
  {
    RowOf(s, id, countdown);
    LifeOf(s, id, countdown);
    HashOf(s, id, countdown);
    hide *;
    RowAtPresent(s.auctions[id], id, s.redis.states[id], s.history, countdown);
  }

  // ---- bid requests ----

  /**
   Every bid is judged, and joins the life of its auction exactly if it names the room, repeats no
   request of the last ten minutes, comes in time and from another bidder than the last one, and lies
   between the least price and the seal price.
   */
  lemma BidsJoinIff(s: System, q: BidRequest, countdown: int)
    requires Reachable(s, countdown) && InRange(q, countdown) && s.clock <= q.clock
    requires q.auctionId in s.redis.states ==> s.redis.states[q.auctionId].bidCount < EXACT
    ensures Enabled(s, PlaceBid(q), countdown)
    ensures var s' := Apply(s, PlaceBid(q), countdown);
            if && q.auctionId in s.redis.states
               && var h := s.redis.states[q.auctionId];
                  && Double(h.roomId) == Double(q.roomId)
                  && ((q.auctionId, q.request) in s.redis.markers ==>
                        q.clock >= s.redis.markers[(q.auctionId, q.request)])
                  && h.status == RUNNING && h.startTime <= q.now <= h.endTime
                  && Double(h.winnerUserId) != Double(q.userId)
                  && (q.price >= h.currentPrice + h.bidIncrement || (h.sealPrice > 0 && q.price >= h.sealPrice))
                  && (h.sealPrice > 0 ==> q.price <= h.sealPrice)
            then
              var bid := Bid(q.userId, q.price, q.request, q.recordId, q.now, q.clock);
              && q.auctionId in s.history.lives && s'.clock == q.clock
              && s'.history.lives == s.history.lives[q.auctionId :=
                   s.history.lives[q.auctionId].(bids := s.history.lives[q.auctionId].bids + [bid])]
            else
              s'.history == s.history && s'.soup == s.soup && s'.redis.states == s.redis.states
  {
    BidIsOfLoaded(s, q, countdown);
    VerdictInColumns(s.redis, q);
    hide Reachable, Double, BidItems, AfterBid, BidVerdict;
    if BidVerdict(s.redis, q).Some? {
      RejectedBidOnlyMarks(s.redis, q, countdown);
    }
  }

  lemma VerdictInColumns(r: Redis, q: BidRequest)
    ensures BidVerdict(r, q) == None <==>
              && q.auctionId in r.states
              && var h := r.states[q.auctionId];
                 && Double(h.roomId) == Double(q.roomId)
                 && ((q.auctionId, q.request) in r.markers ==> q.clock >= r.markers[(q.auctionId, q.request)])
                 && h.status == RUNNING && h.startTime <= q.now <= h.endTime
                 && Double(h.winnerUserId) != Double(q.userId)
                 && (q.price >= h.currentPrice + h.bidIncrement || (h.sealPrice > 0 && q.price >= h.sealPrice))
                 && (h.sealPrice > 0 ==> q.price <= h.sealPrice)
  {
    hide Double;
  }

  lemma BidIsOfLoaded(s: System, q: BidRequest, countdown: int)
    requires Reachable(s, countdown)
    ensures q.auctionId in s.redis.states <==> q.auctionId in s.history.lives
  {
    ReachableKeeps(s, countdown);
  }

  /** Bids are accepted in the order of the server's clock, and none later than it shows. */
  ghost predicate InServerTime(s: System) {
    forall id :: id in s.history.lives ==> BidsInServerTime(s.history.lives[id].bids, s.clock)
  }

  ghost predicate BidsInServerTime(bids: seq<Bid>, clock: int) {
    forall i, j :: 0 <= i <= j < |bids| ==> bids[i].clock <= bids[j].clock <= clock
  }

  lemma StepKeepsServerTime(s: System, step: Step, countdown: int)
    requires Enabled(s, step, countdown) && InServerTime(s)
    ensures InServerTime(Apply(s, step, countdown)) && s.clock <= Apply(s, step, countdown).clock
  {
    hide Nearest, NewEvent, AfterSnapshot, AfterRecord, AuctionFromEvent, BidRecordFromEvent, AfterBid, BidVerdict;
    hide AfterLoad, RoomBusy, LoadedHash, AfterEnd, Expires, Edited, BidItems, FinalItems, AuctionFromState;
  }

  /** Along every run the server's clock does not run back, and bids are accepted in its order. */
  lemma {:induction false} RunKeepsServerTime(s: System, steps: seq<Step>, countdown: int)
    requires Possible(s, steps, countdown) && InServerTime(s)
    ensures InServerTime(Outcome(s, steps, countdown)) && s.clock <= Outcome(s, steps, countdown).clock
    decreases |steps|
  {
    hide Enabled, Apply, InServerTime;
    if steps != [] {
      StepKeepsServerTime(s, steps[0], countdown);
      RunKeepsServerTime(Apply(s, steps[0], countdown), steps[1..], countdown);
    }
  }

  /** Two accepted bids of one request of one auction lie at least ten minutes of server time apart. */
  lemma RequestsAreIdempotent(s: System, id: int, i: nat, j: nat, countdown: int)
    requires Reachable(s, countdown) && id in s.history.lives && i < j < |s.history.lives[id].bids|
    requires s.history.lives[id].bids[i].request == s.history.lives[id].bids[j].request
    ensures s.history.lives[id].bids[j].clock >= s.history.lives[id].bids[i].clock + 600000
  {
    ReachableKeeps(s, countdown);
  }

  /** A turned-down bid changes nothing but its own request marker, and that exactly when it got past the marker. */
  lemma RejectedBidOnlyMarks(r: Redis, q: BidRequest, countdown: int)
    requires BidVerdict(r, q).Some?
    ensures AfterBid(r, q, countdown) == r.(markers := AfterBid(r, q, countdown).markers)
    ensures forall key :: key != (q.auctionId, q.request) ==>
              (key in AfterBid(r, q, countdown).markers <==> key in r.markers) &&
              (key in r.markers ==> AfterBid(r, q, countdown).markers[key] == r.markers[key])
    ensures Marked(AfterBid(r, q, countdown), q) <==>
              Marked(r, q) || BidVerdict(r, q).value !in {AuctionNotFound, RoomMismatch, DuplicateRequest}
  {
  }

  // ---- the audit log ----

  /** No two accepted bids' record numbers meet as doubles. */
  ghost predicate RecordsApart(lives: Ledger) {
    forall id, i, other, j :: ApartAt(lives, id, i, other, j)
  }

  predicate ApartAt(lives: Ledger, id: int, i: int, other: int, j: int) {
    id in lives && 0 <= i < |lives[id].bids| && other in lives && 0 <= j < |lives[other].bids| &&
    Double(lives[id].bids[i].recordId) == Double(lives[other].bids[j].recordId)
    ==> id == other && i == j
  }

  /** All record numbers come from one run of a generator, each from its own of the 2^41 milliseconds. */
  ghost predicate DrawnInOwnMillis(lives: Ledger, m: IdGenerator.Memory, calls: seq<seq<int>>)
    requires IdGenerator.ServesAll(m, calls)
  {
    && (forall id, i :: id in lives && 0 <= i < |lives[id].bids| ==>
          exists k :: 0 <= k < |calls| && Draws(m, calls, k, lives[id].bids[i].recordId))
    && (forall id, i, other, j ::
          (id in lives && 0 <= i < |lives[id].bids| && other in lives && 0 <= j < |lives[other].bids| &&
           IdGenerator.MilliOf(lives[id].bids[i].recordId) == IdGenerator.MilliOf(lives[other].bids[j].recordId))
          ==> id == other && i == j)
  }

  ghost predicate Draws(m: IdGenerator.Memory, calls: seq<seq<int>>, k: int, recordId: int)
    requires IdGenerator.ServesAll(m, calls) && 0 <= k < |calls|
  {
    && recordId == IdGenerator.Ids(m, calls)[k]
    && 0 <= IdGenerator.MilliOf(recordId) - IdGenerator.EPOCH_MILLIS < 0x200_0000_0000
  }

  lemma OwnMillisKeepPairApart(lives: Ledger, m: IdGenerator.Memory, calls: seq<seq<int>>,
                               id: int, i: int, other: int, j: int)
    requires m.Valid() && IdGenerator.ServesAll(m, calls) && DrawnInOwnMillis(lives, m, calls)
    ensures ApartAt(lives, id, i, other, j)
  {
    hide Double, IdGenerator.MilliOf;
    if !ApartAt(lives, id, i, other, j) {
      var k :| 0 <= k < |calls| && Draws(m, calls, k, lives[id].bids[i].recordId);
      var n :| 0 <= n < |calls| && Draws(m, calls, n, lives[other].bids[j].recordId);
      if k < n {
        IdGenerator.RoundingMeetsOnlyWithinAMilli(m, calls, k, n);
      } else if n < k {
        IdGenerator.RoundingMeetsOnlyWithinAMilli(m, calls, n, k);
      }
    }
  }

  /** A generator that serves every accepted bid from its own millisecond keeps the record numbers apart as doubles. */
  lemma OwnMillisKeepRecordsApart(lives: Ledger, m: IdGenerator.Memory, calls: seq<seq<int>>)
    requires m.Valid() && IdGenerator.ServesAll(m, calls) && DrawnInOwnMillis(lives, m, calls)
    ensures RecordsApart(lives)
  {
    hide Double, DrawnInOwnMillis, ApartAt;
    forall id, i, other, j
      ensures ApartAt(lives, id, i, other, j)
    {
      OwnMillisKeepPairApart(lives, m, calls, id, i, other, j);
    }
  }

  /** Every audit row belongs to an accepted bid and is filed under that bid's number as a double. */
  lemma RowsComeFromBids(s: System, key: int, countdown: int)
    requires Reachable(s, countdown) && key in s.records
    ensures exists i :: s.records[key].auctionId in s.history.lives &&
                        RecordOf(s.records[key], s.history.lives[s.records[key].auctionId], i) &&
                        key == Double(s.history.lives[s.records[key].auctionId].bids[i].recordId)
  {
    ReachableKeeps(s, countdown);
    assert RecordKnown(s.records[key], s.history.lives);
    var i :| s.records[key].auctionId in s.history.lives &&
             RecordOf(s.records[key], s.history.lives[s.records[key].auctionId], i);
  }

  /**
   The columns of an audit row are those of an accepted bid: its price always, its bidder and the goods
   exactly or, if the event filed it, as doubles, and its time to the millisecond or to the second.
   */
  lemma RowsShowTheirBids(s: System, key: int, countdown: int) returns (id: int, i: nat)
    requires Reachable(s, countdown) && key in s.records
    ensures id in s.history.lives && i < |s.history.lives[id].bids|
    ensures var r, l := s.records[key], s.history.lives[id];
            var b := l.bids[i];
            && r.id == key == Double(b.recordId) && r.auctionId == id == l.start.auctionId
            && r.shopId == l.start.shopId && r.roomId == l.start.roomId && r.bidPrice == b.price
            && ((r.goodsId == l.start.goodsId && r.userId == b.userId && r.bidTime == b.now) ||
                (r.goodsId == Double(l.start.goodsId) && r.userId == Double(b.userId) &&
                 r.bidTime == b.now - b.now % 1000))
  {
    ReachableKeeps(s, countdown);
    RowsComeFromBids(s, key, countdown);
    id := s.records[key].auctionId;
    i :| RecordOf(s.records[key], s.history.lives[id], i) && key == Double(s.history.lives[id].bids[i].recordId);
    LifeOf(s, id, countdown);
    hide Inv, Double, RedisInv, Lawful, Measured, Current;
  }

  /** With record numbers apart, the row under an accepted bid's number is that bid's own. */
  lemma RowIsTheBidsOwn(s: System, id: int, i: nat, countdown: int)
    requires Reachable(s, countdown) && RecordsApart(s.history.lives)
    requires id in s.history.lives && i < |s.history.lives[id].bids|
    requires Double(s.history.lives[id].bids[i].recordId) in s.records
    ensures RecordOf(s.records[Double(s.history.lives[id].bids[i].recordId)], s.history.lives[id], i)
  {
    var key := Double(s.history.lives[id].bids[i].recordId);
    RowsComeFromBids(s, key, countdown);
    var j :| s.records[key].auctionId in s.history.lives &&
             RecordOf(s.records[key], s.history.lives[s.records[key].auctionId], j) &&
             key == Double(s.history.lives[s.records[key].auctionId].bids[j].recordId);
    assert ApartAt(s.history.lives, s.records[key].auctionId, j, id, i);
  }

  /** Every accepted bid's number is on file. */
  ghost predicate AllFiled(s: System) {
    forall id, i :: id in s.history.lives && 0 <= i < |s.history.lives[id].bids| ==>
      Double(s.history.lives[id].bids[i].recordId) in s.records
  }

  /** Accepted bids of one auction differ in bidder, price or second. */
  ghost predicate Distinguishable(l: Life) {
    forall i, j :: 0 <= i < j < |l.bids| ==>
      || Double(l.bids[i].userId) != Double(l.bids[j].userId)
      || l.bids[i].price != l.bids[j].price
      || l.bids[i].now / 1000 != l.bids[j].now / 1000
  }

  ghost predicate AllOwn(s: System) {
    forall id, i :: id in s.history.lives && 0 <= i < |s.history.lives[id].bids| ==>
      Double(s.history.lives[id].bids[i].recordId) in s.records &&
      RecordOf(s.records[Double(s.history.lives[id].bids[i].recordId)], s.history.lives[id], i)
  }

  /** A row tells its bid up to bidder, price and second. */
  lemma RowTellsBid(r: BidRecord, l: Life, i: nat, l': Life, j: nat)
    requires RecordOf(r, l, i) && RecordOf(r, l', j)
    ensures l.start.auctionId == l'.start.auctionId && l.bids[i].price == l'.bids[j].price
    ensures Double(l.bids[i].userId) == Double(l'.bids[j].userId)
    ensures l.bids[i].now / 1000 == l'.bids[j].now / 1000
  {
    hide Nearest;
    DoubleTwice(l.bids[i].userId);
    DoubleTwice(l'.bids[j].userId);
  }

  lemma BidsDiffer(l: Life, i: nat, j: nat)
    requires Distinguishable(l) && i < |l.bids| && j < |l.bids|
    requires Double(l.bids[i].userId) == Double(l.bids[j].userId) && l.bids[i].price == l.bids[j].price
    requires l.bids[i].now / 1000 == l.bids[j].now / 1000
    ensures i == j
  {
    hide Double;
  }

  lemma OwnRow(s: System, id: int, i: nat)
    requires AllOwn(s) && id in s.history.lives && i < |s.history.lives[id].bids|
    ensures var key := Double(s.history.lives[id].bids[i].recordId);
            key in s.records && RecordOf(s.records[key], s.history.lives[id], i)
  {
    hide Double, RecordOf;
  }

  lemma OneBidPerRow(s: System, id: int, i: nat, other: int, j: nat, countdown: int)
    requires Inv(s, countdown) && AllOwn(s) && id in s.history.lives && other in s.history.lives
    requires i < |s.history.lives[id].bids| && j < |s.history.lives[other].bids|
    requires Double(s.history.lives[id].bids[i].recordId) == Double(s.history.lives[other].bids[j].recordId)
    requires Distinguishable(s.history.lives[id])
    ensures id == other && i == j
  {
    LifeOf(s, id, countdown);
    LifeOf(s, other, countdown);
    hide *;
    OwnRow(s, id, i);
    OwnRow(s, other, j);
    var key := Double(s.history.lives[id].bids[i].recordId);
    RowTellsBid(s.records[key], s.history.lives[id], i, s.history.lives[other], j);
    if id == other {
      BidsDiffer(s.history.lives[id], i, j);
    }
  }

  lemma PairIsApart(s: System, id: int, i: int, other: int, j: int, countdown: int)
    requires Inv(s, countdown) && AllOwn(s)
    requires id in s.history.lives ==> Distinguishable(s.history.lives[id])
    ensures ApartAt(s.history.lives, id, i, other, j)
  {
    hide AllOwn, Double, Inv, Distinguishable;
    if !ApartAt(s.history.lives, id, i, other, j) {
      OneBidPerRow(s, id, i, other, j, countdown);
    }
  }

  /** Where every bid has its own row, record numbers are apart. */
  lemma OwnRowsAreApart(s: System, countdown: int)
    requires Reachable(s, countdown) && AllOwn(s)
    requires forall id :: id in s.history.lives ==> Distinguishable(s.history.lives[id])
    ensures RecordsApart(s.history.lives)
  {
    ReachableKeeps(s, countdown);
    hide AllOwn, Reachable, Inv, Distinguishable, ApartAt;
    forall id, i, other, j
      ensures ApartAt(s.history.lives, id, i, other, j)
    {
      PairIsApart(s, id, i, other, j, countdown);
    }
  }

  /** Once all bids are filed, each has its own row exactly when no two record numbers meet as doubles. */
  lemma OwnRowsIffApart(s: System, countdown: int)
    requires Reachable(s, countdown) && AllFiled(s)
    requires forall id :: id in s.history.lives ==> Distinguishable(s.history.lives[id])
    ensures AllOwn(s) <==> RecordsApart(s.history.lives)
  {
    hide Double, RecordOf, Reachable, Distinguishable;
    if RecordsApart(s.history.lives) {
      forall id, i | id in s.history.lives && 0 <= i < |s.history.lives[id].bids|
        ensures RecordOf(s.records[Double(s.history.lives[id].bids[i].recordId)], s.history.lives[id], i)
      {
        RowIsTheBidsOwn(s, id, i, countdown);
      }
    }
    if AllOwn(s) {
      OwnRowsAreApart(s, countdown);
    }
  }

  /** The state the bid script answers with. */
  function Reply(s: System, q: BidRequest, countdown: int): State
    requires BidVerdict(s.redis, q) == None
  {
    StateFromMap(AfterBid(s.redis, q, countdown).states[q.auctionId])
  }

  function BidEvent(state: State, q: BidRequest): Event {
    NewEvent(BidAccepted, AuctionFromState(state), BidExtra(state, q))
  }

  /** One of the two steps that file the bid: the handler's write, or a delivery of the event, even one cut short. */
  predicate FilesBid(step: Step, state: State, q: BidRequest) {
    || step == WriteRecord(Record(HandlerRecord(state, q)))
    || (step.Consume? && step.message == Message(BidEvent(state, q)))
  }

  lemma BidLeavesBoth(s: System, q: BidRequest, countdown: int)
    requires BidVerdict(s.redis, q) == None && q.auctionId in s.history.lives
    ensures var soup, state := WithBid(s, q, countdown).soup, Reply(s, q, countdown);
            Record(HandlerRecord(state, q)) in soup && Message(BidEvent(state, q)) in soup
  {
    hide BidVerdict, AfterBid, NewEvent, HandlerRecord, AuctionFromState, BidExtra;
  }

  /** An accepted bid leaves both steps to be done, and in every continuation with one of them its number is on file. */
  lemma EitherWriteFilesTheBid(s: System, q: BidRequest, steps: seq<Step>, k: nat, countdown: int)
    requires Reachable(s, countdown) && InRange(q, countdown) && BidVerdict(s.redis, q) == None
    requires Possible(WithBid(s, q, countdown), steps, countdown)
    requires k < |steps| && FilesBid(steps[k], Reply(s, q, countdown), q)
    ensures var soup, state := WithBid(s, q, countdown).soup, Reply(s, q, countdown);
            Record(HandlerRecord(state, q)) in soup && Message(BidEvent(state, q)) in soup
    ensures Double(q.recordId) in Outcome(WithBid(s, q, countdown), steps, countdown).records
  {
    ReachableKeeps(s, countdown);
    HashOf(s, q.auctionId, countdown);
    assert q.recordId > 0;
    hide *;
    BidLeavesBoth(s, q, countdown);
    FiledInTheEnd(WithBid(s, q, countdown), steps, k, Reply(s, q, countdown), q, countdown);
  }

  lemma {:induction false} FiledInTheEnd(s: System, steps: seq<Step>, k: nat, state: State, q: BidRequest,
                                         countdown: int)
    requires Possible(s, steps, countdown) && k < |steps| && FilesBid(steps[k], state, q) && q.recordId > 0
    ensures Double(q.recordId) in Outcome(s, steps, countdown).records
    decreases k
  {
    hide Double, BidEvent, HandlerRecord, Consumed;
    var next := Apply(s, steps[0], countdown);
    if k > 0 {
      FiledInTheEnd(next, steps[1..], k - 1, state, q, countdown);
    } else {
      StepFilesBid(s, steps[0], state, q, countdown);
      RowsArePermanent(next, steps[1..], Double(q.recordId), countdown);
    }
  }

  lemma StepFilesBid(s: System, step: Step, state: State, q: BidRequest, countdown: int)
    requires Enabled(s, step, countdown) && FilesBid(step, state, q) && q.recordId > 0
    ensures Double(q.recordId) in Apply(s, step, countdown).records
  {
    hide Nearest, NewEvent, BidExtra, AuctionFromState, Consumed;
    if step.Consume? {
      BidEventFiles(AuctionFromState(state), state, q, s, step.now, step.crash);
    }
  }

  lemma BidEventFiles(a: Auction, state: State, q: BidRequest, later: System, now: int, crash: bool)
    requires q.recordId > 0
    ensures Double(q.recordId) in Consumed(later, NewEvent(BidAccepted, a, BidExtra(state, q)), now, crash).records
  {
    var e := NewEvent(BidAccepted, a, BidExtra(state, q));
    DeliveredExtras(a, state, q);
    DoubleTwice(q.recordId);
    DoublePositive(q.recordId);
    hide Double, Consumed, BidExtra, Delivered;
    BidEventReachesTableOnlyWithoutRow(later, e, now, crash);
  }

  lemma DoublePositive(x: int)
    requires x > 0
    ensures Double(x) > 0
  {
  }

  /** Rows are never replaced or lost. */
  lemma {:induction false} RowsArePermanent(s: System, steps: seq<Step>, key: int, countdown: int)
    requires Possible(s, steps, countdown) && key in s.records
    ensures var s' := Outcome(s, steps, countdown); key in s'.records && s'.records[key] == s.records[key]
    decreases |steps|
  {
    if steps != [] {
      StepKeepsRows(s, steps[0], key, countdown);
      RowsArePermanent(Apply(s, steps[0], countdown), steps[1..], key, countdown);
    }
  }

  lemma StepKeepsRows(s: System, step: Step, key: int, countdown: int)
    requires Enabled(s, step, countdown) && key in s.records
    ensures var s' := Apply(s, step, countdown); key in s'.records && s'.records[key] == s.records[key]
  {
    hide Nearest;
  }

  /**
   A bid event changes the auction table exactly when its audit row was missing and its version is
   newer. Since the bidding handler writes the audit row before it publishes, the event's snapshot
   is normally thrown away.
   */
  lemma BidEventReachesTableOnlyWithoutRow(s: System, raw: Event, now: int, crash: bool)
    requires raw.kind == BidAccepted
    requires BidRecordFromEvent(Delivered(raw), now).Some?
    ensures var e, r := Delivered(raw), BidRecordFromEvent(Delivered(raw), now).value;
            && r.id in Consumed(s, raw, now, crash).records
            && (r.id in s.records ==> Consumed(s, raw, now, crash) == s)
            && (Consumed(s, raw, now, crash).auctions != s.auctions <==>
                  r.id !in s.records && !crash && Accepts(s.auctions, AuctionFromEvent(e)))
  {
    hide Nearest;
    var a := AuctionFromEvent(Delivered(raw));
    if Accepts(s.auctions, a) {
      assert AfterSnapshot(s.auctions, a)[a.id].version != s.auctions[a.id].version;
    }
  }
}
