/** Along which runs the price of an auction can fall, and which edits make that possible. */
module FallingPrices {
  import opened Prelude
  import opened Doubles
  import opened Auctions
  import opened RedisScripts
  import opened Lives
  import opened RedisInvariant
  import opened Events
  import opened Tables
  import opened Protocol
  import opened SystemInvariant
  import opened StepProofs
  import opened Theorems

  // ---- from one state on ----

  /** Some continuation leaves the auction at a lower price. */
  ghost predicate CanFall(s: System, id: int, countdown: int)
    requires id in s.redis.states
  {
    exists steps :: Possible(s, steps, countdown) && Lower(s, Outcome(s, steps, countdown), id)
  }

  predicate Lower(s: System, s': System, id: int)
    requires id in s.redis.states
  {
    id in s'.redis.states && s'.redis.states[id].currentPrice < s.redis.states[id].currentPrice
  }

  /** There is a time at which the script takes bids. */
  ghost predicate TakesBids(h: Hash, countdown: int) {
    exists now :: h.startTime <= now <= h.endTime && Sane(now / 1000) && Sane(now + countdown)
  }

  /** A life that falls from its present price has no bid yet and stands above the seal price. */
  lemma FallingLife(l: Life, l': Life, countdown: int)
    requires Lawful(l, countdown) && Lawful(l', countdown) && Measured(l', countdown) && Extends(l, l')
    requires Current(l', countdown).currentPrice < Current(l, countdown).currentPrice
    ensures var h := Current(l, countdown);
            h.status == RUNNING && 0 < h.sealPrice < h.currentPrice && TakesBids(h, countdown)
  {
    PresentPrice(l, countdown);
    PresentPrice(l', countdown);
    CurrentInClosedForm(l, countdown);
    hide Current, Lawful, Measured;
    if l.bids != [] {
      BidsNeverFall(l', |l.bids| - 1, |l'.bids| - 1, countdown);
    } else {
      BidsNeverFall(l', 0, |l'.bids| - 1, countdown);
      BidRule(l', 0, countdown);
      FirstIsMeasured(l', countdown);
    }
  }

  lemma FirstIsMeasured(l: Life, countdown: int)
    requires Measured(l, countdown) && l.bids != []
    ensures MeasuredBid(l.bids[0], countdown)
  {
  }

  /** The bid of the seal price that lets the price fall. */
  function SealBid(s: System, id: int, now: int): BidRequest
    requires id in s.redis.states
  {
    var h := s.redis.states[id];
    var marked := if (id, "") in s.redis.markers then s.redis.markers[(id, "")] else 0;
    BidRequest(id, h.roomId, 1, h.sealPrice, "", 1, now, if s.clock < marked then marked else s.clock)
  }

  lemma SealBidIsAccepted(s: System, id: int, now: int)
    requires id in s.redis.states
    requires var h := s.redis.states[id];
             && h.status == RUNNING && 0 < h.sealPrice < h.currentPrice && h.startTime <= now <= h.endTime
             && h.winnerUserId == 0 && h.bidIncrement > 0
    ensures BidVerdict(s.redis, SealBid(s, id, now)) == None
  {
    SmallIsExact(0);
    SmallIsExact(1);
    hide Nearest;
  }

  lemma AboveSealIsUnbidden(l: Life, countdown: int)
    requires Lawful(l, countdown) && Measured(l, countdown)
    requires var h := Current(l, countdown); h.status == RUNNING && 0 < h.sealPrice < h.currentPrice
    ensures var h := Current(l, countdown);
            h.bidCount == 0 && h.winnerUserId == 0 && h.bidIncrement > 0 && h.sealPrice <= EXACT / 2
  {
    CurrentInClosedForm(l, countdown);
    PresentPrice(l, countdown);
    hide Current;
    if l.bids != [] {
      BidRule(l, |l.bids| - 1, countdown);
    }
  }

  lemma SealBidIsEnabled(s: System, id: int, now: int, countdown: int)
    requires id in s.redis.states && Sane(now / 1000) && Sane(now + countdown)
    requires s.redis.states[id].bidCount == 0 && 0 < s.redis.states[id].sealPrice <= EXACT / 2
    ensures var q := SealBid(s, id, now);
            Enabled(s, PlaceBid(q), countdown) && q.auctionId == id && q.price == s.redis.states[id].sealPrice
  {
  }

  lemma AcceptedBidLowers(s: System, q: BidRequest, id: int, countdown: int)
    requires Enabled(s, PlaceBid(q), countdown) && BidVerdict(s.redis, q) == None && id in s.redis.states
    requires q.auctionId == id && q.price < s.redis.states[id].currentPrice
    ensures CanFall(s, id, countdown)
  {
    PriceOfBid(s.redis, q, countdown);
    OneStepRun(s, PlaceBid(q), countdown);
    hide BidVerdict, AfterBid, BidItems, Enabled;
    assert Lower(s, Outcome(s, [PlaceBid(q)], countdown), id);
  }

  lemma SealBidLowers(s: System, id: int, now: int, countdown: int)
    requires Inv(s, countdown) && id in s.redis.states
    requires var h := s.redis.states[id];
             && h.status == RUNNING && 0 < h.sealPrice < h.currentPrice && h.startTime <= now <= h.endTime
    requires Sane(now / 1000) && Sane(now + countdown)
    ensures CanFall(s, id, countdown)
  {
    LifeOf(s, id, countdown);
    AboveSealIsUnbidden(s.history.lives[id], countdown);
    SealBidIsAccepted(s, id, now);
    SealBidIsEnabled(s, id, now, countdown);
    hide Inv, RedisInv, Lawful, Measured, Current, SealBid, Enabled, BidVerdict, Possible, Outcome;
    AcceptedBidLowers(s, SealBid(s, id, now), id, countdown);
  }

  lemma PriceOfBid(r: Redis, q: BidRequest, countdown: int)
    requires BidVerdict(r, q) == None
    ensures q.auctionId in AfterBid(r, q, countdown).states
    ensures AfterBid(r, q, countdown).states[q.auctionId].currentPrice == q.price
  {
    hide Nearest;
  }

  lemma OneStepRun(s: System, step: Step, countdown: int)
    requires Enabled(s, step, countdown)
    ensures Possible(s, [step], countdown) && Outcome(s, [step], countdown) == Apply(s, step, countdown)
  {
    hide Enabled, Apply;
    assert [step][1..] == [];
    assert Possible(Apply(s, step, countdown), [], countdown);
  }

  lemma LoweringRun(s: System, steps: seq<Step>, id: int, countdown: int)
    requires Inv(s, countdown) && Possible(s, steps, countdown) && id in s.redis.states
    requires Lower(s, Outcome(s, steps, countdown), id)
    ensures var h := s.redis.states[id];
            h.status == RUNNING && 0 < h.sealPrice < h.currentPrice && TakesBids(h, countdown)
  {
    var s' := Outcome(s, steps, countdown);
    RunKeeps(s, steps, countdown);
    LifeOf(s, id, countdown);
    LifeOf(s', id, countdown);
    hide Inv, Possible, Outcome, RedisInv, Lawful, Measured, Current, TakesBids, Extends;
    FallingLife(s.history.lives[id], s'.history.lives[id], countdown);
  }

  lemma FallTakesRoom(s: System, id: int, countdown: int)
    requires Inv(s, countdown) && id in s.redis.states && CanFall(s, id, countdown)
    ensures var h := s.redis.states[id];
            h.status == RUNNING && 0 < h.sealPrice < h.currentPrice && TakesBids(h, countdown)
  {
    hide Inv, Possible, Outcome, Lower, TakesBids;
    var steps :| Possible(s, steps, countdown) && Lower(s, Outcome(s, steps, countdown), id);
    LoweringRun(s, steps, id, countdown);
  }

  lemma RoomLetsFall(s: System, id: int, countdown: int)
    requires Inv(s, countdown) && id in s.redis.states && TakesBids(s.redis.states[id], countdown)
    requires var h := s.redis.states[id]; h.status == RUNNING && 0 < h.sealPrice < h.currentPrice
    ensures CanFall(s, id, countdown)
  {
    hide Inv, CanFall;
    var h := s.redis.states[id];
    var now :| h.startTime <= now <= h.endTime && Sane(now / 1000) && Sane(now + countdown);
    SealBidLowers(s, id, now, countdown);
  }

  /**
   The price in Redis can fall, in some continuation, exactly while the auction runs above its seal
   price and there is a time at which bids are taken.
   */
  lemma PriceFallsInSomeRunIff(s: System, id: int, countdown: int)
    requires Reachable(s, countdown) && id in s.redis.states
    ensures CanFall(s, id, countdown) <==>
              && s.redis.states[id].status == RUNNING
              && 0 < s.redis.states[id].sealPrice < s.redis.states[id].currentPrice
              && TakesBids(s.redis.states[id], countdown)
  {
    ReachableKeeps(s, countdown);
    hide *;
    if CanFall(s, id, countdown) {
      FallTakesRoom(s, id, countdown);
    }
    if && s.redis.states[id].status == RUNNING
       && 0 < s.redis.states[id].sealPrice < s.redis.states[id].currentPrice
       && TakesBids(s.redis.states[id], countdown) {
      RoomLetsFall(s, id, countdown);
    }
  }

  // ---- from the edits on ----

  predicate SealCoversStart(a: Auction) {
    a.sealPrice.Some? ==> a.startPrice <= a.sealPrice.value
  }

  /** The edit raises the start price alone, past the seal price. */
  predicate PassesSeal(a: Auction, u: Update) {
    u.startPrice.Some? && u.sealPrice.None? && a.sealPrice.Some? && u.startPrice.value > a.sealPrice.value
  }

  /**
   An accepted edit keeps the times in order always, and the seal price above the start price unless
   it raises the start price alone past it.
   */
  lemma EditCanPassTheSeal(a: Auction, u: Update)
    requires SealCoversStart(a) && Edited(a, u).Some?
    ensures InOrder(Config(a, u).startTime, Config(a, u).endTime)
    ensures SealCoversStart(Config(a, u)) <==> !PassesSeal(a, u)
  {
  }

  predicate NoEditPasses(steps: seq<Step>) {
    forall i :: 0 <= i < |steps| ==> steps[i].Configure? ==> !PassesSeal(steps[i].draft, steps[i].update)
  }

  /** No pending row and no loaded auction starts above its seal price. */
  ghost predicate Covered(s: System) {
    && (forall draft :: draft in s.history.drafts ==> SealCoversStart(draft))
    && (forall id :: id in s.history.lives ==>
          s.history.lives[id].start.sealPrice == 0 ||
          s.history.lives[id].start.startPrice <= s.history.lives[id].start.sealPrice)
  }

  lemma EditKeepsCovered(s: System, draft: Auction, update: Update, countdown: int)
    requires Enabled(s, Configure(draft, update), countdown) && Covered(s) && !PassesSeal(draft, update)
    ensures Covered(Apply(s, Configure(draft, update), countdown))
  {
    EditCanPassTheSeal(draft, update);
    hide Edited, PassesSeal;
  }

  lemma StepKeepsCovered(s: System, step: Step, countdown: int)
    requires Enabled(s, step, countdown) && Covered(s)
    requires step.Configure? ==> !PassesSeal(step.draft, step.update)
    ensures Covered(Apply(s, step, countdown))
  {
    hide Nearest, NewEvent, AfterSnapshot, AfterRecord, AuctionFromEvent, BidRecordFromEvent, AfterBid, BidVerdict;
    hide AfterLoad, RoomBusy, AfterEnd, Expires, Edited, BidItems, FinalItems, StartItems, PassesSeal, WithEdit;
    if step.Configure? {
      EditKeepsCovered(s, step.draft, step.update, countdown);
    }
  }

  lemma {:induction false} RunKeepsCovered(s: System, steps: seq<Step>, countdown: int)
    requires Possible(s, steps, countdown) && Covered(s) && NoEditPasses(steps)
    ensures Covered(Outcome(s, steps, countdown))
    decreases |steps|
  {
    hide Enabled, Apply, Covered, PassesSeal;
    if steps != [] {
      StepKeepsCovered(s, steps[0], countdown);
      RunKeepsCovered(Apply(s, steps[0], countdown), steps[1..], countdown);
    }
  }

  /** As long as no edit has raised a start price alone past the seal price, no price falls in any continuation. */
  lemma PricesNeverFallUnlessEditPassed(steps: seq<Step>, id: int, countdown: int)
    requires Possible(INITIAL, steps, countdown) && NoEditPasses(steps)
    requires id in Outcome(INITIAL, steps, countdown).redis.states
    ensures !CanFall(Outcome(INITIAL, steps, countdown), id, countdown)
  {
    var s := Outcome(INITIAL, steps, countdown);
    assert Reachable(s, countdown);
    assert Covered(INITIAL);
    RunKeepsCovered(INITIAL, steps, countdown);
    ReachableKeeps(s, countdown);
    LifeOf(s, id, countdown);
    hide Possible, Outcome, Reachable, Inv, RedisInv, CanFall;
    CoveredStaysBelowSeal(s.history.lives[id], countdown);
    PriceFallsInSomeRunIff(s, id, countdown);
  }

  lemma CoveredStaysBelowSeal(l: Life, countdown: int)
    requires Lawful(l, countdown) && (l.start.sealPrice == 0 || l.start.startPrice <= l.start.sealPrice)
    ensures var h := Current(l, countdown); h.sealPrice == 0 || h.currentPrice <= h.sealPrice
  {
    PriceFloor(l, |l.bids|, countdown);
    PresentPrice(l, countdown);
    CurrentInClosedForm(l, countdown);
    hide Current;
  }
}
