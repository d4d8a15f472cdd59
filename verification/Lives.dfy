/**
 The life of one auction as the outside sees it: what was loaded, the accepted bids, the end.
 The hash in Redis is a function of it; prices, countdown and leaderboard are studied here.
 */
module Lives {
  import opened Prelude
  import opened Doubles
  import opened Auctions
  import opened RedisScripts

  datatype Bid = Bid(userId: int, price: int, request: string, recordId: int, now: int, clock: int)

  datatype Ending = Ending(exit: Exit, now: int)

  datatype Life = Life(start: Hash, bids: seq<Bid>, end: Option<Ending>)

  /** The lives of all started auctions by number. */
  type Ledger = map<int, Life>

  /** The hash after a sequence of bids, one script effect at a time. */
  function Bidden(start: Hash, bids: seq<Bid>, countdown: int): Hash
    decreases |bids|
  {
    if bids == [] then start else
      var last := bids[|bids| - 1];
      HashAfterBid(Bidden(start, bids[..|bids| - 1], countdown), last.userId, last.price, last.now, countdown)
  }

  /** The state changes an auction has gone through since it was loaded. */
  function Stages(l: Life): nat {
    |l.bids| + if l.end.Some? then 1 else 0
  }

  /** The hash after the first k changes. */
  function At(l: Life, k: nat, countdown: int): Hash
    requires k <= Stages(l)
  {
    if k <= |l.bids| then Bidden(l.start, l.bids[..k], countdown)
    else HashAfterEnd(Bidden(l.start, l.bids, countdown), l.end.value.exit, l.end.value.now)
  }

  function Current(l: Life, countdown: int): Hash {
    At(l, Stages(l), countdown)
  }

  /** What starting a pending auction loads. */
  predicate FreshStart(h: Hash) {
    && h.status == RUNNING && h.bidCount == 0 && h.winnerUserId == 0
    && h.expireAt == h.endTime
    && h.currentPrice == h.startPrice > 0
    && h.bidIncrement > 0 && h.sealPrice >= 0
  }

  /** The script found nothing to object to in the bid at position i when it was placed. */
  predicate Unobjected(l: Life, i: nat, countdown: int)
    requires i < |l.bids|
  {
    var b := l.bids[i];
    Objection(Bidden(l.start, l.bids[..i], countdown), b.userId, b.price, b.now) == None
  }

  predicate Lawful(l: Life, countdown: int) {
    FreshStart(l.start) && forall i :: 0 <= i < |l.bids| ==> Unobjected(l, i, countdown)
  }

  // ---- the hash in closed form ----

  /** Only count, version and the last bid survive in the hash. */
  function Summary(start: Hash, bids: seq<Bid>, countdown: int): Hash {
    if bids == [] then start else
      var last := bids[|bids| - 1];
      start.(bidCount := start.bidCount + |bids|, version := start.version + |bids|,
             currentPrice := last.price, winnerUserId := Double(last.userId), expireAt := last.now + countdown)
  }

  lemma {:induction false} BiddenIsSummary(start: Hash, bids: seq<Bid>, countdown: int)
    ensures Bidden(start, bids, countdown) == Summary(start, bids, countdown)
    decreases |bids|
  {
    if bids != [] {
      BiddenIsSummary(start, bids[..|bids| - 1], countdown);
    }
  }

  /** The final status tells how the auction ended and whether anybody had bid. */
  lemma CurrentInClosedForm(l: Life, countdown: int)
    requires Lawful(l, countdown)
    ensures var h, s := Current(l, countdown), Summary(l.start, l.bids, countdown);
            && (l.end.None? ==> h == s && h.status == RUNNING)
            && (l.end.Some? ==>
                  && h == s.(version := s.version + 1, status := h.status,
                             endTime := l.end.value.now, expireAt := l.end.value.now)
                  && (h.status == CANCELLED <==> l.end.value.exit == Withdrawn)
                  && (h.status == DEAL <==> l.end.value.exit != Withdrawn && l.bids != [])
                  && (h.status == FAILED <==> l.end.value.exit != Withdrawn && l.bids == []))
            && h.version == l.start.version + Stages(l)
            && h.bidCount == |l.bids|
  {
    assert l.bids[..|l.bids|] == l.bids;
    BiddenIsSummary(l.start, l.bids, countdown);
  }

  lemma WinnerIsDouble(l: Life, k: nat, countdown: int)
    requires Lawful(l, countdown) && k <= Stages(l)
    ensures Representable(At(l, k, countdown).winnerUserId)
  {
    SmallIsExact(0);
    var bids := if k <= |l.bids| then l.bids[..k] else l.bids;
    BiddenIsSummary(l.start, bids, countdown);
    if bids != [] {
      DoubleTwice(bids[|bids| - 1].userId);
    }
  }

  // ---- lives only grow ----

  /** l' is a later point of the life l: bids only join at the end, and nothing follows the end. */
  ghost predicate Extends(l: Life, l': Life) {
    && l'.start == l.start
    && l.bids <= l'.bids
    && (l.end.Some? ==> l' == l)
  }

  lemma StagesStay(l: Life, l': Life, k: nat, countdown: int)
    requires Extends(l, l') && k <= Stages(l)
    ensures k <= Stages(l') && At(l', k, countdown) == At(l, k, countdown)
  {
    if k <= |l.bids| {
      assert l'.bids[..k] == l.bids[..k];
    }
  }

  lemma LaterBidKeepsLaw(l: Life, b: Bid, countdown: int)
    requires Lawful(l, countdown) && l.end.None?
    requires Objection(Current(l, countdown), b.userId, b.price, b.now) == None
    ensures var l' := l.(bids := l.bids + [b]);
            && Lawful(l', countdown) && Extends(l, l')
            && Current(l', countdown) == HashAfterBid(Current(l, countdown), b.userId, b.price, b.now, countdown)
  {
    var l' := l.(bids := l.bids + [b]);
    assert l.bids[..|l.bids|] == l.bids == l'.bids[..|l.bids|];
    assert l'.bids[..|l'.bids|] == l'.bids;
    forall i | 0 <= i < |l'.bids|
      ensures Unobjected(l', i, countdown)
    {
      if i < |l.bids| {
        assert Unobjected(l, i, countdown);
        assert l'.bids[..i] == l.bids[..i];
      }
    }
  }

  lemma EndingKeepsLaw(l: Life, exit: Exit, now: int, countdown: int)
    requires Lawful(l, countdown) && l.end.None?
    ensures var l' := l.(end := Some(Ending(exit, now)));
            && Lawful(l', countdown) && Extends(l, l')
            && Current(l', countdown) == HashAfterEnd(Current(l, countdown), exit, now)
  {
    var l' := l.(end := Some(Ending(exit, now)));
    assert l.bids[..|l.bids|] == l.bids;
    forall i | 0 <= i < |l'.bids|
      ensures Unobjected(l', i, countdown)
    {
      assert Unobjected(l, i, countdown);
    }
  }

  // ---- prices ----

  /** The price after the first k bids. */
  function PriceAfter(l: Life, k: nat): int
    requires k <= |l.bids|
  {
    if k == 0 then l.start.startPrice else l.bids[k - 1].price
  }

  /** The price rule a lawful bid obeys, in terms of the price before it. */
  lemma BidRule(l: Life, i: nat, countdown: int)
    requires Lawful(l, countdown) && i < |l.bids|
    ensures var next := PriceAfter(l, i) + l.start.bidIncrement;
            var seal := l.start.sealPrice;
            && l.bids[i].price >= (if seal > 0 && next > seal then seal else next)
            && (seal > 0 ==> l.bids[i].price <= seal)
    ensures l.start.startTime <= l.bids[i].now <= l.start.endTime
    ensures Double(l.bids[i].userId) != if i == 0 then 0 else Double(l.bids[i - 1].userId)
  {
    assert Unobjected(l, i, countdown);
    BiddenIsSummary(l.start, l.bids[..i], countdown);
    SmallIsExact(0);
    if i > 0 {
      DoubleTwice(l.bids[i - 1].userId);
    }
  }

  /** Among the bids themselves prices never fall, and rise strictly below the seal price. */
  lemma {:induction false} BidsNeverFall(l: Life, i: nat, j: nat, countdown: int)
    requires Lawful(l, countdown) && i <= j < |l.bids|
    ensures l.bids[i].price <= l.bids[j].price
    ensures i < j && (l.start.sealPrice == 0 || l.bids[i].price < l.start.sealPrice) ==>
              l.bids[i].price < l.bids[j].price
    decreases j - i
  {
    if i < j {
      BidRule(l, i, countdown);
      BidRule(l, i + 1, countdown);
      BidsNeverFall(l, i + 1, j, countdown);
    }
  }

  /** No run of bids on this loaded auction ever lowers the price. */
  ghost predicate PriceNeverFalls(start: Hash, countdown: int) {
    forall l: Life, k: nat ::
      Lawful(l, countdown) && l.start == start && k < |l.bids| ==> PriceAfter(l, k) <= PriceAfter(l, k + 1)
  }

  /**
   Raising the start price of a pending auction does not recheck the seal price. The price can
   then fall at the first bid, and this is the only way it can.
   */
  lemma PriceFallsOnlyFromAboveSeal(start: Hash, countdown: int)
    requires FreshStart(start)
    ensures PriceNeverFalls(start, countdown) <==>
            (start.sealPrice == 0 || start.startPrice <= start.sealPrice || start.endTime < start.startTime)
  {
    if start.sealPrice == 0 || start.startPrice <= start.sealPrice || start.endTime < start.startTime {
      forall l: Life, k: nat | Lawful(l, countdown) && l.start == start && k < |l.bids|
        ensures PriceAfter(l, k) <= PriceAfter(l, k + 1)
      {
        BidRule(l, k, countdown);
        if k > 0 {
          BidsNeverFall(l, k - 1, k, countdown);
        }
      }
    } else {
      var l := Life(start, [Bid(1, start.sealPrice, "", 1, start.startTime, 0)], None);
      SmallIsExact(0);
      SmallIsExact(1);
      assert l.bids[..0] == [];
      assert Unobjected(l, 0, countdown);
      assert Lawful(l, countdown);
      assert PriceAfter(l, 0) > PriceAfter(l, 0 + 1);
    }
  }

  /** After k bids the price has risen by k increments, unless the seal price stopped it. */
  lemma {:induction false} PriceFloor(l: Life, k: nat, countdown: int)
    requires Lawful(l, countdown) && k <= |l.bids|
    requires l.start.sealPrice == 0 || l.start.startPrice <= l.start.sealPrice
    ensures var floor := l.start.startPrice + k * l.start.bidIncrement;
            var seal := l.start.sealPrice;
            if seal > 0 then (if floor < seal then floor else seal) <= PriceAfter(l, k) <= seal
            else floor <= PriceAfter(l, k)
    decreases k
  {
    if k > 0 {
      PriceFloor(l, k - 1, countdown);
      BidRule(l, k - 1, countdown);
      assert k * l.start.bidIncrement == (k - 1) * l.start.bidIncrement + l.start.bidIncrement;
    }
  }

  /** How many of the first k bids raised the price. */
  function Raises(l: Life, k: nat): (n: nat)
    requires k <= |l.bids|
  {
    if k == 0 then 0 else
      Raises(l, k - 1) + if PriceAfter(l, k) > PriceAfter(l, k - 1) then 1 else 0
  }

  /** At most (seal - start) / increment bids, rounded up, raise the price; below the seal price every bid does. */
  lemma {:induction false} RaisesAreBounded(l: Life, k: nat, countdown: int)
    requires Lawful(l, countdown) && k <= |l.bids|
    requires 0 < l.start.startPrice <= l.start.sealPrice
    ensures Raises(l, k) > 0 ==>
              (Raises(l, k) - 1) * l.start.bidIncrement < l.start.sealPrice - l.start.startPrice
    ensures PriceAfter(l, k) < l.start.sealPrice ==> Raises(l, k) == k
    decreases k
  {
    if k > 0 {
      RaisesAreBounded(l, k - 1, countdown);
      PriceFloor(l, k - 1, countdown);
      BidRule(l, k - 1, countdown);
    }
  }

  /** What the gateway shows as the next price; it reads the optional seal price. */
  function NextBidPrice(currentPrice: int, bidIncrement: int, sealPrice: Option<int>): int {
    var next := currentPrice + bidIncrement;
    if sealPrice.Some? && sealPrice.value > 0 && next > sealPrice.value then sealPrice.value else next
  }

  /** Computed from the hash, the shown price is exactly the least one the script accepts from anybody who may bid. */
  lemma NextBidPriceIsLeastAccepted(h: Hash, userId: int, price: int, now: int)
    requires h.status == RUNNING && h.startTime <= now <= h.endTime && Double(h.winnerUserId) != Double(userId)
    ensures var shown := NextBidPrice(h.currentPrice, h.bidIncrement, StateFromMap(h).sealPrice);
            && Objection(h, userId, shown, now) == None
            && (price < shown ==> Objection(h, userId, price, now) == Some(BidTooLow))
            && (Objection(h, userId, price, now) == None <==>
                  shown <= price && (StateFromMap(h).sealPrice.Some? ==> price <= StateFromMap(h).sealPrice.value))
  {
    hide Double;
  }

  /** Somebody who did not place the last bid is turned away for it exactly when the two numbers meet as doubles. */
  lemma StrangersMeetAsDoubles(l: Life, userId: int, price: int, now: int, countdown: int)
    requires Lawful(l, countdown) && l.end.None? && l.bids != []
    requires l.start.startTime <= now <= l.start.endTime
    ensures var last := l.bids[|l.bids| - 1].userId;
            && (Objection(Current(l, countdown), userId, price, now) == Some(ConsecutiveBid) <==>
                  Double(userId) == Double(last))
            && (-EXACT <= userId <= EXACT && -EXACT <= last <= EXACT ==>
                  (Double(userId) == Double(last) <==> userId == last))
  {
    CurrentInClosedForm(l, countdown);
    var last := l.bids[|l.bids| - 1].userId;
    DoubleTwice(last);
    if -EXACT <= userId <= EXACT && -EXACT <= last <= EXACT {
      SmallIsExact(userId);
      SmallIsExact(last);
    }
  }

  // ---- countdown ----

  /** No run of bids moves the expiry past the end time by more than one countdown. */
  lemma ExpiryIsBounded(l: Life, countdown: int)
    requires Lawful(l, countdown) && l.end.None? && countdown >= 0
    ensures Current(l, countdown).expireAt <= l.start.endTime + countdown
  {
    CurrentInClosedForm(l, countdown);
    if l.bids != [] {
      BidRule(l, |l.bids| - 1, countdown);
    }
  }

  // ---- leaderboard ----

  /** The sorted set the bids leave behind. */
  function Ranking(bids: seq<Bid>): map<int, int>
    decreases |bids|
  {
    if bids == [] then map[] else
      var last := bids[|bids| - 1];
      Ranking(bids[..|bids| - 1])[Double(last.userId) := last.price]
  }

  /** p is the highest price a bidder offered among the first k bids. */
  ghost predicate Highest(l: Life, k: nat, bidder: int, p: int)
    requires k <= |l.bids|
  {
    && (exists i :: 0 <= i < k && Double(l.bids[i].userId) == bidder && l.bids[i].price == p)
    && (forall i :: 0 <= i < k && Double(l.bids[i].userId) == bidder ==> l.bids[i].price <= p)
  }

  /** One more bid: its bidder's best price is now this one, everybody else's stays. */
  lemma HighestAfterBid(l: Life, k: nat, bidder: int, p: int, countdown: int)
    requires Lawful(l, countdown) && k < |l.bids|
    ensures Highest(l, k + 1, Double(l.bids[k].userId), l.bids[k].price)
    ensures bidder != Double(l.bids[k].userId) && Highest(l, k, bidder, p) ==> Highest(l, k + 1, bidder, p)
  {
    hide Double, Lawful;
    forall i | 0 <= i <= k
      ensures l.bids[i].price <= l.bids[k].price
    {
      BidsNeverFall(l, i, k, countdown);
    }
  }

  lemma RankingAfterBid(l: Life, k: nat)
    requires 0 < k <= |l.bids|
    ensures Ranking(l.bids[..k]) == Ranking(l.bids[..k - 1])[Double(l.bids[k - 1].userId) := l.bids[k - 1].price]
  {
    hide Double;
    assert l.bids[..k][..k - 1] == l.bids[..k - 1];
  }

  /** The ranking of the first k bids: everybody's best price, and everybody is there. */
  ghost predicate RanksBest(l: Life, k: nat, rank: map<int, int>)
    requires k <= |l.bids|
  {
    && (forall u :: u in rank ==> Highest(l, k, u, rank[u]))
    && (forall i :: 0 <= i < k ==> Double(l.bids[i].userId) in rank)
  }

  lemma RanksBestAfterBid(l: Life, k: nat, rank: map<int, int>, countdown: int)
    requires Lawful(l, countdown) && k < |l.bids| && RanksBest(l, k, rank)
    ensures RanksBest(l, k + 1, rank[Double(l.bids[k].userId) := l.bids[k].price])
  {
    hide Double, Lawful, Highest;
    var after := rank[Double(l.bids[k].userId) := l.bids[k].price];
    forall u | u in after
      ensures Highest(l, k + 1, u, after[u])
    {
      HighestAfterBid(l, k, u, after[u], countdown);
    }
  }

  lemma {:induction false} RankingUpTo(l: Life, k: nat, countdown: int)
    requires Lawful(l, countdown) && k <= |l.bids|
    ensures RanksBest(l, k, Ranking(l.bids[..k]))
    decreases k
  {
    if k > 0 {
      hide Double, Lawful, Highest, RanksBest;
      RankingUpTo(l, k - 1, countdown);
      RankingAfterBid(l, k);
      RanksBestAfterBid(l, k - 1, Ranking(l.bids[..k - 1]), countdown);
    }
  }

  lemma HighestIsBelowPrice(l: Life, bidder: int, p: int, countdown: int)
    requires Lawful(l, countdown) && Highest(l, |l.bids|, bidder, p)
    ensures l.bids != [] && p <= PriceAfter(l, |l.bids|)
    ensures exists i :: 0 <= i < |l.bids| && Double(l.bids[i].userId) == bidder
  {
    hide Lawful, Double;
    var i :| 0 <= i < |l.bids| && Double(l.bids[i].userId) == bidder && l.bids[i].price == p;
    BidsNeverFall(l, i, |l.bids| - 1, countdown);
  }

  lemma LastBidderLeads(l: Life, p: int, countdown: int)
    requires Lawful(l, countdown) && l.bids != [] && Highest(l, |l.bids|, Double(l.bids[|l.bids| - 1].userId), p)
    ensures p == PriceAfter(l, |l.bids|)
  {
    HighestIsBelowPrice(l, Double(l.bids[|l.bids| - 1].userId), p, countdown);
    hide Lawful, Double;
  }

  lemma PresentPrice(l: Life, countdown: int)
    requires Lawful(l, countdown)
    ensures Current(l, countdown).currentPrice == PriceAfter(l, |l.bids|)
    ensures l.bids != [] ==> Current(l, countdown).winnerUserId == Double(l.bids[|l.bids| - 1].userId)
  {
    CurrentInClosedForm(l, countdown);
    hide Double, Current;
  }

  /** The leaderboard holds every bidder's best price; the current price tops it and the stored winner holds that. */
  lemma LeaderboardIsExact(l: Life, countdown: int)
    requires Lawful(l, countdown)
    ensures var rank, h := Ranking(l.bids), Current(l, countdown);
            && (forall u :: u in rank <==> exists i :: 0 <= i < |l.bids| && Double(l.bids[i].userId) == u)
            && (forall u :: u in rank ==> Highest(l, |l.bids|, u, rank[u]) && rank[u] <= h.currentPrice)
            && (l.bids != [] ==> h.winnerUserId in rank && rank[h.winnerUserId] == h.currentPrice)
  {
    RankingUpTo(l, |l.bids|, countdown);
    assert l.bids[..|l.bids|] == l.bids;
    PresentPrice(l, countdown);
    assert RanksBest(l, |l.bids|, Ranking(l.bids));
    hide Lawful, Double, Highest, Ranking, Current;
    var rank := Ranking(l.bids);
    forall u | u in rank
      ensures exists i :: 0 <= i < |l.bids| && Double(l.bids[i].userId) == u
      ensures rank[u] <= PriceAfter(l, |l.bids|)
    {
      HighestIsBelowPrice(l, u, rank[u], countdown);
    }
    if l.bids != [] {
      LastBidderLeads(l, rank[Double(l.bids[|l.bids| - 1].userId)], countdown);
    }
  }
}
