/**
 The next price the gateway shows. It takes the current price from Redis, but the increment and
 the seal price from the row of the table, which can still be edited between the load and the
 first snapshot.
 */
module ShownPrice {
  import opened Auctions
  import opened RedisScripts
  import opened Lives
  import opened RedisInvariant
  import opened Tables
  import opened Protocol
  import opened SystemInvariant
  import opened StepProofs
  import opened Deliveries

  /** What a next price is made of besides the current one; 0 stands for no seal price. */
  datatype Rules = Rules(bidIncrement: int, sealPrice: int)

  function RowRules(a: Auction): Rules {
    Rules(a.bidIncrement, if OrElse(a.sealPrice, 0) > 0 then a.sealPrice.value else 0)
  }

  function HashRules(h: Hash): Rules {
    Rules(h.bidIncrement, if h.sealPrice > 0 then h.sealPrice else 0)
  }

  /** At every price from the start price on, the gateway shows the least price the script accepts. */
  ghost predicate ShowsLeast(a: Auction, h: Hash) {
    forall price :: price >= h.startPrice ==>
      NextBidPrice(price, a.bidIncrement, a.sealPrice) == MinBid(h.(currentPrice := price))
  }

  /** The seal prices agree, and so do the increments, unless both lead from the start price past the seal price. */
  predicate SameOffer(x: Rules, y: Rules, startPrice: int) {
    && x.sealPrice == y.sealPrice
    && (x.bidIncrement == y.bidIncrement ||
        (x.sealPrice > 0 && startPrice + x.bidIncrement >= x.sealPrice && startPrice + y.bidIncrement >= x.sealPrice))
  }

  lemma RulesDecidePrice(a: Auction, h: Hash)
    requires a.bidIncrement > 0 && h.bidIncrement > 0
    ensures ShowsLeast(a, h) <==> SameOffer(RowRules(a), HashRules(h), h.startPrice)
  {
    if ShowsLeast(a, h) {
      var x, y := RowRules(a), HashRules(h);
      var high := h.startPrice + (if x.sealPrice > 0 then x.sealPrice else 0) + y.sealPrice +
                  (if h.startPrice < 0 then 0 - h.startPrice else 0);
      assert NextBidPrice(high, a.bidIncrement, a.sealPrice) == MinBid(h.(currentPrice := high));
      assert NextBidPrice(h.startPrice, a.bidIncrement, a.sealPrice) == MinBid(h.(currentPrice := h.startPrice));
    }
  }

  // ---- along runs ----

  /** Only accepted edits change the rules of a row, and the last one decides. */
  lemma RowRulesFollowEdits(s: System, steps: seq<Step>, id: int, countdown: int)
    requires Inv(s, countdown) && Possible(s, steps, countdown) && id in s.auctions
    ensures id in Outcome(s, steps, countdown).auctions
    ensures RowRules(Outcome(s, steps, countdown).auctions[id]) ==
            RowRules(Configured(s.auctions[id], Edits(s, steps, id, countdown)))
  {
    RowIsItsDeliveries(s, steps, id, countdown);
    hide Inv, Possible, Outcome, Edits, Reached;
  }

  /** The hash keeps what was loaded. */
  lemma LoadedRules(l: Life, countdown: int)
    requires Lawful(l, countdown)
    ensures HashRules(Current(l, countdown)) == HashRules(l.start)
    ensures Current(l, countdown).startPrice == l.start.startPrice
    ensures Current(l, countdown).bidIncrement == l.start.bidIncrement > 0
  {
    CurrentInClosedForm(l, countdown);
  }

  /** No step changes the rules or the start price of a hash. */
  lemma HashRulesStay(s: System, steps: seq<Step>, id: int, countdown: int)
    requires Inv(s, countdown) && Possible(s, steps, countdown) && id in s.redis.states
    ensures var s' := Outcome(s, steps, countdown);
            && id in s'.redis.states && HashRules(s'.redis.states[id]) == HashRules(s.redis.states[id])
            && s'.redis.states[id].startPrice == s.redis.states[id].startPrice
  {
    RunKeeps(s, steps, countdown);
    var s' := Outcome(s, steps, countdown);
    LifeOf(s, id, countdown);
    LifeOf(s', id, countdown);
    hide Inv, RedisInv, Measured, Possible, Outcome;
    LoadedRules(s.history.lives[id], countdown);
    LoadedRules(s'.history.lives[id], countdown);
    hide Lawful, Current, HashRules;
  }

  lemma {:induction false} EditsArePending(s: System, steps: seq<Step>, id: int, config: Auction, countdown: int)
    requires Inv(s, countdown) && Possible(s, steps, countdown) && config in Edits(s, steps, id, countdown)
    ensures PendingRow(config)
    decreases |steps|
  {
    hide Inv, Apply, PendingRow, Edited, Enabled;
    if config in Edit(s, steps[0], id, countdown) {
      EditOfDraft(s, steps[0], id, countdown);
    } else {
      StepKeeps(s, steps[0], countdown);
      EditsArePending(Apply(s, steps[0], countdown), steps[1..], id, config, countdown);
    }
  }

  lemma EditOfDraft(s: System, step: Step, id: int, countdown: int)
    requires Inv(s, countdown) && Enabled(s, step, countdown)
    ensures forall config :: config in Edit(s, step, id, countdown) ==> PendingRow(config)
  {
    if Edit(s, step, id, countdown) != [] {
      DraftOf(s, step.draft, countdown);
      hide Inv, Edited, PendingRow;
      EditIsPending(step.draft, step.update);
    }
  }

  /** What a start loads follows the rules of the row it has read. */
  lemma StartLoadsRules(s: System, draft: Auction, now: int, countdown: int)
    requires Inv(s, countdown) && draft in s.history.drafts
    requires !RoomBusy(s.redis, LoadedHash(StartedAuction(draft, now), now))
    ensures var s' := WithStart(s, StartedAuction(draft, now), now);
            && s'.auctions == s.auctions && PendingRow(draft)
            && draft.id in s'.redis.states && HashRules(s'.redis.states[draft.id]) == RowRules(draft)
            && s'.redis.states[draft.id].startPrice == draft.startPrice
  {
    DraftOf(s, draft, countdown);
    hide Inv, RoomBusy, StartItems;
  }

  lemma OfferDecidesPrice(row: Auction, edits: seq<Auction>, row': Auction, h: Hash)
    requires PendingRow(row) && (edits != [] ==> PendingRow(edits[|edits| - 1]))
    requires RowRules(row') == RowRules(Configured(row, edits))
    requires HashRules(h) == RowRules(row) && h.startPrice == row.startPrice
    ensures ShowsLeast(row', h) <==>
              edits == [] || SameOffer(RowRules(edits[|edits| - 1]), RowRules(row), row.startPrice)
  {
    hide ShowsLeast;
    RulesDecidePrice(row', h);
  }

  /** The rules a row ends with after edits in two stretches. */
  lemma LastEditDecides(row: Auction, edits: seq<Auction>, row': Auction, edits': seq<Auction>)
    requires RowRules(row') == RowRules(Configured(row, edits))
    ensures RowRules(Configured(row', edits')) == RowRules(Configured(row, edits + edits'))
  {
    if edits' == [] {
      assert edits + edits' == edits;
    }
  }

  /** The state a start leads to that has read the row with these contents in an earlier one. */
  ghost predicate StartsFrom(s0: System, draft: Auction, before: seq<Step>, now: int, countdown: int) {
    && Reachable(s0, countdown) && HoldsDraft(s0, draft) && Possible(s0, before, countdown)
    && Enabled(Outcome(s0, before, countdown), Start(draft, now), countdown)
    && !RoomBusy(Outcome(s0, before, countdown).redis, LoadedHash(StartedAuction(draft, now), now))
  }

  ghost function Opening(s0: System, draft: Auction, before: seq<Step>, now: int, countdown: int): System
    requires StartsFrom(s0, draft, before, now, countdown)
  {
    WithStart(Outcome(s0, before, countdown), StartedAuction(draft, now), now)
  }

  /**
   A start reads the row, loads what it has read at some later time, and any run may follow. At its
   end the gateway shows the least accepted price exactly when no edit was accepted since the row was
   read, or the last one makes the same offer as what was read.
   */
  lemma ShownPriceIsLeastUnlessEdited(s0: System, draft: Auction, before: seq<Step>, now: int, after: seq<Step>,
                                      countdown: int)
    requires StartsFrom(s0, draft, before, now, countdown)
    requires Possible(Opening(s0, draft, before, now, countdown), after, countdown)
    ensures var s' := Outcome(Opening(s0, draft, before, now, countdown), after, countdown);
            draft.id in s'.auctions && draft.id in s'.redis.states
    ensures var loaded := Opening(s0, draft, before, now, countdown);
            var s' := Outcome(loaded, after, countdown);
            var edits := Edits(s0, before, draft.id, countdown) + Edits(loaded, after, draft.id, countdown);
            ShowsLeast(s'.auctions[draft.id], s'.redis.states[draft.id]) <==>
              edits == [] || SameOffer(RowRules(edits[|edits| - 1]), RowRules(draft), draft.startPrice)
  {
    var id, s, loaded := draft.id, Outcome(s0, before, countdown), Opening(s0, draft, before, now, countdown);
    var s' := Outcome(loaded, after, countdown);
    var e1, e2 := Edits(s0, before, id, countdown), Edits(loaded, after, id, countdown);
    ReachableKeeps(s0, countdown);
    RunKeeps(s0, before, countdown);
    StartIsOpen(s, draft, now, countdown);
    StartLoadsRules(s, draft, now, countdown);
    hide Inv, Reachable, Enabled, Apply, Possible, Outcome, RoomBusy, LoadedHash, StartedAuction, Edits, PendingRow;
    hide RowRules, HashRules, ShowsLeast, SameOffer, WithStart, Configured;
    RowRulesFollowEdits(s0, before, id, countdown);
    RowRulesFollowEdits(loaded, after, id, countdown);
    LastEditDecides(draft, e1, s.auctions[id], e2);
    HashRulesStay(loaded, after, id, countdown);
    LastIsPending(s0, before, loaded, after, id, countdown);
    OfferDecidesPrice(draft, e1 + e2, s'.auctions[id], s'.redis.states[id]);
  }

  lemma StartIsOpen(s: System, draft: Auction, now: int, countdown: int)
    requires Inv(s, countdown) && Enabled(s, Start(draft, now), countdown)
    requires !RoomBusy(s.redis, LoadedHash(StartedAuction(draft, now), now))
    ensures draft in s.history.drafts && Inv(WithStart(s, StartedAuction(draft, now), now), countdown)
  {
    hide Inv, WithStart, RoomBusy;
    StartKeeps(s, draft, now, countdown);
  }

  lemma LastIsPending(s: System, steps: seq<Step>, s': System, steps': seq<Step>, id: int, countdown: int)
    requires Inv(s, countdown) && Possible(s, steps, countdown) && Inv(s', countdown) && Possible(s', steps', countdown)
    ensures var edits := Edits(s, steps, id, countdown) + Edits(s', steps', id, countdown);
            edits != [] ==> PendingRow(edits[|edits| - 1])
  {
    hide Inv, Possible, Edits, PendingRow;
    var e1, e2 := Edits(s, steps, id, countdown), Edits(s', steps', id, countdown);
    if e2 != [] {
      EditsArePending(s', steps', id, e2[|e2| - 1], countdown);
    } else if e1 != [] {
      EditsArePending(s, steps, id, e1[|e1| - 1], countdown);
    }
  }

  /** Once a snapshot has reached the row no edit is accepted, so what is shown stays right, or stays wrong. */
  lemma RulesSettle(s: System, steps: seq<Step>, id: int, countdown: int)
    requires Reachable(s, countdown) && Possible(s, steps, countdown)
    requires id in s.redis.states && id in s.auctions && s.auctions[id].status != PENDING
    ensures var s' := Outcome(s, steps, countdown);
            && id in s'.auctions && RowRules(s'.auctions[id]) == RowRules(s.auctions[id])
            && id in s'.redis.states && HashRules(s'.redis.states[id]) == HashRules(s.redis.states[id])
  {
    ReachableKeeps(s, countdown);
    hide Inv;
    EditsEndWithPending(s, steps, id, countdown);
    RowRulesFollowEdits(s, steps, id, countdown);
    HashRulesStay(s, steps, id, countdown);
  }
}
