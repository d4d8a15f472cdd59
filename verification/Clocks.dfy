/**
 Which scores the expiry index can hold for a running auction, over all interleavings, and so
 exactly when a bid clock that runs back lets a scanner hide an overdue auction.
 */
module Clocks {
  import opened Prelude
  import opened Doubles
  import opened Auctions
  import opened RedisScripts
  import opened Lives
  import opened RedisInvariant
  import opened Events
  import opened Tables
  import opened Protocol
  import opened SystemInvariant
  import opened StepProofs
  import opened Theorems

  // ---- runs with more left to do ----

  /** The same state with more items in the soup. */
  predicate Fuller(s: System, t: System) {
    s.soup <= t.soup && t == s.(soup := t.soup)
  }

  /** More items disturb no step. */
  lemma StepIsCopied(s: System, t: System, step: Step, countdown: int)
    requires Fuller(s, t) && Enabled(s, step, countdown)
    ensures Enabled(t, step, countdown) && Fuller(Apply(s, step, countdown), Apply(t, step, countdown))
    ensures t.soup <= Apply(t, step, countdown).soup
  {
    hide Nearest, NewEvent, AuctionFromEvent, BidRecordFromEvent, Delivered, AfterSnapshot, AfterRecord, AfterConfig;
    hide AfterLoad, AfterBid, AfterEnd, Expires, BidVerdict, EndVerdict, RoomBusy, BidItems, FinalItems, StartItems;
    hide LoadedHash, StartedAuction, PendingRow, AfterDelete, Decision, SecondDecision, AuctionFromState, StateFromMap;
  }

  /** Whatever is left to be done can be taken up in every later state, however often that has happened before. */
  lemma {:induction false} ItemsStayAvailable(s: System, steps: seq<Step>, item: Item, now: int, crash: bool,
                                              countdown: int)
    requires Possible(s, steps, countdown) && item in s.soup && Sane(now) && (item.Finish? ==> Sane(item.now))
    ensures item in Outcome(s, steps, countdown).soup
    ensures Enabled(Outcome(s, steps, countdown), TakenUp(item, now, crash), countdown)
    decreases |steps|
  {
    if steps != [] {
      hide Enabled, Apply;
      StepIsCopied(s, s, steps[0], countdown);
      ItemsStayAvailable(Apply(s, steps[0], countdown), steps[1..], item, now, crash, countdown);
    }
  }

  lemma {:induction false} LongerRun(s: System, steps: seq<Step>, step: Step, countdown: int)
    requires Possible(s, steps, countdown) && Enabled(Outcome(s, steps, countdown), step, countdown)
    ensures Possible(s, steps + [step], countdown)
    ensures Outcome(s, steps + [step], countdown) == Apply(Outcome(s, steps, countdown), step, countdown)
    decreases |steps|
  {
    hide Enabled, Apply;
    if steps == [] {
      assert steps + [step] == [step];
    } else {
      assert (steps + [step])[1..] == steps[1..] + [step];
      LongerRun(Apply(s, steps[0], countdown), steps[1..], step, countdown);
    }
  }

  lemma OneStepFurther(s: System, step: Step, countdown: int)
    requires Reachable(s, countdown) && Enabled(s, step, countdown)
    ensures Reachable(Apply(s, step, countdown), countdown)
  {
    hide Enabled, Apply, Possible, Outcome;
    var steps :| Possible(INITIAL, steps, countdown) && Outcome(INITIAL, steps, countdown) == s;
    LongerRun(INITIAL, steps, step, countdown);
  }

  lemma {:induction false} RunIsReachable(s: System, steps: seq<Step>, countdown: int)
    requires Reachable(s, countdown) && Possible(s, steps, countdown)
    ensures Reachable(Outcome(s, steps, countdown), countdown)
    decreases |steps|
  {
    hide Enabled, Apply, Reachable;
    if steps != [] {
      OneStepFurther(s, steps[0], countdown);
      RunIsReachable(Apply(s, steps[0], countdown), steps[1..], countdown);
    }
  }

  /** A run can be repeated where more is left to do. */
  lemma {:induction false} RunIsCopied(s: System, steps: seq<Step>, t: System, countdown: int) returns (end: System)
    requires Possible(s, steps, countdown) && Fuller(s, t) && Reachable(t, countdown)
    ensures Reachable(end, countdown) && Fuller(Outcome(s, steps, countdown), end) && t.soup <= end.soup
    decreases |steps|
  {
    hide Enabled, Apply, Reachable;
    end := t;
    if steps != [] {
      StepIsCopied(s, t, steps[0], countdown);
      OneStepFurther(t, steps[0], countdown);
      end := RunIsCopied(Apply(s, steps[0], countdown), steps[1..], Apply(t, steps[0], countdown), countdown);
    }
  }

  // ---- the detour of a scanner ----

  /** The auction has been started, runs, and has taken n bids. */
  ghost predicate RunsWith(s: System, id: int, n: int) {
    id in s.history.lives && s.history.lives[id].end.None? && |s.history.lives[id].bids| == n
  }

  /** A scanner lists and reads a running auction, just when it has become due and overdue. */
  lemma ScannerReads(s: System, id: int, countdown: int) returns (t: System, f: Item)
    requires Reachable(s, countdown) && id in s.redis.states && s.redis.states[id].status == RUNNING
    ensures Reachable(t, countdown) && Fuller(s, t) && f in t.soup
    ensures f.Finish? && f.id == id && f.version == s.redis.states[id].version && Sane(f.now)
  {
    ReachableKeeps(s, countdown);
    ScoreIsSane(s, id, countdown);
    var score, expireAt := s.redis.expireIndex[id], s.redis.states[id].expireAt;
    var now := if score < expireAt then expireAt else score;
    hide Inv, Reachable;
    var listed := ScannerLists(s, id, now, countdown);
    t := ScannerExamines(listed, id, now, countdown);
    f := Decision(listed.redis, id, now);
  }

  lemma ScannerLists(s: System, id: int, now: int, countdown: int) returns (t: System)
    requires Reachable(s, countdown) && Sane(now) && id in Due(s.redis, now)
    ensures Reachable(t, countdown) && Fuller(s, t) && Candidate(id, now) in t.soup
  {
    OneStepFurther(s, List({id}, now), countdown);
    t := Apply(s, List({id}, now), countdown);
    hide Reachable, Enabled;
    assert id in {id};
  }

  lemma ScannerExamines(s: System, id: int, now: int, countdown: int) returns (t: System)
    requires Reachable(s, countdown) && Candidate(id, now) in s.soup
    ensures Reachable(t, countdown) && Fuller(s, t) && Decision(s.redis, id, now) in t.soup
  {
    OneStepFurther(s, Examine(Candidate(id, now)), countdown);
    t := Apply(s, Examine(Candidate(id, now)), countdown);
    hide Reachable, Enabled, Decision;
  }

  lemma ScoreIsSane(s: System, id: int, countdown: int)
    requires Inv(s, countdown) && id in s.redis.states && s.redis.states[id].status == RUNNING
    ensures id in s.redis.expireIndex && Sane(s.redis.expireIndex[id]) && Sane(s.redis.states[id].expireAt)
  {
    hide Nearest;
    StatusOfLife(s.redis, s.history.lives, id, countdown);
    var l := s.history.lives[id];
    CurrentInClosedForm(l, countdown);
    assert ScoreFits(l, s.redis.expireIndex[id], countdown);
    if l.bids != [] {
      assert MeasuredBid(l.bids[|l.bids| - 1], countdown);
    }
  }

  /** The script finds another version, so the scanner reads again and carries off the expiry of that moment. */
  lemma ScannerRereads(s: System, f: Item, countdown: int) returns (t: System)
    requires Reachable(s, countdown) && f in s.soup && f.Finish? && Sane(f.now)
    requires f.id in s.redis.states && s.redis.states[f.id].status == RUNNING
    requires f.version != s.redis.states[f.id].version
    ensures Reachable(t, countdown) && Fuller(s, t)
    ensures Reindex(f.id, s.redis.states[f.id].expireAt) in t.soup
  {
    hide Nearest;
    var tried := Apply(s, TryFinish(f), countdown);
    OneStepFurther(s, TryFinish(f), countdown);
    OneStepFurther(tried, Reread(Recheck(f.id)), countdown);
    t := Apply(tried, Reread(Recheck(f.id)), countdown);
  }

  function BidCount(s: System, id: int): nat {
    if id in s.history.lives then |s.history.lives[id].bids| else 0
  }

  lemma OtherStepsPlaceNoBid(s: System, step: Step, id: int, countdown: int)
    requires Enabled(s, step, countdown) && !step.PlaceBid?
    ensures BidCount(Apply(s, step, countdown), id) == BidCount(s, id)
  {
    hide Nearest, NewEvent, AuctionFromEvent, BidRecordFromEvent, Delivered, AfterSnapshot, AfterRecord, AfterConfig;
    hide AfterLoad, AfterEnd, Expires, EndVerdict, RoomBusy, FinalItems, StartItems, LoadedHash;
  }

  lemma BidComesAlone(s: System, q: BidRequest, id: int, countdown: int)
    requires Inv(s, countdown)
    ensures var n, n' := BidCount(s, id), BidCount(WithBid(s, q, countdown), id);
            n' == n || (n' == n + 1 && RunsWith(s, id, n) && RunsWith(WithBid(s, q, countdown), id, n + 1))
  {
    BidFromInv(s, q, countdown);
    hide *;
    BidIsCounted(s, q, id, countdown);
  }

  lemma BidIsCounted(s: System, q: BidRequest, id: int, countdown: int)
    requires BidVerdict(s.redis, q) == None ==>
               q.auctionId in s.history.lives && s.history.lives[q.auctionId].end.None?
    ensures var n, n' := BidCount(s, id), BidCount(WithBid(s, q, countdown), id);
            n' == n || (n' == n + 1 && RunsWith(s, id, n) && RunsWith(WithBid(s, q, countdown), id, n + 1))
  {
    hide BidItems, AfterBid, BidVerdict;
  }

  /** A step places at most one bid on an auction, which runs before and after it. */
  lemma BidsComeOneByOne(s: System, step: Step, id: int, countdown: int)
    requires Inv(s, countdown) && Enabled(s, step, countdown)
    ensures var n, n' := BidCount(s, id), BidCount(Apply(s, step, countdown), id);
            n' == n || (n' == n + 1 && RunsWith(s, id, n) && RunsWith(Apply(s, step, countdown), id, n + 1))
  {
    hide Inv, WithBid, BidCount, RunsWith;
    match step
    case PlaceBid(q) => BidComesAlone(s, q, id, countdown);
    case _ =>
      hide Apply;
      OtherStepsPlaceNoBid(s, step, id, countdown);
  }

  lemma RunningInRedis(s: System, id: int, countdown: int)
    requires Inv(s, countdown) && RunsWith(s, id, BidCount(s, id))
    ensures id in s.redis.states && s.redis.states[id].status == RUNNING
    ensures s.redis.states[id].version == s.history.lives[id].start.version + BidCount(s, id)
    ensures var l := s.history.lives[id];
            l.bids != [] ==> s.redis.states[id].expireAt == l.bids[|l.bids| - 1].now + countdown
  {
    HashOf(s, id, countdown);
    hide Inv, StageKnown;
  }

  /** In a copy of the run with a scanner reading before the bid at position i, that bid's expiry is left to write. */
  lemma {:induction false} CarriedOff(s: System, steps: seq<Step>, t: System, id: int, i: nat, countdown: int)
    returns (end: System)
    requires Inv(s, countdown) && Possible(s, steps, countdown) && Fuller(s, t) && Reachable(t, countdown)
    requires BidCount(s, id) <= i < BidCount(Outcome(s, steps, countdown), id)
    ensures id in Outcome(s, steps, countdown).history.lives
    ensures Reachable(end, countdown) && Fuller(Outcome(s, steps, countdown), end)
    ensures Reindex(id, Outcome(s, steps, countdown).history.lives[id].bids[i].now + countdown) in end.soup
    decreases |steps|
  {
    hide Enabled, Apply, Reachable, Inv, Lawful;
    var next := Apply(s, steps[0], countdown);
    StepKeeps(s, steps[0], countdown);
    StepIsCopied(s, t, steps[0], countdown);
    if BidCount(next, id) <= i {
      OneStepFurther(t, steps[0], countdown);
      end := CarriedOff(next, steps[1..], Apply(t, steps[0], countdown), id, i, countdown);
    } else {
      BidsComeOneByOne(s, steps[0], id, countdown);
      var u := CarriedOffAtOnce(s, steps[0], t, id, countdown);
      end := RunIsCopied(next, steps[1..], u, countdown);
      RunKeeps(next, steps[1..], countdown);
    }
  }

  lemma CarriedOffAtOnce(s: System, step: Step, t: System, id: int, countdown: int) returns (u: System)
    requires Inv(s, countdown) && Enabled(s, step, countdown) && Fuller(s, t) && Reachable(t, countdown)
    requires RunsWith(s, id, BidCount(s, id)) && RunsWith(Apply(s, step, countdown), id, BidCount(s, id) + 1)
    ensures Reachable(u, countdown) && Fuller(Apply(s, step, countdown), u)
    ensures Reindex(id, Apply(s, step, countdown).history.lives[id].bids[BidCount(s, id)].now + countdown) in u.soup
  {
    var next := Apply(s, step, countdown);
    StepKeeps(s, step, countdown);
    RunningInRedis(s, id, countdown);
    RunningInRedis(next, id, countdown);
    hide Enabled, Apply, Reachable, Inv, Lawful;
    var t', f := ScannerReads(t, id, countdown);
    StepIsCopied(s, t', step, countdown);
    OneStepFurther(t', step, countdown);
    u := ScannerRereads(Apply(t', step, countdown), f, countdown);
  }

  // ---- all scores, and what they hide ----

  /** In some run the auction has this life behind it and this score in the index. */
  ghost predicate CanScore(id: int, l: Life, score: int, countdown: int) {
    exists s :: Reachable(s, countdown) && id in s.history.lives && s.history.lives[id] == l && Scores(s, id, score)
  }

  ghost predicate Scores(s: System, id: int, score: int) {
    id in s.redis.expireIndex && s.redis.expireIndex[id] == score
  }

  /** The index can hold the expiry of any bid of a running auction, and nothing else. */
  lemma ScoresAreBidExpiries(s: System, id: int, score: int, countdown: int)
    requires Reachable(s, countdown) && id in s.history.lives && s.history.lives[id].end.None?
    ensures CanScore(id, s.history.lives[id], score, countdown) <==> ScoreFits(s.history.lives[id], score, countdown)
  {
    var l := s.history.lives[id];
    hide Reachable, Enabled, Apply, Lawful, Measured;
    if t :| Reachable(t, countdown) && id in t.history.lives && t.history.lives[id] == l && Scores(t, id, score) {
      ReachableKeeps(t, countdown);
    }
    if ScoreFits(l, score, countdown) {
      if l.bids == [] {
        ReachableKeeps(s, countdown);
        assert Scores(s, id, score);
      } else {
        var i :| 0 <= i < |l.bids| && score == l.bids[i].now + countdown;
        var t := WrittenBack(s, id, i, countdown);
        assert Scores(t, id, score);
      }
    }
  }

  lemma IndexWritten(s: System, id: int, score: int, countdown: int) returns (t: System)
    requires Reachable(s, countdown) && Reindex(id, score) in s.soup
    ensures Reachable(t, countdown) && t.history == s.history
    ensures t.redis.states == s.redis.states && Scores(t, id, score)
  {
    var item := Reindex(id, score);
    OneStepFurther(s, WriteIndex(item), countdown);
    t := Apply(s, WriteIndex(item), countdown);
    hide Reachable;
  }

  /** A run that ends like s, except that the index holds the expiry set by the bid at position i. */
  lemma WrittenBack(s: System, id: int, i: nat, countdown: int) returns (t: System)
    requires Reachable(s, countdown) && id in s.history.lives && i < |s.history.lives[id].bids|
    ensures Reachable(t, countdown) && t.history == s.history && t.redis.states == s.redis.states
    ensures Scores(t, id, s.history.lives[id].bids[i].now + countdown)
  {
    var steps :| Possible(INITIAL, steps, countdown) && Outcome(INITIAL, steps, countdown) == s;
    Beginning(countdown);
    hide Reachable, Possible, Outcome, Inv, Enabled, Apply;
    assert BidCount(INITIAL, id) == 0 && Fuller(INITIAL, INITIAL);
    var end := CarriedOff(INITIAL, steps, INITIAL, id, i, countdown);
    t := IndexWritten(end, id, s.history.lives[id].bids[i].now + countdown, countdown);
  }

  lemma Beginning(countdown: int)
    ensures Inv(INITIAL, countdown) && Reachable(INITIAL, countdown)
  {
    assert Possible(INITIAL, [], countdown) && Outcome(INITIAL, [], countdown) == INITIAL;
  }

  /** In some run the auction has this life behind it, is overdue, and no scan sees it. */
  ghost predicate CanHide(id: int, l: Life, countdown: int) {
    exists s, now :: Reachable(s, countdown) && id in s.history.lives && s.history.lives[id] == l && Hides(s, id, now)
  }

  ghost predicate Hides(s: System, id: int, now: int) {
    && id in s.redis.states && s.redis.states[id].status == RUNNING && s.redis.states[id].expireAt <= now
    && id !in Due(s.redis, now)
  }

  lemma HidingTakesLaterBid(s: System, id: int, now: int, countdown: int)
    requires Reachable(s, countdown) && id in s.history.lives && Hides(s, id, now)
    ensures !NoneLater(s.history.lives[id].bids, 0)
  {
    hide Reachable, NoneLater;
    if NoneLater(s.history.lives[id].bids, 0) {
      NothingOverdueIsHidden(s, id, now, countdown);
    }
  }

  lemma LaterBidCanHide(s: System, id: int, i: nat, countdown: int)
    requires Reachable(s, countdown) && RunsWith(s, id, BidCount(s, id)) && i < |s.history.lives[id].bids|
    requires var bids := s.history.lives[id].bids; bids[i].now > bids[|bids| - 1].now
    ensures CanHide(id, s.history.lives[id], countdown)
  {
    ReachableKeeps(s, countdown);
    RunningInRedis(s, id, countdown);
    hide Reachable, Inv;
    var t := WrittenBack(s, id, i, countdown);
    assert Hides(t, id, t.redis.states[id].expireAt);
  }

  /** A scanner can hide an overdue running auction exactly when some bid was stamped later than the last one. */
  lemma HiddenIffClockRanBack(s: System, id: int, countdown: int)
    requires Reachable(s, countdown) && id in s.history.lives && s.history.lives[id].end.None?
    ensures CanHide(id, s.history.lives[id], countdown) <==> !NoneLater(s.history.lives[id].bids, 0)
  {
    hide Reachable, Hides;
    var l := s.history.lives[id];
    if t, now :| Reachable(t, countdown) && id in t.history.lives && t.history.lives[id] == l && Hides(t, id, now) {
      HidingTakesLaterBid(t, id, now, countdown);
    }
    if i :| 0 <= i < |l.bids| && l.bids[i].now > l.bids[|l.bids| - 1].now {
      LaterBidCanHide(s, id, i, countdown);
    }
  }
}
