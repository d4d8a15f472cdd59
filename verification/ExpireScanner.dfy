/** The scanner of expire_scanner.go while nobody else acts: how fast it clears the due auctions. */
module ExpireScanner {
  import opened Auctions
  import opened RedisScripts
  import opened RedisStore
  import opened Events
  import opened Tables
  import opened Protocol
  import opened EventProcessor

  /** Hashes are untouched, except that overdue running auctions may have ended by timing out. */
  ghost predicate OnlyTimeouts(r: Redis, r': Redis, now: int) {
    && r'.states.Keys == r.states.Keys
    && (forall id :: id in r.states ==>
          || r'.states[id] == r.states[id]
          || (r.states[id].status == RUNNING && r.states[id].expireAt <= now &&
              r'.states[id] == HashAfterEnd(r.states[id], TimedOut, now)))
  }

  /**
   Leaderboards and markers are untouched, and so is the index but for entries that were due: those
   of auctions still running now carry their true expiry, which lies ahead, and the others are gone.
   */
  ghost predicate OnlyDueMoved(r: Redis, r': Redis, now: int) {
    && r'.rank == r.rank && r'.markers == r.markers
    && r'.expireIndex.Keys <= r.expireIndex.Keys
    && (forall id :: id in r.expireIndex ==>
          || (id in r'.expireIndex && r'.expireIndex[id] == r.expireIndex[id])
          || (r.expireIndex[id] <= now && Settled(r', id, now)))
  }

  ghost predicate Settled(r: Redis, id: int, now: int) {
    if id in r.states && r.states[id].status == RUNNING
    then id in r.expireIndex && r.expireIndex[id] == r.states[id].expireAt > now
    else id !in r.expireIndex
  }

  /** The auction an ending script's reply stands for. */
  function Concluded(h: Hash): Auction {
    AuctionFromState(StateFromMap(LuaRead(h)))
  }

  /** What the scanner works on: Redis, the events published so far, the auction table. */
  datatype Scene = Scene(redis: Redis, published: seq<Event>, rows: map<int, Auction>)

  /** The effect of handling one candidate, following the decision of the protocol. */
  ghost predicate Handled(x: Scene, y: Scene, id: int, now: int) {
    match Decision(x.redis, id, now)
    case Finish(_, _, _, _) =>
      && y.redis == AfterEnd(x.redis, id, TimedOut, now)
      && var a := Concluded(y.redis.states[id]);
         y.published == x.published + [FinalEvent(a)] && y.rows == AfterSnapshot(x.rows, a)
    case Reindex(_, expireAt) => y == x.(redis := AfterIndex(x.redis, id, expireAt))
    case _ => y == x.(redis := AfterUnindex(x.redis, id))
  }

  /** Whatever ended since r has been announced, and an undeleted row of it has caught up. */
  ghost predicate Announced(r: Redis, y: Scene) {
    forall id :: id in r.states && id in y.redis.states && y.redis.states[id] != r.states[id] ==>
      && FinalEvent(Concluded(y.redis.states[id])) in y.published
      && (id in y.rows && !y.rows[id].deleted ==> y.rows[id].version >= y.redis.states[id].version)
  }

  /** What can be said of a scan that began with r and has come to y. */
  ghost predicate Scanned(r: Redis, y: Scene, now: int) {
    OnlyTimeouts(r, y.redis, now) && OnlyDueMoved(r, y.redis, now) && Announced(r, y)
  }

  /** One more candidate keeps it. */
  lemma OneMore(r: Redis, x: Scene, y: Scene, id: int, now: int)
    requires Filed(x.redis) && id in Due(x.redis, now) && Scanned(r, x, now) && Handled(x, y, id, now)
    ensures Scanned(r, y, now)
  {
    hide Announced, OnlyDueMoved, AfterSnapshot, FinalEvent, Concluded;
    OneMoreMoved(r, x, y, id, now);
    OneMoreAnnounced(r, x, y, id, now);
  }

  lemma OneMoreMoved(r: Redis, x: Scene, y: Scene, id: int, now: int)
    requires Filed(x.redis) && id in Due(x.redis, now) && Handled(x, y, id, now)
    requires OnlyDueMoved(r, x.redis, now)
    ensures OnlyDueMoved(r, y.redis, now)
  {
    hide AfterSnapshot, FinalEvent, Concluded;
  }

  /** What handling a candidate has to do with announcements. */
  ghost predicate News(x: Scene, y: Scene, id: int) {
    && x.published <= y.published && y.rows.Keys == x.rows.Keys
    && (forall other :: other in y.redis.states && other != id ==>
          other in x.redis.states && y.redis.states[other] == x.redis.states[other])
    && (forall row :: row in x.rows ==>
          y.rows[row].version >= x.rows[row].version && y.rows[row].deleted == x.rows[row].deleted)
    && (id in y.redis.states ==>
          || (id in x.redis.states && y.redis.states[id] == x.redis.states[id])
          || (FinalEvent(Concluded(y.redis.states[id])) in y.published &&
              (id in y.rows && !y.rows[id].deleted ==> y.rows[id].version >= y.redis.states[id].version)))
  }

  lemma HandledIsNews(x: Scene, y: Scene, id: int, now: int)
    requires Filed(x.redis) && Handled(x, y, id, now)
    ensures News(x, y, id)
  {
    RowsCatchUp(x, y, id, now);
    hide Doubles.Nearest, FinalEvent, AfterSnapshot, Concluded;
  }

  lemma OneMoreAnnounced(r: Redis, x: Scene, y: Scene, id: int, now: int)
    requires Filed(x.redis) && Announced(r, x) && Handled(x, y, id, now)
    ensures Announced(r, y)
  {
    HandledIsNews(x, y, id, now);
    hide Filed, Handled, FinalEvent, Concluded;
  }

  lemma RowsCatchUp(x: Scene, y: Scene, id: int, now: int)
    requires Filed(x.redis) && Handled(x, y, id, now)
    ensures y.rows.Keys == x.rows.Keys
    ensures forall row :: row in x.rows ==>
              y.rows[row].version >= x.rows[row].version && y.rows[row].deleted == x.rows[row].deleted
    ensures id in y.redis.states && Decision(x.redis, id, now).Finish? && id in y.rows && !y.rows[id].deleted ==>
              y.rows[id].version >= y.redis.states[id].version
  {
    hide Doubles.Nearest, FinalEvent;
  }

  /** Handling one candidate is two steps of the protocol, of which the second leaves the announcement to be made. */
  lemma CandidateIsTwoSteps(s: System, published: seq<Event>, y: Scene, id: int, now: int, countdown: int)
    requires Candidate(id, now) in s.soup && Sane(now)
    requires Handled(Scene(s.redis, published, s.auctions), y, id, now)
    ensures Enabled(s, Examine(Candidate(id, now)), countdown)
    ensures var examined, decision := Apply(s, Examine(Candidate(id, now)), countdown), Decision(s.redis, id, now);
            && (decision.Finish? || decision.Reindex? || decision.Remove?)
            && Enabled(examined, TakenUp(decision, now, false), countdown)
            && var after := Apply(examined, TakenUp(decision, now, false), countdown);
               && after.redis == y.redis
               && (forall i :: |published| <= i < |y.published| ==> Message(y.published[i]) in after.soup)
               && (decision.Finish? ==> |y.published| == |published| + 1)
               && (!decision.Finish? ==> y.published == published && after.soup == examined.soup)
  {
    hide Doubles.Nearest, NewEvent, AfterSnapshot;
  }

  /** What follows a script that changed nothing is two steps as well. */
  lemma UnchangedIsTwoSteps(s: System, id: int, now: int, countdown: int)
    requires Recheck(id) in s.soup
    ensures Enabled(s, Reread(Recheck(id)), countdown)
    ensures var reread, decision := Apply(s, Reread(Recheck(id)), countdown), SecondDecision(s.redis, id);
            && (decision.Reindex? || decision.Remove?)
            && Enabled(reread, TakenUp(decision, now, false), countdown)
            && Apply(reread, TakenUp(decision, now, false), countdown).redis ==
               if id in s.redis.states && s.redis.states[id].status == RUNNING
               then s.redis.(expireIndex := s.redis.expireIndex[id := s.redis.states[id].expireAt])
               else s.redis.(expireIndex := s.redis.expireIndex - {id})
  {
  }

  lemma NothingScanned(y: Scene, now: int)
    ensures Scanned(y.redis, y, now)
  {
  }

  class AuctionExpireScanner {
    const states: RedisAuctionStateStore
    const processor: AuctionEventProcessor
    const batchSize: int

    constructor (processor: AuctionEventProcessor, batchSize: int)
      ensures this.processor == processor && states == processor.states
      ensures this.batchSize == if batchSize > 0 then batchSize else 100
    {
      this.processor, states := processor, processor.states;
      this.batchSize := if batchSize <= 0 then 100 else batchSize;
    }

    ghost predicate Valid()
    {
      states == processor.states && batchSize > 0
    }

    ghost function Here(): Scene
      reads processor, processor.auctions, states
    {
      Scene(states.Model(), processor.published, processor.auctions.rows)
    }

    /**
     One candidate, handled as the decision of the protocol says: afterwards it is not due any
     more, and the rest of the index is as before.
     */
    method HandleExpiredCandidate(auctionID: int, now: int)
      requires Valid() && Filed(states.Model()) && auctionID in Due(states.Model(), now)
      modifies states, processor, processor.auctions
      ensures Handled(old(Here()), Here(), auctionID, now)
      ensures Filed(states.Model())
      ensures Due(states.Model(), now) == Due(old(states.Model()), now) - {auctionID}
      ensures OnlyTimeouts(old(states.Model()), states.Model(), now)
      ensures auctionID in states.states && states.states[auctionID].status == RUNNING ==>
                states.states[auctionID].expireAt > now
    {
      var state := states.GetState(auctionID);
      if state.Failure? {
        states.RemoveRunningAuction(auctionID);
        return;
      }
      if state.value.status != RUNNING {
        states.RemoveRunningAuction(auctionID);
        return;
      }
      if state.value.expireAt > now {
        states.IndexRunningAuction(auctionID, state.value.expireAt);
        return;
      }
      var finished := states.FinishExpiredAuction(auctionID, state.value.version, state.value.expireAt, now);
      // Undisturbed, the script still finds the version and expiry just read; Protocol.SecondDecision covers the rest.
      assert finished.Success? && finished.value.1;
      processor.PublishAndSnapshotFinalState(AuctionFromState(finished.value.0.value));
    }

    /**
     What a candidate comes to when somebody else has changed the auction between the read and the
     script, which then changed nothing: its index entry follows the present state of the hash.
     */
    method SettleUnchanged(auctionID: int, ghost s: System)
      requires states.Model() == s.redis
      modifies states
      ensures states.Model() == match SecondDecision(s.redis, auctionID)
                                case Reindex(id, expireAt) => AfterIndex(s.redis, id, expireAt)
                                case _ => AfterUnindex(s.redis, auctionID)
      // in the columns: a running auction is indexed at its true expiry, any other is removed
      ensures states.expireIndex ==
              if auctionID in s.redis.states && s.redis.states[auctionID].status == RUNNING
              then s.redis.expireIndex[auctionID := s.redis.states[auctionID].expireAt]
              else s.redis.expireIndex - {auctionID}
    {
      var current := states.GetState(auctionID);
      if current.Failure? {
        states.RemoveRunningAuction(auctionID);
        return;
      }
      if current.value.status == RUNNING {
        states.IndexRunningAuction(auctionID, current.value.expireAt);
        return;
      }
      states.RemoveRunningAuction(auctionID);
    }

    /** A scan takes a whole batch out of the due set, and keeps what can be said since some earlier state. */
    method Scan(now: int, ghost since: Redis)
      requires Valid() && Filed(states.Model()) && OverdueIsDue(states.Model(), now)
      requires Scanned(since, Here(), now)
      modifies states, processor, processor.auctions
      ensures Filed(states.Model()) && OverdueIsDue(states.Model(), now)
      ensures Due(states.Model(), now) <= Due(old(states.Model()), now)
      ensures Scanned(since, Here(), now)
      ensures var n := |Due(old(states.Model()), now)|;
              |Due(states.Model(), now)| == if n <= batchSize then 0 else n - batchSize
    {
      hide Scanned, Handled, Doubles.Nearest;
      var ids := states.ListExpiredAuctionIDs(now, batchSize);
      ghost var n := |Due(states.Model(), now)|;
      assert forall i :: 0 <= i < |ids| ==> ids[i] in ids;
      var k := 0;
      while k < |ids|
        invariant 0 <= k <= |ids|
        invariant Filed(states.Model()) && OverdueIsDue(states.Model(), now)
        invariant Due(states.Model(), now) <= Due(old(states.Model()), now)
        invariant Scanned(since, Here(), now)
        invariant forall i, j :: 0 <= i < j < |ids| ==> ids[i] != ids[j]
        invariant forall i :: k <= i < |ids| ==> ids[i] in Due(states.Model(), now)
        invariant |Due(states.Model(), now)| == n - k
      {
        ghost var before := Here();
        HandleExpiredCandidate(ids[k], now);
        OneMore(since, before, Here(), ids[k], now);
        assert |Due(before.redis, now)| == |Due(states.Model(), now) + {ids[k]}|;
        k := k + 1;
      }
    }

    /**
     So many rounds of a full batch as there are due entries leave none, and no running auction
     overdue. Nothing else happens to Redis, and every auction that ended has been announced.
     */
    method ScanRounds(now: int, rounds: nat)
      requires Valid() && Filed(states.Model()) && OverdueIsDue(states.Model(), now)
      modifies states, processor, processor.auctions
      ensures Scanned(old(states.Model()), Here(), now)
      ensures var n := |Due(old(states.Model()), now)|;
              |Due(states.Model(), now)| == if n <= rounds * batchSize then 0 else n - rounds * batchSize
      ensures Due(states.Model(), now) == {} ==>
                forall id :: id in states.states && states.states[id].status == RUNNING ==>
                  states.states[id].expireAt > now
    {
      NothingScanned(Here(), now);
      hide Scanned;
      ghost var n := |Due(states.Model(), now)|;
      var round := 0;
      while round < rounds
        invariant 0 <= round <= rounds
        invariant Filed(states.Model()) && OverdueIsDue(states.Model(), now)
        invariant Scanned(old(states.Model()), Here(), now)
        invariant |Due(states.Model(), now)| == if n <= round * batchSize then 0 else n - round * batchSize
      {
        Scan(now, old(states.Model()));
        assert (round + 1) * batchSize == round * batchSize + batchSize;
        round := round + 1;
      }
    }
  }
}
