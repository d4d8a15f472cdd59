/** What every script keeps true about the keys in Redis, in terms of the lives of the auctions. */
module RedisInvariant {
  import opened Prelude
  import opened Doubles
  import opened Auctions
  import opened RedisScripts
  import opened Lives

  // ---- the invariant ----

  /** Each hash is the state its auction's life has come to. */
  ghost predicate StatesMatch(r: Redis, lives: Ledger, countdown: int) {
    && r.states.Keys == lives.Keys
    && (forall id :: id in lives ==>
          && Lawful(lives[id], countdown)
          && lives[id].start.auctionId == id
          && r.states[id] == Current(lives[id], countdown))
  }

  /** A room has a current auction on record exactly while one runs in it, and it is that one. */
  ghost predicate RoomsMatch(r: Redis) {
    && (forall id :: id in r.states && r.states[id].status == RUNNING ==>
          r.states[id].roomId in r.roomCurrent && r.roomCurrent[r.states[id].roomId] == id)
    && (forall room :: room in r.roomCurrent ==> Hosts(r, room, r.roomCurrent[room]))
  }

  ghost predicate Hosts(r: Redis, room: int, id: int) {
    id in r.states && r.states[id].status == RUNNING && r.states[id].roomId == room
  }

  /** The score is the end time before the first bid, and later the expiry some accepted bid has set. */
  ghost predicate ScoreFits(l: Life, score: int, countdown: int) {
    if l.bids == [] then score == l.start.expireAt
    else exists i :: 0 <= i < |l.bids| && score == l.bids[i].now + countdown
  }

  ghost predicate IndexMatches(r: Redis, lives: Ledger, countdown: int) {
    && r.expireIndex.Keys <= lives.Keys
    && (forall id :: id in lives && lives[id].end.None? ==>
          id in r.expireIndex && ScoreFits(lives[id], r.expireIndex[id], countdown))
  }

  ghost predicate RanksMatch(r: Redis, lives: Ledger) {
    && r.rank.Keys <= lives.Keys
    && (forall id :: id in lives ==> RankOf(r, id) == Ranking(lives[id].bids))
  }

  /** Two accepted bids of one request are at least one marker lifetime apart. */
  ghost predicate Spaced(bids: seq<Bid>) {
    forall i, j :: 0 <= i < j < |bids| && bids[i].request == bids[j].request ==>
      bids[j].clock >= bids[i].clock + MARKER_MILLIS
  }

  /** An accepted bid's marker, or a later one of the same request, is still on file. */
  ghost predicate OnFile(r: Redis, id: int, b: Bid) {
    (id, b.request) in r.markers && r.markers[(id, b.request)] >= b.clock + MARKER_MILLIS
  }

  ghost predicate MarkersMatch(r: Redis, lives: Ledger) {
    forall id :: id in lives ==>
      Spaced(lives[id].bids) && forall i :: 0 <= i < |lives[id].bids| ==> OnFile(r, id, lives[id].bids[i])
  }

  ghost predicate RedisInv(r: Redis, lives: Ledger, countdown: int) {
    && StatesMatch(r, lives, countdown)
    && RoomsMatch(r)
    && IndexMatches(r, lives, countdown)
    && RanksMatch(r, lives)
    && MarkersMatch(r, lives)
  }

  // ---- it holds in every script ----

  /** The status in the hash tells whether the auction has ended; Pending never occurs. */
  lemma StatusOfLife(r: Redis, lives: Ledger, id: int, countdown: int)
    requires StatesMatch(r, lives, countdown) && id in lives
    ensures r.states[id].status in {RUNNING, DEAL, FAILED, CANCELLED}
    ensures r.states[id].status == RUNNING <==> lives[id].end.None?
    ensures r.states[id].auctionId == id && r.states[id].roomId == lives[id].start.roomId
  {
    CurrentInClosedForm(lives[id], countdown);
  }

  lemma LoadKeepsStates(r: Redis, lives: Ledger, h: Hash, countdown: int)
    requires StatesMatch(r, lives, countdown) && RoomsMatch(r)
    requires FreshStart(h) && !RoomBusy(r, h)
    requires h.auctionId in lives ==> h.roomId == lives[h.auctionId].start.roomId
    ensures var l := Life(h, [], None);
            && Lawful(l, countdown) && Current(l, countdown) == h
            && StatesMatch(AfterLoad(r, h), lives[h.auctionId := l], countdown) && RoomsMatch(AfterLoad(r, h))
  {
    hide Nearest;
    var l := Life(h, [], None);
    assert l.bids[..0] == [];
    var r' := AfterLoad(r, h);
    if h.auctionId in lives {
      StatusOfLife(r, lives, h.auctionId, countdown);
    }
    forall id | id in r'.states && r'.states[id].status == RUNNING
      ensures r'.states[id].roomId in r'.roomCurrent && r'.roomCurrent[r'.states[id].roomId] == id
    {
      if id != h.auctionId {
        assert r.roomCurrent[r.states[id].roomId] == id;
      }
    }
    forall room | room in r'.roomCurrent
      ensures Hosts(r', room, r'.roomCurrent[room])
    {
      if room != h.roomId {
        assert Hosts(r, room, r.roomCurrent[room]);
      }
    }
  }

  /** A load keeps the keys in order as long as nobody has bid on the auction before. */
  lemma LoadKeeps(r: Redis, lives: Ledger, h: Hash, countdown: int)
    requires RedisInv(r, lives, countdown)
    requires FreshStart(h) && !RoomBusy(r, h)
    requires h.auctionId in lives ==> lives[h.auctionId].bids == [] && h.roomId == lives[h.auctionId].start.roomId
    ensures RedisInv(AfterLoad(r, h), lives[h.auctionId := Life(h, [], None)], countdown)
  {
    LoadKeepsStates(r, lives, h, countdown);
    hide Nearest, StatesMatch, RoomsMatch;
    var r', lives' := AfterLoad(r, h), lives[h.auctionId := Life(h, [], None)];
    forall id, i | id in lives' && 0 <= i < |lives'[id].bids|
      ensures OnFile(r', id, lives'[id].bids[i])
    {
      assert OnFile(r, id, lives[id].bids[i]);
    }
  }

  /** The life after a bid. */
  function Extended(l: Life, q: BidRequest): Life {
    l.(bids := l.bids + [Bid(q.userId, q.price, q.request, q.recordId, q.now, q.clock)])
  }

  lemma BidKeepsStates(r: Redis, lives: Ledger, q: BidRequest, countdown: int)
    requires StatesMatch(r, lives, countdown) && RoomsMatch(r) && BidVerdict(r, q) == None
    ensures var r', l' := AfterBid(r, q, countdown), Extended(lives[q.auctionId], q);
            && StatesMatch(r', lives[q.auctionId := l'], countdown) && RoomsMatch(r')
            && Extends(lives[q.auctionId], l')
            && lives[q.auctionId].end.None?
            && r'.states[q.auctionId].status == RUNNING
  {
    hide Nearest;
    var id := q.auctionId;
    StatusOfLife(r, lives, id, countdown);
    LaterBidKeepsLaw(lives[id], Bid(q.userId, q.price, q.request, q.recordId, q.now, q.clock), countdown);
    var r' := AfterBid(r, q, countdown);
    forall room | room in r'.roomCurrent
      ensures Hosts(r', room, r'.roomCurrent[room])
    {
      assert Hosts(r, room, r.roomCurrent[room]);
    }
  }

  lemma BidKeepsIndex(r: Redis, lives: Ledger, q: BidRequest, countdown: int)
    requires StatesMatch(r, lives, countdown) && BidVerdict(r, q) == None && IndexMatches(r, lives, countdown)
    ensures IndexMatches(AfterBid(r, q, countdown), lives[q.auctionId := Extended(lives[q.auctionId], q)], countdown)
  {
    var id := q.auctionId;
    StatusOfLife(r, lives, id, countdown);
    var r', l' := AfterBid(r, q, countdown), Extended(lives[id], q);
    assert r'.expireIndex == r.expireIndex[id := q.now + countdown];
    hide StatesMatch, BidVerdict, AfterBid;
    var last := |l'.bids| - 1;
    assert r'.expireIndex[id] == l'.bids[last].now + countdown;
    assert ScoreFits(l', r'.expireIndex[id], countdown);
  }

  lemma BidKeepsRanks(r: Redis, lives: Ledger, q: BidRequest, countdown: int)
    requires StatesMatch(r, lives, countdown) && BidVerdict(r, q) == None && RanksMatch(r, lives)
    ensures RanksMatch(AfterBid(r, q, countdown), lives[q.auctionId := Extended(lives[q.auctionId], q)])
  {
    hide Double;
    var id := q.auctionId;
    var r', l' := AfterBid(r, q, countdown), Extended(lives[id], q);
    assert id in lives && r'.rank == r.rank[id := RankOf(r, id)[Double(q.userId) := q.price]];
    hide AfterBid, BidVerdict, StatesMatch;
    assert l'.bids[..|l'.bids| - 1] == lives[id].bids;
    assert RankOf(r', id) == Ranking(l'.bids);
  }

  lemma BidKeepsMarkers(r: Redis, lives: Ledger, q: BidRequest, countdown: int)
    requires StatesMatch(r, lives, countdown) && BidVerdict(r, q) == None && MarkersMatch(r, lives)
    ensures MarkersMatch(AfterBid(r, q, countdown), lives[q.auctionId := Extended(lives[q.auctionId], q)])
  {
    hide Nearest;
    MarkingKeeps(r, lives, q, countdown);
    var id := q.auctionId;
    var l, l' := lives[id], Extended(lives[id], q);
    forall i, j | 0 <= i < j < |l'.bids| && l'.bids[i].request == l'.bids[j].request
      ensures l'.bids[j].clock >= l'.bids[i].clock + MARKER_MILLIS
    {
      assert l'.bids[i] == l.bids[i] && OnFile(r, id, l.bids[i]);
      if j < |l.bids| {
        assert l'.bids[j] == l.bids[j];
      }
    }
    var r' := AfterBid(r, q, countdown);
    forall i | 0 <= i < |l'.bids|
      ensures OnFile(r', id, l'.bids[i])
    {
      if i < |l.bids| {
        assert OnFile(r', id, l.bids[i]);
      }
    }
  }

  /** Setting a marker, for an accepted or a rejected bid, never shortens one that counts. */
  lemma MarkingKeeps(r: Redis, lives: Ledger, q: BidRequest, countdown: int)
    requires MarkersMatch(r, lives)
    ensures MarkersMatch(AfterBid(r, q, countdown), lives)
  {
    hide Nearest;
    var r' := AfterBid(r, q, countdown);
    forall id, i | id in lives && 0 <= i < |lives[id].bids|
      ensures OnFile(r', id, lives[id].bids[i])
    {
      assert OnFile(r, id, lives[id].bids[i]);
    }
  }

  lemma BidKeeps(r: Redis, lives: Ledger, q: BidRequest, countdown: int)
    requires RedisInv(r, lives, countdown)
    ensures BidVerdict(r, q) == None ==>
              && q.auctionId in lives
              && RedisInv(AfterBid(r, q, countdown), lives[q.auctionId := Extended(lives[q.auctionId], q)], countdown)
              && Extends(lives[q.auctionId], Extended(lives[q.auctionId], q))
    ensures BidVerdict(r, q).Some? ==> RedisInv(AfterBid(r, q, countdown), lives, countdown)
  {
    hide Nearest;
    if BidVerdict(r, q) == None {
      BidKeepsStates(r, lives, q, countdown);
      BidKeepsIndex(r, lives, q, countdown);
      BidKeepsRanks(r, lives, q, countdown);
      BidKeepsMarkers(r, lives, q, countdown);
    } else {
      MarkingKeeps(r, lives, q, countdown);
      var r' := AfterBid(r, q, countdown);
      forall room | room in r'.roomCurrent
        ensures Hosts(r', room, r'.roomCurrent[room])
      {
        assert Hosts(r, room, r.roomCurrent[room]);
      }
    }
  }

  /** The life after an ending script. */
  function Closed(l: Life, exit: Exit, now: int): Life {
    l.(end := Some(Ending(exit, now)))
  }

  lemma EndKeepsStates(r: Redis, lives: Ledger, id: int, exit: Exit, now: int, countdown: int)
    requires StatesMatch(r, lives, countdown) && RoomsMatch(r)
    requires id in lives && r.states[id].status == RUNNING
    ensures var r' := AfterEnd(r, id, exit, now);
            StatesMatch(r', lives[id := Closed(lives[id], exit, now)], countdown) && RoomsMatch(r')
    ensures Extends(lives[id], Closed(lives[id], exit, now))
  {
    hide Nearest;
    StatusOfLife(r, lives, id, countdown);
    EndingKeepsLaw(lives[id], exit, now, countdown);
    var r' := AfterEnd(r, id, exit, now);
    forall room | room in r'.roomCurrent
      ensures Hosts(r', room, r'.roomCurrent[room])
    {
      assert Hosts(r, room, r.roomCurrent[room]);
    }
  }

  lemma EndKeepsRest(r: Redis, lives: Ledger, id: int, exit: Exit, now: int, countdown: int)
    requires id in lives && id in r.states && r.states[id].auctionId == id
    requires IndexMatches(r, lives, countdown) && RanksMatch(r, lives) && MarkersMatch(r, lives)
    ensures var r', lives' := AfterEnd(r, id, exit, now), lives[id := Closed(lives[id], exit, now)];
            IndexMatches(r', lives', countdown) && RanksMatch(r', lives') && MarkersMatch(r', lives')
  {
    hide HashAfterEnd, Ranking;
    var r', lives' := AfterEnd(r, id, exit, now), lives[id := Closed(lives[id], exit, now)];
    forall other | other in lives' && lives'[other].end.None?
      ensures other in r'.expireIndex && ScoreFits(lives'[other], r'.expireIndex[other], countdown)
    {
      assert other != id;
    }
    forall other, i | other in lives' && 0 <= i < |lives'[other].bids|
      ensures OnFile(r', other, lives'[other].bids[i])
    {
      assert OnFile(r, other, lives[other].bids[i]);
    }
  }

  lemma EndKeeps(r: Redis, lives: Ledger, id: int, exit: Exit, now: int, countdown: int)
    requires RedisInv(r, lives, countdown)
    requires id in lives && r.states[id].status == RUNNING
    ensures RedisInv(AfterEnd(r, id, exit, now), lives[id := Closed(lives[id], exit, now)], countdown)
    ensures Extends(lives[id], Closed(lives[id], exit, now))
  {
    StatusOfLife(r, lives, id, countdown);
    EndKeepsStates(r, lives, id, exit, now, countdown);
    EndKeepsRest(r, lives, id, exit, now, countdown);
    hide StatesMatch, RoomsMatch, IndexMatches, RanksMatch, MarkersMatch, AfterEnd, Closed, Extends;
  }

  /** An ending script clears no room but that of the auction it ends. */
  lemma EndSparesOtherRooms(r: Redis, lives: Ledger, id: int, exit: Exit, now: int, room: int, countdown: int)
    requires RedisInv(r, lives, countdown)
    requires id in lives && r.states[id].status == RUNNING
    requires room in r.roomCurrent && r.roomCurrent[room] != id
    ensures room in AfterEnd(r, id, exit, now).roomCurrent
    ensures AfterEnd(r, id, exit, now).roomCurrent[room] == r.roomCurrent[room]
  {
  }

  /** A scanner may write any expiry that some accepted bid has set, however old. */
  lemma IndexKeeps(r: Redis, lives: Ledger, id: int, expireAt: int, i: nat, countdown: int)
    requires RedisInv(r, lives, countdown)
    requires id in lives && i < |lives[id].bids| && expireAt == lives[id].bids[i].now + countdown
    ensures RedisInv(AfterIndex(r, id, expireAt), lives, countdown)
  {
    var r' := AfterIndex(r, id, expireAt);
    assert ScoreFits(lives[id], r'.expireIndex[id], countdown);
    OnlyIndexChanges(r, r', lives, countdown);
    hide StatesMatch, RoomsMatch, RanksMatch, MarkersMatch;
  }

  lemma UnindexKeeps(r: Redis, lives: Ledger, id: int, countdown: int)
    requires RedisInv(r, lives, countdown)
    requires id in lives && lives[id].end.Some?
    ensures RedisInv(AfterUnindex(r, id), lives, countdown)
  {
    OnlyIndexChanges(r, AfterUnindex(r, id), lives, countdown);
  }

  lemma OnlyIndexChanges(r: Redis, r': Redis, lives: Ledger, countdown: int)
    requires RedisInv(r, lives, countdown)
    requires r' == r.(expireIndex := r'.expireIndex)
    ensures StatesMatch(r', lives, countdown) && RoomsMatch(r') && RanksMatch(r', lives) && MarkersMatch(r', lives)
  {
    forall room | room in r'.roomCurrent
      ensures Hosts(r', room, r'.roomCurrent[room])
    {
      assert Hosts(r, room, r.roomCurrent[room]);
    }
    forall id, i | id in lives && 0 <= i < |lives[id].bids|
      ensures OnFile(r', id, lives[id].bids[i])
    {
      assert OnFile(r, id, lives[id].bids[i]);
    }
  }
}
