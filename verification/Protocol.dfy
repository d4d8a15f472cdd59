/**
 The whole service as a transition system. One step is one atomic action: a script, a single
 Redis command, a read, one statement on a table. Whatever an actor still has to do after its
 step (a scanner's next command, a handler's direct write, a published message) goes into a
 soup of items. An item may be taken up at any later time, any number of times, or never: that
 covers every interleaving of any number of handlers, consumers and scanners, crashes between
 two of their actions, and messages that are reordered, delivered again or lost.
 */
module Protocol {
  import opened Prelude
  import opened Doubles
  import opened Auctions
  import opened RedisScripts
  import opened Lives
  import opened Events
  import opened Tables

  datatype Item =
    | Candidate(id: int, now: int)                                   // listed by a scan, not yet read
    | Finish(id: int, version: int, expireAt: int, now: int)         // read as overdue, script not yet called
    | Recheck(id: int)                                               // script changed nothing, to be read again
    | Reindex(id: int, expireAt: int)                                // read as running, index not yet written
    | Remove(id: int)                                                // read as ended, index not yet cleared
    | Write(auction: Auction)                                        // snapshot for the table
    | Record(record: BidRecord)                                      // audit row for the table
    | Message(event: Event)                                          // published event

  /**
   What happened so far: the life of every started auction, the auctions cancelled before a start,
   and everything a pending undeleted row has ever held. The last is what a handler that checks a
   row may have read, at whatever earlier time, when it comes to act on it.
   */
  datatype History = History(lives: map<int, Life>, withdrawn: set<int>, drafts: set<Auction>)

  datatype System = System(
    redis: Redis,
    history: History,
    auctions: map<int, Auction>,
    records: map<int, BidRecord>,
    soup: set<Item>,
    clock: int)                                                      // the latest time Redis itself has seen

  const INITIAL := System(EMPTY, History(map[], {}, {}), map[], map[], {}, 0)

  datatype Step =
    | Create(row: Auction)
    | Configure(draft: Auction, update: Update)
    | Delete(id: int, shopId: int)
    | CancelPending(draft: Auction, now: int)
    | Start(draft: Auction, now: int)
    | PlaceBid(request: BidRequest)
    | FinishManually(id: int, now: int)
    | Cancel(id: int, now: int)
    | List(ids: set<int>, now: int)
    | Examine(candidate: Item)
    | TryFinish(finish: Item)
    | Reread(recheck: Item)
    | WriteIndex(reindex: Item)
    | ClearIndex(remove: Item)
    | Observe(id: int)
    | WriteSnapshot(write: Item)
    | WriteRecord(rec: Item)
    | Consume(message: Item, now: int, crash: bool)

  // ---- editing a pending auction ----

  /** The fields of an edit, each optional. */
  datatype Update = Update(
    startPrice: Option<int>, bidIncrement: Option<int>, sealPrice: Option<int>,
    startTime: Option<int>, endTime: Option<int>)

  function Either(x: Option<int>, default: Option<int>): Option<int> {
    if x.Some? then x else default
  }

  predicate InOrder(startTime: Option<int>, endTime: Option<int>) {
    startTime.Some? && endTime.Some? ==> startTime.value < endTime.value
  }

  /** The edit of a pending auction: the seal price is checked only when it is given, the times always. */
  function Edited(a: Auction, u: Update): Option<Auction> {
    if u.startPrice.Some? && u.startPrice.value <= 0 then None
    else if u.bidIncrement.Some? && u.bidIncrement.value <= 0 then None
    else
      var start := OrElse(u.startPrice, a.startPrice);
      if u.sealPrice.Some? && u.sealPrice.value < start then None
      else if !InOrder(Either(u.startTime, a.startTime), Either(u.endTime, a.endTime)) then None
      else
        Some(a.(startPrice := start, currentPrice := if u.startPrice.Some? then start else a.currentPrice,
                bidIncrement := OrElse(u.bidIncrement, a.bidIncrement), sealPrice := Either(u.sealPrice, a.sealPrice),
                startTime := Either(u.startTime, a.startTime), endTime := Either(u.endTime, a.endTime)))
  }

  /** The configuration an edit writes. */
  function Config(draft: Auction, u: Update): Auction
    requires Edited(draft, u).Some?
  {
    Edited(draft, u).value
  }

  // ---- what the actors leave to be done ----

  /** How the end of an auction by finish or timeout is announced. */
  function ConclusionKind(a: Auction): Kind {
    if a.status == DEAL then AuctionFinished else AuctionFailed
  }

  function FinalKind(a: Auction): Kind {
    if a.status == CANCELLED then AuctionCancelled else ConclusionKind(a)
  }

  /** Ended auctions are published and written directly. */
  function FinalItems(a: Auction): set<Item> {
    {Write(a), Message(NewEvent(FinalKind(a), a, map[]))}
  }

  /** The hash the starting handler fills in: running from now on, one version up. */
  function StartedAuction(row: Auction, now: int): Auction {
    row.(status := RUNNING, startTime := Some(now), version := row.version + 1,
         endTime := if row.endTime.Some? then row.endTime else Some(now + DAY_MILLIS))
  }

  /** The row of an auction cancelled before its start. */
  function CancelledRow(row: Auction, now: int): Auction {
    row.(status := CANCELLED, endTime := Some(now), version := row.version + 1)
  }

  function StartItems(a: Auction): set<Item> {
    {Write(a), Message(NewEvent(Started, a, map[]))}
  }

  /** The audit row of the bidding handler: the record number comes back from the script as a double. */
  function HandlerRecord(s: State, q: BidRequest): BidRecord {
    BidRecord(Double(q.recordId), s.auctionId, s.goodsId, s.shopId, s.roomId, q.userId, q.price, q.now)
  }

  function BidExtra(s: State, q: BidRequest): Data {
    map[BidRecordId := Double(q.recordId), UserId := q.userId, BidPrice := q.price, BidTime := q.now / 1000,
        CurrentPrice := s.currentPrice, BidCount := s.bidCount, ServerTime := q.now, ExpireAt := s.expireAt]
  }

  /** After an accepted bid: audit row, event, delayed check, snapshot. */
  function BidItems(s: State, q: BidRequest): set<Item> {
    var a := AuctionFromState(s);
    {Record(HandlerRecord(s, q)),
     Message(NewEvent(BidAccepted, a, BidExtra(s, q))),
     Message(NewEvent(ExpireCheck, a, map[ExpireAt := s.expireAt])),
     Write(a)}
  }

  // ---- when a step can happen ----

  /**
   Times stay in the range where doubles are exact; identifiers are not limited. A bid also finds
   the time of the bid late enough to be more than a second after 1970.
   */
  predicate Sane(x: int) {
    0 < x <= EXACT
  }

  /** The sum of two amounts is still exact. */
  predicate Amount(x: int) {
    0 < x <= EXACT / 2
  }

  /** A pending row as Create and Update leave it: the seal price may lie below the start price. */
  predicate PendingRow(a: Auction) {
    && a.status == PENDING && a.version == 0 && a.bidCount == 0 && a.winnerUserId == None && a.dealPrice == None
    && a.currentPrice == a.startPrice && Amount(a.startPrice) && Amount(a.bidIncrement)
    && (a.sealPrice.Some? ==> Amount(a.sealPrice.value))
    && (a.endTime.Some? ==> Sane(a.endTime.value))
  }

  predicate UpdateInRange(u: Update) {
    && (u.startPrice.Some? ==> u.startPrice.value <= EXACT / 2)
    && (u.bidIncrement.Some? ==> u.bidIncrement.value <= EXACT / 2)
    && (u.sealPrice.Some? ==> u.sealPrice.value <= EXACT / 2)
    && (u.endTime.Some? ==> Sane(u.endTime.value))
  }

  predicate InRange(q: BidRequest, countdown: int) {
    Sane(q.now / 1000) && Sane(q.now + countdown) && Amount(q.price) && q.userId > 0 && q.recordId > 0
  }

  predicate Enabled(s: System, step: Step, countdown: int) {
    match step
    case Create(row) =>
      row.id > 0 && row.id !in s.auctions && PendingRow(row) && !row.deleted &&
      (row.sealPrice.Some? ==> row.startPrice <= row.sealPrice.value)
    case Configure(draft, update) =>
      draft in s.history.drafts && Edited(draft, update).Some? && UpdateInRange(update)
    case Delete(id, shopId) => true
    case CancelPending(draft, now) =>
      // a cancel whose write is accepted finds the auction not loaded
      draft in s.history.drafts && Sane(now) &&
      (Accepts(s.auctions, CancelledRow(draft, now)) ==> draft.id !in s.history.lives)
    case Start(draft, now) =>
      // no other start and no pending cancel came between the check of the row and the load
      draft in s.history.drafts && Sane(now) && Sane(now + DAY_MILLIS) &&
      (RoomBusy(s.redis, LoadedHash(StartedAuction(draft, now), now)) ||
       (draft.id !in s.history.lives && draft.id !in s.history.withdrawn))
    case PlaceBid(q) =>
      // the server's own clock does not run back
      InRange(q, countdown) && s.clock <= q.clock &&
      (q.auctionId in s.redis.states ==> s.redis.states[q.auctionId].bidCount < EXACT)
    case FinishManually(id, now) => Sane(now)
    case Cancel(id, now) => Sane(now)
    case List(ids, now) => ids <= Due(s.redis, now) && Sane(now)
    case Examine(candidate) => candidate in s.soup && candidate.Candidate?
    case TryFinish(finish) => finish in s.soup && finish.Finish? && Sane(finish.now)
    case Reread(recheck) => recheck in s.soup && recheck.Recheck?
    case WriteIndex(reindex) => reindex in s.soup && reindex.Reindex?
    case ClearIndex(remove) => remove in s.soup && remove.Remove?
    case Observe(id) => true
    case WriteSnapshot(write) => write in s.soup && write.Write?
    case WriteRecord(rec) => rec in s.soup && rec.Record?
    case Consume(message, now, crash) => message in s.soup && message.Message? && Sane(now)
  }

  // ---- what a step does ----

  function Drafted(h: History, rows: set<Auction>): History {
    h.(drafts := h.drafts + rows)
  }

  function WithEdit(s: System, config: Auction): System {
    var rows := AfterConfig(s.auctions, config);
    s.(auctions := rows,
       history := if Configurable(s.auctions, config.id, config.shopId) then Drafted(s.history, {rows[config.id]})
                  else s.history)
  }

  /** A refused cancel is an error to its caller, and nothing happens. */
  function WithCancel(s: System, a: Auction): System {
    if !Accepts(s.auctions, a) then s else
      s.(auctions := AfterSnapshot(s.auctions, a),
         history := s.history.(withdrawn := s.history.withdrawn + {a.id}),
         soup := s.soup + {Message(NewEvent(AuctionCancelled, a, map[]))})
  }

  function WithStart(s: System, a: Auction, now: int): System {
    var h := LoadedHash(a, now);
    if RoomBusy(s.redis, h) then s else
      s.(redis := AfterLoad(s.redis, h),
         history := s.history.(lives := s.history.lives[a.id := Life(h, [], None)]),
         soup := s.soup + StartItems(a))
  }

  function WithBid(s: System, q: BidRequest, countdown: int): System {
    var redis := AfterBid(s.redis, q, countdown);
    if BidVerdict(s.redis, q).Some? || q.auctionId !in s.history.lives then s.(redis := redis, clock := q.clock) else
      var l := s.history.lives[q.auctionId];
      var state := StateFromMap(redis.states[q.auctionId]);
      var bid := Bid(q.userId, q.price, q.request, q.recordId, q.now, q.clock);
      s.(redis := redis,
         history := s.history.(lives := s.history.lives[q.auctionId := l.(bids := l.bids + [bid])]),
         soup := s.soup + BidItems(state, q),
         clock := q.clock)
  }

  /** An ending script ran and its reply was decoded. */
  function Ended(s: System, id: int, exit: Exit, now: int): System
    requires id in s.redis.states
  {
    var redis := AfterEnd(s.redis, id, exit, now);
    var h := redis.states[id];
    var a := AuctionFromState(StateFromMap(if exit == Withdrawn then h else LuaRead(h)));
    s.(redis := redis,
       history := if id in s.history.lives
                  then s.history.(lives := s.history.lives[id := s.history.lives[id].(end := Some(Ending(exit, now)))])
                  else s.history,
       soup := s.soup + FinalItems(a))
  }

  function WithExpire(s: System, id: int, version: int, expireAt: int, now: int): System {
    if Expires(s.redis, id, version, expireAt, now) then Ended(s, id, TimedOut, now) else s
  }

  /** The scanner's decision after it read a candidate. */
  function Decision(r: Redis, id: int, now: int): Item {
    if id !in r.states || r.states[id].status != RUNNING then Remove(id)
    else if r.states[id].expireAt > now then Reindex(id, r.states[id].expireAt)
    else Finish(id, r.states[id].version, r.states[id].expireAt, now)
  }

  /** The scanner's second decision, after the expire script changed nothing. */
  function SecondDecision(r: Redis, id: int): Item {
    if id !in r.states || r.states[id].status != RUNNING then Remove(id)
    else Reindex(id, r.states[id].expireAt)
  }

  /** A consumer handles one delivery; it may crash between the audit row and the snapshot. */
  function Consumed(s: System, raw: Event, now: int, crash: bool): System {
    var e := Delivered(raw);
    if e.kind == ExpireCheck then
      var expireAt := Int64FromData(e.data, ExpireAt);
      if expireAt <= 0 then s else WithExpire(s, e.auctionId, e.version, expireAt, now)
    else
      var r := BidRecordFromEvent(e, now);
      if e.kind == BidAccepted && r.Some? && r.value.id in s.records then s else
        var s' := if e.kind == BidAccepted && r.Some? then s.(records := AfterRecord(s.records, r.value)) else s;
        if crash then s' else s'.(auctions := AfterSnapshot(s.auctions, AuctionFromEvent(e)))
  }

  function Apply(s: System, step: Step, countdown: int): System
    requires Enabled(s, step, countdown)
  {
    match step
    case Create(row) => s.(auctions := s.auctions[row.id := row], history := Drafted(s.history, {row}))
    case Configure(draft, update) => WithEdit(s, Config(draft, update))
    case Delete(id, shopId) => s.(auctions := AfterDelete(s.auctions, id, shopId))
    case CancelPending(draft, now) => WithCancel(s, CancelledRow(draft, now))
    case Start(draft, now) => WithStart(s, StartedAuction(draft, now), now)
    case PlaceBid(q) => WithBid(s, q, countdown)
    case FinishManually(id, now) =>
      if EndVerdict(s.redis, id, Finished).Some? then s else Ended(s, id, Finished, now)
    case Cancel(id, now) =>
      if EndVerdict(s.redis, id, Withdrawn).Some? then s else Ended(s, id, Withdrawn, now)
    case List(ids, now) => s.(soup := s.soup + set id | id in ids :: Candidate(id, now))
    case Examine(c) => s.(soup := s.soup + {Decision(s.redis, c.id, c.now)})
    case TryFinish(f) =>
      if Expires(s.redis, f.id, f.version, f.expireAt, f.now) then Ended(s, f.id, TimedOut, f.now)
      else s.(soup := s.soup + {Recheck(f.id)})
    case Reread(r) => s.(soup := s.soup + {SecondDecision(s.redis, r.id)})
    case WriteIndex(i) => s.(redis := AfterIndex(s.redis, i.id, i.expireAt))
    case ClearIndex(i) => s.(redis := AfterUnindex(s.redis, i.id))
    case Observe(id) =>
      // a check that changed nothing publishes the end somebody else brought about
      if id in s.redis.states && s.redis.states[id].status in {DEAL, FAILED}
      then s.(soup := s.soup + FinalItems(AuctionFromState(StateFromMap(s.redis.states[id]))))
      else s
    case WriteSnapshot(w) => s.(auctions := AfterSnapshot(s.auctions, w.auction))
    case WriteRecord(r) => s.(records := AfterRecord(s.records, r.record))
    case Consume(m, now, crash) => Consumed(s, m.event, now, crash)
  }

  /** The step that takes an item up; a time and a possible crash matter to a message alone. */
  function TakenUp(item: Item, now: int, crash: bool): Step {
    match item
    case Candidate(_, _) => Examine(item)
    case Finish(_, _, _, _) => TryFinish(item)
    case Recheck(_) => Reread(item)
    case Reindex(_, _) => WriteIndex(item)
    case Remove(_) => ClearIndex(item)
    case Write(_) => WriteSnapshot(item)
    case Record(_) => WriteRecord(item)
    case Message(_) => Consume(item, now, crash)
  }

  // ---- runs ----

  ghost predicate Possible(s: System, steps: seq<Step>, countdown: int)
    decreases |steps|
  {
    steps == [] || (Enabled(s, steps[0], countdown) && Possible(Apply(s, steps[0], countdown), steps[1..], countdown))
  }

  ghost function Outcome(s: System, steps: seq<Step>, countdown: int): System
    requires Possible(s, steps, countdown)
    decreases |steps|
  {
    if steps == [] then s else Outcome(Apply(s, steps[0], countdown), steps[1..], countdown)
  }

  /** Some run of the service leads here. */
  ghost predicate Reachable(s: System, countdown: int) {
    exists steps :: Possible(INITIAL, steps, countdown) && Outcome(INITIAL, steps, countdown) == s
  }
}
