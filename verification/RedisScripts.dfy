/**
 The keys the auction service keeps in Redis and the effect of every atomic step on them:
 the five Lua scripts and the two single commands of the expiry index.
 */
module RedisScripts {
  import opened Prelude
  import opened Doubles
  import opened Auctions

  const MARKER_MILLIS := 600000

  datatype ScriptError =
    | AuctionNotFound | RoomMismatch | DuplicateRequest | InvalidState | AuctionExpired
    | ConsecutiveBid | BidTooLow | BidOverSeal | RoomAuctionRunning

  /**
   states: the hash of each auction; roomCurrent: the auction a room is busy with;
   expireIndex: the sorted set of expiry scores; rank: per auction the highest bids by user;
   markers: the server time at which the marker of a bid request runs out.
   */
  datatype Redis = Redis(
    states: map<int, Hash>,
    roomCurrent: map<int, int>,
    expireIndex: map<int, int>,
    rank: map<int, map<int, int>>,
    markers: map<(int, string), int>)

  const EMPTY := Redis(map[], map[], map[], map[], map[])

  /** One call of the bid script; `now` comes from the caller, `clock` is the server's own time. */
  datatype BidRequest = BidRequest(
    auctionId: int, roomId: int, userId: int, price: int,
    request: string, recordId: int, now: int, clock: int)

  /** The script compares and stores the bidder's number as a double. */
  function Bidder(userId: int): int { Double(userId) }

  function MinBid(h: Hash): int {
    var next := h.currentPrice + h.bidIncrement;
    if h.sealPrice > 0 && next > h.sealPrice then h.sealPrice else next
  }

  /** Why a bid on a loaded auction is turned down, in the script's order of checks. */
  function Objection(h: Hash, userId: int, price: int, now: int): Option<ScriptError> {
    if h.status != RUNNING then Some(InvalidState)
    else if now < h.startTime || now > h.endTime then Some(AuctionExpired)
    else if Double(h.winnerUserId) == Bidder(userId) then Some(ConsecutiveBid)
    else if price < MinBid(h) then Some(BidTooLow)
    else if h.sealPrice > 0 && price > h.sealPrice then Some(BidOverSeal)
    else None
  }

  predicate Marked(r: Redis, q: BidRequest) {
    (q.auctionId, q.request) in r.markers && q.clock < r.markers[(q.auctionId, q.request)]
  }

  /** Checks that come before the request marker is set. */
  function Refusal(r: Redis, q: BidRequest): Option<ScriptError> {
    if q.auctionId !in r.states then Some(AuctionNotFound)
    else if Double(r.states[q.auctionId].roomId) != Double(q.roomId) then Some(RoomMismatch)
    else if Marked(r, q) then Some(DuplicateRequest)
    else None
  }

  function BidVerdict(r: Redis, q: BidRequest): (e: Option<ScriptError>)
    ensures e.None? ==> q.auctionId in r.states
  {
    if Refusal(r, q).Some? then Refusal(r, q)
    else Objection(r.states[q.auctionId], q.userId, q.price, q.now)
  }

  function HashAfterBid(h: Hash, userId: int, price: int, now: int, countdown: int): Hash {
    h.(bidCount := h.bidCount + 1, version := h.version + 1, currentPrice := price,
       winnerUserId := Bidder(userId), expireAt := now + countdown)
  }

  function RankOf(r: Redis, id: int): map<int, int> {
    if id in r.rank then r.rank[id] else map[]
  }

  /** The marker is set before the bid itself is judged, and stays when the bid is turned down. */
  function AfterBid(r: Redis, q: BidRequest, countdown: int): Redis {
    if Refusal(r, q).Some? then r else
      var marked := r.(markers := r.markers[(q.auctionId, q.request) := q.clock + MARKER_MILLIS]);
      if BidVerdict(r, q).Some? then marked else
        var h := HashAfterBid(r.states[q.auctionId], q.userId, q.price, q.now, countdown);
        marked.(states := r.states[q.auctionId := h],
                rank := r.rank[q.auctionId := RankOf(r, q.auctionId)[Bidder(q.userId) := q.price]],
                expireIndex := r.expireIndex[h.auctionId := h.expireAt])
  }

  /** A room is busy when its current auction is another one that is still running. */
  predicate RoomBusy(r: Redis, h: Hash) {
    && h.roomId in r.roomCurrent
    && var other := r.roomCurrent[h.roomId];
       other != h.auctionId && other in r.states && r.states[other].status == RUNNING
  }

  function AfterLoad(r: Redis, h: Hash): Redis {
    if RoomBusy(r, h) then r else
      r.(states := r.states[h.auctionId := h],
         roomCurrent := r.roomCurrent[h.roomId := h.auctionId],
         expireIndex := r.expireIndex[h.auctionId := h.expireAt])
  }

  /** How an auction leaves the running state. */
  datatype Exit = Finished | TimedOut | Withdrawn

  function FinalStatus(h: Hash, exit: Exit): int {
    if exit == Withdrawn then CANCELLED
    else if h.bidCount > 0 then DEAL
    else FAILED
  }

  function HashAfterEnd(h: Hash, exit: Exit, now: int): Hash {
    h.(version := h.version + 1, status := FinalStatus(h, exit), endTime := now, expireAt := now)
  }

  /** The finish and expire scripts answer with the winner as a double. */
  function LuaRead(h: Hash): Hash {
    h.(winnerUserId := Double(h.winnerUserId))
  }

  /** The common effect of the finish, expire and cancel scripts. */
  function AfterEnd(r: Redis, id: int, exit: Exit, now: int): Redis
    requires id in r.states
  {
    var h := r.states[id];
    r.(states := r.states[id := HashAfterEnd(h, exit, now)],
       expireIndex := r.expireIndex - {h.auctionId},
       roomCurrent := r.roomCurrent - {h.roomId})
  }

  /** Why the finish (Finished) or cancel (Withdrawn) script fails. */
  function EndVerdict(r: Redis, id: int, exit: Exit): (e: Option<ScriptError>)
    ensures e.None? ==> id in r.states
  {
    if id !in r.states then Some(AuctionNotFound)
    else if r.states[id].status == RUNNING then None
    else if exit == Withdrawn && r.states[id].status == PENDING then None
    else Some(InvalidState)
  }

  /** The expire script ends an auction only while it still is the one that was asked about. */
  predicate Expires(r: Redis, id: int, version: int, expireAt: int, now: int) {
    && id in r.states
    && var h := r.states[id];
       h.status == RUNNING && h.version == version && h.expireAt == expireAt && h.expireAt <= now
  }

  function AfterExpire(r: Redis, id: int, version: int, expireAt: int, now: int): Redis {
    if Expires(r, id, version, expireAt, now) then AfterEnd(r, id, TimedOut, now) else r
  }

  function AfterIndex(r: Redis, id: int, expireAt: int): Redis {
    r.(expireIndex := r.expireIndex[id := expireAt])
  }

  function AfterUnindex(r: Redis, id: int): Redis {
    r.(expireIndex := r.expireIndex - {id})
  }

  /** The members a range query up to `now` sees. */
  function Due(r: Redis, now: int): set<int> {
    set id | id in r.expireIndex && r.expireIndex[id] <= now
  }

  /** Distinct members by rising score. */
  ghost predicate Ranked(index: map<int, int>, ids: seq<int>) {
    && (forall id :: id in ids ==> id in index)
    && (forall i, j :: 0 <= i < j < |ids| ==> ids[i] != ids[j] && index[ids[i]] <= index[ids[j]])
  }

  /** As many of the due members as the count allows, none of them after one that was left out. */
  ghost predicate Leading(index: map<int, int>, ids: seq<int>, due: set<int>, count: int)
    requires forall id :: id in ids || id in due ==> id in index
  {
    && |ids| == (if |due| < count then |due| else count)
    && (forall id, out :: id in ids && out in due && out !in ids ==> index[id] <= index[out])
  }

  /** Hashes are filed under their own number, and numbers are positive. */
  ghost predicate Filed(r: Redis) {
    && (forall id :: id in r.states ==> r.states[id].auctionId == id)
    && (forall id :: id in r.expireIndex ==> id > 0)
  }

  /** No overdue auction is hidden from a scan. */
  ghost predicate OverdueIsDue(r: Redis, now: int) {
    forall id :: id in r.states && r.states[id].status == RUNNING && r.states[id].expireAt <= now ==> id in Due(r, now)
  }
}
