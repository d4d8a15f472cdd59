# The auction engine as a verified protocol

This project models the auction engine of the live-bidding platform and proves what it promises about
concurrency, prices, snapshots and identifiers. `dafny verify dfyconfig.toml` checks all of it.

## What is modelled

The run-time truth of an auction is a hash in Redis that only five Lua scripts write: load, bid, finish,
finish-if-expired and cancel. Each runs atomically. Around them work actors that are not atomic: gRPC handlers that
write an audit row, publish events and write a snapshot of the auction to the database after the script has
answered; consumers that see those events late, twice, out of order or never; scanners that list overdue auctions,
read each of them, and act on what they read some time ago.

* `Doubles`, `IdGenerator`: whole numbers as Lua and JSON see them, and the snowflake generator.
* `Auctions`, `RedisScripts`, `RedisStore`: the records; the effect of every atomic step as a function on the keys;
  the store as a class whose methods follow the scripts command by command and are proved against those functions.
  The contracts of the store, the tables and the actors also say everything in columns and keys, without those
  functions: what is accepted, what is written, what is published, and what stays.
* `Lives`: the life of one auction (what was loaded, the accepted bids, the end), and what holds for every life.
* `Events`, `Tables`: the messages and their way through JSON; the two tables as classes; a row under snapshots in
  any order.
* `Protocol`: the whole service as a transition system with eighteen kinds of steps. Whatever an actor still has to do
  (a scanner's next command, a handler's write, a message) is an item in a soup; an item may be taken up at any later
  time, any number of times, or never. This covers every interleaving of any number of actors, crashes between two of
  their actions, redelivery, reordering and loss. A start, a pending cancel and an edit act on a row as it was read at
  some earlier time: `Deliveries.DraftsAreWhatWasReadable` shows that this is exactly what the protocol lets them do.
* `RedisInvariant`, `SystemInvariant`, `StepProofs`: the inductive invariant. Lives only grow, so whatever is known
  about an item when it is made stays true however late it is used.
* `Theorems`: what follows for every reachable state and every run.
* `Clocks`: which scores the expiry index can hold at all, and so when an overdue auction can be hidden.
* `Deliveries`: what reaches a row along a run, and what the row is made of at its end.
* `ShownPrice`: when the next price the gateway shows, from row and hash together, is the one the script accepts.
* `FallingPrices`: along which runs the price of an auction can fall.
* `Reloads`: when a start or a pending cancel that acts on what it read some time ago does no harm.
* `Races`: reachable states in which the expected fails.
* `EventProcessor`, `ExpireScanner`, `AuctionHandler`: the Go code around the scripts as classes over the stores,
  running undisturbed, proved against the steps of the protocol; the drain of the scanner.
* `RoomLookup`, `Paging`, `CreateOptions`: the batch lookup against the single one, the pages of a list, and the
  fetch-all loops of the gateway with the options built from them.

## What the code does not enforce

`Protocol.Enabled` states what the theorems assume and the code leaves to its environment:

* Check and load of a start are not split by another start or an accepted pending cancel: when the start loads what it
  read, the auction has neither been loaded nor been withdrawn. Check and write of a pending cancel are not split by a
  start: when its write is accepted, the auction has not been loaded. The handlers check the row only, some time before
  they act, so these are assumptions about racing calls. They also take that the handler of a start does not die, and
  its write to the table does not fail, between the load and the first snapshot: the event follows only after that
  write, so the row stays pending, an unraced retry loads again, and an unraced cancel writes Cancelled while Redis
  keeps taking bids. `Reloads.LateStartIsExplainedIff` and `Reloads.LateCancelIsExplainedIff` take any such action on
  anything it could have read and say exactly when it does no harm: the assumption is exactly what a cancel needs, and
  a start can only dispense with it by loading the very state that is there. `Races.StartRacesPendingCancel`,
  `Races.SecondStartForgetsBids` and `Races.CancelMissesLoadedAuction` show what happens otherwise.
* Amounts lie in 1..2^52 and times in milliseconds in 1..2^53, and bid counts below that; so every amount, and the sum
  of a price and an increment, is a double (`Theorems.SumsAreExact`). Identifiers are not limited: they are rounded
  wherever the code sends them through `tonumber` or JSON.
* The clock of the Redis server, by which request markers expire, does not run back.
* User and record numbers are positive, as tokens and the generator provide them.
* The clocks of bids and scanners are free. `Clocks.HiddenIffClockRanBack` says exactly when that hides an overdue
  auction; only `Theorems.NothingOverdueIsHidden` and `Theorems.ScannerCanRely` exclude it.

Points where code and documentation or expectation part; the model follows the code:

* `docs/services/auction-service/服务设计.md:1086-1088` treats a duplicate audit row as a message already handled. The
  bidding handler writes that row before it publishes, so the snapshot of a bid event is normally thrown away; it
  reaches the table only if the row was missing (`Theorems.BidEventReachesTableOnlyWithoutRow`).
* Record numbers of one millisecond can become one double, in the script already. The audit row of the later bid is
  then silently lost (`IdGenerator.MeetAsDoublesIff`, `Theorems.OwnRowsIffApart`; `Races.SecondRowIsLost` is a run).
* Raising the start price of a pending auction alone does not recheck the seal price; the first bid may then lower the
  price (`FallingPrices.EditCanPassTheSeal`, `FallingPrices.PriceFallsInSomeRunIff`; `Races.RaisedStartLetsPriceFall`
  is a run).
* Between the load and the first snapshot the row still says Pending. An edit is then accepted that Redis never sees,
  and the gateway, which takes increment and seal price from the row, shows a wrong price
  (`ShownPrice.ShownPriceIsLeastUnlessEdited`). The row can also be deleted; the auction goes on in Redis and its end
  never reaches the table (`Deliveries.DeletionIsSafeUnlessPending`).
* Bids are gated on `end_time`, not on `expire_at`: a bid after the countdown and before the scanner revives the auction.
  Nothing here claims otherwise.
* A rejected bid keeps its request marker (`Theorems.RejectedBidOnlyMarks`).
* Distinct worker numbers outside 0..1023 all become 0 and then collide (`IdGenerator.CollideOnlyOnSharedWorker`).

## Model

| member | source | states |
|---|---|---|
| IdGenerator.Generator.constructor | pkg/idgen/idgen.go:25-30 | a generator starts with an empty memory; a worker number outside 0..1023 becomes 0 |
| IdGenerator.Generator.Next | pkg/idgen/idgen.go:32-52 | for any clock readings: a later millisecond starts again at sequence 0, otherwise the sequence counts up, or at 4095 the first later reading is waited for; the answer packs the three fields and exceeds the previous one |
| IdGenerator.Generator.WaitNextMillis | pkg/idgen/idgen.go:58-66 | the polling loop ends with the first reading after the given millisecond |
| IdGenerator.OrAddsUp | pkg/idgen/idgen.go:51 | shifting and or-ing 64-bit words is the same as adding the weighted fields |
| IdGenerator.IdsIncrease | pkg/idgen/idgen.go:32-52 | in every run, with a clock that stalls or runs backwards, identifiers strictly increase |
| IdGenerator.FieldsDecode | pkg/idgen/idgen.go:8-16 | milliseconds, worker and sequence can be read back; for 2^41 milliseconds the identifier is a non-negative int64 |
| IdGenerator.IdsCarryTheWorker | pkg/idgen/idgen.go:32-51 | every identifier of a run carries the worker number of its generator |
| IdGenerator.CollideOnlyOnSharedWorker | pkg/idgen/idgen.go:25-30 | two generators can give out a common identifier if and only if their normalised worker numbers are equal |
| IdGenerator.SurvivesDouble | services/auction-service/internal/repository/redis_state.go:284 | for all 2^41 milliseconds an identifier survives `tonumber` if and only if its sequence is a multiple of the spacing of doubles there, which is 64 between 2^36 and 2^37 milliseconds |
| IdGenerator.RoundsSequence | services/auction-service/internal/repository/redis_state.go:284 | as a double an identifier keeps milliseconds and worker, and its sequence is rounded to the spacing, ties to even |
| IdGenerator.SpacingOfMilli | services/auction-service/internal/repository/redis_state.go:284 | all identifiers of one millisecond and worker lie where doubles have the same spacing |
| IdGenerator.MillisStayApart | services/auction-service/internal/repository/redis_state.go:284 | identifiers of one worker and different milliseconds stay different as doubles, over all 63 bits |
| IdGenerator.RoundingMeetsOnlyWithinAMilli | services/auction-service/internal/repository/redis_state.go:284 | in any run, two identifiers become one double only if they were drawn in the same millisecond |
| IdGenerator.MeetAsDoublesIff | services/auction-service/internal/repository/redis_state.go:284 | for all 2^41 milliseconds two identifiers of one worker become one double if and only if their milliseconds are equal and their sequences round to the same multiple of the spacing |
| IdGenerator.SameMilliCanMeet | services/auction-service/internal/repository/redis_state.go:284 | between 2^36 and 2^37 elapsed milliseconds the first two identifiers of every millisecond do become one double |
| Doubles.DoubleTwice | services/auction-service/internal/client/event_consumer.go:300-307 | rounding in the script and again in JSON is the same as rounding once |
| Doubles.RepresentableIff | services/auction-service/internal/client/event_consumer.go:300-307 | a whole number is a double if and only if it is a multiple of the spacing around it |
| Doubles.RepresentableIffShifted | services/auction-service/internal/client/event_consumer.go:300-307 | independently of how rounding is computed: a whole number is a double if and only if it is at most 2^53 times a power of two |
| Doubles.DoubleIsNearest | services/auction-service/internal/client/event_consumer.go:306-307 | no double lies closer to a number than the one it is rounded to |
| Doubles.MultiplesOf64 | services/auction-service/internal/client/event_consumer.go:306-307 | between 2^58 and 2^59 exactly the multiples of 64 are doubles |
| Auctions.LoadedReadsBack | services/auction-service/internal/repository/redis_state.go:82-122 | loading an auction and reading its state back gives the same row if and only if it is a started one without deal price and with positive optional fields |
| RedisStore.RedisAuctionStateStore.constructor | services/auction-service/internal/repository/redis_state.go:67-80 | the countdown is the configured number of seconds, or 30 when that is not positive |
| RedisStore.RedisAuctionStateStore.LoadAuction | services/auction-service/internal/repository/redis_state.go:82-122 | refused exactly while another auction runs in the room, and then nothing is written; otherwise every column of the hash, the room and the score |
| RedisStore.RedisAuctionStateStore.RunLoad | services/auction-service/internal/repository/redis_state.go:252-271 | the load script command by command has exactly the specified effect |
| RedisStore.RedisAuctionStateStore.PlaceBid | services/auction-service/internal/repository/redis_state.go:124-149 | a bid is accepted if and only if, in the columns of the hash, it names the room, has no live marker, comes in time, from another bidder, and between least and seal price; all it writes, all a refused one leaves alone, and each error with its condition |
| RedisStore.RedisAuctionStateStore.RunPlaceBid | services/auction-service/internal/repository/redis_state.go:274-335 | the bid script command by command has exactly the specified effect, and its sixteen values are those of the new hash |
| RedisStore.RedisAuctionStateStore.FinishAuction | services/auction-service/internal/repository/redis_state.go:151-165 | succeeds if and only if the hash is running; it becomes Deal with bids and Failed without, and nothing else changes but version, times, index and room; the winner is answered as a double |
| RedisStore.RedisAuctionStateStore.FinishExpiredAuction | services/auction-service/internal/repository/redis_state.go:167-185 | ends the auction if and only if status, version, expiry and clock all fit, as Deal or Failed by its bids, and changes nothing otherwise |
| RedisStore.RedisAuctionStateStore.CancelAuction | services/auction-service/internal/repository/redis_state.go:187-201 | succeeds if and only if the hash is pending or running, with or without bids; it becomes Cancelled, and the answer is the new hash |
| RedisStore.RedisAuctionStateStore.Conclude | services/auction-service/internal/repository/redis_state.go:349-352 | the writes common to the three ending scripts, and nothing else |
| RedisStore.RedisAuctionStateStore.GetState | services/auction-service/internal/repository/redis_state.go:203-212 | every column of the hash, or that there is none |
| RedisStore.RedisAuctionStateStore.ListExpiredAuctionIDs | services/auction-service/internal/repository/redis_state.go:214-235 | distinct due members by rising score, as many as the limit allows (100 when it is not positive), none left out that scores lower than a listed one |
| RedisStore.RedisAuctionStateStore.RangeByScore | services/auction-service/internal/repository/redis_state.go:218-223 | the range query with a count, as a selection by lowest score |
| RedisStore.RedisAuctionStateStore.IndexRunningAuction | services/auction-service/internal/repository/redis_state.go:237-242 | rescores one member of the expiry index |
| RedisStore.RedisAuctionStateStore.RemoveRunningAuction | services/auction-service/internal/repository/redis_state.go:244-246 | takes one member out of the expiry index |
| Lives.BiddenIsSummary | services/auction-service/internal/repository/redis_state.go:309-315 | any run of accepted bids leaves count, version and the last bid in the hash and nothing else |
| Lives.CurrentInClosedForm | services/auction-service/internal/repository/redis_state.go:337-443 | the hash after any life in closed form; Deal if and only if it finished or timed out with bids, Failed without, Cancelled if withdrawn |
| Lives.StagesStay | services/auction-service/internal/repository/redis_state.go:309-310 | every state a life has gone through keeps its version for good |
| Lives.BidRule | services/auction-service/internal/repository/redis_state.go:297-307 | each accepted bid meets the least price and the seal price, lies between start and end time, and comes from somebody else than the last one |
| Lives.BidsNeverFall | services/auction-service/internal/repository/redis_state.go:301-307 | accepted prices never fall, and rise strictly until they equal the seal price |
| Lives.PriceFallsOnlyFromAboveSeal | services/auction-service/internal/repository/redis_state.go:304-307 | no run of bids lowers the price if and only if the seal price is absent or not below the start price (or no time is open for bids) |
| Lives.PriceFloor | services/auction-service/internal/repository/redis_state.go:304-307 | after k bids the price is at least the smaller of start + k * increment and the seal price, and at most the seal price |
| Lives.RaisesAreBounded | services/auction-service/internal/repository/redis_state.go:304-307 | at most (seal - start) / increment bids, rounded up, raise the price; below the seal price each of them does |
| Lives.NextBidPriceIsLeastAccepted | services/api-gateway/internal/handler/live.go:1266-1272 | computed from the hash, the next price is accepted from anybody who may bid, and is the least that is |
| Lives.StrangersMeetAsDoubles | services/auction-service/internal/repository/redis_state.go:298-299 | a bidder is refused as the last bidder if and only if the two numbers are equal as doubles, which up to 2^53 means equal |
| Lives.ExpiryIsBounded | services/auction-service/internal/repository/redis_state.go:311-312 | no run of bids moves the expiry past end time plus one countdown |
| Lives.LeaderboardIsExact | services/auction-service/internal/repository/redis_state.go:314 | the sorted set holds exactly the bidders, each with the highest price they bid; the current price is its maximum and the stored winner attains it |
| Events.EventTells | services/auction-service/internal/handler/auction_grpc_handler.go:557-602 | a published event has the typed fields and every column of the hash it announces, the deal price exactly for a deal |
| Events.DeliveredAuction | services/auction-service/internal/handler/auction_grpc_handler.go:557-565 | what the consumer reads from a published event is the auction with every number of the data as a double, also next to agreeing extra entries |
| Events.EventRoundTrip | services/auction-service/internal/client/event_consumer.go:201-226 | publishing and reading back returns the same snapshot, or the same auction, if and only if the numbers in question are doubles and optional ones absent or positive |
| Events.DeliveredSnapshot | services/auction-service/internal/handler/auction_grpc_handler.go:511-521 | a snapshot that is carried comes through with agreeing extra entries, too |
| Events.SmallSnapshotIsCarried | services/auction-service/internal/client/event_consumer.go:300-334 | numbers up to 2^53 are always carried |
| Tables.AuctionTable.FindByIDForShop | services/auction-service/internal/repository/auction_repository.go:80-86 | finds the undeleted row of that shop and no other |
| Tables.AuctionTable.FindCurrentByRoomID | services/auction-service/internal/repository/auction_repository.go:96-103 | finds the running undeleted row of the room with the latest start, then creation, then number, a missing start being last, or none exactly if there is none |
| Tables.AuctionTable.ListByShop | services/auction-service/internal/repository/auction_repository.go:177-202 | without further filters: the undeleted rows of the shop, once, by falling creation time and number; of these the entries after the full pages before the requested one; and their number |
| Tables.ShopListingIsUnique | services/auction-service/internal/repository/auction_repository.go:197 | the order leaves one possible list |
| Paging.PageEntries | services/auction-service/internal/repository/auction_repository.go:334-345 | for every page number and size: where a page begins, how long it is, and what the limits 1, default and 100 make of them |
| Tables.AuctionTable.UpdateStatusSnapshot | services/auction-service/internal/repository/auction_repository.go:270-293 | writes the eight columns exactly if the row is undeleted and older, and reports an outdated version otherwise |
| Tables.AuctionTable.UpdatePendingConfig | services/auction-service/internal/repository/auction_repository.go:247-268 | writes the configuration exactly on an undeleted pending row of the shop |
| Tables.AuctionTable.Delete | services/auction-service/internal/repository/auction_repository.go:295-312 | marks exactly pending, failed and cancelled rows of the shop |
| Tables.BidRecordTable.CreateIfNotExists | services/auction-service/internal/repository/bid_record_repository.go:40-47 | inserts under a free primary key and otherwise reports the duplicate and keeps the row |
| Tables.SnapshotIsWritten | services/auction-service/internal/client/event_consumer.go:228-250 | a decoded hash handed to the table fills eight columns of an older undeleted row, with the current price as the deal price exactly for a deal |
| Tables.SnapshotReachesOnlyItsRow | services/auction-service/internal/repository/auction_repository.go:282-285 | the table operation is one step of the row fold and leaves every other row alone |
| Tables.RowEndsAtNewest | services/auction-service/internal/repository/auction_repository.go:270-293 | under any sequence of snapshots a row ends as a newest one or unchanged, and its version does not fall |
| Tables.ConvergesIffNewestAgree | services/auction-service/internal/repository/auction_repository.go:270-293 | the result is the same for every reordering and duplication if and only if the newest snapshots agree; then losing older ones does not matter either |
| RedisInvariant.StatusOfLife | services/auction-service/internal/repository/redis_state.go:421 | Redis never holds the status Pending, although the cancel script accepts it |
| RedisInvariant.LoadKeeps | services/auction-service/internal/repository/redis_state.go:252-271 | a load keeps the invariant over all keys as long as nobody has bid on the auction before |
| RedisInvariant.BidKeeps | services/auction-service/internal/repository/redis_state.go:274-335 | the bid script keeps it and lengthens one life by one bid, or by none when it rejects |
| RedisInvariant.EndKeeps | services/auction-service/internal/repository/redis_state.go:337-443 | finish, expire and cancel keep it and close one life |
| RedisInvariant.EndSparesOtherRooms | services/auction-service/internal/repository/redis_state.go:352 | the unconditional DEL clears no room whose current auction is another one |
| RedisInvariant.IndexKeeps | services/auction-service/internal/repository/redis_state.go:237-242 | writing back the expiry any accepted bid has set, however stale, keeps it |
| RedisInvariant.UnindexKeeps | services/auction-service/internal/repository/redis_state.go:244-246 | removing an ended auction from the index keeps it |
| SystemInvariant.ItemStays | services/auction-service/internal/client/event_consumer.go:127-169 | what is known about a message, pending write or scanner local stays true while lives grow |
| StepProofs.ExamineKeeps | services/auction-service/internal/client/expire_scanner.go:109-124 | reading a candidate keeps the system invariant: the scanner carries off only expiries that accepted bids have set, and removals of ended auctions |
| StepProofs.StartKeeps | services/auction-service/internal/handler/auction_grpc_handler.go:374-409 | a start that loads what it read at any earlier time keeps the system invariant, whatever edits or deletions came between, if no other start and no accepted pending cancel did |
| StepProofs.PlaceBidKeeps | services/auction-service/internal/handler/auction_grpc_handler.go:482-534 | a bid keeps the system invariant together with all it leaves to be done |
| StepProofs.ConsumeKeeps | services/auction-service/internal/client/event_consumer.go:105-199 | handling any delivery, complete or cut short by a crash, keeps the system invariant |
| StepProofs.StepKeeps | services/auction-service/internal/handler/auction_grpc_handler.go:319-534 | every one of the eighteen kinds of step, with starts, pending cancels and edits acting on what they read earlier, keeps the system invariant and only lengthens lives |
| StepProofs.RunKeeps | services/auction-service/internal/client/expire_scanner.go:95-142 | so does every run |
| StepProofs.ReachableKeeps | services/auction-service/internal/handler/auction_grpc_handler.go:374-534 | the system invariant holds in every reachable state |
| Theorems.HashIsItsHistory | services/auction-service/internal/repository/redis_state.go:252-443 | in every reachable state each hash, with all its columns, is a function of what was loaded, the accepted bids and the end; neighbouring bidders differ |
| Theorems.BidsJoinIff | services/auction-service/internal/repository/redis_state.go:286-315 | in every reachable state a bid joins the life of its auction if and only if it meets the script's rules in the columns of the hash; otherwise lives, hashes and messages stay |
| Theorems.RunningCanBeFinished | services/auction-service/internal/repository/redis_state.go:337-370 | in every reachable state a running auction can be finished by hand, becomes a deal if and only if somebody has bid, and leaves room and index |
| Theorems.RunningCanBeCancelled | services/auction-service/internal/repository/redis_state.go:415-443 | in every reachable state a running auction can be cancelled, with or without bids |
| Theorems.OverdueAuctionsTimeOut | services/auction-service/internal/repository/redis_state.go:373-413 | what a scanner has read as overdue it times out if the version is still the one read, and leaves alone otherwise |
| Theorems.EndedStaysEnded | services/auction-service/internal/repository/redis_state.go:337-443 | once an auction has ended its hash never changes in any continuation |
| Theorems.PriceAndExpiryInRange | services/auction-service/internal/repository/redis_state.go:301-315 | a running hash in any reachable state: price floor, seal price, bounded expiry |
| Theorems.SumsAreExact | services/auction-service/internal/repository/redis_state.go:301-307 | the least price the script forms, and the prices it compares, are doubles in every reachable state |
| Theorems.LeaderboardInRedis | services/auction-service/internal/repository/redis_state.go:314 | the leaderboard in any reachable state |
| Theorems.RoomsAreExclusive | services/auction-service/internal/repository/redis_state.go:258-268 | no room ever has two running auctions, and its current auction is the one it has |
| Theorems.RoomIsBusyWhileRunning | services/auction-service/internal/repository/redis_state.go:258-266 | a load is refused if and only if another auction runs in the room |
| Theorems.CurrentAuctionsAreExact | services/auction-service/internal/repository/redis_state.go:268 | a room has a current auction on record if and only if that auction runs in it |
| Theorems.IndexIsSound | services/auction-service/internal/client/expire_scanner.go:95-142 | under any interleaving a running auction is in the index; its score is its expiry before the first bid, later the expiry some bid has set, past the true one by at most as much as some bid was stamped later than the last |
| Theorems.NothingOverdueIsHidden | services/auction-service/internal/repository/redis_state.go:214-235 | as long as no bid was stamped later than the last one, an overdue auction is not hidden from a scan |
| Clocks.ScoresAreBidExpiries | services/auction-service/internal/client/expire_scanner.go:109-142 | over all runs with a given life the index can hold the expiry of any of its bids, and nothing else |
| Clocks.CarriedOff | services/auction-service/internal/client/expire_scanner.go:128-138 | any run can be repeated with a scanner in between that carries off the expiry of a given bid |
| Clocks.HiddenIffClockRanBack | services/auction-service/internal/client/expire_scanner.go:109-142 | some run with a given life has the auction overdue and unseen if and only if some bid was stamped later than the last one |
| Clocks.StepIsCopied | services/auction-service/internal/client/expire_scanner.go:95-142 | what is left to be done by others disturbs no step, and nothing left to be done is lost |
| Clocks.ItemsStayAvailable | services/auction-service/internal/client/expire_scanner.go:95-142 | along every run whatever was left to be done stays there and can be taken up again |
| Theorems.ScannerCanRely | services/auction-service/internal/client/expire_scanner.go:95-107 | what the drain of the scanner assumes holds in such reachable states |
| Theorems.ChecksEndOnlyTheirOwnState | services/auction-service/internal/client/event_consumer.go:148-169 | a check ends its auction if and only if nothing changed since it was published and its expiry has passed; a current one always does once end time plus countdown is over |
| Theorems.UnderWayIsFromLife | services/auction-service/internal/client/event_consumer.go:161-166 | every snapshot on its way to the table is the state the auction was in at that version |
| Deliveries.EveryStateIsUnderWay | services/auction-service/internal/handler/auction_grpc_handler.go:400-525 | every state an auction was ever in has been put on its way to the table |
| Theorems.SnapshotsDepictLives | services/auction-service/internal/client/event_consumer.go:228-250 | every snapshot on its way to the table has count, price and bidder of the last of so many bids, start, end and status of the life; a deal price exactly for a deal, and then the price of the last bid |
| Theorems.RowsDepictLives | services/auction-service/internal/repository/auction_repository.go:270-293 | in every reachable state the row of a started auction is pending still or depicts its life; it says Deal exactly with the price of the last bid as deal price |
| Theorems.VersionDeterminesSnapshot | services/auction-service/internal/client/event_consumer.go:158-166 | in every reachable state any two snapshots of one auction and version are equal, whoever produced them, and equal to what Redis holds at that version |
| Theorems.SelectionsConverge | services/auction-service/internal/repository/auction_repository.go:270-293 | any selection of the snapshots under way, in any order and number of copies, leaves the row at the newest of them |
| Deliveries.RowAfterStep | services/auction-service/internal/client/event_consumer.go:127-146 | a step changes a row only by an accepted edit, by a snapshot that reaches it, or by its deletion; a check, a duplicate bid event or a crash before the snapshot does not reach it |
| Deliveries.RowIsItsDeliveries | services/auction-service/internal/repository/auction_repository.go:247-312 | along every run a row is exactly what the accepted edits and the snapshots that reached it, in order, make of it |
| Deliveries.NewestReachedWins | services/auction-service/internal/repository/auction_repository.go:270-293 | at the end of every run a row shows a newest snapshot that reached it, any newest one if the auction was started, and is otherwise unchanged in version and status |
| Deliveries.SnapshotsConverge | services/auction-service/internal/repository/auction_repository.go:270-293 | two runs that bring the same snapshots to a row, in whatever order and number of copies, leave it showing the same |
| Deliveries.RowIsCurrentIffReached | services/auction-service/internal/repository/auction_repository.go:284 | at the end of a run the row shows what Redis holds if and only if it had that version before or a snapshot of that version reached it |
| Deliveries.EditsEndWithPending | services/auction-service/internal/repository/auction_repository.go:259 | a row that is not pending takes no edit in any continuation |
| Deliveries.DraftsAreWhatWasReadable | services/auction-service/internal/handler/auction_grpc_handler.go:319-364 | in every reachable state, what a start, a pending cancel or an edit may act on is exactly what the row held, pending and undeleted, in some state a run has passed before |
| Deliveries.DeletedRowsAreFrozen | services/auction-service/internal/repository/auction_repository.go:284 | a deleted row never changes again, and nothing reaches it |
| Theorems.RowVersionNeverFalls | services/auction-service/internal/repository/auction_repository.go:284 | along every run the version of a row never falls and a started row shows a state its auction was in |
| Theorems.DeletedRowShowsRedisIff | services/auction-service/internal/repository/auction_repository.go:295-312 | a deleted row never says Running or Deal; if Redis holds the auction, the row shows the state in Redis if and only if it is not pending |
| Deliveries.DeletionIsSafeUnlessPending | services/auction-service/internal/repository/auction_repository.go:295-312 | after deleting the row of an auction in Redis the row shows its end in every continuation if and only if it was not pending |
| Deliveries.OneFinalDeliverySuffices | services/auction-service/internal/client/event_consumer.go:193-198 | after one delivery of the final snapshot to an undeleted row, by a direct write or by any event, the row equals Redis in every continuation |
| Theorems.FinalSnapshotSticks | services/auction-service/internal/repository/auction_repository.go:270-293 | a row that has the final version shows the final state for good |
| Theorems.RequestsAreIdempotent | services/auction-service/internal/repository/redis_state.go:291 | two accepted bids with one request number lie at least 600 s apart on the clock of the server |
| Theorems.RunKeepsServerTime | services/auction-service/internal/repository/redis_state.go:291 | along every run bids are accepted in the order of the server's clock |
| Theorems.RejectedBidOnlyMarks | services/auction-service/internal/repository/redis_state.go:287-307 | a rejected bid changes nothing but its own marker, and that exactly when it got past the marker |
| Theorems.OwnMillisKeepRecordsApart | services/auction-service/internal/handler/auction_grpc_handler.go:491 | record numbers drawn from one generator in separate milliseconds stay apart as doubles |
| Theorems.RowsComeFromBids | services/auction-service/internal/repository/bid_record_repository.go:36-47 | every audit row describes an accepted bid, so no rejected bid has one |
| Theorems.RowsShowTheirBids | services/auction-service/internal/client/event_consumer.go:283-298 | every column of an audit row, from the bid it describes: price exact, bidder and goods exact or as doubles, time to the millisecond or the second |
| Theorems.RowIsTheBidsOwn | services/auction-service/internal/client/event_consumer.go:127-139 | with record numbers apart, the row under the number of a bid describes that bid |
| Theorems.OwnRowsIffApart | services/auction-service/internal/repository/bid_record_repository.go:40-47 | once every number is on file and bids of one auction differ in bidder, price or second, every bid has its own row if and only if no two record numbers meet as doubles |
| Theorems.EitherWriteFilesTheBid | services/auction-service/internal/handler/auction_grpc_handler.go:498-521 | an accepted bid leaves two steps to be done, and in every continuation with one of them, even a delivery cut short, its number is on file |
| Theorems.RowsArePermanent | services/auction-service/internal/repository/bid_record_repository.go:36-47 | no step replaces or removes an audit row |
| Theorems.BidEventReachesTableOnlyWithoutRow | services/auction-service/internal/client/event_consumer.go:127-146 | a bid event changes the auction table if and only if its audit row was missing, the consumer did not crash in between, and its version is newer |
| Races.SecondStartForgetsBids | services/auction-service/internal/handler/auction_grpc_handler.go:383-400 | a reachable state in which a repeated start takes version and bid count back and leaves a leaderboard no history explains |
| Reloads.SecondLoadIsExplainedIff | services/auction-service/internal/repository/redis_state.go:267-270 | after a second load some history explains the keys in Redis if and only if nobody had bid |
| Reloads.LateStartIsExplainedIff | services/auction-service/internal/handler/auction_grpc_handler.go:383-408 | a start loads what it read at any earlier time; some history then explains the whole service if and only if Redis does not hold the auction and the row is pending still, or Redis holds it in the very state loaded again |
| Reloads.LateCancelIsExplainedIff | services/auction-service/internal/handler/auction_grpc_handler.go:445-456 | a pending cancel writes what it read at any earlier time; some history then explains the whole service if and only if the write is refused or Redis does not hold the auction |
| Reloads.LateCancelIsUndone | services/auction-service/internal/handler/auction_grpc_handler.go:445-456 | once such a cancel has been accepted although Redis holds the auction, the row keeps out only the first of its states, and every later one overwrites Cancelled |
| Races.CancelMissesLoadedAuction | services/auction-service/internal/handler/auction_grpc_handler.go:400-408 | a reachable state in which a cancel says Cancelled in the table while Redis goes on taking bids |
| Races.StartRacesPendingCancel | services/auction-service/internal/handler/auction_grpc_handler.go:445-456 | a cancel is through between check and load of a start: from a reachable state the row says Cancelled, Redis runs, two different snapshots of version 1 are under way, their order decides, and no history explains it |
| Races.BackwardClockHidesOverdue | services/auction-service/internal/client/expire_scanner.go:120-137 | two bids, the second stamped earlier, with which some run has the auction overdue and unseen |
| Races.EditRacesStart | services/auction-service/internal/handler/auction_grpc_handler.go:331-364 | a reachable state after an edit of a loaded auction in which 150 is shown and 110 accepted |
| ShownPrice.RulesDecidePrice | services/api-gateway/internal/handler/live.go:1088 | the price shown from row and hash is the least accepted one at every price from the start price on if and only if the seal prices agree and the increments agree or both lead past the seal price |
| ShownPrice.RowRulesFollowEdits | services/auction-service/internal/repository/auction_repository.go:247-268 | along every run only accepted edits change increment and seal price of a row, and the last one decides |
| ShownPrice.HashRulesStay | services/auction-service/internal/repository/redis_state.go:309-315 | along every run increment, seal price and start price of a hash stay as loaded |
| ShownPrice.ShownPriceIsLeastUnlessEdited | services/api-gateway/internal/handler/live.go:1175 | after any run from the read of the row through the load on, the shown price is the least accepted one if and only if no edit was accepted since the read, or the last one makes the same offer |
| ShownPrice.RulesSettle | services/auction-service/internal/repository/auction_repository.go:259 | once the row is not pending, what is shown stays right or wrong for good |
| Races.DeletionMissesLoadedAuction | services/auction-service/internal/repository/auction_repository.go:299-303 | a reachable state with a deleted row whose auction is running |
| FallingPrices.PriceFallsInSomeRunIff | services/auction-service/internal/repository/redis_state.go:301-307 | from a reachable state some continuation lowers the price in Redis if and only if the auction runs above its seal price and some time is open for bids |
| FallingPrices.EditCanPassTheSeal | services/auction-service/internal/handler/auction_grpc_handler.go:334-363 | an accepted edit keeps the times in order always, and the seal price at or above the start price if and only if it does not raise the start price alone past it |
| FallingPrices.RunKeepsCovered | services/auction-service/internal/handler/auction_grpc_handler.go:331-364 | as long as no edit does that, no pending row and no loaded auction starts above its seal price |
| FallingPrices.PricesNeverFallUnlessEditPassed | services/auction-service/internal/handler/auction_grpc_handler.go:331-364 | in every state reached without such an edit, no continuation lowers the price of any auction |
| Races.RaisedStartLetsPriceFall | services/auction-service/internal/handler/auction_grpc_handler.go:334-363 | a reachable auction, started at 200 with a seal price of 150 after such an edit, whose price a bid lowers |
| Races.SecondRowIsLost | services/auction-service/internal/repository/bid_record_repository.go:36-47 | a reachable state in which two accepted bids, distinct in bidder and price, share one record number as doubles and the table holds the row of the first alone |
| EventProcessor.CheckedEndIsLeft | services/auction-service/internal/client/event_consumer.go:158-166 | all that a check publishes and writes is what the protocol has left to be done at that point |
| EventProcessor.ChecksAnnounceEveryEnd | services/auction-service/internal/client/event_consumer.go:148-169 | a check announces an end if and only if it is well-formed and its auction is Deal or Failed after it |
| EventProcessor.CheckIsAnnounced | services/auction-service/internal/client/event_consumer.go:148-199 | in the columns of the hash a check finds: one final event and the row if it ends the auction or finds it ended, nothing otherwise |
| EventProcessor.AuctionEventProcessor.ConsumeOne | services/auction-service/internal/client/event_consumer.go:105-125 | one undisturbed delivery has exactly the effect of the protocol step on Redis, both tables and the published events; a check appends exactly one final event, telling every column, and hands over the row, if it ends its auction or finds it ended, and does neither otherwise; redelivery is asked for exactly on a malformed event or check, or a missing hash |
| EventProcessor.AuctionEventProcessor.ApplySnapshotEvent | services/auction-service/internal/client/event_consumer.go:127-146 | audit row first, column by column from the data; a duplicate ends the handling without the snapshot; otherwise the eight columns of a newer version |
| EventProcessor.AuctionEventProcessor.ApplyExpireCheck | services/auction-service/internal/client/event_consumer.go:148-169 | ends, publishes and writes exactly as the hash it finds demands: one final event and the row for an end it brings about or finds, nothing otherwise |
| EventProcessor.AuctionEventProcessor.PublishAndSnapshotFinalState | services/auction-service/internal/client/event_consumer.go:171-199 | publishes the kind of the final status and hands the snapshot to the table |
| ExpireScanner.AuctionExpireScanner.constructor | services/auction-service/internal/client/expire_scanner.go:29-53 | a batch size that is not positive becomes 100 |
| ExpireScanner.AuctionExpireScanner.HandleExpiredCandidate | services/auction-service/internal/client/expire_scanner.go:109-142 | undisturbed, a candidate is handled exactly as the decision of the protocol says and is not due afterwards, while all other entries stay as they are |
| ExpireScanner.AuctionExpireScanner.SettleUnchanged | services/auction-service/internal/client/expire_scanner.go:128-139 | after a script that changed nothing, a running auction is indexed at its true expiry and any other removed |
| ExpireScanner.CandidateIsTwoSteps | services/auction-service/internal/client/expire_scanner.go:109-142 | handling a candidate is two steps of the protocol: the same keys in Redis, and what was published is among the messages |
| ExpireScanner.UnchangedIsTwoSteps | services/auction-service/internal/client/expire_scanner.go:128-139 | so is what follows a script that changed nothing |
| ExpireScanner.AuctionExpireScanner.Scan | services/auction-service/internal/client/expire_scanner.go:95-107 | a scan takes a whole batch out of the due set; hashes change only by timing out overdue ones, each announced and written; index entries change only if due |
| ExpireScanner.AuctionExpireScanner.ScanRounds | services/auction-service/internal/client/expire_scanner.go:77-93 | each round clears a full batch, enough rounds leave none due and no running auction overdue, and all rounds together change nothing but what a scan may, with every end announced and written |
| AuctionHandler.AuctionGRPCHandler.PlaceBid | services/auction-service/internal/handler/auction_grpc_handler.go:482-534 | an undisturbed bid: when it succeeds, the error otherwise, its effect on Redis; then exactly one event of the bid, exactly one check if delays are configured, both telling the new hash, and audit row and row column by column |
| AuctionHandler.AuctionGRPCHandler.BidEventsAreItems | services/auction-service/internal/handler/auction_grpc_handler.go:509-525 | all that the bidding handler does after the script is what the protocol step leaves to be done and, with delays configured, the other way round |
| AuctionHandler.AuctionGRPCHandler.BidEventsTell | services/auction-service/internal/handler/auction_grpc_handler.go:509-523 | the events of a bid in the columns of the new hash and the request: number, bidder, price, times, expiry |
| AuctionHandler.AuctionGRPCHandler.StartAuction | services/auction-service/internal/handler/auction_grpc_handler.go:374-409 | an undisturbed start succeeds exactly on a pending row of the shop whose room is free in the table and in Redis; row, hash and event in columns, as the protocol step has them |
| AuctionHandler.AuctionGRPCHandler.FinishAuction | services/auction-service/internal/handler/auction_grpc_handler.go:411-434 | an undisturbed finish succeeds exactly on a running auction of the shop; the one event and the row tell Deal at the current price if somebody has bid and Failed otherwise |
| AuctionHandler.AuctionGRPCHandler.CancelAuction | services/auction-service/internal/handler/auction_grpc_handler.go:436-466 | a pending auction is cancelled in the table alone, one running in Redis there, with or without bids; success, the one event and the rows in columns |
| AuctionHandler.AuctionGRPCHandler.UpdateAuction | services/auction-service/internal/handler/auction_grpc_handler.go:319-372 | an undisturbed edit is that of the protocol: which fields are checked how, and every column of the row afterwards |
| RoomLookup.NormalizeIDList | services/auction-service/internal/handler/auction_grpc_handler.go:845-862 | refuses empty lists and numbers that are not positive, and otherwise keeps first occurrences in order |
| RoomLookup.DistinctKeepsFirsts | services/auction-service/internal/handler/auction_grpc_handler.go:845-862 | what is kept are exactly the entries that have not occurred before, in the order of the list |
| RoomLookup.FirstPerRoom | services/auction-service/internal/repository/auction_repository.go:118-131 | keeps one row per room, and it is the current auction of the room |
| RoomLookup.FirstIsCurrent | services/auction-service/internal/repository/auction_repository.go:112 | the first row of a room in the batch order is the one the single lookup returns |
| RoomLookup.OrderByRooms | services/auction-service/internal/handler/auction_grpc_handler.go:864-878 | rooms that have a current auction, in request order, each with it |
| RoomLookup.MapByRoom | services/auction-service/internal/handler/auction_grpc_handler.go:865-870 | every fetched row of a positive room is found under its room |
| RoomLookup.BatchGetCurrentAuctionsByRoom | services/auction-service/internal/handler/auction_grpc_handler.go:144-154 | the batch answers the distinct requested rooms that have a current auction, in request order, with exactly the rows of the single lookup |
| RoomLookup.CurrentIsUnique | services/auction-service/internal/repository/auction_repository.go:96-103 | the single lookup has one possible answer |
| RoomLookup.ServedMembers | services/auction-service/internal/handler/auction_grpc_handler.go:864-878 | a room is answered if and only if it was requested and has a running auction |
| RoomLookup.ServedKeepsOrder | services/auction-service/internal/handler/auction_grpc_handler.go:871-877 | the rooms answered are exactly the entries of the request with a running auction, in its order |
| CreateOptions.FetchAll | services/api-gateway/internal/handler/auction.go:871-889 | over a table that does not change the loop ends, returns every row once in order, and makes as many calls as there are started pages |
| CreateOptions.ListCreateOptionAuctions | services/api-gateway/internal/handler/auction.go:891-907 | the loop over the pages of the auction service ends with every undeleted auction of the shop, once and in order |
| CreateOptions.GoodsOptions | services/api-gateway/internal/handler/auction.go:445-458 | the options are the on-sale goods, in order, for which the auction table holds no undeleted auction of the shop |
| CreateOptions.UnusedMembers | services/api-gateway/internal/handler/auction.go:452-458 | a good is offered if and only if it is on sale and no undeleted auction of the shop is for it |
| CreateOptions.UnusedKeepsOrder | services/api-gateway/internal/handler/auction.go:452-458 | the options are exactly the entries of the on-sale goods without an undeleted auction, in their order |

## Left out

- Protocol.Enabled: leaves out the starts whose auction was started or withdrawn since they read its row, and the accepted pending cancels of a loaded auction; `Reloads` gives the exact condition under which each of them does no harm, and everything else of those handlers is interleaved. The runs themselves do not go on past a harmful one.
- StepProofs.StartKeeps: covers starts of auctions that are neither loaded nor withdrawn when they load; `Reloads.LateStartIsExplainedIff` covers all others.
- StepProofs.StepKeeps: covers the enabled steps; the starts and cancels left out of them are in `Reloads`.
- Theorems.VersionDeterminesSnapshot: fails of the code after a start split by a pending cancel (`Races.StartRacesPendingCancel`); `Reloads.LateStartIsExplainedIff` has the exact condition.
- Theorems.RequestsAreIdempotent: assumes a server clock that does not run back; a key Redis has deleted would not come back with the clock.
- RedisScripts.AfterBid: leaves out the key of a user's last bid, which is written and never read, and does not round amounts and times, which are exact up to 2^53.
- RedisScripts.AfterEnd: takes version and expiry as exact numbers, as they stay below 2^53.
- RedisStore.RedisAuctionStateStore.PlaceBid: stores the bidder as the digits of a whole double; how a Lua number is turned into text (some Redis releases use exponents from 10^17 on) is not part of this model.
- AuctionHandler.AuctionGRPCHandler.PlaceBid: takes the request number after trimming and the user number from the token as given.
- AuctionHandler.AuctionGRPCHandler.StartAuction: runs undisturbed, like all methods of the three actor classes; what happens between their actions is the subject of `Protocol`.
- ExpireScanner.AuctionExpireScanner.HandleExpiredCandidate: leaves out the branch after a script that changed nothing, which cannot happen undisturbed; `SettleUnchanged` is that branch on its own.
- ExpireScanner.AuctionExpireScanner.ScanRounds: keeps the time fixed over its rounds; ticker, start and stop of the scanner are left out.
- CreateOptions.FetchAll: rows that join or leave between two pages are left out, and so are the option list of live rooms and the table of the goods service, whose on-sale goods are taken as given.
- Tables.AuctionTable.ListByShop: leaves out the filters by status and goods, which the option list does not use.
- Events.Delivered: leaves out event number, business number, timestamp and request number, which nobody reads back, and the conversion of doubles at and above 2^63 to int64.
- IdGenerator.Generator.Next: takes the clock as a sequence of readings; the mutex makes a call one step.
- Store, broker and database errors: a step that fails is a step that does not happen; a message dropped after its retries is a lost one.
- Columns for creation and update times, and fractions of milliseconds.
- gRPC, HTTP, RocketMQ, Redis client and GORM plumbing, configuration, tokens, status texts, error mapping, response mappers and frontends.
- Creating an auction: the validations by the goods and live-room services and the unique goods number of the table are left out; `Protocol` takes any row that the remaining checks let through.
- Goods, shop, user and live-room services: simple guarded updates that would only add easy members.
- Statistics, audit-log listing and merchant summaries: single queries.
- Eviction, persistence and recovery of Redis itself.
