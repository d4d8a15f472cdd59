/**
 What reaches a row of the table `auction` along a run, and what the row is made of at its end:
 the edits accepted while it was pending, and the snapshots handed to `UpdateStatusSnapshot`.
 */
module Deliveries {
  import opened Prelude
  import opened Doubles
  import opened Auctions
  import opened RedisScripts
  import opened Lives
  import opened RedisInvariant
  import opened Events
  import opened Tables
  import opened Protocol
  import opened SystemInvariant
  import opened StepProofs
  import opened Theorems
  import Clocks

  // ---- what a step hands to the table ----

  /** A consumed event gets to its snapshot: no check, no crash before it, no audit row that was there already. */
  predicate Reaches(s: System, raw: Event, now: int, crash: bool) {
    var r := BidRecordFromEvent(Delivered(raw), now);
    raw.kind != ExpireCheck && !crash && !(raw.kind == BidAccepted && r.Some? && r.value.id in s.records)
  }

  /** The auction a step hands to `UpdateStatusSnapshot`; a pending cancel that is refused has not happened. */
  function Delivery(s: System, step: Step, countdown: int): Option<Auction>
    requires Enabled(s, step, countdown)
  {
    match step
    case CancelPending(draft, now) =>
      if Accepts(s.auctions, CancelledRow(draft, now)) then Some(CancelledRow(draft, now)) else None
    case WriteSnapshot(w) => Some(w.auction)
    case Consume(m, now, crash) =>
      if Reaches(s, m.event, now, crash) then Some(AuctionFromEvent(Delivered(m.event))) else None
    case _ => None
  }

  /** The snapshot a step hands to the row, unless the row is deleted. */
  function Landed(s: System, step: Step, id: int, countdown: int): seq<Snapshot>
    requires Enabled(s, step, countdown) && id in s.auctions
  {
    var a := Delivery(s, step, countdown);
    if a.Some? && a.value.id == id && !s.auctions[id].deleted then [SnapshotOf(a.value)] else []
  }

  /** The configuration a step writes to the row. */
  function Edit(s: System, step: Step, id: int, countdown: int): seq<Auction>
    requires Enabled(s, step, countdown)
  {
    if !step.Configure? then [] else
      var config := Config(step.draft, step.update);
      if config.id == id && Configurable(s.auctions, id, config.shopId) then [config] else []
  }

  lemma RowStaysInTable(s: System, step: Step, id: int, countdown: int)
    requires Enabled(s, step, countdown) && id in s.auctions
    ensures id in Apply(s, step, countdown).auctions
  {
    hide Nearest;
  }

  /** All snapshots a run hands to the row, in order. */
  ghost function Reached(s: System, steps: seq<Step>, id: int, countdown: int): seq<Snapshot>
    requires Possible(s, steps, countdown) && id in s.auctions
    decreases |steps|
  {
    if steps == [] then [] else
      RowStaysInTable(s, steps[0], id, countdown);
      Landed(s, steps[0], id, countdown) + Reached(Apply(s, steps[0], countdown), steps[1..], id, countdown)
  }

  /** All configurations a run writes to the row, in order. */
  ghost function Edits(s: System, steps: seq<Step>, id: int, countdown: int): seq<Auction>
    requires Possible(s, steps, countdown)
    decreases |steps|
  {
    if steps == [] then [] else
      Edit(s, steps[0], id, countdown) + Edits(Apply(s, steps[0], countdown), steps[1..], id, countdown)
  }

  /** Edits write the same columns, so the last one decides. */
  function Configured(row: Auction, edits: seq<Auction>): Auction {
    if edits == [] then row else WithConfig(row, edits[|edits| - 1])
  }

  // ---- one step ----

  /** The row is made of the edits and the snapshots that came to it; only its deletion is another matter. */
  predicate MadeOf(row: Auction, edits: seq<Auction>, ws: seq<Snapshot>, row': Auction) {
    row' == Written(Configured(row, edits), ws).(deleted := row'.deleted)
  }

  lemma RowAfterStep(s: System, step: Step, id: int, countdown: int)
    requires Keyed(s.auctions) && Enabled(s, step, countdown) && id in s.auctions
    ensures var s' := Apply(s, step, countdown);
            && id in s'.auctions
            && MadeOf(s.auctions[id], Edit(s, step, id, countdown), Landed(s, step, id, countdown), s'.auctions[id])
            && (s.auctions[id].deleted ==> s'.auctions[id] == s.auctions[id])
            && (!step.Delete? ==> s'.auctions[id].deleted == s.auctions[id].deleted)
  {
    hide Nearest, NewEvent, AuctionFromEvent, BidRecordFromEvent, WithSnapshot, SnapshotOf, LoadedHash;
    var a := Delivery(s, step, countdown);
    if a.Some? {
      SnapshotReachesOnlyItsRow(s.auctions, a.value);
      assert Apply(s, step, countdown).auctions == AfterSnapshot(s.auctions, a.value);
    }
  }

  lemma RowsAreKeyed(s: System, countdown: int)
    requires Inv(s, countdown)
    ensures Keyed(s.auctions)
  {
  }

  /** Whatever a step hands to the table is the state its auction was in at that version, or its cancellation. */
  lemma DeliveryIsKnown(s: System, step: Step, countdown: int)
    requires Inv(s, countdown) && Enabled(s, step, countdown) && Delivery(s, step, countdown).Some?
    ensures SnapshotKnown(Delivery(s, step, countdown).value, s.history, countdown) ||
            (step.CancelPending? && step.draft.id == Delivery(s, step, countdown).value.id &&
             Delivery(s, step, countdown).value.status == CANCELLED)
  {
    hide Nearest, AuctionFromEvent, BidRecordFromEvent, SnapshotKnown, RedisInv, RecordsInv;
    match step
    case CancelPending(draft, now) =>
    case WriteSnapshot(w) => assert ItemKnown(w, s.history, countdown);
    case Consume(m, now, crash) => assert ItemKnown(m, s.history, countdown);
    case _ =>
  }

  /** Only the edit of a pending row and a snapshot of its start or its cancellation find it pending. */
  lemma DeliveredIsNotPending(s: System, step: Step, countdown: int)
    requires Inv(s, countdown) && Enabled(s, step, countdown) && Delivery(s, step, countdown).Some?
    ensures Delivery(s, step, countdown).value.status != PENDING
  {
    DeliveryIsKnown(s, step, countdown);
    var a := Delivery(s, step, countdown).value;
    if SnapshotKnown(a, s.history, countdown) && a.id in s.history.lives {
      EndIsLastStage(SnapshotOf(a), s.history.lives[a.id], countdown);
    }
  }

  // ---- runs ----

  lemma {:induction false} WrittenInTwo(row: Auction, ws: seq<Snapshot>, ws': seq<Snapshot>)
    ensures Written(row, ws + ws') == Written(Written(row, ws), ws')
    decreases |ws|
  {
    if ws == [] {
      assert ws + ws' == ws';
    } else {
      assert (ws + ws')[1..] == ws[1..] + ws';
      WrittenInTwo(Taking(row, ws[0]), ws[1..], ws');
    }
  }

  /** Nothing reaches a deleted row any more. */
  lemma {:induction false} DeletedRowsAreFrozen(s: System, steps: seq<Step>, id: int, countdown: int)
    requires Inv(s, countdown) && Possible(s, steps, countdown) && id in s.auctions && s.auctions[id].deleted
    ensures var s' := Outcome(s, steps, countdown); id in s'.auctions && s'.auctions[id] == s.auctions[id]
    ensures Reached(s, steps, id, countdown) == [] && Edits(s, steps, id, countdown) == []
    decreases |steps|
  {
    if steps != [] {
      hide Inv, Enabled, Apply;
      RowsAreKeyed(s, countdown);
      RowAfterStep(s, steps[0], id, countdown);
      StepKeeps(s, steps[0], countdown);
      DeletedRowsAreFrozen(Apply(s, steps[0], countdown), steps[1..], id, countdown);
    }
  }

  /** Once its row is not pending an auction takes no edits. */
  lemma {:induction false} EditsEndWithPending(s: System, steps: seq<Step>, id: int, countdown: int)
    requires Inv(s, countdown) && Possible(s, steps, countdown) && id in s.auctions && s.auctions[id].status != PENDING
    ensures Edits(s, steps, id, countdown) == []
    decreases |steps|
  {
    if steps != [] {
      hide Inv, Enabled, Apply;
      StepKeepsOffPending(s, steps[0], id, countdown);
      StepKeeps(s, steps[0], countdown);
      EditsEndWithPending(Apply(s, steps[0], countdown), steps[1..], id, countdown);
    }
  }

  lemma StepKeepsOffPending(s: System, step: Step, id: int, countdown: int)
    requires Inv(s, countdown) && Enabled(s, step, countdown) && id in s.auctions && s.auctions[id].status != PENDING
    ensures var s' := Apply(s, step, countdown); id in s'.auctions && s'.auctions[id].status != PENDING
  {
    RowsAreKeyed(s, countdown);
    RowAfterStep(s, step, id, countdown);
    if Delivery(s, step, countdown).Some? {
      DeliveredIsNotPending(s, step, countdown);
    }
    hide Inv, Apply, Enabled, Delivery;
  }

  /** What one step and what the rest of a run bring to a row, taken together. */
  lemma MadeInTwo(row: Auction, edits: seq<Auction>, ws: seq<Snapshot>, next: Auction,
                  edits': seq<Auction>, ws': seq<Snapshot>, row': Auction)
    requires MadeOf(row, edits, ws, next) && MadeOf(next, edits', ws', row')
    requires |ws| <= 1 && (edits == [] || ws == [])
    requires row.deleted ==> next.deleted
    requires next.deleted ==> edits' == [] && ws' == [] && row' == next
    requires ws != [] && !row.deleted && row.version < ws[0].version ==> edits' == []
    ensures MadeOf(row, edits + edits', ws + ws', row')
  {
    hide SnapshotOf, WithSnapshot;
    if next.deleted {
      assert edits + edits' == edits && ws + ws' == ws;
    } else if ws == [] {
      assert ws + ws' == ws';
      assert Configured(row, edits + edits') == Configured(Configured(row, edits), edits');
    } else {
      assert edits + edits' == edits';
      assert (ws + ws')[1..] == ws';
      assert edits == [] && ws[1..] == [];
      assert Written(row, ws) == Taking(row, ws[0]);
    }
  }

  lemma FirstStepMakes(s: System, step: Step, id: int, countdown: int)
    requires Inv(s, countdown) && Enabled(s, step, countdown) && id in s.auctions
    ensures id in Apply(s, step, countdown).auctions
    ensures var row, row' := s.auctions[id], Apply(s, step, countdown).auctions[id];
            var edits, ws := Edit(s, step, id, countdown), Landed(s, step, id, countdown);
            && MadeOf(row, edits, ws, row')
            && |ws| <= 1 && (edits == [] || ws == []) && (row.deleted ==> row'.deleted)
            && (ws != [] && !row.deleted && row.version < ws[0].version ==> row'.status != PENDING)
  {
    RowsAreKeyed(s, countdown);
    RowAfterStep(s, step, id, countdown);
    if Landed(s, step, id, countdown) != [] {
      DeliveredIsNotPending(s, step, countdown);
    }
    hide Inv, Apply, Enabled, Delivery;
  }

  /**
   Along every run a row is what the accepted edits and the snapshots that reached it, one after
   the other, make of it: no other step, and no message that was a check, a duplicate or cut short.
   */
  lemma {:induction false} RowIsItsDeliveries(s: System, steps: seq<Step>, id: int, countdown: int)
    requires Inv(s, countdown) && Possible(s, steps, countdown) && id in s.auctions
    ensures id in Outcome(s, steps, countdown).auctions
    ensures MadeOf(s.auctions[id], Edits(s, steps, id, countdown), Reached(s, steps, id, countdown),
                   Outcome(s, steps, countdown).auctions[id])
    decreases |steps|
  {
    if steps != [] {
      var next, rest := Apply(s, steps[0], countdown), steps[1..];
      hide Inv, Enabled, Apply, Landed, Edit, MadeOf, SnapshotOf;
      FirstStepMakes(s, steps[0], id, countdown);
      StepKeeps(s, steps[0], countdown);
      RowIsItsDeliveries(next, rest, id, countdown);
      if next.auctions[id].deleted {
        DeletedRowsAreFrozen(next, rest, id, countdown);
      }
      if next.auctions[id].status != PENDING {
        EditsEndWithPending(next, rest, id, countdown);
      }
      MadeInTwo(s.auctions[id], Edit(s, steps[0], id, countdown), Landed(s, steps[0], id, countdown), next.auctions[id],
                Edits(next, rest, id, countdown), Reached(next, rest, id, countdown),
                Outcome(next, rest, countdown).auctions[id]);
    }
  }

  lemma LandedIsFromLife(s: System, step: Step, end: System, id: int, countdown: int)
    requires Inv(s, countdown) && Enabled(s, step, countdown) && Inv(end, countdown)
    requires Grows(s.history, end.history) && Grows(Apply(s, step, countdown).history, end.history)
    requires Delivery(s, step, countdown).Some? && Delivery(s, step, countdown).value.id == id
    requires id in end.history.lives
    ensures FromLife(SnapshotOf(Delivery(s, step, countdown).value), end.history.lives[id], countdown)
  {
    hide Nearest, AuctionFromEvent, FromLife;
    DeliveryIsKnown(s, step, countdown);
    var a := Delivery(s, step, countdown).value;
    if SnapshotKnown(a, s.history, countdown) {
      SnapshotStays(a, s.history, end.history, countdown);
    }
  }

  /** Every snapshot that reached the row of a started auction is a state its life went through. */
  lemma {:induction false} ReachedIsFromLife(s: System, steps: seq<Step>, id: int, x: Snapshot, countdown: int)
    requires Inv(s, countdown) && Possible(s, steps, countdown) && id in s.auctions
    requires x in Reached(s, steps, id, countdown) && id in Outcome(s, steps, countdown).history.lives
    ensures FromLife(x, Outcome(s, steps, countdown).history.lives[id], countdown)
    decreases |steps|
  {
    hide Inv, Enabled, Apply, Delivery, FromLife;
    var next, end := Apply(s, steps[0], countdown), Outcome(s, steps, countdown);
    StepKeeps(s, steps[0], countdown);
    if x in Landed(s, steps[0], id, countdown) {
      RunKeeps(s, steps, countdown);
      RunKeeps(next, steps[1..], countdown);
      LandedIsFromLife(s, steps[0], end, id, countdown);
    } else {
      RowStaysInTable(s, steps[0], id, countdown);
      ReachedIsFromLife(next, steps[1..], id, x, countdown);
    }
  }

  // ---- what a handler may have read ----

  /** The row is there, pending and not deleted, with these contents. */
  predicate HoldsDraft(s: System, draft: Auction) {
    draft.id in s.auctions && s.auctions[draft.id] == draft && draft.status == PENDING && !draft.deleted
  }

  /** A handler could read these contents in some state that the run to s has passed. */
  ghost predicate WasReadable(s: System, draft: Auction, countdown: int) {
    exists s0, steps :: Reachable(s0, countdown) && HoldsDraft(s0, draft) && LeadsTo(s0, steps, s, countdown)
  }

  ghost predicate LeadsTo(s0: System, steps: seq<Step>, s: System, countdown: int) {
    Possible(s0, steps, countdown) && Outcome(s0, steps, countdown) == s
  }

  lemma NewDraftIsRow(s: System, step: Step, draft: Auction, countdown: int)
    requires Enabled(s, step, countdown) && Keyed(s.auctions)
    requires draft in Apply(s, step, countdown).history.drafts && draft !in s.history.drafts
    ensures HoldsDraft(Apply(s, step, countdown), draft)
  {
    hide Nearest, NewEvent, AfterSnapshot, AfterRecord, AuctionFromEvent, BidRecordFromEvent, AfterBid, BidVerdict;
    hide AfterLoad, RoomBusy, LoadedHash, AfterEnd, Expires, Edited, BidItems, FinalItems;
  }

  lemma {:induction false} NewDraftWasReadable(s: System, steps: seq<Step>, draft: Auction, countdown: int)
    requires Reachable(s, countdown) && Possible(s, steps, countdown)
    requires draft in Outcome(s, steps, countdown).history.drafts && draft !in s.history.drafts
    ensures WasReadable(Outcome(s, steps, countdown), draft, countdown)
    decreases |steps|
  {
    hide Reachable, Enabled, Apply, HoldsDraft;
    var next := Apply(s, steps[0], countdown);
    Clocks.OneStepFurther(s, steps[0], countdown);
    if draft in next.history.drafts {
      ReachableKeeps(s, countdown);
      RowsAreKeyed(s, countdown) by { hide Inv; }
      NewDraftIsRow(s, steps[0], draft, countdown);
      assert LeadsTo(next, steps[1..], Outcome(s, steps, countdown), countdown);
    } else {
      NewDraftWasReadable(next, steps[1..], draft, countdown);
    }
  }

  /** The drafts a start, a pending cancel or an edit may act on are exactly what it could have read earlier. */
  lemma DraftsAreWhatWasReadable(s: System, draft: Auction, countdown: int)
    requires Reachable(s, countdown)
    ensures draft in s.history.drafts <==> WasReadable(s, draft, countdown)
  {
    if draft in s.history.drafts {
      var steps :| Possible(INITIAL, steps, countdown) && Outcome(INITIAL, steps, countdown) == s;
      Clocks.Beginning(countdown);
      hide Reachable, Possible, Outcome, WasReadable, Inv;
      NewDraftWasReadable(INITIAL, steps, draft, countdown);
    }
    hide Reachable, Inv;
    if s0, steps :| Reachable(s0, countdown) && HoldsDraft(s0, draft) && LeadsTo(s0, steps, s, countdown) {
      ReachableKeeps(s0, countdown);
      RowOf(s0, draft.id, countdown);
      RunKeeps(s0, steps, countdown);
    }
  }

  // ---- what a row shows at the end of a run ----

  /** A row shows a newest snapshot that reached it; if none was newer its version and status are unchanged. */
  lemma NewestReachedWins(s: System, steps: seq<Step>, id: int, countdown: int)
    requires Reachable(s, countdown) && Possible(s, steps, countdown) && id in s.auctions
    ensures id in Outcome(s, steps, countdown).auctions
    ensures var row, row' := s.auctions[id], Outcome(s, steps, countdown).auctions[id];
            var ws := Reached(s, steps, id, countdown);
            && (forall x :: x in ws ==> x.version <= row'.version)
            && ((exists x :: Newest(row, ws, x) && SnapshotOf(row') == x) ||
                ((forall x :: x in ws ==> x.version <= row.version) &&
                 row'.version == row.version && row'.status == row.status))
            && (id in Outcome(s, steps, countdown).history.lives ==>
                  forall x :: Newest(row, ws, x) ==> SnapshotOf(row') == x)
  {
    ReachableKeeps(s, countdown);
    RowIsItsDeliveries(s, steps, id, countdown);
    var end := Outcome(s, steps, countdown);
    var row, row', ws := s.auctions[id], end.auctions[id], Reached(s, steps, id, countdown);
    var base := Configured(row, Edits(s, steps, id, countdown));
    if row.deleted {
      DeletedRowsAreFrozen(s, steps, id, countdown);
    } else {
      hide Inv, Possible, Outcome, Reached, Edits, FromLife;
      RowEndsAtNewest(base, ws);
      assert forall x :: Newest(base, ws, x) <==> Newest(row, ws, x);
      if id in end.history.lives {
        forall x | Newest(row, ws, x)
          ensures SnapshotOf(row') == x
        {
          var y :| Newest(row, ws, y) && SnapshotOf(row') == y;
          ReachedIsFromLife(s, steps, id, x, countdown);
          ReachedIsFromLife(s, steps, id, y, countdown);
          OnePerVersion(x, y, end.history.lives[id], countdown);
        }
      }
    }
  }

  /**
   Two runs that bring the same snapshots to a row, in whatever order and number of copies, leave it
   showing the same, as soon as any of them is newer than the row.
   */
  lemma SnapshotsConverge(s: System, steps: seq<Step>, steps': seq<Step>, id: int, countdown: int)
    requires Reachable(s, countdown) && id in s.auctions
    requires Possible(s, steps, countdown) && Possible(s, steps', countdown)
    requires id in Outcome(s, steps, countdown).history.lives && id in Outcome(s, steps', countdown).history.lives
    requires SameSnapshots(Reached(s, steps, id, countdown), Reached(s, steps', id, countdown))
    requires exists x :: x in Reached(s, steps, id, countdown) && x.version > s.auctions[id].version
    ensures id in Outcome(s, steps, countdown).auctions && id in Outcome(s, steps', countdown).auctions
    ensures SnapshotOf(Outcome(s, steps, countdown).auctions[id]) ==
            SnapshotOf(Outcome(s, steps', countdown).auctions[id])
  {
    NewestReachedWins(s, steps, id, countdown);
    NewestReachedWins(s, steps', id, countdown);
    hide Reachable, Possible, Outcome, Reached, SnapshotOf;
    var row, ws, ws' := s.auctions[id], Reached(s, steps, id, countdown), Reached(s, steps', id, countdown);
    var x :| Newest(row, ws, x);
    assert Newest(row, ws', x);
  }

  /**
   At the end of a run the row shows what Redis holds exactly if it had that version from the start
   or a snapshot of that version reached it.
   */
  lemma RowIsCurrentIffReached(s: System, steps: seq<Step>, id: int, countdown: int)
    requires Reachable(s, countdown) && Possible(s, steps, countdown) && id in s.auctions
    requires id in Outcome(s, steps, countdown).redis.states
    ensures id in Outcome(s, steps, countdown).auctions
    ensures var row, h := Outcome(s, steps, countdown).auctions[id], Outcome(s, steps, countdown).redis.states[id];
            SnapshotOf(row) == SnapshotOfHash(h) <==>
              s.auctions[id].version == h.version ||
              exists x :: x in Reached(s, steps, id, countdown) && x.version == h.version
  {
    var end := Outcome(s, steps, countdown);
    NewestReachedWins(s, steps, id, countdown);
    RowVersionNeverFalls(s, steps, id, countdown);
    ReachableKeeps(s, countdown);
    RunKeeps(s, steps, countdown);
    HashOf(end, id, countdown);
    hide Reachable, Possible, Outcome, Reached, Inv, Newest;
    if end.auctions[id].version >= end.redis.states[id].version {
      RowShowsState(end, id, countdown);
    }
    if SnapshotOf(end.auctions[id]) == SnapshotOfHash(end.redis.states[id]) {
      assert end.auctions[id].version == end.redis.states[id].version;
    }
  }

  /** One delivery of the final snapshot to an undeleted row, by a direct write or by any event, is enough for good. */
  lemma OneFinalDeliverySuffices(s: System, step: Step, steps: seq<Step>, id: int, countdown: int)
    requires Reachable(s, countdown) && Possible(s, [step] + steps, countdown)
    requires id in s.redis.states && s.redis.states[id].status != RUNNING
    requires id in s.auctions && !s.auctions[id].deleted
    requires Enabled(s, step, countdown) && Delivery(s, step, countdown).Some?
    requires Delivery(s, step, countdown).value.id == id
    requires Delivery(s, step, countdown).value.version == s.redis.states[id].version
    ensures var s' := Outcome(s, [step] + steps, countdown);
            && id in s'.auctions && id in s'.redis.states
            && SnapshotOf(s'.auctions[id]) == SnapshotOfHash(s'.redis.states[id]) == SnapshotOfHash(s.redis.states[id])
  {
    var run, x := [step] + steps, SnapshotOf(Delivery(s, step, countdown).value);
    assert run[0] == step;
    assert x in Landed(s, step, id, countdown);
    hide Enabled, Apply, Delivery, Reachable, Landed;
    EndedStaysEnded(s, run, id, countdown);
    assert x in Reached(s, run, id, countdown);
    RowIsCurrentIffReached(s, run, id, countdown);
  }

  /**
   Deleting the row of an auction that Redis holds is safe, in the sense that the row shows the end
   of the auction in every continuation, exactly if the row was not pending.
   */
  lemma DeletionIsSafeUnlessPending(s: System, id: int, shopId: int, steps: seq<Step>, countdown: int)
    requires Reachable(s, countdown) && Deletable(s.auctions, id, shopId) && id in s.redis.states
    requires Possible(Apply(s, Delete(id, shopId), countdown), steps, countdown)
    ensures var s' := Outcome(Apply(s, Delete(id, shopId), countdown), steps, countdown);
            && id in s'.auctions && s'.auctions[id] == s.auctions[id].(deleted := true)
            && id in s'.redis.states
            && (SnapshotOf(s'.auctions[id]) == SnapshotOfHash(s'.redis.states[id]) <==>
                  s.auctions[id].status != PENDING)
  {
    var deleted := Apply(s, Delete(id, shopId), countdown);
    assert deleted.auctions == s.auctions[id := s.auctions[id].(deleted := true)] && deleted.redis == s.redis;
    ReachableKeeps(s, countdown);
    Clocks.OneStepFurther(s, Delete(id, shopId), countdown);
    StepKeeps(s, Delete(id, shopId), countdown);
    hide *;
    Clocks.RunIsReachable(deleted, steps, countdown);
    DeletedRowsAreFrozen(deleted, steps, id, countdown);
    HashStays(deleted, steps, id, countdown);
    DeletedRowShowsRedisIff(Outcome(deleted, steps, countdown), id, countdown);
  }

  lemma HashStays(s: System, steps: seq<Step>, id: int, countdown: int)
    requires Inv(s, countdown) && Possible(s, steps, countdown) && id in s.redis.states
    ensures id in Outcome(s, steps, countdown).redis.states
  {
    RunKeeps(s, steps, countdown);
  }

  // ---- every state is put on its way ----

  /** If the life of an auction has moved on, it has by one state, and that is on its way to the table. */
  ghost predicate NewsIsWritten(s: System, s': System, id: int) {
    id in s'.history.lives && (id in s.history.lives ==> s'.history.lives[id] != s.history.lives[id]) ==>
      && (id in s.history.lives ==> Stages(s'.history.lives[id]) == Stages(s.history.lives[id]) + 1)
      && (id !in s.history.lives ==> Stages(s'.history.lives[id]) == 0)
      && id in s'.redis.states && UnderWay(s', id, SnapshotOfHash(s'.redis.states[id]))
  }

  lemma WriteIsUnderWay(s: System, a: Auction)
    requires Write(a) in s.soup
    ensures UnderWay(s, a.id, SnapshotOf(a))
  {
    assert Brings(Write(a), a.id, SnapshotOf(a));
  }

  lemma BidIsWritten(s: System, q: BidRequest, id: int, countdown: int)
    requires Inv(s, countdown)
    ensures NewsIsWritten(s, WithBid(s, q, countdown), id)
  {
    if BidVerdict(s.redis, q) == None {
      BidFromInv(s, q, countdown);
      HashOf(s, q.auctionId, countdown);
      LifeOf(s, q.auctionId, countdown);
      CurrentInClosedForm(s.history.lives[q.auctionId], countdown);
      BidKeepsNumber(s.redis, q, countdown);
      hide Inv, RedisInv, Lawful, Measured, BidVerdict, AfterBid, Current, Reads;
      BidMovesOn(s, q, id, countdown);
    }
  }

  lemma BidMovesOn(s: System, q: BidRequest, id: int, countdown: int)
    requires BidVerdict(s.redis, q) == None && q.auctionId in s.history.lives && s.history.lives[q.auctionId].end.None?
    requires q.auctionId in AfterBid(s.redis, q, countdown).states
    requires AfterBid(s.redis, q, countdown).states[q.auctionId].auctionId == q.auctionId
    ensures NewsIsWritten(s, WithBid(s, q, countdown), id)
  {
    hide SnapshotOf, NewEvent, BidVerdict, AfterBid, BidExtra, HandlerRecord, UnderWay;
    var s' := WithBid(s, q, countdown);
    WriteIsUnderWay(s', AuctionFromState(StateFromMap(s'.redis.states[q.auctionId])));
  }

  lemma BidKeepsNumber(r: Redis, q: BidRequest, countdown: int)
    requires BidVerdict(r, q) == None
    ensures q.auctionId in AfterBid(r, q, countdown).states
    ensures AfterBid(r, q, countdown).states[q.auctionId].auctionId == r.states[q.auctionId].auctionId
  {
    hide Nearest;
  }

  lemma EndIsWritten(s: System, ended: int, exit: Exit, now: int, id: int, countdown: int)
    requires Inv(s, countdown) && ended in s.redis.states && s.redis.states[ended].status == RUNNING
    ensures NewsIsWritten(s, Ended(s, ended, exit, now), id)
  {
    HashOf(s, ended, countdown);
    LifeOf(s, ended, countdown);
    EndingHash(s.redis, s.history.lives, ended, exit, now, countdown);
    assert s.history.lives[ended].end.None?;
    hide *;
    EndMovesOn(s, ended, exit, now, id);
  }

  lemma EndMovesOn(s: System, ended: int, exit: Exit, now: int, id: int)
    requires ended in s.redis.states && ended in s.history.lives && s.history.lives[ended].end.None?
    requires var r := AfterEnd(s.redis, ended, exit, now);
             ended in r.states && r.states[ended].auctionId == ended && LuaRead(r.states[ended]) == r.states[ended]
    ensures NewsIsWritten(s, Ended(s, ended, exit, now), id)
  {
    hide AfterEnd, NewEvent, SnapshotOf, UnderWay, LuaRead;
    var s' := Ended(s, ended, exit, now);
    WriteIsUnderWay(s', AuctionFromState(StateFromMap(s'.redis.states[ended])));
  }

  lemma EndingHash(r: Redis, lives: Ledger, id: int, exit: Exit, now: int, countdown: int)
    requires RedisInv(r, lives, countdown) && id in lives && id in r.states && r.states[id].status == RUNNING
    ensures var r' := AfterEnd(r, id, exit, now);
            id in r'.states && r'.states[id].auctionId == id && LuaRead(r'.states[id]) == r'.states[id]
  {
    EndKeeps(r, lives, id, exit, now, countdown);
    hide RedisInv, AfterEnd;
    EndedHash(AfterEnd(r, id, exit, now), lives[id := Closed(lives[id], exit, now)], id, countdown);
  }

  lemma StartIsWritten(s: System, draft: Auction, now: int, id: int, countdown: int)
    requires Inv(s, countdown) && Enabled(s, Start(draft, now), countdown)
    ensures NewsIsWritten(s, WithStart(s, StartedAuction(draft, now), now), id)
  {
    DraftOf(s, draft, countdown);
    hide Inv, Nearest, NewEvent, RoomBusy;
    StartedLife(draft, now, countdown);
    var a := StartedAuction(draft, now);
    var s' := WithStart(s, a, now);
    if !RoomBusy(s.redis, LoadedHash(a, now)) {
      WriteIsUnderWay(s', a);
    }
  }

  lemma NewsIsWrittenByEachStep(s: System, step: Step, id: int, countdown: int)
    requires Inv(s, countdown) && Enabled(s, step, countdown)
    ensures NewsIsWritten(s, Apply(s, step, countdown), id)
  {
    hide Inv, Ended, WithBid, NewEvent, AfterSnapshot, AfterRecord, AfterConfig, AfterDelete, UnderWay, SnapshotOf;
    hide AuctionFromEvent, BidRecordFromEvent, AuctionFromState, PendingRow, Nearest;
    match step
    case PlaceBid(q) => BidIsWritten(s, q, id, countdown);
    case Start(draft, now) => StartIsWritten(s, draft, now, id, countdown);
    case FinishManually(ended, now) =>
      if EndVerdict(s.redis, ended, Finished) == None {
        EndIsWritten(s, ended, Finished, now, id, countdown);
      }
    case Cancel(ended, now) =>
      if EndVerdict(s.redis, ended, Withdrawn) == None {
        NeverPending(s, ended, Withdrawn, countdown);
        EndIsWritten(s, ended, Withdrawn, now, id, countdown);
      }
    case TryFinish(f) =>
      if Expires(s.redis, f.id, f.version, f.expireAt, f.now) {
        EndIsWritten(s, f.id, TimedOut, f.now, id, countdown);
      }
    case Consume(m, now, crash) =>
      var e := Delivered(m.event);
      if e.kind == ExpireCheck && Expires(s.redis, e.auctionId, e.version, Int64FromData(e.data, ExpireAt), now) {
        EndIsWritten(s, e.auctionId, TimedOut, now, id, countdown);
      }
    case _ =>
  }

  /** All states of an auction's life are on their way to the table. */
  ghost predicate AllUnderWay(s: System, id: int, countdown: int)
    requires id in s.history.lives
  {
    forall k :: 0 <= k <= Stages(s.history.lives[id]) ==>
      UnderWay(s, id, SnapshotOfHash(At(s.history.lives[id], k, countdown)))
  }

  /** What was on its way still is, and the news, if any, completes it. */
  lemma NewsCompletes(s: System, s': System, id: int, countdown: int)
    requires s.soup <= s'.soup && id in s'.history.lives && NewsIsWritten(s, s', id)
    requires id in s.history.lives ==>
               AllUnderWay(s, id, countdown) && Extends(s.history.lives[id], s'.history.lives[id])
    requires id in s'.redis.states && s'.redis.states[id] == Current(s'.history.lives[id], countdown)
    ensures AllUnderWay(s', id, countdown)
  {
    hide SnapshotOf, At, Brings;
    var l' := s'.history.lives[id];
    forall k | 0 <= k <= Stages(l')
      ensures UnderWay(s', id, SnapshotOfHash(At(l', k, countdown)))
    {
      if id in s.history.lives && k <= Stages(s.history.lives[id]) {
        StagesStay(s.history.lives[id], l', k, countdown);
        assert UnderWay(s, id, SnapshotOfHash(At(s.history.lives[id], k, countdown)));
      }
    }
  }

  lemma StepKeepsAllUnderWay(s: System, step: Step, id: int, countdown: int)
    requires Inv(s, countdown) && Enabled(s, step, countdown)
    requires id in s.history.lives ==> AllUnderWay(s, id, countdown)
    ensures id in Apply(s, step, countdown).history.lives ==> AllUnderWay(Apply(s, step, countdown), id, countdown)
  {
    hide Enabled, Apply, AllUnderWay, NewsIsWritten, Extends;
    var s' := Apply(s, step, countdown);
    StepKeeps(s, step, countdown);
    Clocks.StepIsCopied(s, s, step, countdown);
    NewsIsWrittenByEachStep(s, step, id, countdown);
    if id in s'.history.lives {
      NewsCompletes(s, s', id, countdown);
    }
  }

  lemma {:induction false} RunKeepsAllUnderWay(s: System, steps: seq<Step>, id: int, countdown: int)
    requires Inv(s, countdown) && Possible(s, steps, countdown)
    requires id in s.history.lives ==> AllUnderWay(s, id, countdown)
    ensures id in Outcome(s, steps, countdown).history.lives ==>
              AllUnderWay(Outcome(s, steps, countdown), id, countdown)
    decreases |steps|
  {
    hide Inv, Enabled, Apply, AllUnderWay;
    if steps != [] {
      StepKeeps(s, steps[0], countdown);
      StepKeepsAllUnderWay(s, steps[0], id, countdown);
      RunKeepsAllUnderWay(Apply(s, steps[0], countdown), steps[1..], id, countdown);
    }
  }

  /** No state of an auction is forgotten: each it ever was in is on its way to the table, for good. */
  lemma EveryStateIsUnderWay(s: System, id: int, countdown: int)
    requires Reachable(s, countdown) && id in s.history.lives
    ensures AllUnderWay(s, id, countdown)
  {
    var steps :| Possible(INITIAL, steps, countdown) && Outcome(INITIAL, steps, countdown) == s;
    Clocks.Beginning(countdown);
    hide Inv, AllUnderWay, Possible, Outcome;
    RunKeepsAllUnderWay(INITIAL, steps, id, countdown);
  }
}
