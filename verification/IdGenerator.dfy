/** The snowflake generator of pkg/idgen: 41 bits of milliseconds, 10 of worker, 12 of sequence. */
module IdGenerator {
  import opened Doubles

  const EPOCH_MILLIS := 1704067200000
  const MAX_SEQUENCE := 4095
  const MAX_WORKER_ID := 1023
  const WORKER_UNIT := 4096
  const MILLI_UNIT := 4194304

  /** What a generator remembers. */
  datatype Memory = Memory(workerId: int, lastMilli: int, sequence: int) {
    ghost predicate Valid() {
      0 <= workerId <= MAX_WORKER_ID && 0 <= sequence <= MAX_SEQUENCE
    }

    /** The identifier packed from the three fields. */
    function Packed(): int {
      (lastMilli - EPOCH_MILLIS) * MILLI_UNIT + workerId * WORKER_UNIT + sequence
    }
  }

  /** A worker number that does not fit its field is replaced by 0. */
  function Normalized(workerId: int): int {
    if workerId < 0 || workerId > MAX_WORKER_ID then 0 else workerId
  }

  function Fresh(workerId: int): (m: Memory)
    ensures m.Valid()
  {
    Memory(Normalized(workerId), 0, 0)
  }

  /** The first of the readings that lies after last. */
  function FirstAfter(readings: seq<int>, last: int): (now: int)
    requires exists k :: 0 <= k < |readings| && readings[k] > last
    ensures now > last && now in readings
  {
    if readings[0] > last then readings[0] else
      assert exists k :: 0 <= k < |readings[1..]| && readings[1..][k] > last by {
        var k :| 0 <= k < |readings| && readings[k] > last;
        assert readings[1..][k - 1] == readings[k];
      }
      FirstAfter(readings[1..], last)
  }

  /** The sequence is used up, so the call has to wait for the clock to move on. */
  predicate Exhausted(m: Memory, reading: int) {
    reading <= m.lastMilli && m.sequence == MAX_SEQUENCE
  }

  /** The clock readings of one call: at least one, and a later millisecond if the call waits for one. */
  ghost predicate Serves(m: Memory, readings: seq<int>) {
    && |readings| > 0
    && (Exhausted(m, readings[0]) ==>
          exists k :: 0 <= k < |readings[1..]| && readings[1..][k] > m.lastMilli)
  }

  /** What a call leaves behind; its answer is the packed form of that. */
  ghost function After(m: Memory, readings: seq<int>): Memory
    requires Serves(m, readings)
  {
    if Exhausted(m, readings[0]) then
      Memory(m.workerId, FirstAfter(readings[1..], m.lastMilli), 0)
    else if readings[0] <= m.lastMilli then
      m.(sequence := m.sequence + 1)
    else
      Memory(m.workerId, readings[0], 0)
  }

  class Generator {
    var workerID: int
    var lastMilli: int
    var sequence: int

    ghost function Model(): Memory
      reads this
    {
      Memory(workerID, lastMilli, sequence)
    }

    constructor (workerID: int)
      ensures Model() == Fresh(workerID)
      ensures this.workerID == (if 0 <= workerID <= 1023 then workerID else 0) && lastMilli == 0 && sequence == 0
    {
      this.workerID := if workerID < 0 || workerID > MAX_WORKER_ID then 0 else workerID;
      lastMilli := 0;
      sequence := 0;
    }

    /** `readings` are the values the system clock shows during the call. */
    method Next(readings: seq<int>) returns (id: int)
      requires Model().Valid() && Serves(Model(), readings)
      modifies this
      ensures Model().Valid()
      ensures Model() == After(old(Model()), readings)
      ensures id == Model().Packed()
      ensures id > old(Model()).Packed()
      // in the fields: a later millisecond starts again at 0, a clock that has not moved on counts up or is waited for
      ensures workerID == old(workerID)
      ensures readings[0] > old(lastMilli) ==> lastMilli == readings[0] && sequence == 0
      ensures readings[0] <= old(lastMilli) && old(sequence) < 4095 ==>
                lastMilli == old(lastMilli) && sequence == old(sequence) + 1
      ensures readings[0] <= old(lastMilli) && old(sequence) == 4095 ==>
                && sequence == 0
                && exists k :: 0 < k < |readings| && readings[k] == lastMilli > old(lastMilli) &&
                               forall j :: 0 < j < k ==> readings[j] <= old(lastMilli)
      ensures id == (lastMilli - 1704067200000) * 4194304 + workerID * 4096 + sequence
    {
      ghost var before := Model();
      var now := readings[0];
      if now < lastMilli {
        now := lastMilli;
      }
      if now == lastMilli {
        sequence := (sequence + 1) % (MAX_SEQUENCE + 1);
        if sequence == 0 {
          now := WaitNextMillis(readings[1..], lastMilli);
          ghost var k :| 0 <= k < |readings[1..]| && readings[1..][k] == now &&
                         forall j :: 0 <= j < k ==> readings[1..][j] <= lastMilli;
          assert readings[k + 1] == now && forall j :: 0 < j < k + 1 ==> readings[j] == readings[1..][j - 1];
        }
      } else {
        sequence := 0;
      }
      lastMilli := now;
      LaterIsLarger(before, Model());
      id := (now - EPOCH_MILLIS) * MILLI_UNIT + workerID * WORKER_UNIT + sequence;
    }

    /** Polls the clock until it shows a later millisecond. */
    static method WaitNextMillis(readings: seq<int>, last: int) returns (now: int)
      requires exists k :: 0 <= k < |readings| && readings[k] > last
      ensures now == FirstAfter(readings, last)
      ensures exists k :: 0 <= k < |readings| && readings[k] == now > last &&
                          forall j :: 0 <= j < k ==> readings[j] <= last
    {
      ghost var later :| 0 <= later < |readings| && readings[later] > last;
      var polls := 0;
      now := readings[polls];
      while now <= last
        invariant 0 <= polls <= later && now == readings[polls]
        invariant forall j :: 0 <= j < polls ==> readings[j] <= last
        decreases later - polls
      {
        polls := polls + 1;
        now := readings[polls];
      }
      FirstIsFirst(readings, last, polls);
    }
  }

  lemma {:induction false} FirstIsFirst(readings: seq<int>, last: int, k: nat)
    requires k < |readings| && readings[k] > last && forall j :: 0 <= j < k ==> readings[j] <= last
    ensures FirstAfter(readings, last) == readings[k]
  {
    if k > 0 {
      FirstIsFirst(readings[1..], last, k - 1);
    }
  }

  lemma LaterIsLarger(m: Memory, n: Memory)
    requires 0 <= m.sequence <= MAX_SEQUENCE && 0 <= n.sequence <= MAX_SEQUENCE
    requires m.workerId == n.workerId
    requires m.lastMilli < n.lastMilli || (m.lastMilli == n.lastMilli && m.sequence < n.sequence)
    ensures m.Packed() < n.Packed()
  {
  }

  /** Shifting the fields into place and or-ing them adds them up. */
  lemma OrAddsUp(elapsed: bv64, worker: bv64, sequence: bv64)
    requires worker <= 1023 && sequence <= 4095
    ensures (elapsed << 22) | (worker << 12) | sequence == elapsed * 4194304 + worker * 4096 + sequence
  {
  }

  /** Every call of a run finds the readings it needs. */
  ghost predicate ServesAll(m: Memory, calls: seq<seq<int>>)
    decreases |calls|
  {
    calls == [] || (Serves(m, calls[0]) && ServesAll(After(m, calls[0]), calls[1..]))
  }

  /** The identifiers a run of calls gives out. */
  ghost function Ids(m: Memory, calls: seq<seq<int>>): (ids: seq<int>)
    requires ServesAll(m, calls)
    ensures |ids| == |calls|
    decreases |calls|
  {
    if calls == [] then [] else
      var n := After(m, calls[0]);
      [n.Packed()] + Ids(n, calls[1..])
  }

  /** Whatever the clock does, standing still or running backwards, identifiers strictly increase. */
  lemma {:induction false} IdsIncrease(m: Memory, calls: seq<seq<int>>)
    requires m.Valid() && ServesAll(m, calls)
    ensures forall i :: 0 <= i < |calls| ==> m.Packed() < Ids(m, calls)[i]
    ensures forall i, j :: 0 <= i < j < |calls| ==> Ids(m, calls)[i] < Ids(m, calls)[j]
    decreases |calls|
  {
    if calls != [] {
      var n := After(m, calls[0]);
      LaterIsLarger(m, n);
      IdsIncrease(n, calls[1..]);
    }
  }

  function MilliOf(id: int): int { id / MILLI_UNIT + EPOCH_MILLIS }
  function WorkerOf(id: int): int { id / WORKER_UNIT % (MAX_WORKER_ID + 1) }
  function SequenceOf(id: int): int { id % (MAX_SEQUENCE + 1) }

  /** The three fields can be read back from an identifier, which fits 63 bits for 2^41 milliseconds. */
  lemma FieldsDecode(m: Memory)
    requires m.Valid()
    ensures MilliOf(m.Packed()) == m.lastMilli
    ensures WorkerOf(m.Packed()) == m.workerId
    ensures SequenceOf(m.Packed()) == m.sequence
    ensures 0 <= m.lastMilli - EPOCH_MILLIS < 0x200_0000_0000 ==> 0 <= m.Packed() < 0x8000_0000_0000_0000
  {
    var id := m.Packed();
    var high := (m.lastMilli - EPOCH_MILLIS) * 1024 + m.workerId;
    assert id == high * WORKER_UNIT + m.sequence;
    assert id / WORKER_UNIT == high;
    assert high % 1024 == m.workerId;
  }

  lemma {:induction false} IdsCarryTheWorker(m: Memory, calls: seq<seq<int>>, i: nat)
    requires m.Valid() && ServesAll(m, calls) && i < |calls|
    ensures WorkerOf(Ids(m, calls)[i]) == m.workerId
    decreases i
  {
    var n := After(m, calls[0]);
    if i == 0 {
      FieldsDecode(n);
    } else {
      IdsCarryTheWorker(n, calls[1..], i - 1);
    }
  }

  /** Some runs of two fresh generators give out a common identifier. */
  ghost predicate CanCollide(workerA: int, workerB: int) {
    exists a: seq<seq<int>>, b: seq<seq<int>>, i: nat, j: nat ::
      ServesAll(Fresh(workerA), a) && ServesAll(Fresh(workerB), b) &&
      i < |a| && j < |b| && Ids(Fresh(workerA), a)[i] == Ids(Fresh(workerB), b)[j]
  }

  /**
   Generators never share an identifier exactly when their worker fields differ. Distinct
   worker numbers outside 0..1023 do not help: they all become 0.
   */
  lemma CollideOnlyOnSharedWorker(workerA: int, workerB: int)
    ensures CanCollide(workerA, workerB) <==> Normalized(workerA) == Normalized(workerB)
  {
    if CanCollide(workerA, workerB) {
      var a, b, i: nat, j: nat :|
        ServesAll(Fresh(workerA), a) && ServesAll(Fresh(workerB), b) &&
        i < |a| && j < |b| && Ids(Fresh(workerA), a)[i] == Ids(Fresh(workerB), b)[j];
      IdsCarryTheWorker(Fresh(workerA), a, i);
      IdsCarryTheWorker(Fresh(workerB), b, j);
    }
    if Normalized(workerA) == Normalized(workerB) {
      var calls := [[EPOCH_MILLIS]];
      assert calls[0][0] == EPOCH_MILLIS;
      assert Serves(Fresh(workerA), calls[0]);
      assert ServesAll(After(Fresh(workerA), calls[0]), calls[1..]);
      assert ServesAll(Fresh(workerA), calls) && ServesAll(Fresh(workerB), calls);
      assert Ids(Fresh(workerA), calls)[0] == Ids(Fresh(workerB), calls)[0];
    }
  }

  /** The memory was left within the 2^41 milliseconds that 63 bits have room for. */
  predicate InTime(m: Memory) {
    0 <= m.lastMilli - EPOCH_MILLIS < 0x200_0000_0000
  }

  /** The identifier as a multiple of the sequence range, and what is left. */
  lemma PackedForm(m: Memory) returns (q: nat)
    requires m.Valid() && InTime(m)
    ensures m.Packed() == q * 4096 + m.sequence && 0 <= m.Packed() < EXACT * 1024
    ensures q * 4096 == m.(sequence := 0).Packed()
  {
    FieldsDecode(m);
    q := (m.lastMilli - EPOCH_MILLIS) * 1024 + m.workerId;
  }

  /** Adding whole blocks of an even number of spacings changes neither remainder nor parity. */
  lemma BlocksDoNotCount(q: nat, sequence: nat, spacing: nat, blocks: nat)
    requires spacing > 0 && blocks % 2 == 0
    ensures var x := q * blocks * spacing + sequence;
            x % spacing == sequence % spacing && x / spacing % 2 == sequence / spacing % 2
  {
    var n, rest, part := q * blocks, sequence % spacing, sequence / spacing;
    EvenTimes(q, blocks);
    assert sequence == part * spacing + rest;
    assert n * spacing + sequence == (n + part) * spacing + rest;
    Quotient(n * spacing + sequence, spacing, n + part, rest);
  }

  /** For a spacing of up to 1024 only the sequence decides about quotient parity and remainder. */
  lemma SequenceDecides(q: nat, sequence: nat, spacing: nat)
    requires spacing in {1, 2, 4, 8, 16, 32, 64, 128, 256, 512, 1024}
    ensures (q * 4096 + sequence) % spacing == sequence % spacing
    ensures (q * 4096 + sequence) / spacing % 2 == sequence / spacing % 2
  {
    var blocks := InBlocks(q, spacing);
    BlocksDoNotCount(q, sequence, spacing, blocks);
  }

  lemma InBlocks(q: nat, spacing: nat) returns (blocks: nat)
    requires spacing in {1, 2, 4, 8, 16, 32, 64, 128, 256, 512, 1024}
    ensures blocks % 2 == 0 && q * blocks * spacing == q * 4096
  {
    blocks := 4096 / spacing;
    assert blocks % 2 == 0 && blocks * spacing == 4096;
    assert q * blocks * spacing == q * (blocks * spacing);
  }

  lemma EvenTimes(q: nat, n: nat)
    requires n % 2 == 0
    ensures q * n % 2 == 0
  {
    assert q * n == q * (n / 2) * 2;
  }

  /**
   For all 2^41 milliseconds an identifier survives a double exactly when its sequence number is a
   multiple of the spacing of the doubles around it, which is 64 while the elapsed milliseconds lie
   between 2^36 and 2^37.
   */
  lemma SurvivesDouble(m: Memory)
    requires m.Valid() && InTime(m)
    ensures Representable(m.Packed()) <==> m.sequence % Spacing(m.Packed()) == 0
    ensures 0x10_0000_0000 <= m.lastMilli - EPOCH_MILLIS < 0x20_0000_0000 ==> Spacing(m.Packed()) == 64
  {
    hide Representable, Spacing;
    var q := PackedForm(m);
    SpacingIsPower(m.Packed(), 1024);
    RepresentableIff(m.Packed());
    SequenceDecides(q, m.sequence, Spacing(m.Packed()));
    if 0x10_0000_0000 <= m.lastMilli - EPOCH_MILLIS < 0x20_0000_0000 {
      GridOf64(m.Packed());
    }
  }

  /** A sequence number rounded to a multiple of the spacing, ties going to the even one. */
  function Rounded(sequence: nat, spacing: nat): nat
    requires spacing > 0
  {
    var rest := sequence % spacing;
    if 2 * rest < spacing || (2 * rest == spacing && sequence / spacing % 2 == 0)
    then sequence - rest else sequence - rest + spacing
  }

  /** As a double an identifier keeps its first two fields, and its sequence is rounded. */
  lemma RoundsSequence(m: Memory)
    requires m.Valid() && InTime(m)
    ensures Double(m.Packed()) == m.(sequence := 0).Packed() + Rounded(m.sequence, Spacing(m.Packed()))
  {
    hide Spacing, Mantissa, Floor;
    var q := PackedForm(m);
    SpacingIsPower(m.Packed(), 1024);
    GridForm(m.Packed());
    SequenceDecides(q, m.sequence, Spacing(m.Packed()));
  }

  /** Throughout a millisecond the doubles keep their spacing. */
  lemma SpacingOfMilli(m: Memory)
    requires m.Valid() && InTime(m)
    ensures m.(sequence := 0).Packed() >= 0 && Spacing(m.Packed()) == Spacing(m.(sequence := 0).Packed())
  {
    hide Spacing;
    var q := PackedForm(m);
    SpacingOfBlock(q * 4096, m.sequence, 4096);
  }

  /** Identifiers of different milliseconds stay apart under rounding, for all 63 bits. */
  lemma MillisStayApart(m: Memory, n: Memory)
    requires m.Valid() && n.Valid() && m.workerId == n.workerId
    requires EPOCH_MILLIS <= m.lastMilli < n.lastMilli < EPOCH_MILLIS + 0x200_0000_0000
    ensures Double(m.Packed()) < Double(n.Packed())
  {
    FieldsDecode(m);
    FieldsDecode(n);
    SpacingBelow63Bits(m.Packed());
    SpacingBelow63Bits(n.Packed());
    NearestIsClose(m.Packed());
    NearestIsClose(n.Packed());
  }

  /** Each identifier of a run is packed from fields with the run's worker number. */
  lemma {:induction false} IdIsPacked(m: Memory, calls: seq<seq<int>>, i: nat) returns (n: Memory)
    requires m.Valid() && ServesAll(m, calls) && i < |calls|
    ensures n.Valid() && n.workerId == m.workerId && n.Packed() == Ids(m, calls)[i]
    decreases i
  {
    n := After(m, calls[0]);
    if i > 0 {
      n := IdIsPacked(n, calls[1..], i - 1);
    }
  }

  /** In any run of a generator, rounding to doubles makes two identifiers meet only within one millisecond. */
  lemma RoundingMeetsOnlyWithinAMilli(m: Memory, calls: seq<seq<int>>, i: nat, j: nat)
    requires m.Valid() && ServesAll(m, calls) && i < j < |calls|
    requires EPOCH_MILLIS <= MilliOf(Ids(m, calls)[i]) && MilliOf(Ids(m, calls)[j]) < EPOCH_MILLIS + 0x200_0000_0000
    ensures MilliOf(Ids(m, calls)[i]) <= MilliOf(Ids(m, calls)[j])
    ensures Double(Ids(m, calls)[i]) == Double(Ids(m, calls)[j]) ==>
              MilliOf(Ids(m, calls)[i]) == MilliOf(Ids(m, calls)[j])
  {
    hide Double;
    IdsIncrease(m, calls);
    var a := IdIsPacked(m, calls, i);
    var b := IdIsPacked(m, calls, j);
    FieldsDecode(a);
    FieldsDecode(b);
    if a.lastMilli < b.lastMilli {
      MillisStayApart(a, b);
    }
  }

  /**
   Two identifiers of one worker become one double exactly when they were drawn in the same
   millisecond and their sequence numbers round to the same multiple of the spacing.
   */
  lemma MeetAsDoublesIff(m: Memory, n: Memory)
    requires m.Valid() && n.Valid() && m.workerId == n.workerId && InTime(m) && InTime(n)
    ensures Double(m.Packed()) == Double(n.Packed()) <==>
              && m.lastMilli == n.lastMilli
              && Rounded(m.sequence, Spacing(m.Packed())) == Rounded(n.sequence, Spacing(m.Packed()))
  {
    hide Double, Rounded, Spacing;
    if m.lastMilli < n.lastMilli {
      MillisStayApart(m, n);
    } else if n.lastMilli < m.lastMilli {
      MillisStayApart(n, m);
    } else {
      RoundsSequence(m);
      RoundsSequence(n);
      SpacingOfMilli(m);
      SpacingOfMilli(n);
    }
  }

  /** Between 2^36 and 2^37 elapsed milliseconds that befalls the first two identifiers of every millisecond. */
  lemma SameMilliCanMeet(workerId: int, milli: int)
    requires 0 <= workerId <= MAX_WORKER_ID
    requires 0x10_0000_0000 <= milli - EPOCH_MILLIS < 0x20_0000_0000
    ensures Double(Memory(workerId, milli, 0).Packed()) == Double(Memory(workerId, milli, 1).Packed())
  {
    hide Double, Spacing;
    MeetAsDoublesIff(Memory(workerId, milli, 0), Memory(workerId, milli, 1));
    SurvivesDouble(Memory(workerId, milli, 0));
  }
}
