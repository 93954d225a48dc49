/**
  What the black-box ring holds and delivers over whole runs of logging, reading and rewinding.

  `Run` is the ring driven by a list of operations, with its full history beside it; a flag
  says whether reads use the code's availability test or the corrected one.
  */
module BlackboxRuns {
  import opened Bytes
  import opened Blackbox

  datatype Op = LogOp(data: LogData) | ReadOp | RewindOp

  datatype History = History(
    ring: Ring, logged: seq<LogData>, delivered: seq<Record>, overwritten: nat)

  function Appended(out: seq<Record>, next: Option<Record>): seq<Record> {
    match next
    case None => out
    case Some(rec) => out + [rec]
  }

  function ReadBy(r: Ring, corrected: bool): (result: (Ring, Option<Record>))
    requires r.Valid()
    ensures result.0.Valid()
  {
    if corrected then ReadCorrected(r) else Read(r)
  }

  function Apply(h: History, op: Op, corrected: bool): (h': History)
    requires h.ring.Valid()
    ensures h'.ring.Valid()
  {
    match op
    case LogOp(d) =>
      History(Log(h.ring, d), h.logged + [d], h.delivered,
              if h.ring.count == CAPACITY then h.overwritten + 1 else h.overwritten)
    case ReadOp =>
      var (r, out) := ReadBy(h.ring, corrected);
      h.(ring := r, delivered := Appended(h.delivered, out))
    case RewindOp =>
      h.(ring := Rewind(h.ring))
  }

  function Run(ops: seq<Op>, corrected: bool): (h: History)
    ensures h.ring.Valid()
  {
    if ops == [] then History(Empty(), [], [], 0)
    else Apply(Run(ops[..|ops| - 1], corrected), ops[|ops| - 1], corrected)
  }

  // ----- The full history -----

  function Slot(n: nat): (k: nat)
    ensures k < CAPACITY
  {
    n % CAPACITY
  }

  function Stamped(logged: seq<LogData>, n: nat): Record
    requires n < |logged|
  {
    Record(logged[n], n % 65536)
  }

  /**
    The write cursor and the sequence number count all records ever logged; every slot holds
    the newest record whose number is congruent to it, or is blank if there is none.
    */
  ghost predicate HoldsHistory(h: History) {
    && h.ring.Valid()
    && h.ring.writeIdx == Slot(|h.logged|)
    && h.ring.sequence == |h.logged| % 65536
    && (forall n :: 0 <= n < |h.logged| && |h.logged| <= n + CAPACITY
          ==> h.ring.entries[Slot(n)] == Stamped(h.logged, n))
    && (forall k :: |h.logged| <= k < CAPACITY ==> h.ring.entries[k] == BlankRecord())
  }

  lemma SlotsDiffer(m: nat, n: nat)
    requires m < n < m + CAPACITY
    ensures Slot(m) != Slot(n)
  {
  }

  lemma NextSlot(n: nat)
    ensures Next(Slot(n)) == Slot(n + 1)
  {
    assert (n + 1) / 512 == if n % 512 == 511 then n / 512 + 1 else n / 512;
  }

  lemma NextSequence(n: nat)
    ensures (n % SEQUENCE_WRAP + 1) % SEQUENCE_WRAP == (n + 1) % SEQUENCE_WRAP
  {
    assert (n + 1) / 65536 == if n % 65536 == 65535 then n / 65536 + 1 else n / 65536;
  }

  lemma LogKeepsHistory(h: History, d: LogData)
    requires HoldsHistory(h)
    ensures HoldsHistory(h.(ring := Log(h.ring, d), logged := h.logged + [d]))
  {
    hide Slot, Next, BlankRecord;
    var total := |h.logged|;
    var h' := h.(ring := Log(h.ring, d), logged := h.logged + [d]);
    NextSlot(total);
    NextSequence(total);
    forall n | 0 <= n <= total && total + 1 <= n + CAPACITY
      ensures h'.ring.entries[Slot(n)] == Stamped(h'.logged, n)
    {
      if n < total {
        SlotsDiffer(n, total);
        assert h.ring.entries[Slot(n)] == Stamped(h.logged, n);
      }
    }
    forall k | total + 1 <= k < CAPACITY
      ensures h'.ring.entries[k] == BlankRecord()
    {
      SlotOfSmall(total);
    }
  }

  lemma SlotOfSmall(n: nat)
    requires n < CAPACITY
    ensures Slot(n) == n
  {
  }

  lemma StepKeepsHistory(h: History, op: Op, corrected: bool)
    requires HoldsHistory(h)
    ensures HoldsHistory(Apply(h, op, corrected))
  {
    hide Stamped, BlankRecord, Slot;
    if op.LogOp? {
      LogKeepsHistory(h, op.data);
    }
  }

  /** A ring nothing was logged to is all zeros. */
  lemma EmptyInNumbers(k: nat)
    requires k < 512
    ensures |Empty().entries| == 512
    ensures Empty().entries[k] == Record(LogData(0, 0, 0, 0, 0, 0.0, 0.0, 0.0, ""), 0)
    ensures Empty() == Ring(Empty().entries, 0, 0, 0, 0, false)
  {
  }

  lemma EmptyHoldsHistory()
    ensures HoldsHistory(History(Empty(), [], [], 0))
  {
  }

  /** Whatever reads, rewinds and wraps occurred. */
  lemma {:induction false} RunHoldsHistory(ops: seq<Op>, corrected: bool)
    ensures HoldsHistory(Run(ops, corrected))
  {
    hide HoldsHistory, Apply, Empty;
    if ops == [] {
      EmptyHoldsHistory();
    } else {
      RunHoldsHistory(ops[..|ops| - 1], corrected);
      StepKeepsHistory(Run(ops[..|ops| - 1], corrected), ops[|ops| - 1], corrected);
    }
  }

  /** The records still in the ring: the last 512, or all of them, oldest first. */
  function Retained(logged: seq<LogData>): (s: seq<Record>)
    ensures |s| == if |logged| < CAPACITY then |logged| else CAPACITY
  {
    var first := if |logged| < CAPACITY then 0 else |logged| - CAPACITY;
    seq(|logged| - first, i requires 0 <= i < |logged| - first => Stamped(logged, first + i))
  }

  /** Where the oldest retained record is. */
  function Oldest(total: nat): nat {
    if total < CAPACITY then 0 else Slot(total)
  }

  /** The slot `i` places after slot `a`. */
  function Place(a: nat, i: nat): (k: nat)
    ensures k < CAPACITY
  {
    (a + i) % CAPACITY
  }

  lemma PlaceZero(a: nat)
    requires a < CAPACITY
    ensures Place(a, 0) == a
  {
  }

  lemma SlotAfter(n: nat, i: nat)
    ensures Place(Slot(n), i) == Slot(n + i)
  {
  }

  lemma SlotAfterLap(n: nat)
    ensures Slot(n + CAPACITY) == Slot(n)
  {
  }

  /** Reading forward from the oldest slot meets exactly the retained records, in order. */
  lemma RetainedInRing(ops: seq<Op>, corrected: bool, i: nat)
    requires i < |Retained(Run(ops, corrected).logged)|
    ensures var h := Run(ops, corrected);
      h.ring.entries[Place(Oldest(|h.logged|), i)] == Retained(h.logged)[i]
  {
    hide Slot, Run, Stamped;
    RunHoldsHistory(ops, corrected);
    var h := Run(ops, corrected);
    var total := |h.logged|;
    var first := if total < CAPACITY then 0 else total - CAPACITY;
    SlotAfter(first, i);
    if total < CAPACITY {
      SlotOfSmall(0);
    } else {
      SlotAfterLap(first);
    }
    assert h.ring.entries[Slot(first + i)] == Stamped(h.logged, first + i);
  }

  /**
    Rewind finds the oldest retained slot exactly when fewer than 512 records were logged, or
    the 16-bit sequence number reads at least 512, or the write cursor is at slot 0.
    */
  lemma RewindFindsOldest(ops: seq<Op>, corrected: bool)
    ensures var h := Run(ops, corrected);
      Rewind(h.ring).readIdx == Oldest(|h.logged|) <==>
        (|h.logged| < CAPACITY || h.ring.sequence >= CAPACITY || h.ring.writeIdx == 0)
  {
    hide Run, Stamped, BlankRecord, Slot;
    RunHoldsHistory(ops, corrected);
    var total := |Run(ops, corrected).logged|;
    if total < CAPACITY {
      SmallSequence(total);
    }
  }

  lemma SmallSequence(total: nat)
    requires total < SEQUENCE_WRAP
    ensures total % SEQUENCE_WRAP == total
  {
  }

  /** In particular it does before the sequence number first wraps. */
  lemma RewindBeforeWrap(ops: seq<Op>, corrected: bool)
    requires |Run(ops, corrected).logged| < SEQUENCE_WRAP
    ensures var h := Run(ops, corrected); Rewind(h.ring).readIdx == Oldest(|h.logged|)
  {
    hide Run, Rewind, Oldest;
    RunHoldsHistory(ops, corrected);
    RewindFindsOldest(ops, corrected);
    SmallSequence(|Run(ops, corrected).logged|);
  }

  function Logs(n: nat): seq<Op> {
    seq(n, _ => LogOp(BlankRecord().data))
  }

  lemma {:induction false} RunOfLogs(n: nat)
    ensures |Run(Logs(n), false).logged| == n
  {
    if n > 0 {
      assert Logs(n)[..n - 1] == Logs(n - 1);
      RunOfLogs(n - 1);
    }
  }

  /** After 65537 records the cursor goes to slot 0, which holds the newest record. */
  lemma RewindAfterWrap()
    ensures var h := Run(Logs(65537), false);
      && |h.logged| == 65537
      && Rewind(h.ring).readIdx == 0 && Oldest(|h.logged|) == 1
      && h.ring.entries[0] == Stamped(h.logged, 65536)
  {
    hide Run, Stamped;
    RunOfLogs(65537);
    RunHoldsHistory(Logs(65537), false);
    var h := Run(Logs(65537), false);
    assert Slot(65536) == 0;
    assert h.ring.entries[Slot(65536)] == Stamped(h.logged, 65536);
  }

  // ----- Reads and rewinds in any order -----

  /** Until the ring has filled once, the read cursor and the count stay within what was written. */
  ghost predicate Unfilled(h: History) {
    |h.logged| < CAPACITY ==>
      && h.ring.writeIdx == |h.logged|
      && h.ring.readIdx + h.ring.count <= h.ring.writeIdx
      && h.ring.sequence == |h.logged|
      && !h.ring.overflow
  }

  lemma StepKeepsUnfilled(h: History, op: Op, corrected: bool)
    requires h.ring.Valid() && Unfilled(h)
    ensures Unfilled(Apply(h, op, corrected))
  {
    hide BlankRecord, Clipped;
  }

  lemma {:induction false} RunUnfilled(ops: seq<Op>, corrected: bool)
    ensures Unfilled(Run(ops, corrected))
  {
    hide Apply, Unfilled;
    if ops == [] {
      EmptyUnfilled();
    } else {
      RunUnfilled(ops[..|ops| - 1], corrected);
      StepKeepsUnfilled(Run(ops[..|ops| - 1], corrected), ops[|ops| - 1], corrected);
    }
  }

  lemma EmptyUnfilled()
    ensures Unfilled(History(Empty(), [], [], 0))
  {
  }

  /** The record is one of the last 512 logged, with its sequence number. */
  ghost predicate Recent(logged: seq<LogData>, rec: Record) {
    exists n :: 0 <= n < |logged| && |logged| <= n + CAPACITY && rec == Stamped(logged, n)
  }

  lemma SlotHolds(total: nat, k: nat) returns (n: nat)
    requires k < CAPACITY <= total
    ensures n < total <= n + CAPACITY && Slot(n) == k
  {
    n := total - 1 - ((total - 1 - k) % CAPACITY);
  }

  /**
    In every run, with rewinds wherever they fall and whatever has wrapped, a read that delivers
    something delivers one of the last 512 records logged, never a blank slot or a stale one.
    */
  lemma ReadsAreRecent(ops: seq<Op>, corrected: bool)
    ensures var h := Run(ops, corrected); var out := ReadBy(h.ring, corrected).1;
      out.Some? ==> Recent(h.logged, out.value)
  {
    hide Run, Slot, Stamped, BlankRecord;
    RunHoldsHistory(ops, corrected);
    RunUnfilled(ops, corrected);
    var h := Run(ops, corrected);
    var out := ReadBy(h.ring, corrected).1;
    if out.Some? {
      var total, k := |h.logged|, h.ring.readIdx;
      if total < CAPACITY {
        SlotOfSmall(k);
        assert h.ring.entries[Slot(k)] == Stamped(h.logged, k);
      } else {
        var n := SlotHolds(total, k);
        assert h.ring.entries[Slot(n)] == Stamped(h.logged, n);
      }
    }
  }

  // ----- The bounded queue -----

  /** The unread records, oldest first. */
  function Unread(r: Ring): (q: seq<Record>)
    requires r.Valid()
    ensures |q| == r.count
  {
    seq(r.count, i requires 0 <= i < r.count => r.entries[Place(r.readIdx, i)])
  }

  /** The read cursor is `count` slots behind the write cursor; only a full ring has lost records. */
  ghost predicate Aligned(r: Ring) {
    && r.Valid()
    && r.writeIdx == Place(r.readIdx, r.count)
    && (r.overflow ==> r.count == CAPACITY)
  }

  /**
    The specification: a queue of at most 512 records that drops its oldest to admit a new one.
    `lost` says that a record was dropped since the last successful read.
    */
  datatype Queue = Queue(records: seq<Record>, lost: bool, delivered: seq<Record>, total: nat)

  predicate Blocked(q: Queue, corrected: bool) {
    |q.records| == 0 || (!corrected && |q.records| == CAPACITY && !q.lost)
  }

  function QueueStep(q: Queue, op: Op, corrected: bool): Queue {
    match op
    case LogOp(d) =>
      var full := |q.records| >= CAPACITY;
      var rec := Record(d, q.total % SEQUENCE_WRAP);
      Queue((if full then q.records[1..] else q.records) + [rec], q.lost || full, q.delivered, q.total + 1)
    case ReadOp =>
      if Blocked(q, corrected) then q
      else Queue(q.records[1..], false, q.delivered + [q.records[0]], q.total)
    case RewindOp => q
  }

  function QueueRun(ops: seq<Op>, corrected: bool): Queue {
    if ops == [] then Queue([], false, [], 0)
    else QueueStep(QueueRun(ops[..|ops| - 1], corrected), ops[|ops| - 1], corrected)
  }

  lemma Steps(a: nat, i: nat)
    requires a < CAPACITY
    ensures Place(Next(a), i) == Place(a, i + 1)
    ensures Next(Place(a, i)) == Place(a, i + 1)
  {
    NextSlot(a + i);
    assert Slot(a + i) == (a + i) % CAPACITY;
    if a == CAPACITY - 1 {
      SlotAfterLap(i);
      assert a + i + 1 == i + CAPACITY;
    }
  }

  lemma Distinct(a: nat, i: nat, j: nat)
    requires a < CAPACITY && i < j < i + CAPACITY
    ensures Place(a, i) != Place(a, j)
  {
    SlotsDiffer(a + i, a + j);
  }

  lemma LogAppends(r: Ring, d: LogData)
    requires Aligned(r)
    ensures Aligned(Log(r, d))
    ensures Unread(Log(r, d))
         == (if r.count == CAPACITY then Unread(r)[1..] else Unread(r)) + [Record(d, r.sequence)]
  {
    hide Next, Place;
    var r' := Log(r, d);
    var q, q' := Unread(r), Unread(r');
    var n := r.count;
    Steps(r.readIdx, n);
    if n == CAPACITY {
      SlotAfterLap(r.readIdx);
      forall i | 0 <= i < n - 1
        ensures q'[i] == q[i + 1]
      {
        Steps(r.readIdx, i);
        Distinct(r.readIdx, i + 1, n);
      }
      Steps(r.readIdx, n - 1);
    } else {
      forall i | 0 <= i < n
        ensures q'[i] == q[i]
      {
        Distinct(r.readIdx, i, n);
      }
    }
  }

  lemma TakeKeepsAligned(r: Ring)
    requires Aligned(r) && r.count > 0
    ensures Aligned(Taken(r))
  {
    hide Next, Place;
    Steps(r.readIdx, r.count - 1);
  }

  lemma TakeRemovesOldest(r: Ring)
    requires Aligned(r) && r.count > 0
    ensures Unread(r)[0] == r.entries[r.readIdx]
    ensures Unread(Taken(r)) == Unread(r)[1..]
  {
    hide Next, Place;
    var q, q' := Unread(r), Unread(Taken(r));
    PlaceZero(r.readIdx);
    forall i | 0 <= i < r.count - 1
      ensures q'[i] == q[i + 1]
    {
      Steps(r.readIdx, i);
    }
  }

  /** The code's test refuses an aligned ring exactly when it is empty, or full with nothing lost. */
  lemma AvailableIff(r: Ring)
    requires Aligned(r)
    ensures Available(r) <==> r.count > 0 && (r.count < CAPACITY || r.overflow)
  {
    if 0 < r.count < CAPACITY {
      Distinct(r.readIdx, 0, r.count);
    }
  }

  lemma {:induction false} FillOnly(n: nat)
    requires n <= CAPACITY
    ensures var r := Run(Logs(n), false).ring;
      r.count == n && r.readIdx == 0 && r.writeIdx == n % CAPACITY && !r.overflow
  {
    hide BlankRecord, Apply, Empty;
    if n == 0 {
      EmptyIsFresh();
    } else {
      assert Logs(n)[..n - 1] == Logs(n - 1);
      FillOnly(n - 1);
      FillStep(Run(Logs(n - 1), false), n - 1);
    }
  }

  lemma EmptyIsFresh()
    ensures var r := Empty(); r.count == 0 && r.readIdx == 0 && r.writeIdx == 0 && !r.overflow
  {
  }

  lemma FillStep(h: History, n: nat)
    requires n < CAPACITY && h.ring.Valid()
    requires h.ring.count == n && h.ring.readIdx == 0 && h.ring.writeIdx == n && !h.ring.overflow
    ensures var r := Apply(h, LogOp(BlankRecord().data), false).ring;
      r.count == n + 1 && r.readIdx == 0 && r.writeIdx == (n + 1) % CAPACITY && !r.overflow
  {
    hide BlankRecord;
  }

  /** The full ring that has lost nothing is reached by the first 512 records, and then reads find nothing. */
  lemma FullRingReadsNothing()
    ensures var h := Run(Logs(CAPACITY), false);
      h.ring.count == CAPACITY && Read(h.ring) == (h.ring, None)
  {
    hide Run;
    FillOnly(CAPACITY);
  }

  ghost predicate NoRewind(ops: seq<Op>) {
    forall i :: 0 <= i < |ops| ==> !ops[i].RewindOp?
  }

  ghost predicate Matches(h: History, q: Queue) {
    && Aligned(h.ring)
    && Unread(h.ring) == q.records
    && h.ring.overflow == q.lost
    && h.delivered == q.delivered
    && |h.logged| == q.total
    && h.ring.sequence == q.total % SEQUENCE_WRAP
    && |h.logged| == |h.delivered| + h.overwritten + h.ring.count
  }

  lemma StepMatches(h: History, q: Queue, op: Op, corrected: bool)
    requires Matches(h, q) && !op.RewindOp?
    ensures Matches(Apply(h, op, corrected), QueueStep(q, op, corrected))
  {
    hide Aligned, Available;
    assert |Unread(h.ring)| == h.ring.count <= CAPACITY by { AlignedCount(h.ring); }
    if op.LogOp? {
      LogAppends(h.ring, op.data);
      NextSequence(q.total);
    } else {
      AvailableIff(h.ring);
      if h.ring.count > 0 {
        TakeKeepsAligned(h.ring);
        TakeRemovesOldest(h.ring);
      }
    }
  }

  lemma AlignedCount(r: Ring)
    requires Aligned(r)
    ensures r.Valid() && r.count <= CAPACITY
  {
  }

  /**
    Over every run of logging and reading, the ring is the drop-oldest queue: same unread
    records, same deliveries, and logged = delivered + overwritten + held.  With the corrected
    test the queue is never blocked while it holds something.
    */
  lemma {:induction false} RingRefinesQueue(ops: seq<Op>, corrected: bool)
    requires NoRewind(ops)
    ensures Matches(Run(ops, corrected), QueueRun(ops, corrected))
  {
    hide Matches, Apply, QueueStep;
    if ops == [] {
      EmptyMatches(corrected);
    } else {
      var front, op := ops[..|ops| - 1], ops[|ops| - 1];
      RingRefinesQueue(front, corrected);
      StepMatches(Run(front, corrected), QueueRun(front, corrected), op, corrected);
    }
  }

  lemma EmptyMatches(corrected: bool)
    ensures Matches(Run([], corrected), QueueRun([], corrected))
  {
  }

  /** The unread records are the youngest ones logged, in logging order. */
  lemma UnreadAreYoungest(ops: seq<Op>, corrected: bool, i: nat)
    requires NoRewind(ops) && i < Run(ops, corrected).ring.count
    ensures var h := Run(ops, corrected);
      && h.ring.count <= |h.logged|
      && Unread(h.ring)[i] == Stamped(h.logged, |h.logged| - h.ring.count + i)
  {
    hide Run, QueueRun, Stamped;
    RingRefinesQueue(ops, corrected);
    RunHoldsHistory(ops, corrected);
    var h := Run(ops, corrected);
    var first := |h.logged| - h.ring.count;
    SameSlot(h.ring.readIdx, first, h.ring.count);
    SlotAfter(first, i);
    assert h.ring.entries[Slot(first + i)] == Stamped(h.logged, first + i);
  }

  lemma SameSlot(a: nat, n: nat, count: nat)
    requires a < CAPACITY && count <= CAPACITY
    requires Place(a, count) == Slot(n + count)
    ensures a == Slot(n)
  {
    var x, y := (a + count) / CAPACITY, (n + count) / CAPACITY;
    assert a + count - CAPACITY * x == n + count - CAPACITY * y;
    assert n == CAPACITY * (y - x) + a;
  }

  // ----- Replay after a rewind -----

  /** Everything reads would deliver until one finds nothing. */
  function Drain(r: Ring): seq<Record>
    requires r.Valid()
    decreases r.count
  {
    if Available(r) then [r.entries[r.readIdx]] + Drain(Taken(r)) else []
  }

  /** How far the write cursor is ahead of the read cursor. */
  function Ahead(r: Ring): (n: nat)
    requires r.Valid()
    ensures n < CAPACITY
  {
    (r.writeIdx + CAPACITY - r.readIdx) % CAPACITY
  }

  /** How many records a drain delivers. */
  function DrainCount(r: Ring): nat
    requires r.Valid()
  {
    if r.overflow && r.readIdx == r.writeIdx then r.count
    else if r.count <= Ahead(r) then r.count
    else Ahead(r)
  }

  lemma AheadAfterTake(r: Ring)
    requires r.Valid() && r.count > 0
    ensures Ahead(r) > 0 ==> Ahead(Taken(r)) == Ahead(r) - 1
    ensures Ahead(r) == 0 ==> r.readIdx == r.writeIdx && Ahead(Taken(r)) == CAPACITY - 1
    ensures r.readIdx == r.writeIdx ==> Ahead(r) == 0
  {
  }

  lemma {:induction false} DrainIs(r: Ring)
    requires r.Valid()
    ensures |Drain(r)| == DrainCount(r)
    ensures forall i :: 0 <= i < |Drain(r)| ==> Drain(r)[i] == r.entries[Place(r.readIdx, i)]
    decreases r.count
  {
    if Available(r) {
      hide Next, Place, Ahead;
      var r' := Taken(r);
      DrainIs(r');
      AheadAfterTake(r);
      PlaceZero(r.readIdx);
      forall i | 0 <= i < |Drain(r)|
        ensures Drain(r)[i] == r.entries[Place(r.readIdx, i)]
      {
        if i > 0 {
          assert Drain(r)[i] == Drain(r')[i - 1];
          Steps(r.readIdx, i - 1);
        }
      }
    } else if r.count > 0 {
      AheadAfterTake(r);
    }
  }

  lemma StampsDiffer(logged: seq<LogData>, m: nat, n: nat)
    requires m < |logged| && n < |logged| && m < n + CAPACITY && n < m + CAPACITY
    requires Stamped(logged, m) == Stamped(logged, n)
    ensures m == n
  {
  }

  /** A rewound cursor that meets the oldest retained record is the one of the oldest slot. */
  lemma OldestOnlyThere(h: History)
    requires HoldsHistory(h) && h.logged != []
    requires h.ring.entries[Rewind(h.ring).readIdx] == Retained(h.logged)[0]
    ensures Rewind(h.ring).readIdx == Oldest(|h.logged|)
  {
    hide Stamped, BlankRecord, Slot;
    var total, k := |h.logged|, Rewind(h.ring).readIdx;
    if total < CAPACITY {
      SmallSequence(total);
    } else {
      var n := SlotHolds(total, k);
      assert h.ring.entries[Slot(n)] == Stamped(h.logged, n);
      StampsDiffer(h.logged, n, total - CAPACITY);
      SlotAfterLap(n);
    }
  }

  /**
    For every run, rewinds included: a rewind makes the whole retained log readable, oldest first,
    exactly when it finds the oldest slot and the count, the overflow flag and the distance of the
    cursors let as many reads succeed as there are records retained.
    */
  lemma RewindReplaysIff(ops: seq<Op>)
    ensures var h := Run(ops, false); var r := Rewind(h.ring);
      Drain(r) == Retained(h.logged) <==>
        DrainCount(r) == |Retained(h.logged)| && r.readIdx == Oldest(|h.logged|)
  {
    hide Run, Slot, Stamped, HoldsHistory, DrainCount, Drain, Rewind, Place;
    RunHoldsHistory(ops, false);
    var h := Run(ops, false);
    var r := Rewind(h.ring);
    DrainIs(r);
    RewoundEntries(h.ring);
    if Drain(r) == Retained(h.logged) {
      if h.logged == [] {
        RewindBeforeWrap(ops, false);
      } else {
        PlaceZero(r.readIdx);
        OldestOnlyThere(h);
      }
    }
    if DrainCount(r) == |Retained(h.logged)| && r.readIdx == Oldest(|h.logged|) {
      forall i | 0 <= i < |Retained(h.logged)|
        ensures Drain(r)[i] == Retained(h.logged)[i]
      {
        RetainedInRing(ops, false, i);
      }
    }
  }

  lemma RewoundEntries(r: Ring)
    requires r.Valid()
    ensures Rewind(r).entries == r.entries && Rewind(r).readIdx < CAPACITY
  {
  }

  ghost predicate ReplayCondition(h: History) {
    && h.ring.count == |Retained(h.logged)|
    && (|h.logged| < CAPACITY
        || (h.ring.overflow && (h.ring.sequence >= CAPACITY || h.ring.writeIdx == 0)))
  }

  lemma ReplayLength(h: History, q: Queue)
    requires HoldsHistory(h) && Matches(h, q)
    ensures DrainCount(Rewind(h.ring)) == |Retained(h.logged)| <==> ReplayCondition(h)
  {
    hide Unread, Stamped, BlankRecord;
    var r, total := Rewind(h.ring), |h.logged|;
    assert h.ring.count <= total;
    if total < CAPACITY {
      SmallSequence(total);
      SlotOfSmall(total);
      assert Ahead(r) == total;
    }
  }

  /**
    After logging and reading, a rewind makes the whole retained log readable, oldest first,
    exactly when nothing retained has been read, the ring is not full with nothing lost, and
    the cursor is not misled by a wrapped sequence number.
    */
  lemma FullReplayIff(ops: seq<Op>)
    requires NoRewind(ops)
    ensures var h := Run(ops, false);
      Drain(Rewind(h.ring)) == Retained(h.logged) <==> ReplayCondition(h)
  {
    hide Run, QueueRun, Slot, Stamped, HoldsHistory, Matches, DrainCount, Drain;
    RingRefinesQueue(ops, false);
    RunHoldsHistory(ops, false);
    var h := Run(ops, false);
    var r := Rewind(h.ring);
    DrainIs(r);
    ReplayLength(h, QueueRun(ops, false));
    if ReplayCondition(h) {
      RewindFindsOldest(ops, false);
      forall i | 0 <= i < |Retained(h.logged)|
        ensures Drain(r)[i] == Retained(h.logged)[i]
      {
        RetainedInRing(ops, false, i);
      }
    }
  }

  /** A rewind is followed by a full replay only where it leaves the cursor alone. */
  lemma FullReplayOnlyIfNoOp(ops: seq<Op>)
    requires NoRewind(ops)
    requires var h := Run(ops, false); Drain(Rewind(h.ring)) == Retained(h.logged)
    ensures var h := Run(ops, false); Rewind(h.ring) == h.ring
  {
    hide Run, QueueRun, Stamped, Drain, Slot, Unread, BlankRecord;
    RingRefinesQueue(ops, false);
    RunHoldsHistory(ops, false);
    FullReplayIff(ops);
    var h := Run(ops, false);
    if |h.logged| < CAPACITY {
      SmallSequence(|h.logged|);
      SameSlot(h.ring.readIdx, 0, h.ring.count);
      SlotOfSmall(0);
    } else {
      SlotAfterLap(h.ring.readIdx);
      SlotOfSmall(h.ring.readIdx);
      SlotIs(h.ring.readIdx + CAPACITY);
    }
  }

  lemma SlotIs(n: nat)
    ensures Slot(n) == n % CAPACITY
  {
  }

  /** One record logged and read leaves nothing for a rewind to replay. */
  lemma ReplayFails(d: LogData)
    ensures var h := Run([LogOp(d), ReadOp], false);
      |Retained(h.logged)| == 1 && Drain(Rewind(h.ring)) == []
  {
    hide BlankRecord, Clipped;
    var ops := [LogOp(d), ReadOp];
    assert ops[..1] == [LogOp(d)] && ops[..1][..0] == [];
    assert Run(ops[..1], false) == Apply(History(Empty(), [], [], 0), LogOp(d), false);
  }
}
