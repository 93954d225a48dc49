/**
  Whole runs of the fault injector and the IMU: deadlines on a wrapping clock, and what a
  frozen IMU shows.  Times here are the true milliseconds; the code sees them modulo 2^32.
  */
module FaultRuns {
  import opened Imu
  import opened FaultInjector

  datatype Op =
    | DoInject(kind: FaultType, param: real, duration: nat, at: nat)
    | DoClear(slot: int)
    | DoClearAll
    | DoTick(at: nat)
    | DoMotion(motion: Motion)
    | DoSample(noise: Noise)

  datatype World = World(slots: seq<Fault>, imu: ImuState)

  function Act(w: World, op: Op): (v: World)
    ensures |v.slots| == |w.slots|
  {
    match op
    case DoInject(kind, param, duration, at) =>
      w.(slots := InjectSlots(w.slots, kind, param, duration, at % CLOCK_WRAP))
    case DoClear(slot) => w.(slots := ClearSlot(w.slots, slot))
    case DoClearAll => World(ClearSlots(w.slots), Freeze(w.imu, false))
    case DoTick(at) =>
      var t := TickSlots(w.slots, at % CLOCK_WRAP);
      World(t, Freeze(w.imu, Has(t, SENSOR_FREEZE)))
    case DoMotion(motion) => w.(imu := WithMotion(w.imu, motion))
    case DoSample(noise) => w.(imu := Sample(w.imu, noise).0)
  }

  function Run(w: World, ops: seq<Op>): (v: World)
    ensures |v.slots| == |w.slots|
  {
    if ops == [] then w else Act(Run(w, ops[..|ops| - 1]), ops[|ops| - 1])
  }

  /** The injector's methods, driving an IMU, are the steps of such a run. */
  method Perform(f: Injector, imu: ImuModel, op: Op)
    requires f.Valid() && f.imu == imu
    requires op.DoInject? ==> op.duration < CLOCK_WRAP
    modifies f, f.slots, imu, f.gps, f.battery
    ensures f.Valid()
    ensures World(f.slots[..], imu.State()) == Act(World(old(f.slots[..]), old(imu.State())), op)
  {
    hide Has, SagTarget, InjectSlots, ClearSlots, TickSlots, ClearSlot, Freeze, WithMotion, Sample;
    match op {
      case DoInject(kind, param, duration, at) =>
        var _ := f.Inject(kind, param, duration, at % CLOCK_WRAP);
      case DoClear(slot) => f.Clear(slot);
      case DoClearAll => f.ClearAll();
      case DoTick(at) => f.Tick(at % CLOCK_WRAP);
      case DoMotion(motion) => imu.SetMotion(motion);
      case DoSample(noise) => var _ := imu.Tick(noise);
    }
  }

  // ----- Deadlines -----

  predicate Clears(op: Op, i: nat) {
    op.DoClearAll? || (op.DoClear? && op.slot == i)
  }

  predicate NeverCleared(ops: seq<Op>, i: nat) {
    forall k :: 0 <= k < |ops| ==> !Clears(ops[k], i)
  }

  /** Slot `i` stayed active through the whole run. */
  predicate Survives(w: World, ops: seq<Op>, i: nat)
    requires i < |w.slots|
  {
    Run(w, ops).slots[i].active && (ops == [] || Survives(w, ops[..|ops| - 1], i))
  }

  /** The clock differences the code can see: a multiple of 2^32 milliseconds is invisible. */
  function Lag(at: nat, since: nat): int {
    ((at as int) - (since as int)) % CLOCK_WRAP
  }

  lemma ElapsedIsLag(at: nat, since: nat)
    ensures Elapsed(at % CLOCK_WRAP, since % CLOCK_WRAP) == Lag(at, since)
  {
    var m := at / CLOCK_WRAP - since / CLOCK_WRAP;
    assert at - since == at % CLOCK_WRAP - since % CLOCK_WRAP + CLOCK_WRAP * m;
  }

  predicate Harmless(op: Op, since: nat, duration: nat) {
    op.DoTick? ==> duration == 0 || Lag(op.at, since) < duration
  }

  lemma FaultStep(w: World, op: Op, i: nat, since: nat)
    requires i < |w.slots| && w.slots[i].active && w.slots[i].start == since % CLOCK_WRAP
    ensures Act(w, op).slots[i].active <==> !Clears(op, i) && Harmless(op, since, w.slots[i].duration)
    ensures Act(w, op).slots[i].active ==> Act(w, op).slots[i] == w.slots[i]
  {
    hide Has, Freeze, Sample, FirstFree;
    if op.DoTick? {
      ElapsedIsLag(op.at, since);
    }
  }

  /**
    The exact law, over every run: a fault lasts just as long as nobody clears it and every tick's
    wrapped lag stays below its duration, and until then no other operation disturbs its slot.
    */
  lemma {:induction false} SurvivesIff(w: World, ops: seq<Op>, i: nat, since: nat)
    requires i < |w.slots| && w.slots[i].active && w.slots[i].start == since % CLOCK_WRAP
    ensures Survives(w, ops, i) <==>
      forall k :: 0 <= k < |ops| ==> !Clears(ops[k], i) && Harmless(ops[k], since, w.slots[i].duration)
    ensures Survives(w, ops, i) ==> Run(w, ops).slots[i] == w.slots[i]
  {
    hide Act, Harmless, Clears;
    if ops != [] {
      var before, last := ops[..|ops| - 1], ops[|ops| - 1];
      SurvivesIff(w, before, i, since);
      assert forall k :: 0 <= k < |before| ==> ops[k] == before[k];
      if Survives(w, before, i) {
        FaultStep(Run(w, before), last, i, since);
      }
    }
  }

  lemma UntimedLasts(w: World, ops: seq<Op>, i: nat)
    requires i < |w.slots| && w.slots[i].active && w.slots[i].duration == 0 && w.slots[i].start < CLOCK_WRAP
    ensures Survives(w, ops, i) <==> NeverCleared(ops, i)
    ensures NeverCleared(ops, i) ==> Run(w, ops).slots[i] == w.slots[i]
  {
    hide Run, Survives;
    SurvivesIff(w, ops, i, w.slots[i].start);
  }

  lemma NeverClearedSoFar(ops: seq<Op>, i: nat)
    ensures NeverCleared([], i)
    ensures ops != [] ==> (NeverCleared(ops, i) <==>
      NeverCleared(ops[..|ops| - 1], i) && !Clears(ops[|ops| - 1], i))
  {
    hide Clears;
    if ops != [] {
      assert forall k :: 0 <= k < |ops| - 1 ==> ops[k] == ops[..|ops| - 1][k];
    }
  }

  /** The time of the latest tick, or `since` before any. */
  function Latest(ops: seq<Op>, since: nat): nat {
    if ops == [] then since
    else if ops[|ops| - 1].DoTick? then ops[|ops| - 1].at
    else Latest(ops[..|ops| - 1], since)
  }

  /** True time does not run backwards from one tick to the next. */
  predicate Ordered(ops: seq<Op>, since: nat) {
    ops != [] ==>
      && Ordered(ops[..|ops| - 1], since)
      && Latest(ops[..|ops| - 1], since) <= Latest(ops, since)
  }

  /** The first tick at or after `deadline` comes before `limit`. */
  predicate Prompt(ops: seq<Op>, since: nat, deadline: nat, limit: nat) {
    ops != [] ==>
      && Prompt(ops[..|ops| - 1], since, deadline, limit)
      && (Latest(ops[..|ops| - 1], since) < deadline <= Latest(ops, since) ==> Latest(ops, since) < limit)
  }

  /** A tick that arrives within one turn of the clock sees the true lag. */
  lemma LagIsTrue(at: nat, since: nat)
    requires since <= at < since + CLOCK_WRAP
    ensures Lag(at, since) == at - since
  {
  }

  lemma {:induction false} OrderedSince(ops: seq<Op>, since: nat)
    requires Ordered(ops, since)
    ensures since <= Latest(ops, since)
  {
    if ops != [] {
      OrderedSince(ops[..|ops| - 1], since);
    }
  }

  /**
    A fault of duration d injected at t lasts through a run exactly when nobody clears it and the
    latest tick comes before t + d, provided that ticks come in order and do not sleep through a
    turn of the clock.
    */
  lemma {:induction false} DeadlineKept(w: World, ops: seq<Op>, i: nat, since: nat)
    requires i < |w.slots| && w.slots[i].active && w.slots[i].start == since % CLOCK_WRAP
    requires 0 < w.slots[i].duration < CLOCK_WRAP
    requires Ordered(ops, since)
    requires Prompt(ops, since, since + w.slots[i].duration, since + CLOCK_WRAP)
    ensures Survives(w, ops, i) <==> NeverCleared(ops, i) && Latest(ops, since) < since + w.slots[i].duration
    ensures Survives(w, ops, i) ==> Run(w, ops).slots[i] == w.slots[i]
  {
    hide Act, NeverCleared, Clears;
    NeverClearedSoFar(ops, i);
    if ops != [] {
      var before, last := ops[..|ops| - 1], ops[|ops| - 1];
      DeadlineKept(w, before, i, since);
      OrderedSince(before, since);
      if Survives(w, before, i) {
        FaultStep(Run(w, before), last, i, since);
        if last.DoTick? {
          LagIsTrue(last.at, since);
        }
      }
    }
  }

  /**
    Without the proviso: the first tick past the deadline takes the fault down if and only if its
    wrapped lag is past the duration too.
    */
  lemma FirstLateTick(w: World, ops: seq<Op>, i: nat, since: nat, late: nat)
    requires i < |w.slots| && w.slots[i].active && w.slots[i].start == since % CLOCK_WRAP
    requires 0 < w.slots[i].duration < CLOCK_WRAP
    requires NeverCleared(ops, i) && Ordered(ops, since)
    requires Latest(ops, since) < since + w.slots[i].duration <= late
    ensures Run(w, ops + [DoTick(late)]).slots[i].active <==> Lag(late, since) < w.slots[i].duration
  {
    hide Act, Survives, Prompt, Lag;
    var d := w.slots[i].duration;
    EarlyIsPrompt(ops, since, since + d, since + CLOCK_WRAP);
    DeadlineKept(w, ops, i, since);
    assert (ops + [DoTick(late)])[..|ops|] == ops;
    SurvivesActive(w, ops, i);
    FaultStep(Run(w, ops), DoTick(late), i, since);
  }

  lemma SurvivesActive(w: World, ops: seq<Op>, i: nat)
    requires i < |w.slots| && Survives(w, ops, i)
    ensures Run(w, ops).slots[i].active
  {
  }

  lemma {:induction false} EarlyIsPrompt(ops: seq<Op>, since: nat, deadline: nat, limit: nat)
    requires Ordered(ops, since) && Latest(ops, since) < deadline
    ensures Prompt(ops, since, deadline, limit)
  {
    if ops != [] {
      EarlyIsPrompt(ops[..|ops| - 1], since, deadline, limit);
    }
  }

  /** A one-second fault outlives its deadline when nothing ticks for a whole turn of the clock. */
  lemma DeadlineMissed(w: World, i: nat)
    requires i < |w.slots| && w.slots[i] == Fault(GPS_LOSS, true, 0, 1000, 0.0)
    ensures Run(w, [DoTick(CLOCK_WRAP + 999)]).slots[i].active
    ensures !Run(w, [DoTick(CLOCK_WRAP - 1)]).slots[i].active
  {
    hide Act;
    FirstLateTick(w, [], i, 0, CLOCK_WRAP + 999);
    FirstLateTick(w, [], i, 0, CLOCK_WRAP - 1);
    assert [] + [DoTick(CLOCK_WRAP + 999)] == [DoTick(CLOCK_WRAP + 999)];
    assert [] + [DoTick(CLOCK_WRAP - 1)] == [DoTick(CLOCK_WRAP - 1)];
  }

  // ----- Freezes -----

  /** Some freeze is active after every tick of the run, and nobody clears everything at once. */
  predicate StaysFrozen(w: World, ops: seq<Op>) {
    ops != [] ==>
      && StaysFrozen(w, ops[..|ops| - 1])
      && !ops[|ops| - 1].DoClearAll?
      && (ops[|ops| - 1].DoTick? ==> Has(Run(w, ops).slots, SENSOR_FREEZE))
  }

  predicate Shows(imu: ImuState, motion: Motion) {
    imu.frozen && imu.latched == motion
  }

  lemma ShowsIsOutput(imu: ImuState, motion: Motion, noise: Noise)
    requires Shows(imu, motion)
    ensures Sample(imu, noise) == (imu, motion)
  {
  }

  lemma {:induction false} FrozenSpan(w: World, ops: seq<Op>, motion: Motion)
    requires Shows(w.imu, motion)
    requires StaysFrozen(w, ops)
    ensures Shows(Run(w, ops).imu, motion)
  {
    hide Has, FirstFree, InjectSlots, ClearSlot, TickSlots;
    if ops != [] {
      FrozenSpan(w, ops[..|ops| - 1], motion);
    }
  }

  /**
    From the tick that first freezes the IMU, its output stays the true motion of that moment:
    through expiries and new faults that overlap, clears of single slots, changes of the true
    motion and any noise, for as long as each tick still finds some freeze active.
    */
  lemma FrozenOutput(w: World, start: nat, ops: seq<Op>, noise: Noise)
    requires !w.imu.frozen
    requires Has(Act(w, DoTick(start)).slots, SENSOR_FREEZE)
    requires StaysFrozen(Act(w, DoTick(start)), ops)
    ensures Sample(Run(Act(w, DoTick(start)), ops).imu, noise).1 == w.imu.motion
  {
    var v := Act(w, DoTick(start));
    hide Has, TickSlots, StaysFrozen, Run, Sample, Shows;
    assert Shows(v.imu, w.imu.motion) by { Latches(w, start); }
    FrozenSpan(v, ops, w.imu.motion);
    ShowsIsOutput(Run(v, ops).imu, w.imu.motion, noise);
  }

  /**
    Exactly: the motion stays on show throughout a run if and only if nobody clears everything
    at once and every tick finds some freeze active.
    */
  lemma {:induction false} FreezeHoldsIff(w: World, ops: seq<Op>, motion: Motion)
    requires Shows(w.imu, motion)
    ensures (forall n :: 0 <= n <= |ops| ==> Shows(Run(w, ops[..n]).imu, motion)) <==> StaysFrozen(w, ops)
  {
    hide Has, Act, Shows;
    assert ops[..|ops|] == ops;
    if ops != [] {
      var before, last := ops[..|ops| - 1], ops[|ops| - 1];
      FreezeHoldsIff(w, before, motion);
      assert forall n :: 0 <= n <= |before| ==> before[..n] == ops[..n];
      if StaysFrozen(w, ops) {
        FrozenSpan(w, ops, motion);
      }
      Thaws(Run(w, before), last, motion);
    }
  }

  lemma Thaws(w: World, op: Op, motion: Motion)
    ensures Shows(Act(w, op).imu, motion) ==>
      !op.DoClearAll? && (op.DoTick? ==> Has(Act(w, op).slots, SENSOR_FREEZE))
  {
    hide Has, TickSlots, InjectSlots, ClearSlot;
  }

  lemma Latches(w: World, start: nat)
    requires !w.imu.frozen && Has(Act(w, DoTick(start)).slots, SENSOR_FREEZE)
    ensures Shows(Act(w, DoTick(start)).imu, w.imu.motion)
  {
    hide Has, TickSlots;
  }

  /**
    Why the span excludes a clear of everything: that thaws the IMU at once, so a freeze injected
    before the next tick latches the motion of that later tick.
    */
  lemma ClearAllRelatches(w: World, motion: Motion, at: nat, noise: Noise)
    requires 0 < |w.slots|
    ensures
      var again := [DoClearAll, DoMotion(motion), DoInject(SENSOR_FREEZE, 0.0, 0, at), DoTick(at)];
      Sample(Run(w, again).imu, noise).1 == motion
  {
    hide Act, Has, Sample, Run, Live, Shows;
    var again := [DoClearAll, DoMotion(motion), DoInject(SENSOR_FREEZE, 0.0, 0, at), DoTick(at)];
    var c := Act(Act(Act(w, DoClearAll), DoMotion(motion)), DoInject(SENSOR_FREEZE, 0.0, 0, at));
    RunFour(w, DoClearAll, DoMotion(motion), DoInject(SENSOR_FREEZE, 0.0, 0, at), DoTick(at));
    Refrozen(w, motion, at);
    UntimedStays(c, at);
    FreezeIsHeld(Act(c, DoTick(at)).slots);
    Latches(c, at);
    ShowsIsOutput(Act(c, DoTick(at)).imu, motion, noise);
  }

  lemma Refrozen(w: World, motion: Motion, at: nat)
    requires 0 < |w.slots|
    ensures
      var c := Act(Act(Act(w, DoClearAll), DoMotion(motion)), DoInject(SENSOR_FREEZE, 0.0, 0, at));
      && c.slots[0] == Fault(SENSOR_FREEZE, true, at % CLOCK_WRAP, 0, 0.0)
      && !c.imu.frozen && c.imu.motion == motion
  {
    hide Sample, Has, TickSlots;
    var b := Act(Act(w, DoClearAll), DoMotion(motion));
    assert !b.slots[0].active && !b.imu.frozen && b.imu.motion == motion;
    FirstFreeIs(b.slots, 0);
  }

  lemma UntimedStays(w: World, at: nat)
    requires 0 < |w.slots| && w.slots[0].active && w.slots[0].kind == SENSOR_FREEZE && w.slots[0].duration == 0
    ensures Live(Act(w, DoTick(at)).slots[0], SENSOR_FREEZE)
  {
    hide Has, Freeze, FirstFree;
  }

  lemma FreezeIsHeld(s: seq<Fault>)
    requires 0 < |s| && Live(s[0], SENSOR_FREEZE)
    ensures Has(s, SENSOR_FREEZE)
  {
  }

  lemma RunFour(w: World, a: Op, b: Op, c: Op, d: Op)
    ensures Run(w, [a, b, c, d]) == Act(Act(Act(Act(w, a), b), c), d)
  {
    assert [a, b, c, d][..3] == [a, b, c] && [a, b, c][..2] == [a, b] && [a, b][..1] == [a] && [a][..0] == [];
    assert Run(w, [a]) == Act(Run(w, []), a);
    assert Run(w, [a, b]) == Act(Run(w, [a]), b);
    assert Run(w, [a, b, c]) == Act(Run(w, [a, b]), c);
  }
}
