/** What the shared fault flags, the fault log and the flight state satisfy under every interleaving. */
module FsmTaskRuns {
  import opened SensorData
  import opened Bytes
  import opened FlightFsm
  import FsmRuns
  import opened FsmTask

  // ----- The sensor bits -----

  lemma ApplyOneLow(f: bv8, h: Health)
    ensures SensorPart(ApplyOne(f, h)) == SensorPart(f)
  {
  }

  lemma {:induction false} ApplyLow(f: bv8, ops: seq<Health>)
    ensures SensorPart(Apply(f, ops)) == SensorPart(f)
  {
    hide ApplyOne, SensorPart;
    if ops != [] {
      ApplyLow(f, ops[..|ops| - 1]);
      ApplyOneLow(Apply(f, ops[..|ops| - 1]), ops[|ops| - 1]);
    }
  }

  lemma LowBits(prev: bv8, a: bv8, b: bv8, faults: bv8)
    requires SensorPart(a) == SensorPart(prev) && SensorOnly(faults)
    requires SensorPart(b) == SensorPart(Raise(a, Lower(faults, prev)))
    ensures SensorPart(Lower(b, Lower(prev, faults))) == faults
  {
    LowBitsOfWords(prev, a, b, faults);
  }

  lemma LowBitsOfWords(prev: bv8, a: bv8, b: bv8, faults: bv8)
    requires a & 7 == prev & 7 && faults & !7 == 0
    requires b & 7 == (a | (faults & !prev)) & 7
    ensures (b & !(prev & !faults)) & 7 == faults
  {
  }

  /**
    However the health task interleaves with the get, the set and the clear, at the end of the
    synchronisation the three sensor bits are the faults just evaluated.
    */
  lemma SensorBitsSynced(prev: bv8, faults: bv8, u: Turn)
    requires SensorOnly(faults)
    ensures SensorPart(Synced(prev, faults, u)) == faults
  {
    hide Apply, Raise, Lower, SensorPart, SensorOnly;
    var a := Apply(prev, u.beforeSet);
    var raised := Raise(a, Lower(faults, prev));
    ApplyLow(prev, u.beforeSet);
    ApplyLow(raised, u.beforeClear);
    LowBits(prev, a, Apply(raised, u.beforeClear), faults);
  }

  lemma CycleSensorBits(t: Task, u: Turn)
    ensures SensorPart(Cycle(t, u).flags) == Evaluate(Cycle(t, u).sensors)
  {
    hide Apply, Synced, Next, Word, Report, Evaluate, Previous, SensorPart, SensorOnly;
    var faults := Evaluate(Retained(t, u));
    SensorBitsSynced(Previous(t, u), faults, u);
    ApplyLow(Synced(Previous(t, u), faults, u), u.afterClear);
  }

  // ----- The health bits -----

  predicate Touches(ops: seq<Health>, a: Alarm) {
    exists i :: 0 <= i < |ops| && ops[i].alarm == a
  }

  /** The state an alarm should have: that of the last operation on it, or `before` if there is none. */
  function Last(ops: seq<Health>, a: Alarm, before: bool): bool {
    if ops == [] then before
    else if ops[|ops| - 1].alarm == a then ops[|ops| - 1].on
    else Last(ops[..|ops| - 1], a, before)
  }

  lemma {:induction false} LastAppend(x: seq<Health>, y: seq<Health>, a: Alarm, before: bool)
    ensures Last(x + y, a, before) == Last(y, a, Last(x, a, before))
  {
    if y == [] {
      assert x + y == x;
    } else {
      assert (x + y)[..|x + y| - 1] == x + y[..|y| - 1];
      LastAppend(x, y[..|y| - 1], a, before);
    }
  }

  lemma {:induction false} LastUntouched(ops: seq<Health>, a: Alarm, before: bool)
    ensures !Touches(ops, a) ==> Last(ops, a, before) == before
    ensures Touches(ops, a) ==> Last(ops, a, before) == Last(ops, a, !before)
  {
    if ops != [] {
      var init := ops[..|ops| - 1];
      LastUntouched(init, a, before);
      assert forall i :: 0 <= i < |init| ==> init[i] == ops[i];
      if Touches(ops, a) && ops[|ops| - 1].alarm != a {
        var i :| 0 <= i < |ops| && ops[i].alarm == a;
        assert init[i].alarm == a;
      }
    }
  }

  lemma MaskBits(f: bv8)
    ensures (f | 8) & 8 != 0 && (f | 32) & 32 != 0
    ensures (f | 8) & 32 == f & 32 && (f | 32) & 8 == f & 8
    ensures (f & !8) & 8 == 0 && (f & !32) & 32 == 0
    ensures (f & !8) & 32 == f & 32 && (f & !32) & 8 == f & 8
  {
  }

  lemma ApplyOneHas(f: bv8, h: Health, a: Alarm)
    ensures Has(ApplyOne(f, h), a) == if h.alarm == a then h.on else Has(f, a)
  {
    MaskBits(f);
    match h.alarm {
      case COMMS_TIMEOUT => match a { case COMMS_TIMEOUT => case STACK_OVERFLOW => }
      case STACK_OVERFLOW => match a { case COMMS_TIMEOUT => case STACK_OVERFLOW => }
    }
  }

  lemma {:induction false} ApplyHas(f: bv8, ops: seq<Health>, a: Alarm)
    ensures Has(Apply(f, ops), a) == Last(ops, a, Has(f, a))
  {
    hide ApplyOne, Has;
    if ops != [] {
      ApplyHas(f, ops[..|ops| - 1], a);
      ApplyOneHas(Apply(f, ops[..|ops| - 1]), ops[|ops| - 1], a);
    }
  }

  lemma RaiseBit(f: bv8, prev: bv8, faults: bv8)
    requires faults & !7 == 0
    ensures (f | (faults & !prev)) & 8 == f & 8
    ensures (f | (faults & !prev)) & 32 == f & 32
  {
  }

  lemma LowerBit(f: bv8, prev: bv8, faults: bv8)
    requires faults & !7 == 0
    ensures (f & !(prev & !faults)) & 8 != 0 <==> f & 8 != 0 && prev & 8 == 0
    ensures (f & !(prev & !faults)) & 32 != 0 <==> f & 32 != 0 && prev & 32 == 0
  {
  }

  lemma RaiseKeepsAlarms(f: bv8, prev: bv8, faults: bv8, a: Alarm)
    requires SensorOnly(faults)
    ensures Has(Raise(f, Lower(faults, prev)), a) == Has(f, a)
  {
    RaiseBit(f, prev, faults);
  }

  lemma LowerDropsAlarms(f: bv8, prev: bv8, faults: bv8, a: Alarm)
    requires SensorOnly(faults)
    ensures Has(Lower(f, Lower(prev, faults)), a) == (Has(f, a) && !Has(prev, a))
  {
    LowerBit(f, prev, faults);
  }

  /** When the clear is done an alarm stands exactly if the get did not see it and the health task raised it since. */
  lemma AlarmWhenSynced(prev: bv8, faults: bv8, u: Turn, a: Alarm)
    requires SensorOnly(faults)
    ensures Has(Synced(prev, faults, u), a) <==>
      !Has(prev, a) && Last(u.beforeSet + u.beforeClear, a, false)
  {
    hide Apply, Has, Last, Raise, Lower, SensorOnly;
    var x := Apply(prev, u.beforeSet);
    var y := Raise(x, Lower(faults, prev));
    var z := Apply(y, u.beforeClear);
    ApplyHas(prev, u.beforeSet, a);
    RaiseKeepsAlarms(x, prev, faults, a);
    ApplyHas(y, u.beforeClear, a);
    LowerDropsAlarms(z, prev, faults, a);
    LastAppend(u.beforeSet, u.beforeClear, a, Has(prev, a));
  }

  /** Whether the flight task's get sees the alarm: it is as the last operation before the get left it. */
  function Seen(t: Task, u: Turn, a: Alarm): bool {
    Last(u.beforeGet, a, Has(t.flags, a))
  }

  lemma SeenIsPrevious(t: Task, u: Turn, a: Alarm)
    ensures Has(Previous(t, u), a) == Seen(t, u, a)
  {
    hide Has, Apply, Last;
    ApplyHas(t.flags, u.beforeGet, a);
  }

  /** The health operations that can have left an alarm standing at the end of a turn. */
  function Effective(t: Task, u: Turn, a: Alarm): seq<Health> {
    if Seen(t, u, a) then u.afterClear else u.beforeSet + u.beforeClear + u.afterClear
  }

  /**
    At the end of a turn an alarm is up exactly if the last health operation on it in the window
    that counts raised it; the window opens at the get, or at the clear when the get saw the alarm.
    */
  lemma AlarmAfterTurn(t: Task, u: Turn, a: Alarm)
    ensures Has(Cycle(t, u).flags, a) <==> Last(Effective(t, u, a), a, false)
  {
    hide Apply, Has, Last, Synced, Evaluate, Next, Word, Report, Previous, SensorOnly, Seen;
    var prev, faults := Previous(t, u), Evaluate(Retained(t, u));
    SeenIsPrevious(t, u, a);
    AlarmWhenSynced(prev, faults, u, a);
    ApplyHas(Synced(prev, faults, u), u.afterClear, a);
    LastAppend(u.beforeSet + u.beforeClear, u.afterClear, a, false);
  }

  lemma {:induction false} LastSetIsThere(ops: seq<Health>, a: Alarm)
    ensures Last(ops, a, false) ==> Health(a, true) in ops
  {
    if ops != [] {
      LastSetIsThere(ops[..|ops| - 1], a);
    }
  }

  /** An alarm left standing was raised by the health task after the flight task's get. */
  lemma StandingAlarmIsNew(t: Task, u: Turn, a: Alarm)
    requires Has(Cycle(t, u).flags, a)
    ensures Health(a, true) in u.beforeSet + u.beforeClear + u.afterClear
  {
    hide Has, Last, Cycle;
    AlarmAfterTurn(t, u, a);
    LastSetIsThere(Effective(t, u, a), a);
  }

  /**
    When the shared flags say what the health task last said: always, except that an alarm the
    get saw and that was not lowered before the clear is lost until the health task acts again.
    */
  lemma AlarmKeptIff(t: Task, u: Turn, a: Alarm)
    ensures
      var prev := Seen(t, u, a);
      Has(Cycle(t, u).flags, a) == Last(u.beforeSet + u.beforeClear + u.afterClear, a, prev) <==>
      !(prev && Last(u.beforeSet + u.beforeClear, a, true) && !Touches(u.afterClear, a))
  {
    hide Has, Last, Cycle, Touches, Seen;
    var prev := Seen(t, u, a);
    AlarmAfterTurn(t, u, a);
    LastAppend(u.beforeSet + u.beforeClear, u.afterClear, a, prev);
    LastUntouched(u.afterClear, a, false);
    LastUntouched(u.afterClear, a, true);
  }

  lemma TouchesTail(x: seq<Health>, y: seq<Health>, a: Alarm)
    requires Touches(y, a)
    ensures Touches(x + y, a)
  {
    var i :| 0 <= i < |y| && y[i].alarm == a;
    assert (x + y)[|x| + i].alarm == a;
  }

  /**
    The flight task runs ten times as often as the health task, and a turn in which the health
    task does not act on an alarm after the get leaves that alarm down, whatever stood before.
    */
  lemma AlarmLost(t: Task, u: Turn, a: Alarm)
    requires !Touches(u.beforeSet + u.beforeClear + u.afterClear, a)
    ensures !Has(Cycle(t, u).flags, a)
  {
    hide Has, Cycle, Touches, Last;
    AlarmAfterTurn(t, u, a);
    if Touches(u.afterClear, a) {
      TouchesTail(u.beforeSet + u.beforeClear, u.afterClear, a);
    }
    LastUntouched(Effective(t, u, a), a, false);
  }

  /** One period of the health task leaves each alarm saying what that period found. */
  lemma HealthPeriodSets(flags: bv8, critical: bool, now: nat, lastRx: nat)
    ensures var f := Apply(flags, HealthPeriod(critical, now, lastRx));
      && (Has(f, STACK_OVERFLOW) <==> critical)
      && (Has(f, COMMS_TIMEOUT) <==> TimedOut(now, lastRx))
      && SensorPart(f) == SensorPart(flags)
  {
    hide Has, Apply, SensorPart, TimedOut;
    var ops := HealthPeriod(critical, now, lastRx);
    assert ops[..1] == [Health(STACK_OVERFLOW, critical)];
    ApplyHas(flags, ops, STACK_OVERFLOW);
    ApplyHas(flags, ops, COMMS_TIMEOUT);
    ApplyLow(flags, ops);
  }

  // ----- The fault log -----

  lemma AboveHasBit(x: bv8, y: bv8)
    ensures x > y ==> x & !y != 0
  {
  }

  lemma DifferentWords(x: bv8, y: bv8)
    ensures Above(x, y) ==> Lower(x, y) != 0
    ensures x == y || Above(x, y) || Above(y, x)
  {
    AboveHasBit(x, y);
  }

  /** A FAULT_SET entry means that some fault is new, a FAULT_CLEAR entry that some flag is gone. */
  lemma ReportIsTrue(prev: bv8, faults: bv8, state: State, s: Reading)
    ensures Report(prev, faults, state, s) == [] <==> faults == prev
    ensures forall e | e in Report(prev, faults, state, s) ::
      && (e.kind == FAULT_SET ==> Lower(faults, prev) != 0)
      && (e.kind == FAULT_CLEAR ==> Lower(prev, faults) != 0)
  {
    hide Above, Lower;
    DifferentWords(faults, prev);
    DifferentWords(prev, faults);
  }

  lemma AboveByDifference(x: bv8, y: bv8)
    ensures x > y <==> (x & !y) > (y & !x)
    ensures x != y ==> x & !y != 0 || y & !x != 0
  {
  }

  /**
    Exactly when a change is logged as FAULT_SET: the flags newly raised, as a word, outrank the
    flags dropped in the same cycle.  So a raise is logged as one if and only if they do.
    */
  lemma LoggedAsSetIff(prev: bv8, faults: bv8, state: State, s: Reading)
    requires faults != prev
    ensures |Report(prev, faults, state, s)| == 1
    ensures Report(prev, faults, state, s)[0].kind == FAULT_SET <==>
      Above(Lower(faults, prev), Lower(prev, faults))
  {
    AboveByDifference(faults, prev);
  }

  /** A GPS loss that comes with the recovery of the battery is logged as a clear, with no alarm up. */
  lemma RecoveryHidesLoss(state: State, s: Reading)
    ensures Lower(GPS_LOSS, BATT_LOW) != 0
    ensures |Report(BATT_LOW, GPS_LOSS, state, s)| == 1
    ensures Report(BATT_LOW, GPS_LOSS, state, s)[0].kind == FAULT_CLEAR
  {
    LoggedAsSetIff(BATT_LOW, GPS_LOSS, state, s);
  }

  lemma SensorBitsRankLow(prev: bv8, faults: bv8)
    requires faults & !7 == 0 && (prev & 8 != 0 || prev & 32 != 0)
    ensures faults != prev && (faults & !prev) < (prev & !faults)
  {
  }

  lemma AlarmOutranks(prev: bv8, faults: bv8, a: Alarm)
    requires SensorOnly(faults) && Has(prev, a)
    ensures faults != prev && !Above(Lower(faults, prev), Lower(prev, faults))
  {
    SensorBitsRankLow(prev, faults);
  }

  /** In particular an alarm that the get saw outranks all sensor faults: what appears with it is logged as a clear. */
  lemma RaiseLoggedAsClear(prev: bv8, faults: bv8, a: Alarm, state: State, s: Reading)
    requires SensorOnly(faults) && Has(prev, a)
    ensures |Report(prev, faults, state, s)| == 1 && Report(prev, faults, state, s)[0].kind == FAULT_CLEAR
  {
    hide Has, Above, SensorOnly, Lower;
    AlarmOutranks(prev, faults, a);
    LoggedAsSetIff(prev, faults, state, s);
  }

  // ----- Runs -----

  datatype Action = DoTurn(turn: Turn) | DoOrder(event: Event, now: nat)

  function Act(t: Task, a: Action): Task {
    match a
    case DoTurn(u) => Cycle(t, u)
    case DoOrder(event, now) => t.(fsm := Next(t.fsm, Command(event, now)))
  }

  function Run(actions: seq<Action>): Task {
    if actions == [] then BOOT else Act(Run(actions[..|actions| - 1]), actions[|actions| - 1])
  }

  function InputOf(t: Task, a: Action): Input {
    match a
    case DoTurn(u) => Tick(Retained(t, u), Word(Evaluate(Retained(t, u))), u.now)
    case DoOrder(event, now) => Command(event, now)
  }

  function Inputs(actions: seq<Action>): (i: seq<Input>)
    ensures |i| == |actions|
  {
    if actions == [] then []
    else Inputs(actions[..|actions| - 1]) + [InputOf(Run(actions[..|actions| - 1]), actions[|actions| - 1])]
  }

  /** Seen from the state machine, the flight task is one of its runs: what holds of all of them holds here. */
  lemma {:induction false} TaskRunsTheMachine(actions: seq<Action>)
    ensures Run(actions).fsm == FsmRuns.Run(Inputs(actions))
  {
    hide Next, Word, Evaluate, Apply, Synced, Report, Previous;
    if actions != [] {
      var before := actions[..|actions| - 1];
      TaskRunsTheMachine(before);
      var inputs := Inputs(actions);
      assert inputs[..|inputs| - 1] == Inputs(before);
    }
  }

  /** The flags carry the sensor faults after every turn, whatever came before. */
  lemma FlagsFollowSensors(actions: seq<Action>, u: Turn)
    ensures var t := Run(actions + [DoTurn(u)]);
      SensorPart(t.flags) == Evaluate(t.sensors) && t.fsm.faults == Word(Evaluate(t.sensors))
  {
    hide Evaluate, Apply, Synced, Report, Previous, Next, Word, SensorPart, SensorOnly;
    assert (actions + [DoTurn(u)])[..|actions|] == actions;
    CycleSensorBits(Run(actions), u);
    var s := Retained(Run(actions), u);
    FsmRuns.TickFaults(Run(actions).fsm, s, Word(Evaluate(s)), u.now);
  }

  predicate Healthy(s: Reading) {
    && s.fixQuality != 0 && s.satellites >= GPS_MIN_SATELLITES && s.batteryVoltage >= BATT_LOW_VOLTAGE
    && !AllZero(s)
  }

  /**
    After a turn that began outside INIT the machine is in FAULT exactly when the retained
    sensors are faulty; and a turn that ends armed or in flight, wherever it began, retains
    healthy ones.
    */
  lemma TurnDecidesFault(t: Task, u: Turn)
    ensures t.fsm.current != INIT ==> (Cycle(t, u).fsm.current == FAULT <==> !Healthy(Cycle(t, u).sensors))
    ensures Cycle(t, u).fsm.current in {ARMED, FLYING, LANDING} ==> Healthy(Cycle(t, u).sensors)
  {
    hide Apply, Synced, Report, Previous, Next, Word, AllZero;
    var s := Retained(t, u);
    FsmRuns.TickFaults(t.fsm, s, Word(Evaluate(s)), u.now);
    TurnInFlight(t.fsm, s, Word(Evaluate(s)), u.now);
  }

  lemma TurnInFlight(c: Context, s: Reading, faults: bv32, now: nat)
    ensures Next(c, Tick(s, faults, now)).current in {ARMED, FLYING, LANDING} ==> faults == 0
  {
    hide LowByte;
  }

  /** In any run: flight rests on healthy sensors, and so does the fault state on faulty ones. */
  lemma {:induction false} FlightIsHealthy(actions: seq<Action>)
    ensures var t := Run(actions);
      && (t.fsm.current in {FLYING, LANDING} ==> Healthy(t.sensors))
      && (t.fsm.current == FAULT ==> !Healthy(t.sensors))
  {
    hide Cycle, Next, Healthy;
    if actions != [] {
      var before, last := actions[..|actions| - 1], actions[|actions| - 1];
      FlightIsHealthy(before);
      match last {
        case DoTurn(u) =>
          TurnDecidesFault(Run(before), u);
          TurnFromInit(Run(before), u);
        case DoOrder(event, now) =>
          OrderStaysGrounded(Run(before).fsm, event, now);
      }
    }
  }

  lemma TurnFromInit(t: Task, u: Turn)
    ensures t.fsm.current == INIT ==> Cycle(t, u).fsm.current != FAULT
  {
    hide Apply, Synced, Report, Previous, Next, Evaluate, Word;
    var s := Retained(t, u);
    FsmRuns.TickFaults(t.fsm, s, Word(Evaluate(s)), u.now);
  }

  lemma OrderStaysGrounded(c: Context, event: Event, now: nat)
    ensures var d := Next(c, Command(event, now)).current; d == c.current || d == ARMED || d == PREFLIGHT
  {
    hide LowByte, Table;
  }

  // ----- Arming -----

  /** Once INIT is left, the stored flags are the faults of the retained sensors. */
  lemma {:induction false} FaultsAreEvaluated(actions: seq<Action>)
    ensures var t := Run(actions); t.fsm.current != INIT ==> t.fsm.faults == Word(Evaluate(t.sensors))
  {
    hide Apply, Synced, Report, Previous, Next, Word, Evaluate;
    if actions != [] {
      var before, last := Run(actions[..|actions| - 1]), actions[|actions| - 1];
      FaultsAreEvaluated(actions[..|actions| - 1]);
      match last {
        case DoTurn(u) =>
          var s := Retained(before, u);
          FsmRuns.TickFaults(before.fsm, s, Word(Evaluate(s)), u.now);
        case DoOrder(event, now) =>
          OrderKeepsFaults(before.fsm, event, now);
      }
    }
  }

  lemma OrderKeepsFaults(c: Context, event: Event, now: nat)
    ensures var d := Next(c, Command(event, now));
      d.faults == c.faults && (d.current == INIT <==> c.current == INIT)
  {
    hide LowByte;
    FsmRuns.CommandAccepted(c, event, now);
  }

  /** Of the guard's four conditions the flags imply two: without faults there are a fix and four satellites. */
  lemma GuardByFlags(s: Reading)
    ensures var faults := Word(Evaluate(s));
      ReadyToArm(s, faults) <==> faults == 0 && s.batteryVoltage >= 11.0
  {
    hide AllZero;
  }

  /**
    When arming respects the guard the code does not consult: an arm command in PREFLIGHT is
    always obeyed, and the guard holds exactly when no fault is stored and the battery has at
    least 11 V.  A fault can be stored only before the first tick after the one that left INIT,
    so from then on it is the voltage alone that decides.
    */
  lemma ArmRespectsGuardIff(actions: seq<Action>, now: nat)
    requires Run(actions).fsm.current == PREFLIGHT
    ensures var t := Run(actions + [DoOrder(ARMED_CMD, now)]);
      && t.fsm.current == ARMED && t.sensors == Run(actions).sensors
      && (ReadyToArm(t.sensors, t.fsm.faults) <==>
          t.fsm.faults == 0 && t.sensors.batteryVoltage >= 11.0)
      && (t.fsm.faults == 0 <==> !FsmRuns.JustInitialised(Inputs(actions)) || Healthy(t.sensors))
  {
    hide Next, Word, Evaluate, ReadyToArm, FsmRuns.JustInitialised, Healthy, Cycle;
    var t := Run(actions);
    assert (actions + [DoOrder(ARMED_CMD, now)])[..|actions|] == actions;
    FsmRuns.CommandArms(t.fsm, now);
    FaultsAreEvaluated(actions);
    GuardByFlags(t.sensors);
    TaskRunsTheMachine(actions);
    FsmRuns.FaultInvariant(Inputs(actions));
    HealthyIffNoFlags(t.sensors);
  }

  lemma HealthyIffNoFlags(s: Reading)
    ensures Healthy(s) <==> Word(Evaluate(s)) == 0
  {
    hide AllZero;
  }

  /** At 10.8 V no fault is raised, but the guard would refuse: the vehicle arms. */
  lemma ArmedAtLowVoltage(s: Reading, now: nat)
    requires SensorsReady(s) && Healthy(s) && s.batteryVoltage == 10.8
    ensures var t := Run([DoTurn(Turn(Some(s), now, [], [], [], [])), DoOrder(ARMED_CMD, now)]);
      t.fsm.current == ARMED && t.fsm.faults == 0 && t.sensors == s && !ReadyToArm(t.sensors, t.fsm.faults)
  {
    hide Next, Word, Evaluate, Healthy, SensorsReady, FsmRuns.JustInitialised, Apply, Synced, Report, Previous;
    var turn := DoTurn(Turn(Some(s), now, [], [], [], []));
    var actions := [turn];
    assert actions[..0] == [];
    assert Run(actions) == Act(BOOT, turn);
    FsmRuns.InitTick(START, s, Word(Evaluate(s)), now);
    HealthyIffNoFlags(s);
    assert actions + [DoOrder(ARMED_CMD, now)] == [turn, DoOrder(ARMED_CMD, now)];
    ArmRespectsGuardIff(actions, now);
  }

  /** The same run with every health operation taken out. */
  function Quiet(a: Action): Action {
    match a
    case DoTurn(u) => DoTurn(Turn(u.arrived, u.now, [], [], [], []))
    case DoOrder(event, now) => a
  }

  function AllQuiet(actions: seq<Action>): (q: seq<Action>)
    ensures |q| == |actions| && forall k :: 0 <= k < |q| ==> q[k] == Quiet(actions[k])
  {
    seq(|actions|, k requires 0 <= k < |actions| => Quiet(actions[k]))
  }

  /** Health alarms never reach the state machine: it moves as if they did not exist. */
  lemma {:induction false} HealthDoesNotSteer(actions: seq<Action>)
    ensures Run(actions).fsm == Run(AllQuiet(actions)).fsm
    ensures Run(actions).sensors == Run(AllQuiet(actions)).sensors
  {
    hide Apply, Synced, Report, Previous, Next, Evaluate, Word;
    if actions != [] {
      var before := actions[..|actions| - 1];
      HealthDoesNotSteer(before);
      assert AllQuiet(actions)[..|actions| - 1] == AllQuiet(before);
    }
  }

  // ----- What each cycle answers, in numbers -----

  /** The reading of the latest frame that arrived, or all zeros before any. */
  function LatestReading(actions: seq<Action>): Reading {
    if actions == [] then Sensors(
      0.0, 0.0, 0.0, 0.0, 0.0, 0.0, 0.0, 0.0, 0.0, 0.0, 0, 0, 0.0, 0.0, 0, 0.0, 0.0, 0, 0)
    else match actions[|actions| - 1]
      case DoTurn(u) => if u.arrived.Some? then u.arrived.value else LatestReading(actions[..|actions| - 1])
      case DoOrder(_, _) => LatestReading(actions[..|actions| - 1])
  }

  /** In every run the sensors retained are those of the latest frame that arrived, however long ago. */
  lemma {:induction false} SensorsAreLatest(actions: seq<Action>)
    ensures Run(actions).sensors == LatestReading(actions)
  {
    hide Next, Word, Evaluate, Apply, Synced, Report, Previous;
    if actions != [] {
      SensorsAreLatest(actions[..|actions| - 1]);
    }
  }

  /** A cycle that finds the queue empty keeps the sensors, and re-evaluates the faults it had. */
  lemma EmptyTurnKeepsSensors(actions: seq<Action>, u: Turn)
    requires u.arrived == None
    ensures var t, v := Run(actions), Run(actions + [DoTurn(u)]);
      && v.sensors == t.sensors
      && (t.fsm.current != INIT ==> v.fsm.faults == t.fsm.faults)
  {
    hide Run, LatestReading, Word, Evaluate, SensorPart;
    LatestOfLast(actions, DoTurn(u));
    SensorsAreLatest(actions);
    SensorsAreLatest(actions + [DoTurn(u)]);
    FaultsAreEvaluated(actions);
    FlagsFollowSensors(actions, u);
  }

  lemma LatestOfLast(actions: seq<Action>, a: Action)
    ensures LatestReading(actions + [a]) ==
      if a.DoTurn? && a.turn.arrived.Some? then a.turn.arrived.value else LatestReading(actions)
  {
    assert (actions + [a])[..|actions|] == actions;
  }

  /** The bits of the evaluated faults, with conditions and masks written out. */
  lemma FaultBits(s: Reading)
    ensures Evaluate(s) & 0x01 != 0 <==> s.fixQuality == 0 || s.satellites < 4
    ensures Evaluate(s) & 0x02 != 0 <==>
      (s.accelX == 0.0 && s.accelY == 0.0 && s.accelZ == 0.0 && s.gyroX == 0.0 && s.gyroY == 0.0 && s.gyroZ == 0.0)
    ensures Evaluate(s) & 0x04 != 0 <==> s.batteryVoltage < 10.5
    ensures Evaluate(s) & 0xF8 == 0
  {
    hide Evaluate;
  }

  /** The flags reach the state machine, and its log, unchanged. */
  lemma WordKeepsFlags(flags: bv8)
    ensures Word(flags) & 0xFFFF_FF00 == 0 && (Word(flags) & 0xFF) as bv8 == flags
  {
  }

  /** An alarm is bit 3 or bit 5 of the flags. */
  lemma AlarmBits(flags: bv8)
    ensures Has(flags, COMMS_TIMEOUT) <==> flags & 0x08 != 0
    ensures Has(flags, STACK_OVERFLOW) <==> flags & 0x20 != 0
  {
  }

  /**
    The link times out, on true times seen modulo 2^32, exactly when a packet has come, at a time
    the code does not read as never, and the wrapped silence exceeds a second; within one turn of
    the clock that silence is the true one.
    */
  lemma TimedOutIff(now: nat, lastRx: nat)
    ensures TimedOut(now % 0x1_0000_0000, lastRx % 0x1_0000_0000) <==>
      lastRx % 0x1_0000_0000 != 0 && ((now as int) - (lastRx as int)) % 0x1_0000_0000 > 1000
    ensures lastRx <= now < lastRx + 0x1_0000_0000 ==>
      (TimedOut(now % 0x1_0000_0000, lastRx % 0x1_0000_0000) <==>
       lastRx % 0x1_0000_0000 != 0 && now - lastRx > 1000)
  {
    WrappedDifference(now, lastRx);
  }

  lemma WrappedDifference(a: nat, b: nat)
    ensures ((a % CLOCK_WRAP) as int - (b % CLOCK_WRAP) as int) % CLOCK_WRAP == ((a as int) - (b as int)) % CLOCK_WRAP
  {
    var m := a / CLOCK_WRAP - b / CLOCK_WRAP;
    assert a - b == a % CLOCK_WRAP - b % CLOCK_WRAP + CLOCK_WRAP * m;
  }

  /** No flag but the three sensor faults and the two alarms is ever set. */
  predicate Known(flags: bv8) {
    flags & 0xD0 == 0
  }

  lemma ApplyOneKnown(f: bv8, h: Health)
    requires Known(f)
    ensures Known(ApplyOne(f, h))
  {
  }

  lemma {:induction false} ApplyKnown(f: bv8, ops: seq<Health>)
    requires Known(f)
    ensures Known(Apply(f, ops))
  {
    hide ApplyOne, Known;
    if ops != [] {
      ApplyKnown(f, ops[..|ops| - 1]);
      ApplyOneKnown(Apply(f, ops[..|ops| - 1]), ops[|ops| - 1]);
    }
  }

  lemma WordsKnown(f: bv8, prev: bv8, faults: bv8)
    requires Known(f) && SensorOnly(faults)
    ensures Known(Raise(f, Lower(faults, prev))) && Known(Lower(f, Lower(prev, faults)))
  {
    assert (f | (faults & !prev)) & 0xD0 == 0;
    assert (f & !(prev & !faults)) & 0xD0 == 0;
  }

  lemma {:induction false} RunKnown(actions: seq<Action>)
    ensures Known(Run(actions).flags)
  {
    hide Known, Apply, Raise, Lower, Evaluate, Next, Report, SensorOnly, Word;
    if actions == [] {
      NothingKnown();
    } else {
      var before, last := Run(actions[..|actions| - 1]), actions[|actions| - 1];
      RunKnown(actions[..|actions| - 1]);
      if last.DoTurn? {
        var u := last.turn;
        var prev, faults := Apply(before.flags, u.beforeGet), Evaluate(Retained(before, u));
        ApplyKnown(before.flags, u.beforeGet);
        ApplyKnown(prev, u.beforeSet);
        WordsKnown(Apply(prev, u.beforeSet), prev, faults);
        var y := Raise(Apply(prev, u.beforeSet), Lower(faults, prev));
        ApplyKnown(y, u.beforeClear);
        WordsKnown(Apply(y, u.beforeClear), prev, faults);
        ApplyKnown(Synced(prev, faults, u), u.afterClear);
      }
    }
  }

  lemma NothingKnown()
    ensures Known(0)
  {
  }

  lemma ByParts(prev: bv8, faults: bv8)
    requires prev & 0xD0 == 0 && faults & !7 == 0
    ensures faults == prev <==> prev & 7 == faults && prev & 8 == 0 && prev & 32 == 0
    ensures faults > prev <==> faults > prev & 7 && prev & 8 == 0 && prev & 32 == 0
  {
  }

  lemma ReportByParts(prev: bv8, faults: bv8)
    requires Known(prev) && SensorOnly(faults)
    ensures faults == prev <==>
      SensorPart(prev) == faults && !Has(prev, COMMS_TIMEOUT) && !Has(prev, STACK_OVERFLOW)
    ensures Above(faults, prev) <==>
      Above(faults, SensorPart(prev)) && !Has(prev, COMMS_TIMEOUT) && !Has(prev, STACK_OVERFLOW)
  {
    ByParts(prev, faults);
  }

  /**
    The fault log over every run: a cycle adds no entry exactly when the sensor bits were already
    the faults of the sensors it retains and its get saw no alarm.  Otherwise it adds one entry, with
    the new state, those faults and that reading, which is a FAULT_SET exactly when no alarm was
    seen and the new sensor bits are the greater word.
    */
  lemma TurnLogged(actions: seq<Action>, u: Turn)
    ensures
      var t, v := Run(actions), Run(actions + [DoTurn(u)]);
      var faults, s := Evaluate(v.sensors), v.sensors;
      var alarm := Seen(t, u, COMMS_TIMEOUT) || Seen(t, u, STACK_OVERFLOW);
      if SensorPart(t.flags) == faults && !alarm then v.log == t.log
      else v.log == t.log + [FaultEntry(
        if !alarm && Above(faults, SensorPart(t.flags)) then FAULT_SET else FAULT_CLEAR,
        v.fsm.current, faults, s.status, s.batteryVoltage, s.altitude, s.accelZ)]
  {
    hide Apply, Synced, Next, Word, Evaluate, SensorPart, SensorOnly, Has, Above, Known, Seen;
    var t := Run(actions);
    assert (actions + [DoTurn(u)])[..|actions|] == actions;
    assert Run(actions + [DoTurn(u)]) == Cycle(t, u);
    var prev := Previous(t, u);
    RunKnown(actions);
    ApplyKnown(t.flags, u.beforeGet);
    ApplyLow(t.flags, u.beforeGet);
    SeenIsPrevious(t, u, COMMS_TIMEOUT);
    SeenIsPrevious(t, u, STACK_OVERFLOW);
    ReportByParts(prev, Evaluate(Retained(t, u)));
    assert t.log + [] == t.log;
  }
}
