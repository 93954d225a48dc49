/**
  The flight task's cycle, and the fault flags it shares with the health task.

  The flags' get, set and clear are atomic; between any two of the flight task's steps the health
  task may raise or drop its own alarms, any number of times.  A `Turn` is one cycle with the
  health operations of each gap, so a sequence of turns is an arbitrary interleaving of the two.
  */
module FsmTask {
  import opened Bytes
  import opened SensorData
  import opened FlightFsm

  const GPS_LOSS: bv8 := 0x01
  const SENSOR_FREEZE: bv8 := 0x02
  const BATT_LOW: bv8 := 0x04
  const SENSOR_FAULTS: bv8 := 0x07
  const GPS_MIN_SATELLITES: byte := 4
  const BATT_LOW_VOLTAGE: real := 10.5
  const COMMS_TIMEOUT_MS: nat := 1000
  const CLOCK_WRAP: nat := 0x1_0000_0000

  // ----- Sensor faults -----

  predicate GpsLost(s: Reading) {
    s.fixQuality == 0 || s.satellites < GPS_MIN_SATELLITES
  }

  predicate BatteryLow(s: Reading) {
    s.batteryVoltage < BATT_LOW_VOLTAGE
  }

  predicate AllZero(s: Reading) {
    && s.accelX == 0.0 && s.accelY == 0.0 && s.accelZ == 0.0
    && s.gyroX == 0.0 && s.gyroY == 0.0 && s.gyroZ == 0.0
  }

  function Evaluate(s: Reading): (flags: bv8)
    ensures flags & GPS_LOSS != 0 <==> GpsLost(s)
    ensures flags & BATT_LOW != 0 <==> BatteryLow(s)
    ensures flags & SENSOR_FREEZE != 0 <==> AllZero(s)
    ensures SensorOnly(flags)
    ensures flags == 0 <==> !GpsLost(s) && !BatteryLow(s) && !AllZero(s)
  {
    (if GpsLost(s) then GPS_LOSS else 0)
    | (if BatteryLow(s) then BATT_LOW else 0)
    | (if AllZero(s) then SENSOR_FREEZE else 0)
  }

  // ----- Flag words: the event group's six flags all live in its low byte -----

  /** The flags as the 32-bit argument of the state machine. */
  function Word(flags: bv8): (w: bv32)
    ensures w == 0 <==> flags == 0
  {
    flags as bv32
  }

  function Raise(flags: bv8, mask: bv8): bv8 {
    flags | mask
  }

  function Lower(flags: bv8, mask: bv8): bv8 {
    flags & !mask
  }

  function SensorPart(flags: bv8): bv8 {
    flags & SENSOR_FAULTS
  }

  predicate SensorOnly(flags: bv8) {
    flags & !SENSOR_FAULTS == 0
  }

  predicate Above(x: bv8, y: bv8) {
    x > y
  }

  // ----- Health alarms -----

  datatype Alarm = COMMS_TIMEOUT | STACK_OVERFLOW

  function Mask(a: Alarm): bv8 {
    match a case COMMS_TIMEOUT => 0x08 case STACK_OVERFLOW => 0x20
  }

  predicate Has(flags: bv8, a: Alarm) {
    flags & Mask(a) != 0
  }

  datatype Health = Health(alarm: Alarm, on: bool)

  function ApplyOne(flags: bv8, h: Health): bv8 {
    if h.on then Raise(flags, Mask(h.alarm)) else Lower(flags, Mask(h.alarm))
  }

  function Apply(flags: bv8, ops: seq<Health>): bv8 {
    if ops == [] then flags else ApplyOne(Apply(flags, ops[..|ops| - 1]), ops[|ops| - 1])
  }

  predicate TimedOut(now: nat, lastRx: nat) {
    lastRx > 0 && ((now as int) - (lastRx as int)) % CLOCK_WRAP > COMMS_TIMEOUT_MS
  }

  /** One period of the health task: the stack alarm, then the link alarm, each set or cleared. */
  function HealthPeriod(stackCritical: bool, now: nat, lastRx: nat): seq<Health> {
    [Health(STACK_OVERFLOW, stackCritical), Health(COMMS_TIMEOUT, TimedOut(now, lastRx))]
  }

  // ----- One cycle on values -----

  datatype Kind = FAULT_SET | FAULT_CLEAR

  datatype FaultEntry = FaultEntry(
    kind: Kind, state: State, faults: byte, status: byte, voltage: real, altitude: real, accelZ: real)

  datatype Task = Task(flags: bv8, sensors: Reading, fsm: Context, log: seq<FaultEntry>)

  /** `beforeGet`, `beforeSet`, `beforeClear` and `afterClear` are what the health task does in each gap. */
  datatype Turn = Turn(
    arrived: Option<Reading>, now: nat,
    beforeGet: seq<Health>, beforeSet: seq<Health>, beforeClear: seq<Health>, afterClear: seq<Health>)

  const ZEROS: Reading := Sensors(
    0.0, 0.0, 0.0, 0.0, 0.0, 0.0, 0.0, 0.0, 0.0, 0.0, 0, 0, 0.0, 0.0, 0, 0.0, 0.0, 0, 0)

  const BOOT: Task := Task(0, ZEROS, START, [])

  function Retained(t: Task, u: Turn): Reading {
    match u.arrived case Some(s) => s case None => t.sensors
  }

  /** What the flight task's get returns. */
  function Previous(t: Task, u: Turn): bv8 {
    Apply(t.flags, u.beforeGet)
  }

  /** The flags when the clear is done. */
  function Synced(prev: bv8, faults: bv8, u: Turn): bv8 {
    Lower(Apply(Raise(Apply(prev, u.beforeSet), Lower(faults, prev)), u.beforeClear), Lower(prev, faults))
  }

  function Report(prev: bv8, faults: bv8, state: State, s: Reading): seq<FaultEntry> {
    if faults == prev then []
    else [FaultEntry(if Above(faults, prev) then FAULT_SET else FAULT_CLEAR,
                     state, faults, s.status, s.batteryVoltage, s.altitude, s.accelZ)]
  }

  function Cycle(t: Task, u: Turn): Task {
    var s := Retained(t, u);
    var faults := Evaluate(s);
    var prev := Previous(t, u);
    var fsm := Next(t.fsm, Tick(s, Word(faults), u.now));
    Task(Apply(Synced(prev, faults, u), u.afterClear), s, fsm, t.log + Report(prev, faults, fsm.current, s))
  }

  lemma RaiseNothing(flags: bv8)
    ensures Raise(flags, 0) == flags
    ensures Lower(flags, 0) == flags
  {
  }

  lemma ApplyTwo(flags: bv8, a: Health, b: Health)
    ensures Apply(flags, [a, b]) == ApplyOne(ApplyOne(flags, a), b)
  {
    hide ApplyOne;
    assert [a, b][..1] == [a] && [a][..0] == [];
    assert Apply(flags, [a]) == ApplyOne(flags, a);
  }

  // ----- The tasks' state -----

  class EventFlags {
    var bits: bv8

    constructor ()
      ensures bits == 0
    {
      bits := 0;
    }

    method Set(mask: bv8)
      modifies this
      ensures bits == Raise(old(bits), mask)
    {
      bits := bits | mask;
    }

    method Clear(mask: bv8)
      modifies this
      ensures bits == Lower(old(bits), mask)
    {
      bits := bits & !mask;
    }

    /** Some operations of the health task. */
    method Interleave(ops: seq<Health>)
      modifies this
      ensures bits == Apply(old(bits), ops)
    {
      hide Mask, Raise, Lower;
      for i := 0 to |ops|
        invariant bits == Apply(old(bits), ops[..i])
      {
        assert ops[..i + 1][..i] == ops[..i];
        if ops[i].on {
          Set(Mask(ops[i].alarm));
        } else {
          Clear(Mask(ops[i].alarm));
        }
      }
      assert ops[..|ops|] == ops;
    }

    /** The two alarms as one period of the health task sets or clears them. */
    method HealthCheck(stackCritical: bool, now: nat, lastRx: nat)
      modifies this
      ensures bits == Apply(old(bits), HealthPeriod(stackCritical, now, lastRx))
    {
      hide Raise, Lower, Mask, TimedOut;
      ApplyTwo(bits, Health(STACK_OVERFLOW, stackCritical), Health(COMMS_TIMEOUT, TimedOut(now, lastRx)));
      if stackCritical {
        Set(Mask(STACK_OVERFLOW));
      } else {
        Clear(Mask(STACK_OVERFLOW));
      }
      if TimedOut(now, lastRx) {
        Set(Mask(COMMS_TIMEOUT));
      } else {
        Clear(Mask(COMMS_TIMEOUT));
      }
    }
  }

  class FlightTask {
    const fsm: FsmContext
    const flags: EventFlags
    var sensors: Reading
    var log: seq<FaultEntry>

    ghost function Value(): Task
      reads this, fsm, flags
    {
      Task(flags.bits, sensors, fsm.Value(), log)
    }

    constructor (flags: EventFlags)
      ensures this.flags == flags && fresh(fsm)
      ensures sensors == ZEROS && fsm.Value() == START && log == []
    {
      var f := new FsmContext();
      fsm := f;
      this.flags := flags;
      sensors := ZEROS;
      log := [];
    }

    /** Get, set what is new, clear what is gone, with the health task in between. */
    method Sync(faults: bv8, u: Turn) returns (prev: bv8)
      modifies flags
      ensures prev == Apply(old(flags.bits), u.beforeGet)
      ensures flags.bits == Synced(prev, faults, u)
    {
      hide Apply, Raise, Lower;
      flags.Interleave(u.beforeGet);
      prev := flags.bits;
      flags.Interleave(u.beforeSet);
      RaiseNothing(flags.bits);
      if Lower(faults, prev) != 0 {
        flags.Set(Lower(faults, prev));
      }
      flags.Interleave(u.beforeClear);
      RaiseNothing(flags.bits);
      if Lower(prev, faults) != 0 {
        flags.Clear(Lower(prev, faults));
      }
    }

    method RunCycle(u: Turn)
      modifies this, fsm, flags
      ensures Value() == Cycle(old(Value()), u)
    {
      hide Apply, Synced, Evaluate, Next, Word, Above;
      if u.arrived.Some? {
        sensors := u.arrived.value;
      }
      var faults := Evaluate(sensors);
      var prev := Sync(faults, u);
      var _ := fsm.Step(sensors, Word(faults), u.now);
      flags.Interleave(u.afterClear);
      if faults != prev {
        log := log + [FaultEntry(
          if Above(faults, prev) then FAULT_SET else FAULT_CLEAR, fsm.current, faults,
          sensors.status, sensors.batteryVoltage, sensors.altitude, sensors.accelZ)];
      }
    }
  }
}
