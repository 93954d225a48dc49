/**
  The flight state machine: its transition table, one tick, one command, and the log entry that
  every transition leaves.  Thresholds are compared over real numbers.
  */
module FlightFsm {
  import opened Bytes
  import opened SensorData

  type Reading = Sensors<real, real>

  datatype State = INIT | PREFLIGHT | ARMED | FLYING | LANDING | FAULT

  datatype Event =
    | SENSOR_OK | GPS_ACQUIRED | ARMED_CMD | LIFTOFF | LAND_DETECT | FAULT_DETECTED | FAULT_CLEARED | DISARM_CMD

  datatype Edge = Edge(from: State, to: State, event: Event)

  /** The legal transitions; whatever is not listed is forbidden. */
  function Table(): (t: seq<Edge>)
    ensures |t| == 11
  {
    [Edge(INIT, PREFLIGHT, SENSOR_OK),
     Edge(PREFLIGHT, ARMED, ARMED_CMD),
     Edge(ARMED, PREFLIGHT, DISARM_CMD),
     Edge(ARMED, FLYING, LIFTOFF),
     Edge(FLYING, LANDING, LAND_DETECT),
     Edge(LANDING, PREFLIGHT, DISARM_CMD),
     Edge(PREFLIGHT, FAULT, FAULT_DETECTED),
     Edge(ARMED, FAULT, FAULT_DETECTED),
     Edge(FLYING, FAULT, FAULT_DETECTED),
     Edge(LANDING, FAULT, FAULT_DETECTED),
     Edge(FAULT, PREFLIGHT, FAULT_CLEARED)]
  }

  const COUNT_WRAP: nat := 0x1_0000_0000
  const SENSOR_MASK: byte := 0x1F
  const GRAVITY: real := 9.81
  const LIFTOFF_G: real := 0.15
  const LANDING_ALTITUDE: real := 0.5
  const LANDING_SPEED: real := 0.3
  const ARMING_VOLTAGE: real := 11.0
  const ARMING_SATELLITES: byte := 4

  /**
    The state-change record a transition leaves in the black box.  The acceleration is kept as the
    square of its magnitude; `from` is not a field of the record, but its message names it.
    */
  datatype Entry = Entry(
    from: State, to: State, faults: byte, status: byte, voltage: real, altitude: real,
    accelSquared: real, message: string)

  datatype Context = Context(
    current: State, previous: State, lastEvent: Option<Event>, entryMs: nat, faults: bv32, count: nat,
    log: seq<Entry>)

  const START: Context := Context(INIT, INIT, None, 0, 0, 0, [])

  function LowByte(w: bv32): byte {
    (w & 0xFF) as bv8
  }

  // ----- Guards -----

  predicate SensorsReady(s: Reading) {
    s.status & SENSOR_MASK == SENSOR_MASK
  }

  /** Written in the source as the arming guard; no transition consults it. */
  predicate ReadyToArm(s: Reading, faults: bv32) {
    faults == 0 && s.batteryVoltage >= ARMING_VOLTAGE && s.satellites >= ARMING_SATELLITES && s.fixQuality != 0
  }

  predicate LiftsOff(s: Reading) {
    s.accelZ > GRAVITY * LIFTOFF_G
  }

  predicate Grounded(s: Reading) {
    s.altitude < LANDING_ALTITUDE && s.groundSpeed < LANDING_SPEED
  }

  // ----- Transitions on values -----

  function Name(s: State): string {
    match s
    case INIT => "INIT"
    case PREFLIGHT => "PREFLIGHT"
    case ARMED => "ARMED"
    case FLYING => "FLYING"
    case LANDING => "LANDING"
    case FAULT => "FAULT"
  }

  function Message(from: State, to: State): string {
    Name(from) + "->" + Name(to)
  }

  function AccelSquared(r: Reading): real {
    r.accelX * r.accelX + r.accelY * r.accelY + r.accelZ * r.accelZ
  }

  function EntryOf(from: State, to: State, faults: bv32, s: Option<Reading>): (e: Entry)
    ensures e.from == from && e.to == to && e.message == Message(from, to)
  {
    match s
    case Some(r) =>
      Entry(from, to, LowByte(faults), r.status, r.batteryVoltage, r.altitude, AccelSquared(r), Message(from, to))
    case None => Entry(from, to, LowByte(faults), 0, 0.0, 0.0, 0.0, Message(from, to))
  }

  /** A message fits its 32-byte buffer, and says which two states it is about. */
  lemma MessageIdentifies(from: State, to: State, from': State, to': State)
    ensures |Message(from, to)| < 32
    ensures Message(from, to) == Message(from', to') ==> from == from' && to == to'
  {
    hide Name;
    NameIsShort(from);
    NameIsShort(to);
    NameIsShort(from');
    var m, m' := Message(from, to), Message(from', to');
    if m == m' {
      assert m[..2] == Name(from)[..2] && m'[..2] == Name(from')[..2];
      NameByStart(from, from');
      assert m[|Name(from)| + 2..] == Name(to) && m'[|Name(from)| + 2..] == Name(to');
      NameByStart(to, to');
    }
  }

  lemma NameIsShort(s: State)
    ensures 4 <= |Name(s)| <= 9
  {
  }

  lemma NameByStart(s: State, t: State)
    ensures Name(s) == Name(t) || (|Name(s)| >= 2 && |Name(t)| >= 2 && Name(s)[..2] == Name(t)[..2]) ==> s == t
  {
    var a, b := Name(s), Name(t);
    assert a[..2][0] == a[0] && a[..2][1] == a[1] && b[..2][0] == b[0] && b[..2][1] == b[1];
  }

  function Enter(c: Context, to: State, event: Event, now: nat, s: Option<Reading>): Context {
    Context(to, c.current, Some(event), now, c.faults, (c.count + 1) % COUNT_WRAP,
            c.log + [EntryOf(c.current, to, c.faults, s)])
  }

  /** What one tick moves to, if anything. */
  function TickMove(from: State, s: Reading, faults: bv32): Option<(State, Event)> {
    match from
    case INIT => if SensorsReady(s) then Some((PREFLIGHT, SENSOR_OK)) else None
    case FAULT => if faults == 0 then Some((PREFLIGHT, FAULT_CLEARED)) else None
    case PREFLIGHT => if faults != 0 then Some((FAULT, FAULT_DETECTED)) else None
    case ARMED =>
      if faults != 0 then Some((FAULT, FAULT_DETECTED))
      else if LiftsOff(s) then Some((FLYING, LIFTOFF)) else None
    case FLYING =>
      if faults != 0 then Some((FAULT, FAULT_DETECTED))
      else if Grounded(s) then Some((LANDING, LAND_DETECT)) else None
    case LANDING => if faults != 0 then Some((FAULT, FAULT_DETECTED)) else None
  }

  function CommandMove(from: State, event: Event): Option<(State, Event)> {
    if event == ARMED_CMD && Edge(from, ARMED, event) in Table() then Some((ARMED, event))
    else if event == DISARM_CMD && Edge(from, PREFLIGHT, event) in Table() then Some((PREFLIGHT, event))
    else None
  }

  function Move(c: Context, move: Option<(State, Event)>, now: nat, s: Option<Reading>): Context {
    match move
    case Some((to, event)) => Enter(c, to, event, now, s)
    case None => c
  }

  datatype Input = Tick(sensors: Reading, faults: bv32, now: nat) | Command(event: Event, now: nat)

  function MoveOf(c: Context, i: Input): Option<(State, Event)> {
    match i
    case Tick(s, faults, _) => TickMove(c.current, s, faults)
    case Command(event, _) => CommandMove(c.current, event)
  }

  function Next(c: Context, i: Input): Context {
    match i
    case Tick(s, faults, now) => Move(c.(faults := faults), TickMove(c.current, s, faults), now, Some(s))
    case Command(event, now) => Move(c, CommandMove(c.current, event), now, None)
  }

  // ----- The firmware's struct -----

  class FsmContext {
    var current: State
    var previous: State
    var lastEvent: Option<Event>
    var entryMs: nat
    var faults: bv32
    var count: nat
    var log: seq<Entry>

    ghost function Value(): Context
      reads this
    {
      Context(current, previous, lastEvent, entryMs, faults, count, log)
    }

    constructor ()
      ensures Value() == START
    {
      current, previous := INIT, INIT;
      lastEvent := None;
      entryMs, faults, count := 0, 0, 0;
      log := [];
    }

    method DoTransition(to: State, event: Event, now: nat, s: Option<Reading>)
      modifies this
      ensures Value() == Enter(old(Value()), to, event, now, s)
    {
      hide AccelSquared, Name, LowByte;
      previous := current;
      current := to;
      lastEvent := Some(event);
      entryMs := now;
      count := (count + 1) % COUNT_WRAP;
      var message := Name(previous) + "->" + Name(current);
      var status, voltage, altitude, accelSquared := 0, 0.0, 0.0, 0.0;
      if s.Some? {
        var r := s.value;
        status, voltage, altitude := r.status, r.batteryVoltage, r.altitude;
        accelSquared := AccelSquared(r);
      }
      log := log + [Entry(previous, current, LowByte(faults), status, voltage, altitude, accelSquared, message)];
    }

    static method TransitionLegal(from: State, to: State, event: Event) returns (legal: bool)
      ensures legal <==> Edge(from, to, event) in Table()
    {
      hide Table;
      var table := Table();
      for i := 0 to |table|
        invariant Edge(from, to, event) !in table[..i]
      {
        if table[i].from == from && table[i].to == to && table[i].event == event {
          return true;
        }
      }
      return false;
    }

    /** One tick; the result says whether the state changed. */
    method Step(s: Reading, faultFlags: bv32, now: nat) returns (moved: bool)
      modifies this
      ensures Value() == Next(old(Value()), Tick(s, faultFlags, now))
      ensures moved <==> MoveOf(old(Value()), Tick(s, faultFlags, now)).Some?
    {
      hide Enter;
      faults := faultFlags;
      var cur := current;
      moved := false;
      if cur != INIT && cur != FAULT {
        if faultFlags != 0 {
          DoTransition(FAULT, FAULT_DETECTED, now, Some(s));
          return true;
        }
      }
      match cur {
        case INIT =>
          if SensorsReady(s) {
            DoTransition(PREFLIGHT, SENSOR_OK, now, Some(s));
            moved := true;
          }
        case PREFLIGHT =>
        case ARMED =>
          if LiftsOff(s) {
            DoTransition(FLYING, LIFTOFF, now, Some(s));
            moved := true;
          }
        case FLYING =>
          if Grounded(s) {
            DoTransition(LANDING, LAND_DETECT, now, Some(s));
            moved := true;
          }
        case LANDING =>
        case FAULT =>
          if faultFlags == 0 {
            DoTransition(PREFLIGHT, FAULT_CLEARED, now, Some(s));
            moved := true;
          }
      }
    }

    /** An arm or disarm command; refused when its edge is not in the table. */
    method Order(event: Event, now: nat) returns (accepted: bool)
      modifies this
      ensures Value() == Next(old(Value()), Command(event, now))
      ensures accepted <==> MoveOf(old(Value()), Command(event, now)).Some?
    {
      hide Enter;
      var target: State;
      match event {
        case ARMED_CMD => target := ARMED;
        case DISARM_CMD => target := PREFLIGHT;
        case _ => return false;
      }
      var legal := TransitionLegal(current, target, event);
      if !legal {
        return false;
      }
      DoTransition(target, event, now, None);
      return true;
    }
  }
}
