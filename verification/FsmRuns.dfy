/** Every run of the flight state machine, over any interleaving of ticks and commands. */
module FsmRuns {
  import opened Bytes
  import opened FlightFsm

  function Run(inputs: seq<Input>): Context {
    if inputs == [] then START else Next(Run(inputs[..|inputs| - 1]), inputs[|inputs| - 1])
  }

  // ----- Legal paths -----

  /** The event that labels the edge from one state to the next; the table has at most one. */
  function Label(from: State, to: State): Option<Event> {
    match to
    case INIT => None
    case PREFLIGHT =>
      if from == INIT then Some(SENSOR_OK)
      else if from == ARMED || from == LANDING then Some(DISARM_CMD)
      else if from == FAULT then Some(FAULT_CLEARED)
      else None
    case ARMED => if from == PREFLIGHT then Some(ARMED_CMD) else None
    case FLYING => if from == ARMED then Some(LIFTOFF) else None
    case LANDING => if from == FLYING then Some(LAND_DETECT) else None
    case FAULT => if from == INIT || from == FAULT then None else Some(FAULT_DETECTED)
  }

  /** The table is deterministic in its endpoints: the two state names of a log entry fix the event. */
  lemma TableIsLabelled(from: State, to: State, event: Event)
    ensures Edge(from, to, event) in Table() <==> Label(from, to) == Some(event)
  {
    var t := Table();
    assert t[0] == Edge(INIT, PREFLIGHT, SENSOR_OK);
    assert t[1] == Edge(PREFLIGHT, ARMED, ARMED_CMD);
    assert t[2] == Edge(ARMED, PREFLIGHT, DISARM_CMD);
    assert t[3] == Edge(ARMED, FLYING, LIFTOFF);
    assert t[4] == Edge(FLYING, LANDING, LAND_DETECT);
    assert t[5] == Edge(LANDING, PREFLIGHT, DISARM_CMD);
    assert t[6] == Edge(PREFLIGHT, FAULT, FAULT_DETECTED);
    assert t[7] == Edge(ARMED, FAULT, FAULT_DETECTED);
    assert t[8] == Edge(FLYING, FAULT, FAULT_DETECTED);
    assert t[9] == Edge(LANDING, FAULT, FAULT_DETECTED);
    assert t[10] == Edge(FAULT, PREFLIGHT, FAULT_CLEARED);
  }

  /** Whatever a tick or a command moves to, hard-coded or looked up, is an edge of the table. */
  lemma MovesAreListed(c: Context, i: Input)
    ensures MoveOf(c, i).Some? ==>
      && Edge(c.current, MoveOf(c, i).value.0, MoveOf(c, i).value.1) in Table()
      && Label(c.current, MoveOf(c, i).value.0) == Some(MoveOf(c, i).value.1)
  {
    hide Table, SensorsReady, LiftsOff, Grounded;
    var move := MoveOf(c, i);
    if move.Some? {
      TableIsLabelled(c.current, move.value.0, move.value.1);
      if i.Tick? {
        assert Label(c.current, move.value.0) == Some(move.value.1);
      }
    }
  }

  /** A command is obeyed in exactly three situations, whatever the sensors and the faults say. */
  lemma CommandAccepted(c: Context, event: Event, now: nat)
    ensures MoveOf(c, Command(event, now)).Some? <==>
      || (event == ARMED_CMD && c.current == PREFLIGHT)
      || (event == DISARM_CMD && (c.current == ARMED || c.current == LANDING))
  {
    hide Table;
    TableIsLabelled(c.current, ARMED, event);
    TableIsLabelled(c.current, PREFLIGHT, event);
  }

  /** The state changes of a log lead, edge by edge, from the initial state to `end`; the messages say so. */
  predicate Path(log: seq<Entry>, end: State) {
    if log == [] then end == INIT
    else
      var last := log[|log| - 1];
      && last.to == end && Label(last.from, last.to).Some? && last.message == Message(last.from, last.to)
      && Path(log[..|log| - 1], last.from)
  }

  ghost predicate Traced(c: Context) {
    && Path(c.log, c.current)
    && c.count == |c.log| % 0x1_0000_0000
    && (c.log == [] ==> c.lastEvent == None && c.previous == INIT)
    && (c.log != [] ==>
        var last := c.log[|c.log| - 1];
        c.previous == last.from && c.lastEvent == Label(last.from, last.to))
  }

  lemma StepTraced(c: Context, i: Input)
    requires Traced(c)
    ensures Traced(Next(c, i))
    ensures MoveOf(c, i).None? ==> Next(c, i).log == c.log && Next(c, i).current == c.current
    ensures MoveOf(c, i).Some? ==>
      && Next(c, i).current == MoveOf(c, i).value.0
      && |Next(c, i).log| == |c.log| + 1
      && Next(c, i).log[..|c.log|] == c.log
      && Next(c, i).log[|c.log|].from == c.current && Next(c, i).log[|c.log|].to == Next(c, i).current
  {
    hide Table, TickMove, CommandMove, Label, Traced, Enter;
    MovesAreListed(c, i);
    var faults := if i.Tick? then i.faults else c.faults;
    var s := if i.Tick? then Some(i.sensors) else None;
    TracedAnyFaults(c, faults);
    if MoveOf(c, i).Some? {
      var (to, event) := MoveOf(c, i).value;
      EnterTraced(c.(faults := faults), to, event, i.now, s);
    }
  }

  lemma TracedAnyFaults(c: Context, faults: bv32)
    requires Traced(c)
    ensures Traced(c.(faults := faults))
  {
  }

  lemma EnterTraced(c: Context, to: State, event: Event, now: nat, s: Option<Reading>)
    requires Traced(c) && Label(c.current, to) == Some(event)
    ensures var d := Enter(c, to, event, now, s);
      && Traced(d) && d.current == to
      && |d.log| == |c.log| + 1 && d.log[..|c.log|] == c.log
      && d.log[|c.log|].from == c.current && d.log[|c.log|].to == to
  {
    hide Label, EntryOf, Message;
    var d := Enter(c, to, event, now, s);
    assert d.log[..|c.log|] == c.log;
    assert (|c.log| % COUNT_WRAP + 1) % COUNT_WRAP == (|c.log| + 1) % COUNT_WRAP;
  }

  /**
    In every run, the logged state changes form a path in the table from the initial state to the
    current one, and the transition counter is its length modulo 2^32.
    */
  lemma {:induction false} RunIsPath(inputs: seq<Input>)
    ensures Traced(Run(inputs))
  {
    hide Next, Traced;
    if inputs == [] {
      StartTraced();
    } else {
      RunIsPath(inputs[..|inputs| - 1]);
      StepTraced(Run(inputs[..|inputs| - 1]), inputs[|inputs| - 1]);
    }
  }

  lemma StartTraced()
    ensures Traced(START)
  {
  }

  lemma NeverToInit(from: State, to: State)
    ensures Label(from, to).Some? ==> to != INIT
  {
  }

  lemma {:induction false} PathEdges(log: seq<Entry>, end: State)
    requires Path(log, end)
    ensures forall k :: 0 <= k < |log| ==>
      Label(log[k].from, log[k].to).Some? && log[k].message == Message(log[k].from, log[k].to)
    ensures forall k :: 0 < k < |log| ==> log[k].from == log[k - 1].to
    ensures log != [] ==> log[0].from == INIT && log[|log| - 1].to == end
    ensures forall k :: 0 <= k < |log| ==> log[k].to != INIT
  {
    hide Message, Label;
    if log != [] {
      var last := log[|log| - 1];
      PathEdges(log[..|log| - 1], last.from);
      NeverToInit(last.from, last.to);
    }
  }

  /** Once left, the initial state is never entered again. */
  lemma InitIsLeftForGood(inputs: seq<Input>, more: seq<Input>)
    requires Run(inputs).current != INIT
    ensures Run(inputs + more).current != INIT
  {
    hide Next, Traced, Path;
    RunIsPath(inputs + more);
    RunIsPath(inputs);
    LogGrows(inputs, more);
    InitIffNothingLogged(inputs);
    InitIffNothingLogged(inputs + more);
  }

  lemma InitIffNothingLogged(inputs: seq<Input>)
    ensures Run(inputs).current == INIT <==> Run(inputs).log == []
  {
    hide Next, Run;
    RunIsPath(inputs);
    PathEdges(Run(inputs).log, Run(inputs).current);
  }

  lemma {:induction false} LogGrows(inputs: seq<Input>, more: seq<Input>)
    ensures Run(inputs).log <= Run(inputs + more).log
  {
    hide Next, Traced;
    if more == [] {
      assert inputs + more == inputs;
    } else {
      var before := inputs + more[..|more| - 1];
      assert (inputs + more)[..|inputs + more| - 1] == before;
      LogGrows(inputs, more[..|more| - 1]);
      RunIsPath(before);
      StepTraced(Run(before), more[|more| - 1]);
    }
  }

  // ----- Balance -----

  function Entries(log: seq<Entry>, s: State): nat {
    if log == [] then 0
    else Entries(log[..|log| - 1], s) + if log[|log| - 1].to == s then 1 else 0
  }

  function Exits(log: seq<Entry>, s: State): nat {
    if log == [] then 0
    else Exits(log[..|log| - 1], s) + if log[|log| - 1].from == s then 1 else 0
  }

  function One(b: bool): nat {
    if b then 1 else 0
  }

  lemma {:induction false} PathBalance(log: seq<Entry>, end: State, s: State)
    requires Path(log, end)
    ensures Entries(log, s) + One(s == INIT) == Exits(log, s) + One(s == end)
  {
    if log != [] {
      PathBalance(log[..|log| - 1], log[|log| - 1].from, s);
    }
  }

  /** Each state has been entered as often as left, but for the start and the current state. */
  lemma RunBalance(inputs: seq<Input>, s: State)
    ensures Entries(Run(inputs).log, s) + One(s == INIT) ==
            Exits(Run(inputs).log, s) + One(s == Run(inputs).current)
  {
    hide Run;
    RunIsPath(inputs);
    PathBalance(Run(inputs).log, Run(inputs).current, s);
  }

  // ----- Arming before every flight -----

  /** Input number `k` made the machine move with this event. */
  predicate Happens(inputs: seq<Input>, k: nat, event: Event)
    requires k < |inputs|
  {
    var move := MoveOf(Run(inputs[..k]), inputs[k]);
    move.Some? && move.value.1 == event
  }

  lemma HappensEarlier(inputs: seq<Input>, n: nat, k: nat, event: Event)
    requires k < n <= |inputs|
    ensures Happens(inputs[..n], k, event) == Happens(inputs, k, event)
  {
    assert inputs[..n][..k] == inputs[..k];
  }

  /** An armed machine was armed by a command that was obeyed, and has been armed ever since. */
  lemma {:induction false} ArmedSince(inputs: seq<Input>) returns (k: nat)
    requires Run(inputs).current == ARMED
    ensures k < |inputs| && Happens(inputs, k, ARMED_CMD) && inputs[k].Command?
    ensures forall n :: k < n <= |inputs| ==> Run(inputs[..n]).current == ARMED
  {
    hide Next, Traced, Table;
    assert inputs[..|inputs|] == inputs;
    var last := |inputs| - 1;
    var before := inputs[..last];
    RunIsPath(before);
    StepTraced(Run(before), inputs[last]);
    MovesAreListed(Run(before), inputs[last]);
    if MoveOf(Run(before), inputs[last]).None? {
      k := ArmedSince(before);
      HappensEarlier(inputs, last, k, ARMED_CMD);
      forall n | k < n <= |inputs| ensures Run(inputs[..n]).current == ARMED {
        if n < |inputs| {
          assert before[..n] == inputs[..n];
        }
      }
    } else {
      k := last;
    }
  }

  lemma AfterLiftoff(inputs: seq<Input>, i: nat)
    requires i < |inputs| && Happens(inputs, i, LIFTOFF)
    ensures Run(inputs[..i]).current == ARMED && Run(inputs[..i + 1]).current == FLYING
    ensures inputs[i].Tick? && inputs[i].faults == 0 && inputs[i].sensors.accelZ > 1.4715
  {
    hide Next, Traced, Table;
    assert inputs[..i + 1][..i] == inputs[..i];
    RunIsPath(inputs[..i]);
    StepTraced(Run(inputs[..i]), inputs[i]);
    MovesAreListed(Run(inputs[..i]), inputs[i]);
  }

  /**
    Every liftoff is a fault-free tick with more than 0.15 g of vertical acceleration, and follows
    an arm command that was obeyed, with no other move in between.
    */
  lemma LiftoffNeedsArming(inputs: seq<Input>, j: nat) returns (k: nat)
    requires j < |inputs| && Happens(inputs, j, LIFTOFF)
    ensures inputs[j].Tick? && inputs[j].faults == 0 && inputs[j].sensors.accelZ > 1.4715
    ensures k < j && Happens(inputs, k, ARMED_CMD) && inputs[k].Command?
    ensures forall n :: k < n <= j ==> Run(inputs[..n]).current == ARMED
  {
    hide Next, Run, Happens;
    AfterLiftoff(inputs, j);
    k := ArmedSince(inputs[..j]);
    HappensEarlier(inputs, j, k, ARMED_CMD);
    forall n | k < n <= j ensures Run(inputs[..n]).current == ARMED {
      assert inputs[..j][..n] == inputs[..n];
    }
  }

  /** Two liftoffs are separated by an arm command that was obeyed. */
  lemma LiftoffsAreSeparated(inputs: seq<Input>, i: nat, j: nat) returns (k: nat)
    requires i < j < |inputs| && Happens(inputs, i, LIFTOFF) && Happens(inputs, j, LIFTOFF)
    ensures i < k < j && Happens(inputs, k, ARMED_CMD) && inputs[k].Command?
  {
    hide Next, Run;
    k := LiftoffNeedsArming(inputs, j);
    AfterLiftoff(inputs, i);
    var after := Run(inputs[..i + 1]).current;
    assert k < i ==> after == ARMED;
  }

  // ----- Faults -----

  /** The latest tick of the run is the one that left the initial state. */
  predicate JustInitialised(inputs: seq<Input>) {
    inputs != [] &&
    var before, last := inputs[..|inputs| - 1], inputs[|inputs| - 1];
    if last.Tick? then Happens(inputs, |inputs| - 1, SENSOR_OK) else JustInitialised(before)
  }

  ghost predicate FaultsAgree(c: Context, window: bool) {
    && (c.current == FAULT ==> c.faults != 0)
    && (c.current == FLYING || c.current == LANDING ==> c.faults == 0)
    && ((c.current == PREFLIGHT || c.current == ARMED) && c.faults != 0 ==> window)
  }

  lemma TickFaults(c: Context, s: Reading, faults: bv32, now: nat)
    ensures var d := Next(c, Tick(s, faults, now));
      && d.faults == faults
      && (c.current != INIT ==> (d.current == FAULT <==> faults != 0))
      && (c.current == INIT ==> d.current == INIT || (d.current == PREFLIGHT && SensorsReady(s)))
  {
    hide LowByte;
  }

  lemma CommandFaults(c: Context, event: Event, now: nat, window: bool)
    requires FaultsAgree(c, window)
    ensures FaultsAgree(Next(c, Command(event, now)), window)
    ensures Next(c, Command(event, now)).current == INIT <==> c.current == INIT
  {
    hide Table, LowByte;
    CommandAccepted(c, event, now);
  }

  /**
    In every run FAULT has a reason, flight is fault-free, and the machine stands on the ground
    with faults recorded only until the first tick after the one that left INIT.
    */
  lemma {:induction false} FaultInvariant(inputs: seq<Input>)
    ensures FaultsAgree(Run(inputs), JustInitialised(inputs))
  {
    hide Next, TickMove, CommandMove, Table;
    if inputs != [] {
      var before, last := inputs[..|inputs| - 1], inputs[|inputs| - 1];
      FaultInvariant(before);
      match last {
        case Tick(s, faults, now) =>
          TickFaults(Run(before), s, faults, now);
          if Run(before).current == INIT {
            InitTick(Run(before), s, faults, now);
          }
        case Command(event, now) =>
          CommandFaults(Run(before), event, now, JustInitialised(before));
      }
    }
  }

  /** The flags given to the latest tick, or none before any. */
  function LastFlags(inputs: seq<Input>): bv32 {
    if inputs == [] then 0
    else if inputs[|inputs| - 1].Tick? then inputs[|inputs| - 1].faults
    else LastFlags(inputs[..|inputs| - 1])
  }

  lemma {:induction false} StoredAreLast(inputs: seq<Input>)
    ensures Run(inputs).faults == LastFlags(inputs)
  {
    hide Next;
    if inputs != [] {
      var before, last := inputs[..|inputs| - 1], inputs[|inputs| - 1];
      StoredAreLast(before);
      NextFaults(Run(before), last);
    }
  }

  lemma NextFaults(c: Context, i: Input)
    ensures Next(c, i).faults == if i.Tick? then i.faults else c.faults
  {
    hide LowByte, TickMove, CommandMove;
  }

  /**
    Exactly when faults are stored while the vehicle stands ready or armed: the latest tick is the
    one that left INIT, and it was given faults.
    */
  lemma FaultsOnGroundIff(inputs: seq<Input>)
    requires Run(inputs).current == PREFLIGHT || Run(inputs).current == ARMED
    ensures Run(inputs).faults != 0 <==> JustInitialised(inputs) && LastFlags(inputs) != 0
  {
    hide Run, LastFlags, JustInitialised;
    FaultInvariant(inputs);
    StoredAreLast(inputs);
  }

  lemma InitTick(c: Context, s: Reading, faults: bv32, now: nat)
    requires c.current == INIT
    ensures var t := Tick(s, faults, now);
      && (SensorsReady(s) ==> Next(c, t).current == PREFLIGHT && MoveOf(c, t) == Some((PREFLIGHT, SENSOR_OK)))
      && (!SensorsReady(s) ==> Next(c, t).current == INIT)
  {
    hide LowByte;
  }

  /**
    The window is real: the tick that leaves INIT ignores faults, and arming consults neither the
    faults nor the battery nor the satellites, so such a run arms with faults recorded.
    */
  lemma ArmedWithFaults(s: Reading, faults: bv32)
    requires SensorsReady(s) && faults != 0
    ensures var c := Run([Tick(s, faults, 0), Command(ARMED_CMD, 0)]);
      c.current == ARMED && c.faults == faults && !ReadyToArm(s, c.faults)
  {
    hide Table, LowByte, SensorsReady, TickMove, CommandMove;
    var inputs := [Tick(s, faults, 0), Command(ARMED_CMD, 0)];
    assert inputs[..1] == [Tick(s, faults, 0)] && inputs[..1][..0] == [];
    assert Run(inputs[..1]) == Next(START, Tick(s, faults, 0));
    InitTick(START, s, faults, 0);
    CommandArms(Run(inputs[..1]), 0);
  }

  lemma CommandArms(c: Context, now: nat)
    requires c.current == PREFLIGHT
    ensures Next(c, Command(ARMED_CMD, now)).current == ARMED
    ensures Next(c, Command(ARMED_CMD, now)).faults == c.faults
  {
    hide Table, LowByte;
    TableIsLabelled(PREFLIGHT, ARMED, ARMED_CMD);
  }

  // ----- What each step answers, in numbers -----

  /** Where a tick leads from each state, with every threshold written out. */
  lemma TickLeads(c: Context, s: Reading, faults: bv32, now: nat)
    ensures var d := Next(c, Tick(s, faults, now)).current;
      match c.current
      case INIT => d == if s.status & 0x1F == 0x1F then PREFLIGHT else INIT
      case PREFLIGHT => d == if faults != 0 then FAULT else PREFLIGHT
      case ARMED => d == if faults != 0 then FAULT else if s.accelZ > 1.4715 then FLYING else ARMED
      case FLYING =>
        d == if faults != 0 then FAULT else if s.altitude < 0.5 && s.groundSpeed < 0.3 then LANDING else FLYING
      case LANDING => d == if faults != 0 then FAULT else LANDING
      case FAULT => d == if faults == 0 then PREFLIGHT else FAULT
  {
    hide EntryOf;
  }

  /** An armed vehicle lifts off at a tick exactly when the flags are clear and the vertical reading exceeds 0.15 g. */
  lemma LiftsOffIff(c: Context, s: Reading, faults: bv32, now: nat)
    requires c.current == ARMED
    ensures Next(c, Tick(s, faults, now)).current == FLYING <==> faults == 0 && s.accelZ > 1.4715
    ensures s.accelZ == 9.81 ==> Next(c, Tick(s, 0, now)).current == FLYING
  {
    hide Next;
    TickLeads(c, s, faults, now);
    TickLeads(c, s, 0, now);
  }

  /** A flying vehicle lands at a tick exactly when the flags are clear and it is both low and slow. */
  lemma LandsIff(c: Context, s: Reading, faults: bv32, now: nat)
    requires c.current == FLYING
    ensures Next(c, Tick(s, faults, now)).current == LANDING <==>
      faults == 0 && s.altitude < 0.5 && s.groundSpeed < 0.3
  {
    hide Next;
    TickLeads(c, s, faults, now);
  }

  /** What has to be true of the state and the input for an event to take place. */
  predicate Cause(event: Event, from: State, i: Input) {
    match event
    case SENSOR_OK => from == INIT && i.Tick? && i.sensors.status & 0x1F == 0x1F
    case GPS_ACQUIRED => false
    case ARMED_CMD => from == PREFLIGHT && i.Command? && i.event == ARMED_CMD
    case LIFTOFF => from == ARMED && i.Tick? && i.faults == 0 && i.sensors.accelZ > 1.4715
    case LAND_DETECT =>
      from == FLYING && i.Tick? && i.faults == 0 && i.sensors.altitude < 0.5 && i.sensors.groundSpeed < 0.3
    case FAULT_DETECTED => from != INIT && from != FAULT && i.Tick? && i.faults != 0
    case FAULT_CLEARED => from == FAULT && i.Tick? && i.faults == 0
    case DISARM_CMD => (from == ARMED || from == LANDING) && i.Command? && i.event == DISARM_CMD
  }

  lemma MoveHasCause(c: Context, i: Input, event: Event)
    ensures MoveOf(c, i).Some? && MoveOf(c, i).value.1 == event <==> Cause(event, c.current, i)
  {
    hide Table;
    if i.Command? {
      CommandAccepted(c, i.event, i.now);
    }
  }

  /**
    In every run, an event takes place at an input exactly when its cause is there: arming and
    disarming only by command, every other event only at a tick that meets its thresholds.
    */
  lemma EventIffCause(inputs: seq<Input>, k: nat, event: Event)
    requires k < |inputs|
    ensures Happens(inputs, k, event) <==> Cause(event, Run(inputs[..k]).current, inputs[k])
  {
    hide MoveOf, Cause, Run;
    MoveHasCause(Run(inputs[..k]), inputs[k], event);
  }

  /**
    In every run, the entry that an input adds to the log holds the reading of that input, or
    zeros for a command, the low byte of the flags then stored, and its time becomes the entry time.
    */
  lemma EntryRecords(inputs: seq<Input>, k: nat, event: Event)
    requires k < |inputs| && Happens(inputs, k, event)
    ensures var c, d := Run(inputs[..k]), Run(inputs[..k + 1]);
      && |d.log| == |c.log| + 1 && d.entryMs == inputs[k].now && d.lastEvent == Some(event)
      && var e := d.log[|c.log|];
        match inputs[k]
        case Tick(s, faults, _) =>
          && e.faults == (faults & 0xFF) as bv8 && e.status == s.status
          && e.voltage == s.batteryVoltage && e.altitude == s.altitude
          && e.accelSquared == s.accelX * s.accelX + s.accelY * s.accelY + s.accelZ * s.accelZ
        case Command(_, _) =>
          && e.faults == (c.faults & 0xFF) as bv8 && e.status == 0
          && e.voltage == 0.0 && e.altitude == 0.0 && e.accelSquared == 0.0
  {
    hide TickMove, CommandMove, Message;
    assert inputs[..k + 1][..k] == inputs[..k];
    assert Run(inputs[..k + 1]) == Next(Run(inputs[..k]), inputs[k]);
  }

  /** The guard that no transition consults, and the state every run begins in. */
  lemma GuardAndStart(s: Reading, faults: bv32)
    ensures ReadyToArm(s, faults) <==>
      faults == 0 && s.batteryVoltage >= 11.0 && s.satellites >= 4 && s.fixQuality != 0
    ensures Run([]) == Context(INIT, INIT, None, 0, 0, 0, [])
  {
  }

  /** The texts that messages are made of. */
  lemma MessageTexts()
    ensures Message(INIT, PREFLIGHT) == "INIT->PREFLIGHT" && Message(ARMED, FLYING) == "ARMED->FLYING"
    ensures Message(LANDING, FAULT) == "LANDING->FAULT"
  {
  }
}
