/**
  The state machine's log entries as black-box records: what the ring retains says which
  transitions took place, in order.
  */
module TransitionLog {
  import opened Bytes
  import opened Blackbox
  import opened BlackboxRuns
  import FlightFsm
  import FsmRuns

  const STATE_CHANGE: nat := 2

  function Code(s: FlightFsm.State): nat {
    match s
    case INIT => 0
    case PREFLIGHT => 1
    case ARMED => 2
    case FLYING => 3
    case LANDING => 4
    case FAULT => 5
  }

  /** What is handed to the black box for a transition, at some time and with some magnitude. */
  function DataOf(e: FlightFsm.Entry, now: nat, magnitude: real): LogData {
    LogData(now, STATE_CHANGE, Code(e.to), e.faults as nat, e.status as nat,
            e.voltage, e.altitude, magnitude, Clipped(Some(e.message)))
  }

  /** The record of a transition: its state code and the whole text of its message. */
  ghost predicate Tells(rec: Record, from: FlightFsm.State, to: FlightFsm.State) {
    && rec.data.event == 2 && rec.data.state == Code(to)
    && rec.data.message == FlightFsm.Message(from, to)
  }

  /** A transition message is kept whole. */
  lemma MessageKept(from: FlightFsm.State, to: FlightFsm.State)
    ensures Clipped(Some(FlightFsm.Message(from, to))) == FlightFsm.Message(from, to)
  {
    hide FlightFsm.Message;
    FlightFsm.MessageIdentifies(from, to, from, to);
  }

  /** So a record tells of at most one transition. */
  lemma TellsOne(rec: Record, from: FlightFsm.State, to: FlightFsm.State,
                 from': FlightFsm.State, to': FlightFsm.State)
    requires Tells(rec, from, to) && Tells(rec, from', to')
    ensures from == from' && to == to'
  {
    hide FlightFsm.Message;
    FlightFsm.MessageIdentifies(from, to, from', to');
  }

  /**
    The log calls of a run of the state machine among any other calls on the black box: `calls[k]`
    is the number of the record that carries entry `k`.
    */
  ghost predicate Carries(logged: seq<LogData>, log: seq<FlightFsm.Entry>, calls: seq<nat>) {
    && |calls| == |log|
    && (forall k :: 0 <= k < |calls| ==> calls[k] < |logged| && exists now, magnitude ::
        logged[calls[k]] == DataOf(log[k], now, magnitude))
  }

  /**
    Whatever else was logged, read and rewound, a transition of any run of the state machine whose
    record is among the last 512 is in the ring, in the slot of its number, and is told by that
    record alone.
    */
  lemma TransitionInRing(inputs: seq<FlightFsm.Input>, ops: seq<Op>, corrected: bool, calls: seq<nat>, k: nat)
    requires Carries(Run(ops, corrected).logged, FsmRuns.Run(inputs).log, calls)
    requires k < |calls| && |Run(ops, corrected).logged| <= calls[k] + CAPACITY
    ensures
      var e := FsmRuns.Run(inputs).log[k];
      Tells(Run(ops, corrected).ring.entries[calls[k] % 512], e.from, e.to)
  {
    hide Run, FsmRuns.Run, FlightFsm.Message, BlankRecord, Clipped, FsmRuns.Traced;
    var h, log := Run(ops, corrected), FsmRuns.Run(inputs).log;
    RunHoldsHistory(ops, corrected);
    LogMessages(inputs, k);
    MessageKept(log[k].from, log[k].to);
    SlotIs(calls[k]);
    assert h.ring.entries[Slot(calls[k])] == Stamped(h.logged, calls[k]);
  }

  lemma LogMessages(inputs: seq<FlightFsm.Input>, k: nat)
    requires k < |FsmRuns.Run(inputs).log|
    ensures var e := FsmRuns.Run(inputs).log[k]; e.message == FlightFsm.Message(e.from, e.to)
  {
    hide FsmRuns.Run, FlightFsm.Message;
    FsmRuns.RunIsPath(inputs);
    FsmRuns.PathEdges(FsmRuns.Run(inputs).log, FsmRuns.Run(inputs).current);
  }
}
