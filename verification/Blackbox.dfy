/**
  The black-box log: a ring of 512 records that drops the oldest, with a 16-bit sequence
  number, a read cursor and a rewind.

  `Ring` and the functions on it are the ring as a value; `Blackbox` is the firmware's struct.
  Each mutex-protected operation is one atomic step.
  */
module Blackbox {
  import opened Bytes

  const CAPACITY: nat := 512
  const SEQUENCE_WRAP: nat := 0x1_0000
  const MESSAGE_LENGTH: nat := 32

  /** What a caller logs; floats are carried, never computed with. */
  datatype LogData = LogData(
    timestamp: nat, event: nat, state: nat, faults: nat, status: nat,
    voltage: real, altitude: real, acceleration: real, message: string)

  datatype Record = Record(data: LogData, sequence: nat)

  datatype Ring = Ring(
    entries: seq<Record>, writeIdx: nat, readIdx: nat, count: nat, sequence: nat, overflow: bool)
  {
    ghost predicate Valid() {
      && |entries| == CAPACITY
      && writeIdx < CAPACITY && readIdx < CAPACITY && count <= CAPACITY
      && sequence < SEQUENCE_WRAP
    }
  }

  function Next(i: nat): nat {
    (i + 1) % CAPACITY
  }

  /** At most 31 characters of a message are kept. */
  function Clipped(msg: Option<string>): string {
    match msg
    case None => ""
    case Some(m) => if |m| < MESSAGE_LENGTH then m else m[..MESSAGE_LENGTH - 1]
  }

  function BlankRecord(): Record {
    Record(LogData(0, 0, 0, 0, 0, 0.0, 0.0, 0.0, ""), 0)
  }

  // ----- The operations on values -----

  function Empty(): (r: Ring)
    ensures r.Valid()
  {
    Ring(seq(CAPACITY, _ => BlankRecord()), 0, 0, 0, 0, false)
  }

  function Log(r: Ring, d: LogData): (r': Ring)
    requires r.Valid()
    ensures r'.Valid()
  {
    var full := r.count == CAPACITY;
    Ring(r.entries[r.writeIdx := Record(d, r.sequence)],
         Next(r.writeIdx),
         if full then Next(r.readIdx) else r.readIdx,
         if full then r.count else r.count + 1,
         (r.sequence + 1) % SEQUENCE_WRAP,
         r.overflow || full)
  }

  /** The availability test of the code, as written. */
  predicate Available(r: Ring) {
    r.count > 0 && (r.readIdx != r.writeIdx || r.overflow)
  }

  function Taken(r: Ring): (r': Ring)
    requires r.Valid() && r.count > 0
    ensures r'.Valid()
  {
    r.(readIdx := Next(r.readIdx), count := r.count - 1, overflow := false)
  }

  function Read(r: Ring): (result: (Ring, Option<Record>))
    requires r.Valid()
    ensures result.0.Valid()
  {
    if Available(r) then (Taken(r), Some(r.entries[r.readIdx])) else (r, None)
  }

  /** The read with the availability test corrected to "something is held". */
  function ReadCorrected(r: Ring): (result: (Ring, Option<Record>))
    requires r.Valid()
    ensures result.0.Valid()
  {
    if r.count > 0 then (Taken(r), Some(r.entries[r.readIdx])) else (r, None)
  }

  function Rewind(r: Ring): (r': Ring)
    requires r.Valid()
    ensures r'.Valid()
  {
    r.(readIdx := if r.sequence >= CAPACITY then r.writeIdx else 0)
  }

  // ----- The firmware's struct -----

  class Blackbox {
    const entries: array<Record>
    var writeIdx: nat
    var readIdx: nat
    var count: nat
    var sequence: nat
    var overflow: bool

    ghost predicate Valid()
      reads this, entries
    {
      && entries.Length == CAPACITY
      && State().Valid()
    }

    ghost function State(): Ring
      reads this, entries
    {
      Ring(entries[..], writeIdx, readIdx, count, sequence, overflow)
    }

    constructor ()
      ensures Valid() && fresh(entries) && State() == Empty()
    {
      entries := new Record[CAPACITY](_ => BlankRecord());
      writeIdx, readIdx, count, sequence, overflow := 0, 0, 0, 0, false;
      new;
      assert entries[..] == Empty().entries;
    }

    method Append(now: nat, event: nat, state: nat, faults: nat, status: nat,
                  voltage: real, altitude: real, acceleration: real, msg: Option<string>)
      requires Valid()
      modifies this, entries
      ensures Valid()
      ensures State() == Log(old(State()), LogData(now, event, state, faults, status,
                                                   voltage, altitude, acceleration, Clipped(msg)))
      ensures
        var kept := entries[old(writeIdx)].data.message;
        match msg
        case None => kept == ""
        case Some(m) => kept <= m && |kept| == if |m| <= 31 then |m| else 31
    {
      var data := LogData(now, event, state, faults, status, voltage, altitude, acceleration, Clipped(msg));
      entries[writeIdx] := Record(data, sequence);
      sequence := (sequence + 1) % SEQUENCE_WRAP;
      writeIdx := (writeIdx + 1) % CAPACITY;
      if count < CAPACITY {
        count := count + 1;
      } else {
        overflow := true;
        readIdx := (readIdx + 1) % CAPACITY;
      }
    }

    method Take() returns (out: Option<Record>)
      requires Valid()
      modifies this
      ensures Valid()
      ensures (State(), out) == Read(old(State()))
    {
      var available := count > 0 && (readIdx != writeIdx || overflow);
      out := None;
      if available {
        out := Some(entries[readIdx]);
        readIdx := (readIdx + 1) % CAPACITY;
        if count > 0 {
          count := count - 1;
        }
        overflow := false;
      }
    }

    method Peek(idx: nat) returns (out: Option<Record>)
      requires Valid()
      ensures out == if idx < 512 then Some(State().entries[idx]) else None
    {
      if idx >= CAPACITY {
        return None;
      }
      out := Some(entries[idx]);
    }

    method RewindCursor()
      requires Valid()
      modifies this`readIdx
      ensures Valid()
      ensures State() == Rewind(old(State()))
    {
      if sequence >= CAPACITY {
        readIdx := writeIdx;
      } else {
        readIdx := 0;
      }
    }
  }
}
