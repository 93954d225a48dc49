/**
  The receive state machine.

  `Rx` and `Step` are the machine on values.  `RxContext` is the firmware's struct, with its
  fixed payload buffer and index; every call of `Feed` is one `Step`.  `Batch` is the batch
  parser the byte-at-a-time machine is meant to agree with.
  */
module Decoder {
  import opened Bytes
  import opened Wire

  datatype Rx =
    | WaitSof
    | WaitType
    | WaitLenLo(kind: byte)
    | WaitLenHi(kind: byte, lo: byte)
    | WaitPayload(kind: byte, len: nat, got: seq<byte>)
    | WaitCrcLo(kind: byte, got: seq<byte>)
    | WaitCrcHi(kind: byte, got: seq<byte>, crcLo: byte)
  {
    ghost predicate Valid() {
      && (WaitPayload? ==> |got| < len <= MAX_PAYLOAD)
      && (WaitCrcLo? || WaitCrcHi? ==> |got| <= MAX_PAYLOAD)
    }

    /** How many more bytes, at most, until the machine is looking for a start byte again. */
    function Remaining(): nat
      requires Valid()
    {
      match this
      case WaitSof => 0
      case WaitType => 5 + MAX_PAYLOAD
      case WaitLenLo(_) => 4 + MAX_PAYLOAD
      case WaitLenHi(_, _) => 3 + MAX_PAYLOAD
      case WaitPayload(_, len, got) => 2 + len - |got|
      case WaitCrcLo(_, _) => 2
      case WaitCrcHi(_, _, _) => 1
    }
  }

  datatype Outcome = Outcome(rx: Rx, frame: Option<Frame>)

  function Verdict(kind: byte, payload: seq<byte>, received: bv16): Option<Frame>
    requires |payload| <= MAX_PAYLOAD
  {
    if received == Check(kind, payload) then Some(Frame(kind, payload)) else None
  }

  function AfterLength(kind: byte, len: nat): Rx {
    if len == 0 then WaitCrcLo(kind, [])
    else if len > MAX_PAYLOAD then WaitSof
    else WaitPayload(kind, len, [])
  }

  function AfterPayloadByte(kind: byte, len: nat, got: seq<byte>): Rx {
    if |got| >= len then WaitCrcLo(kind, got) else WaitPayload(kind, len, got)
  }

  function Step(rx: Rx, b: byte): Outcome
    requires rx.Valid()
  {
    match rx
    case WaitSof => Outcome(if b == SOF then WaitType else WaitSof, None)
    case WaitType => Outcome(WaitLenLo(b), None)
    case WaitLenLo(kind) => Outcome(WaitLenHi(kind, b), None)
    case WaitLenHi(kind, lo) => Outcome(AfterLength(kind, Length(lo, b)), None)
    case WaitPayload(kind, len, got) => Outcome(AfterPayloadByte(kind, len, got + [b]), None)
    case WaitCrcLo(kind, got) => Outcome(WaitCrcHi(kind, got, b), None)
    case WaitCrcHi(kind, got, lo) => Outcome(WaitSof, Verdict(kind, got, Join(lo, b)))
  }

  /** One byte keeps the machine's invariant and, outside a frame, consumes the measure. */
  lemma StepProgress(rx: Rx, b: byte)
    requires rx.Valid()
    ensures Step(rx, b).rx.Valid()
    ensures !rx.WaitSof? ==> Step(rx, b).rx.Remaining() < rx.Remaining() <= 133
    ensures rx.WaitSof? ==> (Step(rx, b).rx.WaitSof? <==> b != SOF)
    ensures Step(rx, b).frame.Some? ==> rx.WaitCrcHi? && Step(rx, b).rx.WaitSof?
  {
    hide Length, Join, Check;
  }

  // ----- Streams -----

  /** The state after a stream. */
  function Run(rx: Rx, s: seq<byte>): (r: Rx)
    requires rx.Valid()
    ensures r.Valid()
  {
    if s == [] then rx
    else
      StepProgress(Run(rx, s[..|s| - 1]), s[|s| - 1]);
      Step(Run(rx, s[..|s| - 1]), s[|s| - 1]).rx
  }

  /** What each byte of a stream makes the machine report. */
  function Emits(rx: Rx, s: seq<byte>): (e: seq<Option<Frame>>)
    requires rx.Valid()
    ensures |e| == |s|
  {
    if s == [] then []
    else Emits(rx, s[..|s| - 1]) + [Step(Run(rx, s[..|s| - 1]), s[|s| - 1]).frame]
  }

  function Nones(n: nat): (e: seq<Option<Frame>>)
    ensures |e| == n
    ensures forall i :: 0 <= i < n ==> e[i] == None
  {
    seq(n, _ => None)
  }

  /** The batch parser: one entry a byte, a frame at the last byte of each accepted frame. */
  function Batch(s: seq<byte>): (e: seq<Option<Frame>>)
    ensures |e| == |s|
    decreases |s|
  {
    if s == [] then []
    else if s[0] != SOF then [None] + Batch(s[1..])
    else if |s| < 4 then Nones(|s|)
    else
      var len := Length(s[2], s[3]);
      if len > MAX_PAYLOAD then Nones(4) + Batch(s[4..])
      else if |s| < 6 + len then Nones(|s|)
      else
        var verdict := Verdict(s[1], s[4..4 + len], Join(s[4 + len], s[5 + len]));
        Nones(5 + len) + [verdict] + Batch(s[6 + len..])
  }

  lemma {:induction false} RunAppend(rx: Rx, a: seq<byte>, b: seq<byte>)
    requires rx.Valid()
    ensures Run(rx, a + b) == Run(Run(rx, a), b)
    ensures Emits(rx, a + b) == Emits(rx, a) + Emits(Run(rx, a), b)
  {
    hide Step;
    if b == [] {
      assert a + b == a;
    } else {
      assert (a + b)[..|a + b| - 1] == a + b[..|b| - 1];
      RunAppend(rx, a, b[..|b| - 1]);
    }
  }

  lemma RunOne(rx: Rx, s: seq<byte>)
    requires rx.Valid() && |s| == 1
    ensures Run(rx, s) == Step(rx, s[0]).rx
    ensures Emits(rx, s) == [Step(rx, s[0]).frame]
  {
    hide Step;
    assert s[..0] == [];
  }

  lemma RunFirst(rx: Rx, s: seq<byte>)
    requires rx.Valid() && s != []
    ensures Step(rx, s[0]).rx.Valid()
    ensures Run(rx, s) == Run(Step(rx, s[0]).rx, s[1..])
    ensures Emits(rx, s) == [Step(rx, s[0]).frame] + Emits(Step(rx, s[0]).rx, s[1..])
  {
    hide Step, Run, Emits;
    StepProgress(rx, s[0]);
    assert s == s[..1] + s[1..];
    RunOne(rx, s[..1]);
    RunAppend(rx, s[..1], s[1..]);
  }

  // ----- The byte machine is the batch parser -----

  lemma RunLast(rx: Rx, s: seq<byte>)
    requires rx.Valid() && s != []
    ensures var before := Run(rx, s[..|s| - 1]);
      && Run(rx, s) == Step(before, s[|s| - 1]).rx
      && Emits(rx, s) == Emits(rx, s[..|s| - 1]) + [Step(before, s[|s| - 1]).frame]
  {
    hide Step;
  }

  function AfterHeader(h: seq<byte>): Rx
    requires 1 <= |h| <= 4
  {
    if |h| == 1 then WaitType
    else if |h| == 2 then WaitLenLo(h[1])
    else if |h| == 3 then WaitLenHi(h[1], h[2])
    else AfterLength(h[1], Length(h[2], h[3]))
  }

  lemma {:induction false} RunHeader(h: seq<byte>)
    requires 1 <= |h| <= 4 && h[0] == SOF
    ensures Run(WaitSof, h) == AfterHeader(h) && Emits(WaitSof, h) == Nones(|h|)
  {
    hide Run, Emits, Length;
    if |h| == 1 {
      RunOne(WaitSof, h);
    } else {
      RunHeader(h[..|h| - 1]);
      RunLast(WaitSof, h);
    }
  }

  lemma {:induction false} RunPayload(kind: byte, len: nat, got: seq<byte>, p: seq<byte>)
    requires |got| < len <= MAX_PAYLOAD && |got| + |p| <= len
    ensures Run(WaitPayload(kind, len, got), p) == AfterPayloadByte(kind, len, got + p)
    ensures Emits(WaitPayload(kind, len, got), p) == Nones(|p|)
  {
    var rx := WaitPayload(kind, len, got);
    if p == [] {
      assert got + p == got;
    } else {
      hide Run, Emits;
      RunPayload(kind, len, got, p[..|p| - 1]);
      RunLast(rx, p);
      assert got + p[..|p| - 1] + [p[|p| - 1]] == got + p;
    }
  }

  lemma RunCheck(kind: byte, got: seq<byte>, c: seq<byte>)
    requires |got| <= MAX_PAYLOAD && |c| <= 2
    ensures |c| < 2 ==> Emits(WaitCrcLo(kind, got), c) == Nones(|c|)
    ensures |c| == 2 ==>
      && Run(WaitCrcLo(kind, got), c) == WaitSof
      && Emits(WaitCrcLo(kind, got), c) == Nones(1) + [Verdict(kind, got, Join(c[0], c[1]))]
  {
    hide Check, Join, Run, Emits;
    var rx := WaitCrcLo(kind, got);
    if c == [] {
      RunNothing(rx);
    } else {
      RunFirst(rx, c);
      if |c| == 1 {
        RunOne(rx, c);
      } else {
        RunOne(WaitCrcHi(kind, got, c[0]), c[1..]);
      }
    }
  }

  lemma RunWholePayload(kind: byte, p: seq<byte>)
    requires |p| <= MAX_PAYLOAD
    ensures Run(AfterLength(kind, |p|), p) == WaitCrcLo(kind, p)
    ensures Emits(AfterLength(kind, |p|), p) == Nones(|p|)
  {
    hide Run, Emits;
    if p == [] {
      RunNothing(WaitCrcLo(kind, []));
    } else {
      RunPayload(kind, |p|, [], p);
      assert [] + p == p;
    }
  }

  /** A payload of `len` bytes and its check, as far as they have come. */
  lemma RunTail(kind: byte, len: nat, t: seq<byte>)
    requires len <= MAX_PAYLOAD && |t| <= len + 2
    ensures |t| < len + 2 ==> Emits(AfterLength(kind, len), t) == Nones(|t|)
    ensures |t| == len + 2 ==>
      && Run(AfterLength(kind, len), t) == WaitSof
      && Emits(AfterLength(kind, len), t)
         == Nones(len + 1) + [Verdict(kind, t[..len], Join(t[len], t[len + 1]))]
  {
    hide Run, Emits, Check, Join, Verdict;
    if |t| < len {
      RunPayload(kind, len, [], t);
    } else {
      var p, c := t[..len], t[len..];
      assert t == p + c;
      RunWholePayload(kind, p);
      RunCheck(kind, p, c);
      RunAppend(AfterLength(kind, len), p, c);
    }
  }

  lemma NonesAppend(m: nat, n: nat, e: seq<Option<Frame>>)
    ensures Nones(m) + (Nones(n) + e) == Nones(m + n) + e
  {
  }

  /** A maximal well-formed frame at the front of a stream, or as much of it as is there. */
  lemma RunFrame(s: seq<byte>)
    requires |s| >= 4 && s[0] == SOF && Length(s[2], s[3]) <= MAX_PAYLOAD
    requires |s| <= 6 + Length(s[2], s[3])
    ensures var len := Length(s[2], s[3]);
      && (|s| < 6 + len ==> Emits(WaitSof, s) == Nones(|s|))
      && (|s| == 6 + len ==>
            && Run(WaitSof, s) == WaitSof
            && Emits(WaitSof, s)
               == Nones(5 + len) + [Verdict(s[1], s[4..4 + len], Join(s[4 + len], s[5 + len]))])
  {
    hide Run, Emits, Length, Join, Check, Step, Verdict, AfterLength;
    var len := Length(s[2], s[3]);
    var h, t := s[..4], s[4..];
    assert s == h + t;
    RunHeader(h);
    RunAppend(WaitSof, h, t);
    RunTail(s[1], len, t);
    if |s| == 6 + len {
      assert t[..len] == s[4..4 + len];
      NonesAppend(4, len + 1, [Verdict(s[1], t[..len], Join(t[len], t[len + 1]))]);
    }
  }

  lemma SkipNoise(s: seq<byte>)
    requires s != [] && s[0] != SOF
    ensures Emits(WaitSof, s) == [None] + Emits(WaitSof, s[1..])
  {
    hide Run, Emits;
    RunFirst(WaitSof, s);
  }

  lemma HeaderThenRest(s: seq<byte>)
    requires |s| >= 4 && s[0] == SOF && Length(s[2], s[3]) > MAX_PAYLOAD
    ensures Emits(WaitSof, s) == Nones(4) + Emits(WaitSof, s[4..])
  {
    hide Run, Emits, Length, Step;
    assert s == s[..4] + s[4..];
    RunHeader(s[..4]);
    RunAppend(WaitSof, s[..4], s[4..]);
  }

  lemma FrameThenRest(s: seq<byte>, len: nat)
    requires |s| >= 6 + len && len <= MAX_PAYLOAD && s[0] == SOF && Length(s[2], s[3]) == len
    ensures Emits(WaitSof, s)
         == Nones(5 + len) + [Verdict(s[1], s[4..4 + len], Join(s[4 + len], s[5 + len]))]
            + Emits(WaitSof, s[6 + len..])
  {
    hide Run, Emits, Length, Join, Check, Step;
    var f, rest := s[..6 + len], s[6 + len..];
    assert s == f + rest;
    RunFrame(f);
    RunAppend(WaitSof, f, rest);
    assert f[4..4 + len] == s[4..4 + len];
  }

  /**
    Over any stream, the byte-at-a-time machine reports a frame at exactly the positions, and
    with exactly the contents, at which the batch parser accepts one.
    */
  lemma {:induction false} ByteMachineIsBatchParser(s: seq<byte>)
    ensures Emits(WaitSof, s) == Batch(s)
    decreases |s|
  {
    hide Run, Emits, Length, Join, Check, Verdict, Nones, Step, AfterHeader;
    if s == [] {
      RunNothing(WaitSof);
    } else if s[0] != SOF {
      SkipNoise(s);
      ByteMachineIsBatchParser(s[1..]);
    } else if |s| < 4 {
      RunHeader(s);
    } else {
      var len := Length(s[2], s[3]);
      if len > MAX_PAYLOAD {
        HeaderThenRest(s);
        ByteMachineIsBatchParser(s[4..]);
      } else if |s| < 6 + len {
        RunFrame(s);
      } else {
        ByteMachineIsBatchParser(s[6 + len..]);
        FrameThenRest(s, len);
      }
    }
  }

  lemma RunNothing(rx: Rx)
    requires rx.Valid()
    ensures Run(rx, []) == rx && Emits(rx, []) == []
  {
  }

  // ----- Resynchronisation -----

  /** Enough bytes other than the start byte bring any state back to looking for one. */
  lemma {:induction false} NoiseDrains(rx: Rx, s: seq<byte>)
    requires rx.Valid() && SOF !in s && |s| >= rx.Remaining()
    ensures Run(rx, s) == WaitSof
    decreases |s|
  {
    hide Run, Step;
    if s == [] {
      RunNothing(rx);
    } else {
      StepProgress(rx, s[0]);
      RunFirst(rx, s);
      NoiseDrains(Step(rx, s[0]).rx, s[1..]);
    }
  }

  /** One byte fewer than the bound can leave the machine inside a frame. */
  lemma DrainBoundIsTight()
    ensures exists s :: |s| == 132 && SOF !in s && !Run(WaitType, s).WaitSof?
  {
    hide Run, Emits;
    var h: seq<byte> := [0, 128, 0];
    var t: seq<byte> := seq(129, _ => 0);
    var s := h + t;
    RunFirst(WaitType, h);
    RunFirst(WaitLenLo(0), h[1..]);
    RunOne(WaitLenHi(0, 128), h[2..]);
    RunAppend(WaitType, h, t);
    assert t == t[..128] + t[128..];
    RunWholePayload(0, t[..128]);
    RunAppend(AfterLength(0, 128), t[..128], t[128..]);
    RunOne(WaitCrcLo(0, t[..128]), t[128..]);
    assert |s| == 132 && SOF !in s && !Run(WaitType, s).WaitSof?;
  }

  // ----- The firmware's context -----

  datatype RxState = WAIT_SOF | WAIT_TYPE | WAIT_LEN_LO | WAIT_LEN_HI | WAIT_PAYLOAD | WAIT_CRC_LO | WAIT_CRC_HI

  class RxContext {
    var state: RxState
    var kind: byte
    var len: nat
    const payload: array<byte>
    var payloadIdx: nat
    var crcLo: byte

    // The bytes fed, and the reports made, since the last reset by a caller.
    ghost var fed: seq<byte>
    ghost var reports: seq<Option<Frame>>

    /** The machine's state as a value: the part of the buffer that has been received. */
    ghost function Abs(): Rx
      reads this`state, this`kind, this`len, this`payloadIdx, this`crcLo, payload
      requires Consistent()
      ensures Abs().Valid()
    {
      match state
      case WAIT_SOF => WaitSof
      case WAIT_TYPE => WaitType
      case WAIT_LEN_LO => WaitLenLo(kind)
      case WAIT_LEN_HI => WaitLenHi(kind, Low(len))
      case WAIT_PAYLOAD => WaitPayload(kind, len, payload[..payloadIdx])
      case WAIT_CRC_LO => WaitCrcLo(kind, payload[..len])
      case WAIT_CRC_HI => WaitCrcHi(kind, payload[..len], crcLo)
    }

    ghost predicate Cleared()
      reads this`state, this`kind, this`len, this`payloadIdx, this`crcLo, payload
    {
      && state == WAIT_SOF && kind == 0 && len == 0 && payloadIdx == 0 && crcLo == 0
      && forall i :: 0 <= i < payload.Length ==> payload[i] == 0
    }

    /** The frame that a caller finds in the context. */
    ghost function Held(): Frame
      reads this`kind, this`len, payload
      requires len <= payload.Length
    {
      Frame(kind, payload[..len])
    }

    lemma ClearedHolds()
      requires Cleared()
      ensures len <= payload.Length && Held() == Frame(0, [])
    {
    }

    /** The fields make sense for the state. */
    ghost predicate Consistent()
      reads this`state, this`kind, this`len, this`payloadIdx, this`crcLo
    {
      && payload.Length == MAX_PAYLOAD
      && len < 0x1_0000
      && payloadIdx <= MAX_PAYLOAD
      && (state.WAIT_LEN_HI? ==> len < 256)
      && (state.WAIT_PAYLOAD? ==> payloadIdx < len <= MAX_PAYLOAD)
      && (state.WAIT_CRC_LO? || state.WAIT_CRC_HI? ==> len <= MAX_PAYLOAD)
    }

    ghost predicate Valid()
      reads this, payload
    {
      && Consistent()
      && Abs() == Run(WaitSof, fed)
      && reports == Emits(WaitSof, fed)
    }

    constructor ()
      ensures Valid() && Cleared() && fresh(payload)
      ensures fed == []
    {
      state, kind, len, payloadIdx, crcLo := WAIT_SOF, 0, 0, 0, 0;
      payload := new byte[MAX_PAYLOAD](_ => 0);
      fed, reports := [], [];
    }

    /** Back to the start state; everything the context held is zeroed. */
    method Reset()
      requires payload.Length == MAX_PAYLOAD
      modifies this, payload
      ensures Valid() && Cleared()
      ensures fed == [] && reports == []
    {
      ClearFrame();
      fed, reports := [], [];
    }

    method ClearFrame()
      modifies this, payload
      ensures Cleared()
      ensures fed == old(fed) && reports == old(reports)
    {
      state, kind, len, payloadIdx, crcLo := WAIT_SOF, 0, 0, 0, 0;
      forall i | 0 <= i < payload.Length {
        payload[i] := 0;
      }
    }

    method TakeLengthHigh(b: byte)
      requires Consistent() && state == WAIT_LEN_HI
      modifies this, payload
      ensures Consistent() && fed == old(fed) && reports == old(reports)
      ensures Outcome(Abs(), None) == Step(old(Abs()), b)
    {
      hide Low, Length;
      LengthFromLow(len, b);
      len := len + 256 * (b as nat);
      if len == 0 {
        state := WAIT_CRC_LO;
      } else if len > MAX_PAYLOAD {
        ClearFrame();
      } else {
        payloadIdx := 0;
        state := WAIT_PAYLOAD;
      }
    }

    method TakePayloadByte(b: byte)
      requires Consistent() && state == WAIT_PAYLOAD
      modifies this, payload
      ensures Consistent() && fed == old(fed) && reports == old(reports)
      ensures Outcome(Abs(), None) == Step(old(Abs()), b)
    {
      ghost var got := payload[..payloadIdx];
      payload[payloadIdx] := b;
      payloadIdx := payloadIdx + 1;
      assert payload[..payloadIdx] == got + [b];
      if payloadIdx >= len {
        state := WAIT_CRC_LO;
      }
    }

    /** Recomputes the check over a copy of the header fields and the payload, then resets. */
    method TakeCheckHigh(b: byte) returns (ok: bool, ghost frame: Option<Frame>)
      requires Consistent() && state == WAIT_CRC_HI
      modifies this, payload
      ensures Consistent() && Cleared() && fed == old(fed) && reports == old(reports)
      ensures Outcome(Abs(), frame) == Step(old(Abs()), b)
      ensures ok == frame.Some?
    {
      hide Low, High, Join, Crc.Checksum;
      var received := Join(crcLo, b);
      ghost var p := payload[..len];
      var crcBuf := new byte[3 + MAX_PAYLOAD];
      Put(crcBuf, 0, [kind, Low(len), High(len)]);
      Put(crcBuf, 3, payload[..len]);
      assert crcBuf[0..3 + len] == Body(kind, p);
      var expected := Crc.Crc16(crcBuf, 0, 3 + len);
      ok := received == expected;
      frame := if ok then Some(Frame(kind, p)) else None;
      ClearFrame();
    }

    /** The switch on the state. */
    method Dispatch(b: byte) returns (ok: bool, ghost frame: Option<Frame>)
      requires Consistent()
      modifies this, payload
      ensures Consistent() && fed == old(fed) && reports == old(reports)
      ensures Outcome(Abs(), frame) == Step(old(Abs()), b)
      ensures ok == frame.Some?
      ensures ok ==> Cleared()
    {
      hide Low, Length, Join, Verdict;
      LowOfByte(b);
      ok, frame := false, None;
      match state {
        case WAIT_SOF =>
          if b == SOF {
            state := WAIT_TYPE;
          }
        case WAIT_TYPE =>
          kind := b;
          state := WAIT_LEN_LO;
        case WAIT_LEN_LO =>
          len := b as nat;
          state := WAIT_LEN_HI;
        case WAIT_LEN_HI =>
          TakeLengthHigh(b);
        case WAIT_PAYLOAD =>
          TakePayloadByte(b);
        case WAIT_CRC_LO =>
          crcLo := b;
          state := WAIT_CRC_HI;
        case WAIT_CRC_HI =>
          ok, frame := TakeCheckHigh(b);
      }
    }

    /**
      One byte.  `ok` is the firmware's result; `frame` is the frame it had assembled, which
      the firmware has already erased from the context when it reports success: the promise that
      the frame is still there is kept exactly for the frame of type 0 without payload.
      */
    method Feed(b: byte) returns (ok: bool, ghost frame: Option<Frame>)
      requires Valid()
      modifies this, payload
      ensures Valid()
      ensures fed == old(fed) + [b]
      ensures Outcome(Abs(), frame) == Step(old(Abs()), b)
      ensures reports == old(reports) + [frame] == Batch(fed)
      ensures ok == frame.Some?
      ensures ok ==> Cleared()
      ensures ok ==> len <= payload.Length && (Held() == frame.value <==> frame == Some(Frame(0, [])))
    {
      hide Abs, Step, Run, Emits, Batch, Cleared, Held;
      RunAppend(WaitSof, fed, [b]);
      RunOne(Abs(), [b]);
      ByteMachineIsBatchParser(fed + [b]);
      ok, frame := Dispatch(b);
      fed, reports := fed + [b], reports + [frame];
      if ok {
        ClearedHolds();
      }
    }
  }
}
