/**
  The link from frame printer to receive machine: what gets through, in what order, and which
  damage is always noticed.
  */
module Link {
  import opened Bytes
  import opened Wire
  import opened Decoder
  import Gf2
  import Period

  // ----- One frame on the wire -----

  /** Bytes that start with the start byte and are as long as their length field says. */
  ghost predicate WellFramed(w: seq<byte>) {
    && |w| >= 6
    && w[0] == SOF
    && Length(w[2], w[3]) <= MAX_PAYLOAD
    && |w| == 6 + Length(w[2], w[3])
  }

  /** What the machine makes of them. */
  ghost function Received(w: seq<byte>): Option<Frame>
    requires WellFramed(w)
  {
    var len := |w| - 6;
    Verdict(w[1], w[4..4 + len], Join(w[4 + len], w[5 + len]))
  }

  lemma PrintedIsWellFramed(f: Frame)
    requires |f.payload| <= MAX_PAYLOAD
    ensures var w, n := Encode(f), |f.payload|;
      && w[0] == SOF && w[1] == f.kind && w[2] == Low(n) && w[3] == High(n)
      && w[4..4 + n] == f.payload
      && w[4 + n] == CrcLow(Check(f.kind, f.payload))
      && w[5 + n] == CrcHigh(Check(f.kind, f.payload))
      && WellFramed(w)
  {
    hide Low, High, Length, CrcLow, CrcHigh, Check;
    LengthRoundTrip(|f.payload|);
  }

  lemma PrintedIsReceived(f: Frame)
    requires |f.payload| <= MAX_PAYLOAD
    ensures WellFramed(Encode(f)) && Received(Encode(f)) == Some(f)
  {
    hide Encode, Check, Join, CrcLow, CrcHigh, Length;
    PrintedIsWellFramed(f);
    JoinRoundTrip(Check(f.kind, f.payload));
  }

  /** The machine accepts nothing that the printer could not have printed. */
  lemma ReceivedWasPrinted(w: seq<byte>)
    requires WellFramed(w) && Received(w).Some?
    ensures |Received(w).value.payload| <= MAX_PAYLOAD
    ensures w == Encode(Received(w).value)
  {
    hide Check, Join, CrcLow, CrcHigh, Length, Low, High, Encode;
    var f := Received(w).value;
    var n := |f.payload|;
    LengthDetermines(w[2], w[3]);
    JoinDetermines(w[4 + n], w[5 + n]);
    PrintedIsWellFramed(f);
    SameByParts(w, Encode(f), n);
  }

  lemma SameByParts(w: seq<byte>, p: seq<byte>, n: nat)
    requires |w| == |p| == 6 + n
    requires w[0] == p[0] && w[1] == p[1] && w[2] == p[2] && w[3] == p[3]
    requires w[4..4 + n] == p[4..4 + n]
    requires w[4 + n] == p[4 + n] && w[5 + n] == p[5 + n]
    ensures w == p
  {
    assert w == w[..4] + w[4..4 + n] + w[4 + n..];
    assert p == p[..4] + p[4..4 + n] + p[4 + n..];
  }

  // ----- Damage that is always noticed -----

  /** Same length, start byte and length field; anything else may have changed. */
  ghost predicate SameShape(f: Frame, w: seq<byte>)
    requires |f.payload| <= MAX_PAYLOAD
  {
    |w| == |Encode(f)| && w[0] == SOF && w[2..4] == Encode(f)[2..4]
  }

  ghost predicate OddFlips(f: Frame, w: seq<byte>)
    requires |f.payload| <= MAX_PAYLOAD
  {
    && SameShape(f, w)
    && Gf2.Weight(Gf2.Xor(Crc.Bits(Encode(f)), Crc.Bits(w))) % 2 == 1
  }

  /** The check is as sent; type and payload differ within sixteen consecutive bits. */
  ghost predicate Burst(f: Frame, w: seq<byte>)
    requires |f.payload| <= MAX_PAYLOAD
  {
    && SameShape(f, w)
    && var n := 4 + |f.payload|;
      && w[n..] == Encode(f)[n..]
      && w[1..n] != Encode(f)[1..n]
      && exists lo :: Crc.DifferInWindow(Encode(f)[1..n], w[1..n], lo)
  }

  /** The check is as sent; one, two or three bits of type and payload are flipped. */
  ghost predicate FewFlips(f: Frame, w: seq<byte>)
    requires |f.payload| <= MAX_PAYLOAD
  {
    && SameShape(f, w)
    && var n := 4 + |f.payload|;
      && w[n..] == Encode(f)[n..]
      && 1 <= Gf2.Weight(Gf2.Xor(Crc.Bits(Encode(f)[1..n]), Crc.Bits(w[1..n]))) <= 3
  }

  /** Type and payload are as sent; the check is not. */
  ghost predicate CheckChanged(f: Frame, w: seq<byte>)
    requires |f.payload| <= MAX_PAYLOAD
  {
    && SameShape(f, w)
    && var n := 4 + |f.payload|;
      && w[..n] == Encode(f)[..n]
      && w[n..] != Encode(f)[n..]
  }

  ghost predicate Damaged(f: Frame, w: seq<byte>)
    requires |f.payload| <= MAX_PAYLOAD
  {
    OddFlips(f, w) || Burst(f, w) || FewFlips(f, w) || CheckChanged(f, w)
  }

  lemma SameShapeIsWellFramed(f: Frame, w: seq<byte>)
    requires |f.payload| <= MAX_PAYLOAD && SameShape(f, w)
    ensures WellFramed(w)
  {
    hide Encode, Length;
    PrintedIsWellFramed(f);
    var p := Encode(f);
    assert w[2..4][0] == w[2] && p[2..4][0] == p[2] && w[2..4][1] == w[3] && p[2..4][1] == p[3];
  }

  // ----- Odd numbers of flipped bits -----

  /** Every printed frame has an odd number of one bits, because the start byte has five. */
  lemma PrintedParity(f: Frame)
    requires |f.payload| <= MAX_PAYLOAD
    ensures Gf2.Weight(Crc.Bits(Encode(f))) % 2 == 1
  {
    hide Crc.Bits, Crc.ByteBits, Crc.WordBits, Gf2.Weight, Crc.Checksum, CrcHigh, CrcLow, Body;
    var body := Body(f.kind, f.payload);
    var crc := Crc.Checksum(body);
    var lo, hi := CrcLow(crc), CrcHigh(crc);
    Crc.BitsAppend([SOF] + body, [lo, hi]);
    Crc.BitsAppend([SOF], body);
    Gf2.WeightAppend(Crc.Bits([SOF]) + Crc.Bits(body), Crc.Bits([lo, hi]));
    Gf2.WeightAppend(Crc.Bits([SOF]), Crc.Bits(body));
    CheckBytesParity(crc);
    Crc.CrcParity(body);
    StartByteParity();
  }

  lemma CheckBytesParity(c: bv16)
    ensures Gf2.Weight(Crc.Bits([CrcLow(c), CrcHigh(c)])) == Gf2.Weight(Crc.WordBits(c))
  {
    hide Crc.ByteBits, Crc.WordBits, Gf2.Weight, CrcLow, CrcHigh;
    var lo, hi := CrcLow(c), CrcHigh(c);
    Crc.WordIsTwoBytes(c);
    Gf2.WeightAppend(Crc.ByteBits(hi), Crc.ByteBits(lo));
    assert [lo, hi] == [lo] + [hi];
    Crc.BitsAppend([lo], [hi]);
    Crc.BitsOfOne(lo);
    Crc.BitsOfOne(hi);
    Gf2.WeightAppend(Crc.ByteBits(lo), Crc.ByteBits(hi));
  }

  lemma StartByteParity()
    ensures Gf2.Weight(Crc.Bits([SOF])) == 5
  {
    Crc.BitsOfOne(SOF);
    Gf2.WeightOfEight(Crc.ByteBits(SOF));
  }

  lemma OddFlipsRejected(f: Frame, w: seq<byte>)
    requires |f.payload| <= MAX_PAYLOAD && OddFlips(f, w)
    ensures WellFramed(w) && Received(w) == None
  {
    hide Crc.Bits, Gf2.Weight, Gf2.Xor, Encode, Received;
    SameShapeIsWellFramed(f, w);
    PrintedParity(f);
    Gf2.WeightOfXor(Crc.Bits(Encode(f)), Crc.Bits(w));
    if Received(w).Some? {
      ReceivedWasPrinted(w);
      PrintedParity(Received(w).value);
    }
  }

  // ----- Bursts, and damage to the check alone -----

  lemma PartsOfWire(w: seq<byte>)
    requires WellFramed(w) && Received(w).Some?
    ensures var n := |w| - 2;
      w[n..] == [CrcLow(Crc.Checksum(w[1..n])), CrcHigh(Crc.Checksum(w[1..n]))]
  {
    hide CrcHigh, CrcLow, Received, Crc.Checksum, Body;
    ReceivedWasPrinted(w);
    var f := Received(w).value;
    assert w[1..|w| - 2] == Body(f.kind, f.payload);
  }

  lemma BodyDamageRejected(f: Frame, w: seq<byte>)
    requires |f.payload| <= MAX_PAYLOAD && SameShape(f, w)
    requires w[4 + |f.payload|..] == Encode(f)[4 + |f.payload|..]
    requires Crc.Checksum(w[1..4 + |f.payload|]) != Crc.Checksum(Encode(f)[1..4 + |f.payload|])
    ensures WellFramed(w) && Received(w) == None
  {
    hide CrcHigh, CrcLow, Received, Crc.Checksum, Encode;
    SameShapeIsWellFramed(f, w);
    PrintedIsReceived(f);
    var p := Encode(f);
    var n := |p| - 2;
    if Received(w).Some? {
      PartsOfWire(w);
      PartsOfWire(p);
      var c, d := Crc.Checksum(p[1..n]), Crc.Checksum(w[1..n]);
      assert p[n..][0] == w[n..][0] && p[n..][1] == w[n..][1];
      JoinRoundTrip(c);
      JoinRoundTrip(d);
    }
  }

  lemma BurstRejected(f: Frame, w: seq<byte>)
    requires |f.payload| <= MAX_PAYLOAD && Burst(f, w)
    ensures WellFramed(w) && Received(w) == None
  {
    hide Received, Crc.Checksum, Crc.DifferInWindow, Encode;
    var p, n := Encode(f), 4 + |f.payload|;
    var lo :| Crc.DifferInWindow(p[1..n], w[1..n], lo);
    Crc.BurstDetected(p[1..n], w[1..n], lo);
    BodyDamageRejected(f, w);
  }

  /** However far apart the flipped bits are. */
  lemma FewFlipsRejected(f: Frame, w: seq<byte>)
    requires |f.payload| <= MAX_PAYLOAD && FewFlips(f, w)
    ensures WellFramed(w) && Received(w) == None
  {
    hide Received, Crc.Checksum, Crc.Bits, Gf2.Weight, Encode;
    var p, n := Encode(f), 4 + |f.payload|;
    Period.FewBitsDetected(p[1..n], w[1..n]);
    BodyDamageRejected(f, w);
  }

  lemma CheckChangedRejected(f: Frame, w: seq<byte>)
    requires |f.payload| <= MAX_PAYLOAD && CheckChanged(f, w)
    ensures WellFramed(w) && Received(w) == None
  {
    hide CrcHigh, CrcLow, Received, Crc.Checksum, Encode;
    SameShapeIsWellFramed(f, w);
    PrintedIsReceived(f);
    var p := Encode(f);
    var n := |p| - 2;
    assert w[1..n] == w[..n][1..] == p[..n][1..] == p[1..n];
    if Received(w).Some? {
      PartsOfWire(w);
      PartsOfWire(p);
    }
  }

  /** None of this damage gets a frame, right or wrong, past the check. */
  lemma DamageRejected(f: Frame, w: seq<byte>)
    requires |f.payload| <= MAX_PAYLOAD && Damaged(f, w)
    ensures WellFramed(w) && Received(w) == None
  {
    hide OddFlips, Burst, FewFlips, CheckChanged, Received;
    if OddFlips(f, w) {
      OddFlipsRejected(f, w);
    } else if Burst(f, w) {
      BurstRejected(f, w);
    } else if FewFlips(f, w) {
      FewFlipsRejected(f, w);
    } else {
      CheckChangedRejected(f, w);
    }
  }

  lemma CorruptionIsDamage(f: Frame)
    requires |f.payload| <= MAX_PAYLOAD
    ensures CheckChanged(f, Corrupted(Encode(f)))
  {
    hide Encode, Complement;
    PrintedIsWellFramed(f);
    var p := Encode(f);
    var c, n := Corrupted(p), |p| - 2;
    ComplementChanges(p[n]);
    assert c[n..][0] != p[n..][0];
    assert c[2..4] == p[2..4];
  }

  lemma ComplementChanges(b: byte)
    ensures Complement(b) != b
  {
  }

  // ----- Whole streams -----

  /** One transmission: line noise, then the bytes that arrived in place of a printed frame. */
  datatype Transmission = Transmission(noise: seq<byte>, frame: Frame, wire: seq<byte>) {
    ghost predicate Valid() {
      && SOF !in noise
      && |frame.payload| <= MAX_PAYLOAD
      && (wire == Encode(frame) || Damaged(frame, wire))
    }

    ghost predicate Intact()
      requires |frame.payload| <= MAX_PAYLOAD
    {
      wire == Encode(frame)
    }
  }

  function Stream(ts: seq<Transmission>, tail: seq<byte>): seq<byte> {
    if ts == [] then tail else ts[0].noise + ts[0].wire + Stream(ts[1..], tail)
  }

  /** The frames reported, without their positions. */
  function Reported(e: seq<Option<Frame>>): seq<Frame> {
    if e == [] then []
    else (match e[0] case Some(f) => [f] case None => []) + Reported(e[1..])
  }

  /** The frames that arrived undamaged, in sending order. */
  ghost function Survivors(ts: seq<Transmission>): seq<Frame>
    requires forall i :: 0 <= i < |ts| ==> ts[i].Valid()
  {
    if ts == [] then []
    else
      assert ts[0].Valid();
      (if ts[0].Intact() then [ts[0].frame] else []) + Survivors(ts[1..])
  }

  lemma {:induction false} ReportedAppend(a: seq<Option<Frame>>, b: seq<Option<Frame>>)
    ensures Reported(a + b) == Reported(a) + Reported(b)
  {
    if a == [] {
      assert a + b == b;
    } else {
      assert (a + b)[1..] == a[1..] + b;
      ReportedAppend(a[1..], b);
    }
  }

  lemma {:induction false} ReportedNones(n: nat)
    ensures Reported(Nones(n)) == []
  {
    if n > 0 {
      assert Nones(n)[1..] == Nones(n - 1);
      ReportedNones(n - 1);
    }
  }

  lemma {:induction false} NoiseIsSkipped(noise: seq<byte>, rest: seq<byte>)
    requires SOF !in noise
    ensures Reported(Batch(noise + rest)) == Reported(Batch(rest))
  {
    if noise == [] {
      assert noise + rest == rest;
    } else {
      assert (noise + rest)[1..] == noise[1..] + rest;
      NoiseIsSkipped(noise[1..], rest);
      ReportedAppend([None], Batch(noise[1..] + rest));
    }
  }

  lemma WireThenRest(w: seq<byte>, rest: seq<byte>)
    requires WellFramed(w)
    ensures Reported(Batch(w + rest)) == Reported([Received(w)]) + Reported(Batch(rest))
  {
    hide Length, Join, Check, Verdict, Reported;
    var s, len := w + rest, |w| - 6;
    assert s[4..4 + len] == w[4..4 + len] && s[6 + len..] == rest;
    assert Batch(s) == Nones(5 + len) + [Received(w)] + Batch(rest);
    ReportedAppend(Nones(5 + len) + [Received(w)], Batch(rest));
    ReportedAppend(Nones(5 + len), [Received(w)]);
    ReportedNones(5 + len);
  }

  lemma OneTransmission(t: Transmission, rest: seq<byte>)
    requires t.Valid()
    ensures Reported(Batch(t.noise + t.wire + rest))
         == (if t.Intact() then [t.frame] else []) + Reported(Batch(rest))
  {
    hide Encode, Received, Batch, Damaged;
    assert t.noise + t.wire + rest == t.noise + (t.wire + rest);
    NoiseIsSkipped(t.noise, t.wire + rest);
    PrintedIsReceived(t.frame);
    if t.Intact() {
      WireThenRest(t.wire, rest);
    } else {
      DamageRejected(t.frame, t.wire);
      WireThenRest(t.wire, rest);
    }
  }

  lemma {:induction false} BatchOfStream(ts: seq<Transmission>, tail: seq<byte>)
    requires forall i :: 0 <= i < |ts| ==> ts[i].Valid()
    requires SOF !in tail
    ensures Reported(Batch(Stream(ts, tail))) == Survivors(ts)
  {
    hide Batch, Transmission.Valid, Transmission.Intact;
    if ts == [] {
      assert tail + [] == tail;
      NoiseIsSkipped(tail, []);
      EmptyBatch();
    } else {
      BatchOfStream(ts[1..], tail);
      OneTransmission(ts[0], Stream(ts[1..], tail));
    }
  }

  lemma EmptyBatch()
    ensures Batch([]) == []
  {
  }

  /**
    However the line is noisy between frames, and whichever frames are damaged, the receive
    machine reports exactly the undamaged frames, in order, and nothing else.
    */
  lemma NoisyRoundTrip(ts: seq<Transmission>, tail: seq<byte>)
    requires forall i :: 0 <= i < |ts| ==> ts[i].Valid()
    requires SOF !in tail
    ensures Reported(Emits(WaitSof, Stream(ts, tail))) == Survivors(ts)
  {
    hide Batch, Emits, Reported, Survivors, Transmission.Valid;
    ByteMachineIsBatchParser(Stream(ts, tail));
    BatchOfStream(ts, tail);
  }

  // ----- Soundness and recovery on any stream -----

  lemma VerdictWasPrinted(s: seq<byte>, len: nat)
    requires |s| >= 6 + len && s[0] == SOF && Length(s[2], s[3]) == len <= MAX_PAYLOAD
    requires Verdict(s[1], s[4..4 + len], Join(s[4 + len], s[5 + len])).Some?
    ensures Encode(Frame(s[1], s[4..4 + len])) == s[..6 + len]
  {
    hide Verdict, Join, Encode, Length;
    var w := s[..6 + len];
    assert w[4..4 + len] == s[4..4 + len];
    ReceivedWasPrinted(w);
    VerdictIs(s[1], s[4..4 + len], Join(s[4 + len], s[5 + len]));
  }

  lemma VerdictIs(kind: byte, payload: seq<byte>, received: bv16)
    requires |payload| <= MAX_PAYLOAD && Verdict(kind, payload, received).Some?
    ensures Verdict(kind, payload, received) == Some(Frame(kind, payload))
  {
  }

  /** The frame `f` stands in the stream with its last byte at `i`. */
  ghost predicate EndsAt(s: seq<byte>, i: nat, f: Frame) {
    && |f.payload| <= MAX_PAYLOAD
    && |Encode(f)| <= i + 1 <= |s|
    && s[i + 1 - |Encode(f)|..i + 1] == Encode(f)
  }

  lemma EndsLater(front: seq<byte>, s: seq<byte>, i: nat, f: Frame)
    requires EndsAt(s, i, f)
    ensures EndsAt(front + s, |front| + i, f)
  {
    hide Encode;
    var n, m := |Encode(f)|, |front|;
    assert (front + s)[m + i + 1 - n..m + i + 1] == s[i + 1 - n..i + 1];
  }

  lemma EndsHere(s: seq<byte>, len: nat, f: Frame)
    requires |s| >= 6 + len && |f.payload| == len <= MAX_PAYLOAD && Encode(f) == s[..6 + len]
    ensures EndsAt(s, 5 + len, f)
  {
    hide Encode;
  }

  /** How much of the stream the batch parser takes in one go. */
  ghost function Bite(s: seq<byte>): (n: nat)
    requires s != []
    ensures 0 < n <= |s|
  {
    if s[0] != SOF then 1
    else if |s| < 4 then |s|
    else
      var len := Length(s[2], s[3]);
      if len > MAX_PAYLOAD then 4 else if |s| < 6 + len then |s| else 6 + len
  }

  lemma BatchBite(s: seq<byte>)
    requires s != []
    ensures Batch(s)[Bite(s)..] == Batch(s[Bite(s)..])
  {
    hide Length, Join, Verdict, Nones;
  }

  lemma BiteIsOnTheWire(s: seq<byte>, i: nat)
    requires s != [] && i < Bite(s) && Batch(s)[i].Some?
    ensures EndsAt(s, i, Batch(s)[i].value)
  {
    hide Encode, Length, Join, Verdict, EndsAt;
    var len := Length(s[2], s[3]);
    VerdictWasPrinted(s, len);
    VerdictIs(s[1], s[4..4 + len], Join(s[4 + len], s[5 + len]));
    EndsHere(s, len, Frame(s[1], s[4..4 + len]));
  }

  lemma {:induction false} BatchIsOnTheWire(s: seq<byte>, i: nat)
    requires i < |s| && Batch(s)[i].Some?
    ensures EndsAt(s, i, Batch(s)[i].value)
    decreases |s|
  {
    hide EndsAt, Batch, Bite;
    var n := Bite(s);
    if i < n {
      BiteIsOnTheWire(s, i);
    } else {
      BatchBite(s);
      assert Batch(s)[i] == Batch(s)[n..][i - n];
      BatchIsOnTheWire(s[n..], i - n);
      assert s == s[..n] + s[n..];
      EndsLater(s[..n], s[n..], i - n, Batch(s)[i].value);
    }
  }

  /** A header that announces more than 128 bytes costs its own four bytes and nothing of what follows. */
  lemma OversizedSkipped(kind: byte, lo: byte, hi: byte, f: Frame)
    requires (lo as nat) + 256 * (hi as nat) > 128 && |f.payload| <= 128
    ensures Emits(WaitSof, [0xAB, kind, lo, hi] + Encode(f)) == Nones(4) + (Nones(5 + |f.payload|) + [Some(f)])
  {
    hide Encode, Emits, Run, Nones, Step, AfterHeader;
    var h: seq<byte> := [0xAB, kind, lo, hi];
    RunHeader(h);
    Oversized(kind, lo, hi);
    RunAppend(WaitSof, h, Encode(f));
    PrintedRuns(f);
  }

  lemma Oversized(kind: byte, lo: byte, hi: byte)
    requires (lo as nat) + 256 * (hi as nat) > 128
    ensures AfterHeader([SOF, kind, lo, hi]) == WaitSof
  {
  }

  /** Whatever the bytes, a reported frame is literally on the wire, check included. */
  lemma ReportedIsOnTheWire(s: seq<byte>, i: nat)
    requires i < |s| && Emits(WaitSof, s)[i].Some?
    ensures EndsAt(s, i, Emits(WaitSof, s)[i].value)
  {
    hide Emits, Batch, EndsAt;
    ByteMachineIsBatchParser(s);
    BatchIsOnTheWire(s, i);
  }

  /** Before its last byte a printed frame is all in the machine. */
  lemma PrintedIsHeld(f: Frame)
    requires |f.payload| <= MAX_PAYLOAD
    ensures Run(WaitSof, Encode(f)[..5 + |f.payload|])
         == WaitCrcHi(f.kind, f.payload, CrcLow(Check(f.kind, f.payload)))
  {
    hide Encode, Run, Emits, Length, Low, High, CrcLow, CrcHigh, Check, AfterLength, Step, WellFramed, Nones;
    PrintedIsWellFramed(f);
    LengthRoundTrip(|f.payload|);
    var w, n := Encode(f), |f.payload|;
    var lo := [w[4 + n]];
    assert w[..5 + n] == w[..4] + w[4..4 + n] + lo;
    RunHeader(w[..4]);
    RunAppend(WaitSof, w[..4] + w[4..4 + n], lo);
    RunAppend(WaitSof, w[..4], w[4..4 + n]);
    RunWholePayload(f.kind, f.payload);
    RunOne(WaitCrcLo(f.kind, f.payload), lo);
    LowCheckTaken(f.kind, f.payload, lo[0]);
  }

  lemma LowCheckTaken(kind: byte, payload: seq<byte>, b: byte)
    requires |payload| <= MAX_PAYLOAD
    ensures Step(WaitCrcLo(kind, payload), b).rx == WaitCrcHi(kind, payload, b)
  {
  }

  lemma PrintedRuns(f: Frame)
    requires |f.payload| <= MAX_PAYLOAD
    ensures Run(WaitSof, Encode(f)) == WaitSof
    ensures Emits(WaitSof, Encode(f)) == Nones(5 + |f.payload|) + [Some(f)]
  {
    hide Encode, Run, Emits, Length, Join, Verdict;
    PrintedIsReceived(f);
    RunFrame(Encode(f));
  }

  /**
    From any state the machine can be in, 133 bytes other than the start byte are enough for
    the next frame to be reported.
    */
  lemma Resynchronises(rx: Rx, noise: seq<byte>, f: Frame)
    requires rx.Valid() && SOF !in noise && |noise| >= 133 && |f.payload| <= MAX_PAYLOAD
    ensures Run(rx, noise + Encode(f)) == WaitSof
    ensures Emits(rx, noise + Encode(f)) == Emits(rx, noise) + Nones(5 + |f.payload|) + [Some(f)]
  {
    hide Encode, Run, Emits;
    NoiseDrains(rx, noise);
    RunAppend(rx, noise, Encode(f));
    PrintedRuns(f);
  }
}
