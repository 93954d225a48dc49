/**
  Wire frames: start byte, type, two-byte little-endian length, payload, and the check over
  type, length and payload, sent low byte first.
  */
module Wire {
  import opened Bytes
  import opened Crc

  const SOF: byte := 0xAB
  const HEADER_SIZE: nat := 4
  const CRC_SIZE: nat := 2
  const MAX_PAYLOAD: nat := 128

  datatype Frame = Frame(kind: byte, payload: seq<byte>)

  /** The bytes the check covers. */
  function Body(kind: byte, payload: seq<byte>): (b: seq<byte>)
    requires |payload| < 0x1_0000
    ensures |b| == 3 + |payload|
  {
    [kind, Low(|payload|), High(|payload|)] + payload
  }

  function Check(kind: byte, payload: seq<byte>): bv16
    requires |payload| < 0x1_0000
  {
    Checksum(Body(kind, payload))
  }

  function Encode(f: Frame): (w: seq<byte>)
    requires |f.payload| < 0x1_0000
    ensures |w| == HEADER_SIZE + |f.payload| + CRC_SIZE
  {
    var crc := Check(f.kind, f.payload);
    [SOF] + Body(f.kind, f.payload) + [CrcLow(crc), CrcHigh(crc)]
  }

  lemma EncodeInParts(kind: byte, payload: seq<byte>)
    requires |payload| < 0x1_0000
    ensures var head := [SOF, kind, Low(|payload|), High(|payload|)] + payload;
      && head[1..] == Body(kind, payload)
      && var crc := Checksum(Body(kind, payload));
        Encode(Frame(kind, payload)) == head + [CrcLow(crc), CrcHigh(crc)]
  {
    hide Low, High, CrcLow, CrcHigh, Checksum;
    var head := [SOF, kind, Low(|payload|), High(|payload|)] + payload;
    assert head == [SOF] + Body(kind, payload);
  }

  /** Writes a whole frame at the front of `out`, or nothing when it does not fit. */
  method BuildFrame(kind: byte, payload: seq<byte>, out: array<byte>) returns (total: nat)
    requires |payload| < 0x1_0000
    modifies out
    ensures total == if 6 + |payload| <= out.Length then 6 + |payload| else 0
    ensures out[..total] == if total == 0 then [] else Encode(Frame(kind, payload))
    ensures out[total..] == old(out[total..])
  {
    hide Low, High, CrcLow, CrcHigh, Checksum, Body, Encode;
    EncodeInParts(kind, payload);
    total := HEADER_SIZE + |payload| + CRC_SIZE;
    if total > out.Length {
      return 0;
    }
    var n := |payload|;
    ghost var head := [SOF, kind, Low(n), High(n)];
    Put(out, 0, [SOF, kind, Low(n), High(n)]);
    assert out[..4] == head;
    Put(out, 4, payload);
    assert out[..4 + n] == head + payload;
    assert out[1..4 + n] == out[..4 + n][1..];
    var crc := Crc16(out, 1, 3 + n);
    Put(out, 4 + n, [CrcLow(crc), CrcHigh(crc)]);
  }

  function Complement(b: byte): byte {
    b ^ 0xFF
  }

  /** What the simulator's packet corruption leaves: both check bytes complemented. */
  function Corrupted(w: seq<byte>): (c: seq<byte>)
    ensures |c| == |w|
  {
    if |w| < 2 then w
    else w[..|w| - 2] + [Complement(w[|w| - 2]), Complement(w[|w| - 1])]
  }

  method CorruptCrc(frame: array<byte>, len: nat)
    requires len <= frame.Length
    modifies frame
    ensures frame[..len] == Corrupted(old(frame[..len]))
    ensures frame[len..] == old(frame[len..])
  {
    hide Complement;
    if len < 2 {
      return;
    }
    ghost var w := frame[..len];
    frame[len - 2] := Complement(frame[len - 2]);
    frame[len - 1] := Complement(frame[len - 1]);
    assert frame[..len] == w[..len - 2] + [Complement(w[len - 2]), Complement(w[len - 1])];
  }

  // ----- The bytes of a frame, in numbers -----

  /** Start byte 0xAB, type, length low byte first, payload. */
  lemma PrintedInNumbers(f: Frame)
    requires |f.payload| < 0x1_0000
    ensures
      var w, n := Encode(f), |f.payload|;
      && w[0] == 0xAB && w[1] == f.kind
      && w[2] as nat == n % 256 && w[3] as nat == n / 256
      && w[4..4 + n] == f.payload
      && w[4 + n] == (Checksum(w[1..4 + n]) & 0xFF) as bv8
      && w[5 + n] == (Checksum(w[1..4 + n]) >> 8) as bv8
  {
    hide Low, High, Checksum;
    var w, n := Encode(f), |f.payload|;
    LengthInNumbers(n);
    assert w[1..4 + n] == Body(f.kind, f.payload);
  }

  /** Corruption leaves no check bit as it was, changes nothing else, and undoes itself. */
  lemma CorruptionIsComplete(w: seq<byte>)
    requires |w| >= 2
    ensures var c, n := Corrupted(w), |w| - 2;
      && c[..n] == w[..n]
      && c[n] & w[n] == 0 && c[n] | w[n] == 0xFF && c[n + 1] & w[n + 1] == 0 && c[n + 1] | w[n + 1] == 0xFF
      && Corrupted(c) == w
  {
    var n := |w| - 2;
    NoBitKept(w[n]);
    NoBitKept(w[n + 1]);
    hide Complement;
    assert Corrupted(w)[..n] == w[..n];
  }

  lemma NoBitKept(b: byte)
    ensures Complement(b) & b == 0 && Complement(b) | b == 0xFF && Complement(Complement(b)) == b
  {
  }
}
