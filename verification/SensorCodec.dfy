/**
  The packed sensor record, on both sides of the link.

  The layout adds up to 72 bytes; both sides declare 73.  Every member here takes the declared
  size as a parameter, so that the code as written is `DECLARED_SIZE` and the code with the
  constant corrected is `LAYOUT_SIZE`.
  */
module SensorCodec {
  import opened Bytes
  import opened LittleEndian
  import opened SensorData
  import opened Wire
  import Decoder
  import Link

  const LAYOUT_SIZE: nat := 72
  const DECLARED_SIZE: nat := 73
  const SENSOR_FRAME: byte := 0x10

  /** Floats and doubles as the bit patterns that are copied to the wire. */
  type Record = Sensors<bv32, bv64>

  // ----- The layout -----

  function AccelBytes(s: Record): (b: seq<byte>)
    ensures |b| == 12
  {
    Le32(s.accelX) + Le32(s.accelY) + Le32(s.accelZ)
  }

  function GyroBytes(s: Record): (b: seq<byte>)
    ensures |b| == 12
  {
    Le32(s.gyroX) + Le32(s.gyroY) + Le32(s.gyroZ)
  }

  function PlaceBytes(s: Record): (b: seq<byte>)
    ensures |b| == 16
  {
    Le64(s.latitude) + Le64(s.longitude)
  }

  function TrackBytes(s: Record): (b: seq<byte>)
    ensures |b| == 10
  {
    Le32(s.altitude) + Le32(s.groundSpeed) + [s.fixQuality] + [s.satellites]
  }

  function PowerBytes(s: Record): (b: seq<byte>)
    ensures |b| == 9
  {
    Le32(s.batteryVoltage) + Le32(s.batteryCurrent) + [s.batteryPct]
  }

  function AirBytes(s: Record): (b: seq<byte>)
    ensures |b| == 13
  {
    Le32(s.pressure) + Le32(s.temperature) + Le32(s.timestamp) + [s.status]
  }

  function PackBytes(s: Record): (b: seq<byte>)
    ensures |b| == LAYOUT_SIZE
  {
    AccelBytes(s) + GyroBytes(s) + PlaceBytes(s)
    + TrackBytes(s) + PowerBytes(s) + AirBytes(s)
  }

  function UnpackBytes(b: seq<byte>): Record
    requires |b| >= LAYOUT_SIZE
  {
    Sensors(
      FromLe32(b[0..4]), FromLe32(b[4..8]), FromLe32(b[8..12]),
      FromLe32(b[12..16]), FromLe32(b[16..20]), FromLe32(b[20..24]),
      FromLe64(b[24..32]), FromLe64(b[32..40]),
      FromLe32(b[40..44]), FromLe32(b[44..48]),
      b[48], b[49],
      FromLe32(b[50..54]), FromLe32(b[54..58]), b[58],
      FromLe32(b[59..63]), FromLe32(b[63..67]),
      FromLe32(b[67..71]), b[71])
  }

  // ----- Round trips -----

  lemma Within(b: seq<byte>, lo: nat, hi: nat, i: nat, j: nat)
    requires i <= j && lo + j <= hi <= |b|
    ensures b[lo + i..lo + j] == b[lo..hi][i..j]
  {
    var x, y := b[lo + i..lo + j], b[lo..hi][i..j];
    assert forall k :: 0 <= k < j - i ==> x[k] == y[k];
    assert |x| == |y|;
  }

  lemma AccelAt(s: Record)
    ensures var b := AccelBytes(s);
      b[0..4] == Le32(s.accelX) && b[4..8] == Le32(s.accelY) && b[8..12] == Le32(s.accelZ)
  {
    hide Le32;
  }

  lemma GyroAt(s: Record)
    ensures var b := GyroBytes(s);
      b[0..4] == Le32(s.gyroX) && b[4..8] == Le32(s.gyroY) && b[8..12] == Le32(s.gyroZ)
  {
    hide Le32;
  }

  lemma PlaceAt(s: Record)
    ensures var b := PlaceBytes(s);
      b[0..8] == Le64(s.latitude) && b[8..16] == Le64(s.longitude)
  {
    hide Le64;
  }

  lemma TrackAt(s: Record)
    ensures var b := TrackBytes(s);
      b[0..4] == Le32(s.altitude) && b[4..8] == Le32(s.groundSpeed) && b[8] == s.fixQuality && b[9] == s.satellites
  {
    hide Le32;
  }

  lemma PowerAt(s: Record)
    ensures var b := PowerBytes(s);
      b[0..4] == Le32(s.batteryVoltage) && b[4..8] == Le32(s.batteryCurrent) && b[8] == s.batteryPct
  {
    hide Le32;
  }

  lemma AirAt(s: Record)
    ensures var b := AirBytes(s);
      b[0..4] == Le32(s.pressure) && b[4..8] == Le32(s.temperature) && b[8..12] == Le32(s.timestamp) && b[12] == s.status
  {
    hide Le32;
  }

  lemma PartsAt(s: Record)
    ensures var b := PackBytes(s);
      && b[0..12] == AccelBytes(s) && b[12..24] == GyroBytes(s) && b[24..40] == PlaceBytes(s)
      && b[40..50] == TrackBytes(s) && b[50..59] == PowerBytes(s) && b[59..72] == AirBytes(s)
  {
    hide AccelBytes, GyroBytes, PlaceBytes, TrackBytes, PowerBytes, AirBytes;
  }

  /** The place of every field in the packed record. */
  lemma Layout(s: Record)
    ensures var b := PackBytes(s);
      && b[0..4] == Le32(s.accelX) && b[4..8] == Le32(s.accelY) && b[8..12] == Le32(s.accelZ)
      && b[12..16] == Le32(s.gyroX) && b[16..20] == Le32(s.gyroY) && b[20..24] == Le32(s.gyroZ)
    ensures var b := PackBytes(s);
      && b[24..32] == Le64(s.latitude) && b[32..40] == Le64(s.longitude)
      && b[40..44] == Le32(s.altitude) && b[44..48] == Le32(s.groundSpeed)
      && b[48] == s.fixQuality && b[49] == s.satellites
    ensures var b := PackBytes(s);
      && b[50..54] == Le32(s.batteryVoltage) && b[54..58] == Le32(s.batteryCurrent) && b[58] == s.batteryPct
      && b[59..63] == Le32(s.pressure) && b[63..67] == Le32(s.temperature)
      && b[67..71] == Le32(s.timestamp) && b[71] == s.status
  {
    hide PackBytes, AccelBytes, GyroBytes, PlaceBytes, TrackBytes, PowerBytes, AirBytes, Le32, Le64;
    var b := PackBytes(s);
    PartsAt(s);
    AccelAt(s);
    GyroAt(s);
    PlaceAt(s);
    TrackAt(s);
    PowerAt(s);
    AirAt(s);
    Within(b, 0, 12, 0, 4);
    Within(b, 0, 12, 4, 8);
    Within(b, 0, 12, 8, 12);
    Within(b, 12, 24, 0, 4);
    Within(b, 12, 24, 4, 8);
    Within(b, 12, 24, 8, 12);
    Within(b, 24, 40, 0, 8);
    Within(b, 24, 40, 8, 16);
    Within(b, 40, 50, 0, 4);
    Within(b, 40, 50, 4, 8);
    Within(b, 50, 59, 0, 4);
    Within(b, 50, 59, 4, 8);
    Within(b, 59, 72, 0, 4);
    Within(b, 59, 72, 4, 8);
    Within(b, 59, 72, 8, 12);
    assert b[48] == b[40..50][8] && b[49] == b[40..50][9] && b[58] == b[50..59][8] && b[71] == b[59..72][12];
  }

  lemma UnpackAccel(b: seq<byte>, s: Record)
    requires |b| >= LAYOUT_SIZE && b[0..12] == AccelBytes(s)
    ensures var r := UnpackBytes(b);
      r.accelX == s.accelX && r.accelY == s.accelY && r.accelZ == s.accelZ
  {
    hide Le32, FromLe32, FromLe64, AccelBytes;
    AccelAt(s);
    Within(b, 0, 12, 0, 4);
    Le32RoundTrip(s.accelX);
    Within(b, 0, 12, 4, 8);
    Le32RoundTrip(s.accelY);
    Within(b, 0, 12, 8, 12);
    Le32RoundTrip(s.accelZ);
  }

  lemma UnpackGyro(b: seq<byte>, s: Record)
    requires |b| >= LAYOUT_SIZE && b[12..24] == GyroBytes(s)
    ensures var r := UnpackBytes(b);
      r.gyroX == s.gyroX && r.gyroY == s.gyroY && r.gyroZ == s.gyroZ
  {
    hide Le32, FromLe32, FromLe64, GyroBytes;
    GyroAt(s);
    Within(b, 12, 24, 0, 4);
    Le32RoundTrip(s.gyroX);
    Within(b, 12, 24, 4, 8);
    Le32RoundTrip(s.gyroY);
    Within(b, 12, 24, 8, 12);
    Le32RoundTrip(s.gyroZ);
  }

  lemma UnpackPlace(b: seq<byte>, s: Record)
    requires |b| >= LAYOUT_SIZE && b[24..40] == PlaceBytes(s)
    ensures var r := UnpackBytes(b);
      r.latitude == s.latitude && r.longitude == s.longitude
  {
    hide Le64, FromLe64, FromLe32, PlaceBytes;
    PlaceAt(s);
    Within(b, 24, 40, 0, 8);
    Le64RoundTrip(s.latitude);
    Within(b, 24, 40, 8, 16);
    Le64RoundTrip(s.longitude);
  }

  lemma UnpackTrack(b: seq<byte>, s: Record)
    requires |b| >= LAYOUT_SIZE && b[40..50] == TrackBytes(s)
    ensures var r := UnpackBytes(b);
      r.altitude == s.altitude && r.groundSpeed == s.groundSpeed
      && r.fixQuality == s.fixQuality && r.satellites == s.satellites
  {
    hide Le32, FromLe32, FromLe64, TrackBytes;
    TrackAt(s);
    Within(b, 40, 50, 0, 4);
    Le32RoundTrip(s.altitude);
    Within(b, 40, 50, 4, 8);
    Le32RoundTrip(s.groundSpeed);
    assert b[48] == b[40..50][8];
    assert b[49] == b[40..50][9];
  }

  lemma UnpackPower(b: seq<byte>, s: Record)
    requires |b| >= LAYOUT_SIZE && b[50..59] == PowerBytes(s)
    ensures var r := UnpackBytes(b);
      r.batteryVoltage == s.batteryVoltage && r.batteryCurrent == s.batteryCurrent && r.batteryPct == s.batteryPct
  {
    hide Le32, FromLe32, FromLe64, PowerBytes;
    PowerAt(s);
    Within(b, 50, 59, 0, 4);
    Le32RoundTrip(s.batteryVoltage);
    Within(b, 50, 59, 4, 8);
    Le32RoundTrip(s.batteryCurrent);
    assert b[58] == b[50..59][8];
  }

  lemma UnpackAir(b: seq<byte>, s: Record)
    requires |b| >= LAYOUT_SIZE && b[59..72] == AirBytes(s)
    ensures var r := UnpackBytes(b);
      r.pressure == s.pressure && r.temperature == s.temperature && r.timestamp == s.timestamp && r.status == s.status
  {
    hide Le32, FromLe32, FromLe64, AirBytes;
    AirAt(s);
    Within(b, 59, 72, 0, 4);
    Le32RoundTrip(s.pressure);
    Within(b, 59, 72, 4, 8);
    Le32RoundTrip(s.temperature);
    Within(b, 59, 72, 8, 12);
    Le32RoundTrip(s.timestamp);
    assert b[71] == b[59..72][12];
  }

  /** All nineteen fields survive, whatever follows the packed bytes in the buffer. */
  lemma UnpackPack(s: Record, tail: seq<byte>)
    ensures UnpackBytes(PackBytes(s) + tail) == s
  {
    hide UnpackBytes, AccelBytes, GyroBytes, PlaceBytes, TrackBytes, PowerBytes, AirBytes;
    var b := PackBytes(s) + tail;
    assert b[0..12] == AccelBytes(s) && b[12..24] == GyroBytes(s) && b[24..40] == PlaceBytes(s);
    assert b[40..50] == TrackBytes(s) && b[50..59] == PowerBytes(s) && b[59..72] == AirBytes(s);
    UnpackAccel(b, s);
    UnpackGyro(b, s);
    UnpackPlace(b, s);
    UnpackTrack(b, s);
    UnpackPower(b, s);
    UnpackAir(b, s);
  }

  lemma RepackAccel(b: seq<byte>)
    requires |b| >= LAYOUT_SIZE
    ensures AccelBytes(UnpackBytes(b)) == b[0..12]
  {
    hide Le32, FromLe32, FromLe64;
    Le32Inverse(b[0..4]);
    Le32Inverse(b[4..8]);
    Le32Inverse(b[8..12]);
    assert b[0..12] == b[0..4] + b[4..8] + b[8..12];
  }

  lemma RepackGyro(b: seq<byte>)
    requires |b| >= LAYOUT_SIZE
    ensures GyroBytes(UnpackBytes(b)) == b[12..24]
  {
    hide Le32, FromLe32, FromLe64;
    Le32Inverse(b[12..16]);
    Le32Inverse(b[16..20]);
    Le32Inverse(b[20..24]);
    assert b[12..24] == b[12..16] + b[16..20] + b[20..24];
  }

  lemma RepackPlace(b: seq<byte>)
    requires |b| >= LAYOUT_SIZE
    ensures PlaceBytes(UnpackBytes(b)) == b[24..40]
  {
    hide Le64, FromLe64, FromLe32;
    Le64Inverse(b[24..32]);
    Le64Inverse(b[32..40]);
    assert b[24..40] == b[24..32] + b[32..40];
  }

  lemma RepackTrack(b: seq<byte>)
    requires |b| >= LAYOUT_SIZE
    ensures TrackBytes(UnpackBytes(b)) == b[40..50]
  {
    hide Le32, FromLe32, FromLe64;
    Le32Inverse(b[40..44]);
    Le32Inverse(b[44..48]);
    assert b[40..50] == b[40..44] + b[44..48] + [b[48]] + [b[49]];
  }

  lemma RepackPower(b: seq<byte>)
    requires |b| >= LAYOUT_SIZE
    ensures PowerBytes(UnpackBytes(b)) == b[50..59]
  {
    hide Le32, FromLe32, FromLe64;
    Le32Inverse(b[50..54]);
    Le32Inverse(b[54..58]);
    assert b[50..59] == b[50..54] + b[54..58] + [b[58]];
  }

  lemma RepackAir(b: seq<byte>)
    requires |b| >= LAYOUT_SIZE
    ensures AirBytes(UnpackBytes(b)) == b[59..72]
  {
    hide Le32, FromLe32, FromLe64;
    Le32Inverse(b[59..63]);
    Le32Inverse(b[63..67]);
    Le32Inverse(b[67..71]);
    assert b[59..72] == b[59..63] + b[63..67] + b[67..71] + [b[71]];
  }

  /** Every 72 bytes are the packing of some record: nothing on the wire is ignored. */
  lemma PackUnpack(b: seq<byte>)
    requires |b| >= LAYOUT_SIZE
    ensures PackBytes(UnpackBytes(b)) == b[..LAYOUT_SIZE]
  {
    hide UnpackBytes, AccelBytes, GyroBytes, PlaceBytes, TrackBytes, PowerBytes, AirBytes;
    RepackAccel(b);
    RepackGyro(b);
    RepackPlace(b);
    RepackTrack(b);
    RepackPower(b);
    RepackAir(b);
    assert b[..72] == b[0..12] + b[12..24] + b[24..40] + b[40..50] + b[50..59] + b[59..72];
  }

  // ----- The buffers -----

  method PutF64(buf: array<byte>, at: nat, v: bv64)
    requires at + 8 <= buf.Length
    modifies buf
    ensures buf[..at + 8] == old(buf[..at]) + Le64(v)
    ensures forall i :: at + 8 <= i < buf.Length ==> buf[i] == old(buf[i])
  {
    hide ByteOf64;
    for i := 0 to 8
      invariant forall k :: 0 <= k < i ==> buf[at + k] == ByteOf64(v, k)
      invariant forall k :: 0 <= k < buf.Length && !(at <= k < at + i) ==> buf[k] == old(buf[k])
    {
      buf[at + i] := ByteOf64(v, i);
    }
    assert buf[at..at + 8] == Le64(v);
    assert buf[..at + 8] == buf[..at] + buf[at..at + 8];
  }

  method GetF64(buf: array<byte>, at: nat) returns (v: bv64)
    requires at + 8 <= buf.Length
    ensures v == FromLe64(buf[..][at..at + 8])
  {
    hide Place64;
    v := 0;
    ghost var b := buf[..][at..at + 8];
    for i := 0 to 8
      invariant v == Gathered(b, i)
    {
      assert b[i] == buf[at + i];
      v := v | Place64(buf[at + i], i);
    }
  }

  method PutAccel(s: Record, buf: array<byte>, at: nat)
    requires at + 12 <= buf.Length
    modifies buf
    ensures buf[..at + 12] == old(buf[..at]) + AccelBytes(s)
    ensures forall i :: at + 12 <= i < buf.Length ==> buf[i] == old(buf[i])
  {
    hide Le32;
    Put(buf, at, Le32(s.accelX));
    Put(buf, at + 4, Le32(s.accelY));
    Put(buf, at + 8, Le32(s.accelZ));
    Regroup(old(buf[..at]), Le32(s.accelX), Le32(s.accelY), Le32(s.accelZ), [], [], []);
  }

  method PutGyro(s: Record, buf: array<byte>, at: nat)
    requires at + 12 <= buf.Length
    modifies buf
    ensures buf[..at + 12] == old(buf[..at]) + GyroBytes(s)
    ensures forall i :: at + 12 <= i < buf.Length ==> buf[i] == old(buf[i])
  {
    hide Le32;
    Put(buf, at, Le32(s.gyroX));
    Put(buf, at + 4, Le32(s.gyroY));
    Put(buf, at + 8, Le32(s.gyroZ));
    Regroup(old(buf[..at]), Le32(s.gyroX), Le32(s.gyroY), Le32(s.gyroZ), [], [], []);
  }

  method PutPlace(s: Record, buf: array<byte>, at: nat)
    requires at + 16 <= buf.Length
    modifies buf
    ensures buf[..at + 16] == old(buf[..at]) + PlaceBytes(s)
    ensures forall i :: at + 16 <= i < buf.Length ==> buf[i] == old(buf[i])
  {
    hide Le64;
    PutF64(buf, at, s.latitude);
    PutF64(buf, at + 8, s.longitude);
    Regroup(old(buf[..at]), Le64(s.latitude), Le64(s.longitude), [], [], [], []);
  }

  method PutTrack(s: Record, buf: array<byte>, at: nat)
    requires at + 10 <= buf.Length
    modifies buf
    ensures buf[..at + 10] == old(buf[..at]) + TrackBytes(s)
    ensures forall i :: at + 10 <= i < buf.Length ==> buf[i] == old(buf[i])
  {
    hide Le32;
    Put(buf, at, Le32(s.altitude));
    Put(buf, at + 4, Le32(s.groundSpeed));
    Put(buf, at + 8, [s.fixQuality]);
    Put(buf, at + 9, [s.satellites]);
    Regroup(old(buf[..at]), Le32(s.altitude), Le32(s.groundSpeed), [s.fixQuality], [s.satellites], [], []);
  }

  method PutPower(s: Record, buf: array<byte>, at: nat)
    requires at + 9 <= buf.Length
    modifies buf
    ensures buf[..at + 9] == old(buf[..at]) + PowerBytes(s)
    ensures forall i :: at + 9 <= i < buf.Length ==> buf[i] == old(buf[i])
  {
    hide Le32;
    Put(buf, at, Le32(s.batteryVoltage));
    Put(buf, at + 4, Le32(s.batteryCurrent));
    Put(buf, at + 8, [s.batteryPct]);
    Regroup(old(buf[..at]), Le32(s.batteryVoltage), Le32(s.batteryCurrent), [s.batteryPct], [], [], []);
  }

  method PutAir(s: Record, buf: array<byte>, at: nat)
    requires at + 13 <= buf.Length
    modifies buf
    ensures buf[..at + 13] == old(buf[..at]) + AirBytes(s)
    ensures forall i :: at + 13 <= i < buf.Length ==> buf[i] == old(buf[i])
  {
    hide Le32;
    Put(buf, at, Le32(s.pressure));
    Put(buf, at + 4, Le32(s.temperature));
    Put(buf, at + 8, Le32(s.timestamp));
    Put(buf, at + 12, [s.status]);
    Regroup(old(buf[..at]), Le32(s.pressure), Le32(s.temperature), Le32(s.timestamp), [s.status], [], []);
  }

  lemma Regroup(p: seq<byte>, a: seq<byte>, b: seq<byte>, c: seq<byte>,
                d: seq<byte>, e: seq<byte>, f: seq<byte>)
    ensures p + a + b + c + d + e + f == p + (a + b + c + d + e + f)
  {
  }

  /** The field writes that firmware and simulator have in common. */
  method PutRecord(s: Record, buf: array<byte>, at: nat)
    requires at + LAYOUT_SIZE <= buf.Length
    modifies buf
    ensures buf[..at + LAYOUT_SIZE] == old(buf[..at]) + PackBytes(s)
    ensures forall i :: at + LAYOUT_SIZE <= i < buf.Length ==> buf[i] == old(buf[i])
  {
    hide AccelBytes, GyroBytes, PlaceBytes, TrackBytes, PowerBytes, AirBytes;
    PutAccel(s, buf, at);
    PutGyro(s, buf, at + 12);
    PutPlace(s, buf, at + 24);
    PutTrack(s, buf, at + 40);
    PutPower(s, buf, at + 50);
    PutAir(s, buf, at + 59);
    Regroup(old(buf[..at]), AccelBytes(s), GyroBytes(s), PlaceBytes(s), TrackBytes(s), PowerBytes(s), AirBytes(s));
  }

  /** The firmware's packer. */
  method PackSensor(s: Record, buf: array<byte>, declared: nat) returns (n: nat)
    requires declared >= LAYOUT_SIZE
    modifies buf
    ensures n == if buf.Length < declared then 0 else LAYOUT_SIZE
    ensures buf[..n] == if n == 0 then [] else PackBytes(s)
    ensures forall i :: n <= i < buf.Length ==> buf[i] == old(buf[i])
  {
    hide PackBytes;
    if buf.Length < declared {
      return 0;
    }
    PutRecord(s, buf, 0);
    n := LAYOUT_SIZE;
    assert [] + PackBytes(s) == PackBytes(s);
  }

  function GetF32(buf: array<byte>, at: nat): bv32
    requires at + 4 <= buf.Length
    reads buf
  {
    FromLe32(buf[..][at..at + 4])
  }

  /** The firmware's unpacker; it fails exactly on what is shorter than the declared size. */
  method UnpackSensor(buf: array<byte>, len: nat, declared: nat) returns (r: Option<Record>)
    requires len <= buf.Length && declared >= LAYOUT_SIZE
    ensures r.Some? <==> len >= declared
    ensures r.Some? ==> PackBytes(r.value) == buf[..LAYOUT_SIZE]
  {
    hide PackBytes, FromLe32, FromLe64;
    if len < declared {
      return None;
    }
    var lat := GetF64(buf, 24);
    var lon := GetF64(buf, 32);
    r := Some(Sensors(
      GetF32(buf, 0), GetF32(buf, 4), GetF32(buf, 8),
      GetF32(buf, 12), GetF32(buf, 16), GetF32(buf, 20),
      lat, lon,
      GetF32(buf, 40), GetF32(buf, 44),
      buf[48], buf[49],
      GetF32(buf, 50), GetF32(buf, 54), buf[58],
      GetF32(buf, 59), GetF32(buf, 63),
      GetF32(buf, 67), buf[71]));
    PackUnpack(buf[..]);
  }

  /** The simulator's frame builder. */
  method BuildSensorFrame(s: Record, buf: array<byte>, declared: nat) returns (n: nat)
    requires LAYOUT_SIZE <= declared < 0x1_0000
    modifies buf
    ensures n == if buf.Length < 6 + declared || declared != LAYOUT_SIZE then 0 else 6 + LAYOUT_SIZE
    ensures n > 0 ==> buf[..n] == Encode(Frame(SENSOR_FRAME, PackBytes(s)))
    ensures n > 0 ==> forall i :: n <= i < buf.Length ==> buf[i] == old(buf[i])
    ensures n == 0 && buf.Length >= 6 + declared ==>
      buf[..76] == [SOF, SENSOR_FRAME, Low(declared), High(declared)] + PackBytes(s)
    ensures n == 0 ==> forall i :: 76 <= i < buf.Length ==> buf[i] == old(buf[i])
    ensures buf.Length < 6 + declared ==> buf[..] == old(buf[..])
  {
    hide Low, High, CrcLow, CrcHigh, Crc.Checksum, Body, Encode, PackBytes;
    if buf.Length < 6 + declared {
      return 0;
    }
    var head := [SOF, SENSOR_FRAME, Low(declared), High(declared)];
    Put(buf, 0, head);
    assert buf[..4] == head;
    PutRecord(s, buf, HEADER_SIZE);
    var written := LAYOUT_SIZE;
    if written != declared {
      return 0;
    }
    EncodeInParts(SENSOR_FRAME, PackBytes(s));
    assert buf[1..76] == buf[..76][1..];
    var crc := Crc.Crc16(buf, 1, 3 + declared);
    Put(buf, 76, [CrcLow(crc), CrcHigh(crc)]);
    n := 6 + declared;
  }

  /**
    Packing and unpacking with one declared size: the record comes back whole exactly when the
    length handed to the unpacker is at least the declared size.  The packer's own result is 72,
    so with the size declared as 73 its output is refused.
    */
  method PackThenUnpack(s: Record, buf: array<byte>, declared: nat, len: nat) returns (n: nat, r: Option<Record>)
    requires LAYOUT_SIZE <= declared <= buf.Length && len <= buf.Length
    modifies buf
    ensures n == LAYOUT_SIZE
    ensures r == if len >= declared then Some(s) else None
  {
    hide PackBytes;
    n := PackSensor(s, buf, declared);
    r := UnpackSensor(buf, len, declared);
    if r.Some? {
      PackInjective(s, r.value);
    }
  }

  /** As written, nothing gets through: the builder gives up on every record, the unpacker on every packed one. */
  method AsWritten(s: Record, frame: array<byte>, payload: array<byte>) returns (built: nat, r: Option<Record>)
    requires payload.Length >= DECLARED_SIZE
    modifies frame, payload
    ensures built == 0 && r == None
    ensures frame != payload && frame.Length >= 79 ==>
      frame[1] == 0x10 && frame[2] as nat == 73 && frame[3] as nat == 0
  {
    LengthInNumbers(DECLARED_SIZE);
    hide PackBytes, Encode, Low, High;
    built := BuildSensorFrame(s, frame, DECLARED_SIZE);
    ghost var head := [SOF, SENSOR_FRAME, Low(DECLARED_SIZE), High(DECLARED_SIZE)];
    assert frame.Length >= 79 ==> forall i :: 0 <= i < 4 ==> frame[i] == frame[..76][i] == head[i];
    var n: nat;
    n, r := PackThenUnpack(s, payload, DECLARED_SIZE, LAYOUT_SIZE);
  }

  // ----- End to end -----

  /**
    With the size corrected, what the simulator sends is reported by the firmware's receive
    machine and unpacks to the record that was sent.
    */
  lemma EndToEnd(s: Record)
    ensures Decoder.Emits(Decoder.WaitSof, Encode(Frame(SENSOR_FRAME, PackBytes(s))))
         == Decoder.Nones(77) + [Some(Frame(SENSOR_FRAME, PackBytes(s)))]
    ensures UnpackBytes(PackBytes(s)) == s
  {
    hide Decoder.Emits, PackBytes, UnpackBytes, Encode;
    Link.PrintedRuns(Frame(SENSOR_FRAME, PackBytes(s)));
    UnpackPack(s, []);
    assert PackBytes(s) + [] == PackBytes(s);
  }

  /** The packing determines the record. */
  lemma PackInjective(a: Record, b: Record)
    requires PackBytes(a) == PackBytes(b)
    ensures a == b
  {
    hide PackBytes, UnpackBytes;
    UnpackPack(a, []);
    UnpackPack(b, []);
  }

  /** What a context in the start state holds when only the last byte is missing. */
  lemma HeldBeforeLast(f: Frame, was: seq<byte>)
    requires |f.payload| == LAYOUT_SIZE && Decoder.Run(Decoder.WaitSof, was) == Decoder.WaitSof
    ensures Decoder.Run(Decoder.WaitSof, was + Encode(f)[..77])
         == Decoder.WaitCrcHi(f.kind, f.payload, CrcLow(Check(f.kind, f.payload)))
  {
    hide Encode, Decoder.Run, Decoder.Emits, Check;
    Link.PrintedIsHeld(f);
    Decoder.RunAppend(Decoder.WaitSof, was, Encode(f)[..77]);
  }

  lemma LastIsReported(f: Frame)
    requires |f.payload| == LAYOUT_SIZE
    ensures var rx := Decoder.WaitCrcHi(f.kind, f.payload, CrcLow(Check(f.kind, f.payload)));
      rx.Valid() && Decoder.Step(rx, Encode(f)[77]).frame == Some(f)
  {
    hide Encode, Join, Check;
    Link.PrintedIsWellFramed(f);
    JoinRoundTrip(Check(f.kind, f.payload));
  }

  /** Feeds the first `n` bytes of a buffer. */
  method FeedFront(rx: Decoder.RxContext, buf: array<byte>, n: nat)
    requires rx.Valid() && n <= buf.Length && buf != rx.payload
    modifies rx, rx.payload
    ensures rx.Valid() && rx.fed == old(rx.fed) + buf[..n]
  {
    hide Decoder.Run, Decoder.Step, Decoder.Emits, Decoder.Batch;
    for i := 0 to n
      invariant rx.Valid() && rx.fed == old(rx.fed) + buf[..i]
    {
      var _, _ := rx.Feed(buf[i]);
      assert buf[..i + 1] == buf[..i] + [buf[i]];
    }
  }

  lemma HeldIsPayload(rx: Decoder.RxContext, kind: byte, payload: seq<byte>, lo: byte)
    requires rx.Consistent() && rx.Abs() == Decoder.WaitCrcHi(kind, payload, lo)
    ensures rx.len == |payload| && rx.payload[..|payload|] == payload
  {
  }

  /**
    The same on the mutable state: with the size corrected, the builder's bytes are fed one by one
    to a receive context in its start state; the payload is taken from the context before the
    last byte erases it, that byte reports success, and the payload unpacks to the record sent.
    */
  method Deliver(s: Record, buf: array<byte>, rx: Decoder.RxContext)
    returns (ok: bool, ghost frame: Option<Frame>, r: Option<Record>)
    requires rx.Valid() && rx.Abs() == Decoder.WaitSof
    requires buf.Length >= 78 && buf != rx.payload
    modifies buf, rx, rx.payload
    ensures rx.Valid() && rx.fed == old(rx.fed) + Encode(Frame(SENSOR_FRAME, PackBytes(s)))
    ensures ok && frame == Some(Frame(SENSOR_FRAME, PackBytes(s)))
    ensures r == Some(s)
  {
    hide PackBytes, Encode, Check, Decoder.Run, Decoder.Step, Decoder.Emits, Decoder.Batch;
    ghost var f := Frame(SENSOR_FRAME, PackBytes(s));
    ghost var w, was := Encode(f), rx.fed;
    var n := BuildSensorFrame(s, buf, LAYOUT_SIZE);
    assert buf[..77] == buf[..n][..77] && w == w[..77] + [w[77]];
    FeedFront(rx, buf, 77);
    HeldBeforeLast(f, was);
    HeldIsPayload(rx, f.kind, f.payload, CrcLow(Check(f.kind, f.payload)));
    var payload := new byte[LAYOUT_SIZE];
    Put(payload, 0, rx.payload[..LAYOUT_SIZE]);
    assert payload[..LAYOUT_SIZE] == PackBytes(s);
    LastIsReported(f);
    assert buf[77] == buf[..n][77];
    ok, frame := rx.Feed(buf[77]);
    r := UnpackSensor(payload, LAYOUT_SIZE, LAYOUT_SIZE);
    PackInjective(s, r.value);
  }
}
