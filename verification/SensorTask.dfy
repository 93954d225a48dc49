/** The sensor task's handling of one accepted frame. */
module SensorTask {
  import opened Bytes
  import opened Wire
  import opened SensorCodec
  import Mailbox

  const HEARTBEAT_REQ: byte := 0x12
  const HEARTBEAT_ACK: byte := 0x21
  const ACK_PAYLOAD: byte := 0xAC
  const COUNT_WRAP: nat := 0x1_0000_0000

  class FrameHandler {
    const queue: Mailbox.MessageQueue<Record>
    var latest: Option<Record>
    var lastPacketMs: nat
    var packets: nat
    var errors: nat

    constructor (queue: Mailbox.MessageQueue<Record>)
      ensures this.queue == queue && latest == None && lastPacketMs == 0 && packets == 0 && errors == 0
    {
      this.queue := queue;
      latest := None;
      lastPacketMs, packets, errors := 0, 0, 0;
    }

    /**
      Replaces whatever is queued by the new record.  The flight task may get in between the
      count and the discard, and between the discard and the put.
      */
    method Post(record: Record, getFirst: bool, getSecond: bool) returns (taken: seq<Record>)
      requires |queue.items| <= 1
      modifies queue
      ensures queue.items == [record]
      ensures taken == [] || taken == old(queue.items)
    {
      taken := [];
      var waiting := |queue.items| > 0;
      if getFirst {
        var r := queue.Get();
        if r.Some? {
          taken := taken + [r.value];
        }
      }
      if waiting {
        var _ := queue.Get();
      }
      if getSecond {
        var r := queue.Get();
        if r.Some? {
          taken := taken + [r.value];
        }
      }
      var _ := queue.Put(record);
    }

    /**
      A sensor frame that unpacks becomes the latest record and the only one queued; one that is
      too short only counts as an error; a heartbeat is answered by a well-formed frame; any
      other type changes nothing.
      */
    method HandleFrame(kind: byte, payload: array<byte>, len: nat, declared: nat, now: nat,
                       getFirst: bool, getSecond: bool)
      returns (sent: seq<byte>, taken: seq<Record>)
      requires len <= payload.Length && declared >= LAYOUT_SIZE && |queue.items| <= 1
      modifies this, queue
      ensures |queue.items| <= 1
      ensures kind == 0x10 && len >= declared ==>
        && latest.Some? && PackBytes(latest.value) == payload[..LAYOUT_SIZE]
        && queue.items == [latest.value]
        && lastPacketMs == now && packets == (old(packets) + 1) % 0x1_0000_0000 && errors == old(errors)
        && (taken == [] || taken == old(queue.items))
      ensures kind == 0x10 && len < declared ==> errors == (old(errors) + 1) % 0x1_0000_0000
      ensures kind != 0x10 ==> errors == old(errors)
      ensures kind != 0x10 || len < declared ==>
        latest == old(latest) && lastPacketMs == old(lastPacketMs) && packets == old(packets) &&
        queue.items == old(queue.items) && taken == []
      ensures sent == if kind == 0x12 then Encode(Frame(HEARTBEAT_ACK, [ACK_PAYLOAD])) else []
    {
      hide PackBytes, Encode;
      sent, taken := [], [];
      match kind {
        case 0x10 =>
          var parsed := UnpackSensor(payload, len, declared);
          if parsed.Some? {
            latest := parsed;
            lastPacketMs := now;
            packets := (packets + 1) % COUNT_WRAP;
            taken := Post(parsed.value, getFirst, getSecond);
          } else {
            errors := (errors + 1) % COUNT_WRAP;
          }
        case 0x12 =>
          sent := Acknowledge();
        case _ =>
      }
    }

    /** The acknowledgement, written out byte by byte. */
    static method Acknowledge() returns (sent: seq<byte>)
      ensures sent == Encode(Frame(HEARTBEAT_ACK, [ACK_PAYLOAD]))
      ensures |sent| == 7 && sent[..5] == [0xAB, 0x21, 0x01, 0x00, 0xAC]
    {
      hide Encode, Crc.Checksum, Body;
      var ack := new byte[7];
      ack[0], ack[1], ack[2], ack[3], ack[4] := SOF, HEARTBEAT_ACK, 1, 0, ACK_PAYLOAD;
      EncodeInParts(HEARTBEAT_ACK, [ACK_PAYLOAD]);
      OneAsLength();
      ghost var head := [SOF, HEARTBEAT_ACK, 1, 0] + [ACK_PAYLOAD];
      assert ack[..5] == head;
      assert ack[1..5] == ack[..5][1..];
      var crc := Crc.Crc16(ack, 1, 4);
      ack[5], ack[6] := CrcLow(crc), CrcHigh(crc);
      assert ack[..5] == head;
      sent := ack[..];
      assert sent == ack[..5] + [ack[5], ack[6]];
    }
  }

  lemma OneAsLength()
    ensures Low(1) == 1 && High(1) == 0
  {
  }
}
