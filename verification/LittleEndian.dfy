/** Four- and eight-byte little-endian words in a byte buffer. */
module LittleEndian {
  import opened Bytes

  function Le32(v: bv32): (b: seq<byte>)
    ensures |b| == 4
  {
    [(v & 0xFF) as byte, ((v >> 8) & 0xFF) as byte, ((v >> 16) & 0xFF) as byte, (v >> 24) as byte]
  }

  function FromLe32(b: seq<byte>): bv32
    requires |b| == 4
  {
    (b[0] as bv32) | ((b[1] as bv32) << 8) | ((b[2] as bv32) << 16) | ((b[3] as bv32) << 24)
  }

  lemma Le32RoundTrip(v: bv32)
    ensures FromLe32(Le32(v)) == v
  {
  }

  lemma Le32Inverse(b: seq<byte>)
    requires |b| == 4
    ensures Le32(FromLe32(b)) == b
  {
  }

  function ByteOf64(v: bv64, i: nat): byte
    requires i < 8
  {
    (match i
     case 0 => v & 0xFF
     case 1 => (v >> 8) & 0xFF
     case 2 => (v >> 16) & 0xFF
     case 3 => (v >> 24) & 0xFF
     case 4 => (v >> 32) & 0xFF
     case 5 => (v >> 40) & 0xFF
     case 6 => (v >> 48) & 0xFF
     case _ => v >> 56) as byte
  }

  /** A byte moved to place `i` of an eight-byte word. */
  function Place64(b: byte, i: nat): bv64
    requires i < 8
  {
    match i
    case 0 => b as bv64
    case 1 => (b as bv64) << 8
    case 2 => (b as bv64) << 16
    case 3 => (b as bv64) << 24
    case 4 => (b as bv64) << 32
    case 5 => (b as bv64) << 40
    case 6 => (b as bv64) << 48
    case _ => (b as bv64) << 56
  }

  function Le64(v: bv64): (b: seq<byte>)
    ensures |b| == 8
    ensures forall i :: 0 <= i < 8 ==> b[i] == ByteOf64(v, i)
  {
    seq(8, i requires 0 <= i < 8 => ByteOf64(v, i))
  }

  function Gathered(b: seq<byte>, n: nat): bv64
    requires n <= |b| == 8
  {
    if n == 0 then 0 else Gathered(b, n - 1) | Place64(b[n - 1], n - 1)
  }

  function FromLe64(b: seq<byte>): bv64
    requires |b| == 8
  {
    Gathered(b, 8)
  }

  lemma Split64(v: bv64)
    ensures ((v & 0xFF) as byte as bv64)
          | ((((v >> 8) & 0xFF) as byte as bv64) << 8)
          | ((((v >> 16) & 0xFF) as byte as bv64) << 16)
          | ((((v >> 24) & 0xFF) as byte as bv64) << 24)
          | ((((v >> 32) & 0xFF) as byte as bv64) << 32)
          | ((((v >> 40) & 0xFF) as byte as bv64) << 40)
          | ((((v >> 48) & 0xFF) as byte as bv64) << 48)
          | (((v >> 56) as byte as bv64) << 56)
         == v
  {
  }

  lemma Join64(a: byte, b: byte, c: byte, d: byte, e: byte, f: byte, g: byte, h: byte)
    ensures var v := (a as bv64) | ((b as bv64) << 8) | ((c as bv64) << 16) | ((d as bv64) << 24)
                   | ((e as bv64) << 32) | ((f as bv64) << 40) | ((g as bv64) << 48) | ((h as bv64) << 56);
      && (v & 0xFF) as byte == a
      && ((v >> 8) & 0xFF) as byte == b
      && ((v >> 16) & 0xFF) as byte == c
      && ((v >> 24) & 0xFF) as byte == d
      && ((v >> 32) & 0xFF) as byte == e
      && ((v >> 40) & 0xFF) as byte == f
      && ((v >> 48) & 0xFF) as byte == g
      && (v >> 56) as byte == h
  {
  }

  lemma GatheredAll(b: seq<byte>)
    requires |b| == 8
    ensures FromLe64(b) == (b[0] as bv64)
          | ((b[1] as bv64) << 8) | ((b[2] as bv64) << 16) | ((b[3] as bv64) << 24)
          | ((b[4] as bv64) << 32) | ((b[5] as bv64) << 40) | ((b[6] as bv64) << 48) | ((b[7] as bv64) << 56)
  {
    GatheredNext(b, 0);
    GatheredNext(b, 1);
    GatheredNext(b, 2);
    GatheredNext(b, 3);
    GatheredNext(b, 4);
    GatheredNext(b, 5);
    GatheredNext(b, 6);
    GatheredNext(b, 7);
    hide Gathered;
  }

  lemma GatheredNext(b: seq<byte>, n: nat)
    requires n < |b| == 8
    ensures Gathered(b, 0) == 0
    ensures Gathered(b, n + 1) == Gathered(b, n) | Place64(b[n], n)
  {
  }

  lemma Le64RoundTrip(v: bv64)
    ensures FromLe64(Le64(v)) == v
  {
    GatheredAll(Le64(v));
    Split64(v);
  }

  lemma Le64Inverse(b: seq<byte>)
    requires |b| == 8
    ensures Le64(FromLe64(b)) == b
  {
    hide FromLe64;
    GatheredAll(b);
    Join64(b[0], b[1], b[2], b[3], b[4], b[5], b[6], b[7]);
    var c := Le64(FromLe64(b));
    assert c[0] == b[0] && c[1] == b[1] && c[2] == b[2] && c[3] == b[3];
    assert c[4] == b[4] && c[5] == b[5] && c[6] == b[6] && c[7] == b[7];
  }

  /** The least significant byte comes first. */
  lemma ByteOrder()
    ensures Le32(0x04030201) == [0x01, 0x02, 0x03, 0x04]
    ensures Le64(0x0807060504030201) == [0x01, 0x02, 0x03, 0x04, 0x05, 0x06, 0x07, 0x08]
  {
    var b := Le64(0x0807060504030201);
    assert b[0] == 0x01 && b[1] == 0x02 && b[2] == 0x03 && b[3] == 0x04;
    assert b[4] == 0x05 && b[5] == 0x06 && b[6] == 0x07 && b[7] == 0x08;
  }
}
