/** The one fact that ties eight-bit words to integers. */
module Bytes8 {
  lemma ByteValue(n: int)
    requires 0 <= n < 256
    ensures (n as bv8) as int == n
  {
    var b := Count(n);
  }

  lemma ByteRoundTrip(b: bv8)
    ensures 0 <= b as int < 256 && (b as int) as bv8 == b
  {
  }

  lemma Digits(lo: int, hi: int)
    requires 0 <= lo < 256 && 0 <= hi < 256
    ensures (lo + 256 * hi) % 256 == lo && (lo + 256 * hi) / 256 == hi
  {
  }

  /** Counting up from zero reaches every value. */
  lemma Count(n: int) returns (b: bv8)
    requires 0 <= n < 256
    ensures b as int == n
  {
    if n == 0 {
      b := 0;
    } else {
      b := Count(n - 1);
      Successor(b);
      b := b + 1;
    }
  }

  lemma Successor(b: bv8)
    requires b as int < 255
    ensures (b + 1) as int == b as int + 1
  {
  }
}

/** Bytes, and the two-byte little-endian integers of the wire. */
module Bytes {
  import Bytes8

  type byte = bv8

  datatype Option<+T> = None | Some(value: T)

  function Low(n: nat): byte {
    (n % 256) as byte
  }

  function High(n: nat): byte
    requires n < 0x1_0000
  {
    (n / 256) as byte
  }

  /** A length field from its two bytes. */
  function Length(lo: byte, hi: byte): (n: nat)
    ensures n < 0x1_0000
  {
    (lo as nat) + 256 * (hi as nat)
  }

  lemma LengthRoundTrip(n: nat)
    requires n < 0x1_0000
    ensures Length(Low(n), High(n)) == n
  {
    Bytes8.ByteValue(n % 256);
    Bytes8.ByteValue(n / 256);
  }

  lemma LengthInNumbers(n: nat)
    requires n < 0x1_0000
    ensures Low(n) as nat == n % 256 && High(n) as nat == n / 256
  {
    Bytes8.ByteValue(n % 256);
    Bytes8.ByteValue(n / 256);
  }

  lemma LengthDetermines(lo: byte, hi: byte)
    ensures Low(Length(lo, hi)) == lo && High(Length(lo, hi)) == hi
  {
    hide Low, High, Length;
    LengthParts(lo, hi);
    LowIs(Length(lo, hi), lo);
    HighIs(Length(lo, hi), hi);
  }

  lemma LengthParts(lo: byte, hi: byte)
    ensures Length(lo, hi) % 256 == lo as int && Length(lo, hi) / 256 == hi as int
  {
    Bytes8.Digits(lo as int, hi as int);
  }

  lemma LowIs(n: nat, b: byte)
    requires n % 256 == b as int
    ensures Low(n) == b
  {
    Bytes8.ByteRoundTrip(b);
  }

  lemma HighIs(n: nat, b: byte)
    requires n < 0x1_0000 && n / 256 == b as int
    ensures High(n) == b
  {
    Bytes8.ByteRoundTrip(b);
  }

  /** A length whose high byte is still missing. */
  lemma LowOfByte(b: byte)
    ensures Low(b as nat) == b
  {
    LengthDetermines(b, 0);
    ZeroByte();
  }

  lemma ZeroByte()
    ensures (0 as byte) as nat == 0
  {
  }

  lemma LengthFromLow(n: nat, hi: byte)
    requires n < 256
    ensures Length(Low(n), hi) == n + 256 * (hi as nat)
  {
    Bytes8.ByteValue(n);
  }

  function CrcLow(c: bv16): byte {
    (c & 0xFF) as byte
  }

  function CrcHigh(c: bv16): byte {
    (c >> 8) as byte
  }

  /** A check value from its two bytes. */
  function Join(lo: byte, hi: byte): bv16 {
    (lo as bv16) | ((hi as bv16) << 8)
  }

  lemma JoinRoundTrip(c: bv16)
    ensures Join(CrcLow(c), CrcHigh(c)) == c
  {
  }

  lemma JoinDetermines(lo: byte, hi: byte)
    ensures CrcLow(Join(lo, hi)) == lo && CrcHigh(Join(lo, hi)) == hi
  {
  }

  /** Stores a run of bytes behind the first `at`. */
  method Put(buf: array<byte>, at: nat, bytes: seq<byte>)
    requires at + |bytes| <= buf.Length
    modifies buf
    ensures buf[..at + |bytes|] == old(buf[..at]) + bytes
    ensures forall i :: at + |bytes| <= i < buf.Length ==> buf[i] == old(buf[i])
  {
    forall i | 0 <= i < |bytes| {
      buf[at + i] := bytes[i];
    }
  }
}
