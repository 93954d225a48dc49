/**
  The frame check of the wire protocol: generator x^16 + x^12 + x^5 + 1, register preset to
  all ones, most significant bit first, no final complement.

  `Crc16` is the firmware's double loop; the simulator holds the same loop.  `Checksum` is the
  function it computes, and it is related here to the polynomial arithmetic of `Gf2`.
  */
module Crc {
  import Gf2
  import opened Bytes

  const PRESET: bv16 := 0xFFFF

  /** One turn of the inner loop. */
  function ShiftRegister(crc: bv16): bv16 {
    if crc & 0x8000 != 0 then (crc << 1) ^ 0x1021 else crc << 1
  }

  function ShiftTimes(crc: bv16, n: nat): bv16 {
    if n == 0 then crc else ShiftRegister(ShiftTimes(crc, n - 1))
  }

  function Seed(crc: bv16, d: byte): bv16 {
    crc ^ ((d as bv16) << 8)
  }

  /** The register after a run of bytes. */
  function Register(crc: bv16, data: seq<byte>): bv16 {
    if data == [] then crc
    else ShiftTimes(Seed(Register(crc, data[..|data| - 1]), data[|data| - 1]), 8)
  }

  function Checksum(data: seq<byte>): bv16 {
    Register(PRESET, data)
  }

  method Crc16(data: array<byte>, start: nat, len: nat) returns (crc: bv16)
    requires start + len <= data.Length
    ensures crc == Checksum(data[start..start + len])
  {
    hide ShiftRegister, Seed;
    crc := PRESET;
    for i := 0 to len
      invariant crc == Register(PRESET, data[start..start + i])
    {
      ghost var seen := data[start..start + i + 1];
      assert seen[..|seen| - 1] == data[start..start + i];
      crc := Seed(crc, data[start + i]);
      ghost var seeded := crc;
      for b := 0 to 8
        invariant crc == ShiftTimes(seeded, b)
      {
        crc := ShiftRegister(crc);
      }
    }
  }

  // ----- Words as bit strings, most significant bit first -----

  function ByteBits(d: byte): (bits: seq<bool>)
    ensures |bits| == 8
  {
    [d & 0x80 != 0, d & 0x40 != 0, d & 0x20 != 0, d & 0x10 != 0,
     d & 0x08 != 0, d & 0x04 != 0, d & 0x02 != 0, d & 0x01 != 0]
  }

  function HighHalf(w: bv16): (bits: seq<bool>)
    ensures |bits| == 8
  {
    [w & 0x8000 != 0, w & 0x4000 != 0, w & 0x2000 != 0, w & 0x1000 != 0,
     w & 0x0800 != 0, w & 0x0400 != 0, w & 0x0200 != 0, w & 0x0100 != 0]
  }

  function LowHalf(w: bv16): (bits: seq<bool>)
    ensures |bits| == 8
  {
    [w & 0x0080 != 0, w & 0x0040 != 0, w & 0x0020 != 0, w & 0x0010 != 0,
     w & 0x0008 != 0, w & 0x0004 != 0, w & 0x0002 != 0, w & 0x0001 != 0]
  }

  function WordBits(w: bv16): Gf2.Register {
    HighHalf(w) + LowHalf(w)
  }

  function Bits(data: seq<byte>): (bits: seq<bool>)
    ensures |bits| == 8 * |data|
  {
    if data == [] then [] else Bits(data[..|data| - 1]) + ByteBits(data[|data| - 1])
  }

  // Bit-vector facts, stated without the functions they serve.

  lemma ShiftLeftBits(c: bv16)
    ensures (c << 1) & 0x8000 == 0 <==> c & 0x4000 == 0
    ensures (c << 1) & 0x4000 == 0 <==> c & 0x2000 == 0
    ensures (c << 1) & 0x2000 == 0 <==> c & 0x1000 == 0
    ensures (c << 1) & 0x1000 == 0 <==> c & 0x0800 == 0
    ensures (c << 1) & 0x0800 == 0 <==> c & 0x0400 == 0
    ensures (c << 1) & 0x0400 == 0 <==> c & 0x0200 == 0
    ensures (c << 1) & 0x0200 == 0 <==> c & 0x0100 == 0
    ensures (c << 1) & 0x0100 == 0 <==> c & 0x0080 == 0
    ensures (c << 1) & 0x0080 == 0 <==> c & 0x0040 == 0
    ensures (c << 1) & 0x0040 == 0 <==> c & 0x0020 == 0
    ensures (c << 1) & 0x0020 == 0 <==> c & 0x0010 == 0
    ensures (c << 1) & 0x0010 == 0 <==> c & 0x0008 == 0
    ensures (c << 1) & 0x0008 == 0 <==> c & 0x0004 == 0
    ensures (c << 1) & 0x0004 == 0 <==> c & 0x0002 == 0
    ensures (c << 1) & 0x0002 == 0 <==> c & 0x0001 == 0
    ensures (c << 1) & 0x0001 == 0
  {
  }

  lemma TailBits(c: bv16)
    ensures (c ^ 0x1021) & 0x8000 == 0 <==> c & 0x8000 == 0
    ensures (c ^ 0x1021) & 0x4000 == 0 <==> c & 0x4000 == 0
    ensures (c ^ 0x1021) & 0x2000 == 0 <==> c & 0x2000 == 0
    ensures (c ^ 0x1021) & 0x1000 == 0 <==> c & 0x1000 != 0
    ensures (c ^ 0x1021) & 0x0800 == 0 <==> c & 0x0800 == 0
    ensures (c ^ 0x1021) & 0x0400 == 0 <==> c & 0x0400 == 0
    ensures (c ^ 0x1021) & 0x0200 == 0 <==> c & 0x0200 == 0
    ensures (c ^ 0x1021) & 0x0100 == 0 <==> c & 0x0100 == 0
    ensures (c ^ 0x1021) & 0x0080 == 0 <==> c & 0x0080 == 0
    ensures (c ^ 0x1021) & 0x0040 == 0 <==> c & 0x0040 == 0
    ensures (c ^ 0x1021) & 0x0020 == 0 <==> c & 0x0020 != 0
    ensures (c ^ 0x1021) & 0x0010 == 0 <==> c & 0x0010 == 0
    ensures (c ^ 0x1021) & 0x0008 == 0 <==> c & 0x0008 == 0
    ensures (c ^ 0x1021) & 0x0004 == 0 <==> c & 0x0004 == 0
    ensures (c ^ 0x1021) & 0x0002 == 0 <==> c & 0x0002 == 0
    ensures (c ^ 0x1021) & 0x0001 == 0 <==> c & 0x0001 != 0
  {
  }

  lemma ShiftHalves(crc: bv16)
    ensures var h, l, s := HighHalf(crc), LowHalf(crc), ShiftRegister(crc);
      && HighHalf(s) == [h[1], h[2], h[3], h[4] != h[0], h[5], h[6], h[7], l[0]]
      && LowHalf(s) == [l[1], l[2], l[3] != h[0], l[4], l[5], l[6], l[7], h[0]]
  {
    ShiftLeftBits(crc);
    if crc & 0x8000 != 0 {
      TailBits(crc << 1);
    }
  }

  lemma ShiftBits(crc: bv16)
    ensures WordBits(ShiftRegister(crc)) == Gf2.TimesX(WordBits(crc))
  {
    hide Gf2.TimesX, HighHalf, LowHalf, ShiftRegister;
    ShiftHalves(crc);
    Gf2.TimesXByPlace(HighHalf(crc), LowHalf(crc));
  }

  lemma SeedBitFacts(c: bv16, d: byte)
    ensures ((c ^ ((d as bv16) << 8)) & 0x8000 != 0) == ((c & 0x8000 != 0) != (d & 0x80 != 0))
    ensures ((c ^ ((d as bv16) << 8)) & 0x4000 != 0) == ((c & 0x4000 != 0) != (d & 0x40 != 0))
    ensures ((c ^ ((d as bv16) << 8)) & 0x2000 != 0) == ((c & 0x2000 != 0) != (d & 0x20 != 0))
    ensures ((c ^ ((d as bv16) << 8)) & 0x1000 != 0) == ((c & 0x1000 != 0) != (d & 0x10 != 0))
    ensures ((c ^ ((d as bv16) << 8)) & 0x0800 != 0) == ((c & 0x0800 != 0) != (d & 0x08 != 0))
    ensures ((c ^ ((d as bv16) << 8)) & 0x0400 != 0) == ((c & 0x0400 != 0) != (d & 0x04 != 0))
    ensures ((c ^ ((d as bv16) << 8)) & 0x0200 != 0) == ((c & 0x0200 != 0) != (d & 0x02 != 0))
    ensures ((c ^ ((d as bv16) << 8)) & 0x0100 != 0) == ((c & 0x0100 != 0) != (d & 0x01 != 0))
    ensures ((c ^ ((d as bv16) << 8)) & 0x0080 != 0) == (c & 0x0080 != 0)
    ensures ((c ^ ((d as bv16) << 8)) & 0x0040 != 0) == (c & 0x0040 != 0)
    ensures ((c ^ ((d as bv16) << 8)) & 0x0020 != 0) == (c & 0x0020 != 0)
    ensures ((c ^ ((d as bv16) << 8)) & 0x0010 != 0) == (c & 0x0010 != 0)
    ensures ((c ^ ((d as bv16) << 8)) & 0x0008 != 0) == (c & 0x0008 != 0)
    ensures ((c ^ ((d as bv16) << 8)) & 0x0004 != 0) == (c & 0x0004 != 0)
    ensures ((c ^ ((d as bv16) << 8)) & 0x0002 != 0) == (c & 0x0002 != 0)
    ensures ((c ^ ((d as bv16) << 8)) & 0x0001 != 0) == (c & 0x0001 != 0)
  {
  }

  lemma SeedHighHalf(crc: bv16, d: byte)
    ensures HighHalf(Seed(crc, d)) == Gf2.Xor(HighHalf(crc), ByteBits(d))
  {
    hide Gf2.Xor;
    SeedBitFacts(crc, d);
    Gf2.XorByPlace(HighHalf(crc), ByteBits(d));
  }

  lemma SeedLowHalf(crc: bv16, d: byte)
    ensures LowHalf(Seed(crc, d)) == LowHalf(crc)
  {
    SeedBitFacts(crc, d);
  }

  lemma SeedBits(crc: bv16, d: byte)
    ensures WordBits(Seed(crc, d)) == Gf2.Xor(WordBits(crc), Gf2.Pad(ByteBits(d)))
  {
    hide HighHalf, LowHalf, ByteBits, Seed;
    SeedHighHalf(crc, d);
    SeedLowHalf(crc, d);
  }

  lemma {:induction false} ShiftTimesBits(crc: bv16, n: nat)
    ensures WordBits(ShiftTimes(crc, n)) == Gf2.TimesXPower(WordBits(crc), n)
  {
    hide WordBits, ShiftRegister, Gf2.TimesX;
    if n > 0 {
      ShiftTimesBits(crc, n - 1);
      ShiftBits(ShiftTimes(crc, n - 1));
    }
  }

  /** The byte loop computes the bit-serial register of `Gf2`, for every message. */
  lemma {:induction false} RegisterBits(crc: bv16, data: seq<byte>)
    ensures WordBits(Register(crc, data)) == Gf2.Feed(WordBits(crc), Bits(data))
  {
    hide WordBits, ByteBits, ShiftTimes, Seed, Gf2.TimesXPower, Gf2.Xor, Gf2.Pad, Gf2.Feed;
    if data == [] {
      Gf2.FeedNothing(WordBits(crc));
    } else {
      var n := |data| - 1;
      RegisterBits(crc, data[..n]);
      var r := Register(crc, data[..n]);
      SeedBits(r, data[n]);
      ShiftTimesBits(Seed(r, data[n]), 8);
      Gf2.FeedAhead(WordBits(r), ByteBits(data[n]));
      Gf2.FeedAppend(WordBits(crc), Bits(data[..n]), ByteBits(data[n]));
    }
  }

  lemma SameBits(a: bv16, b: bv16)
    requires (a & 0x8000 == 0) == (b & 0x8000 == 0)
    requires (a & 0x4000 == 0) == (b & 0x4000 == 0)
    requires (a & 0x2000 == 0) == (b & 0x2000 == 0)
    requires (a & 0x1000 == 0) == (b & 0x1000 == 0)
    requires (a & 0x0800 == 0) == (b & 0x0800 == 0)
    requires (a & 0x0400 == 0) == (b & 0x0400 == 0)
    requires (a & 0x0200 == 0) == (b & 0x0200 == 0)
    requires (a & 0x0100 == 0) == (b & 0x0100 == 0)
    requires (a & 0x0080 == 0) == (b & 0x0080 == 0)
    requires (a & 0x0040 == 0) == (b & 0x0040 == 0)
    requires (a & 0x0020 == 0) == (b & 0x0020 == 0)
    requires (a & 0x0010 == 0) == (b & 0x0010 == 0)
    requires (a & 0x0008 == 0) == (b & 0x0008 == 0)
    requires (a & 0x0004 == 0) == (b & 0x0004 == 0)
    requires (a & 0x0002 == 0) == (b & 0x0002 == 0)
    requires (a & 0x0001 == 0) == (b & 0x0001 == 0)
    ensures a == b
  {
  }

  lemma HalvesDetermine(a: bv16, b: bv16)
    requires HighHalf(a) == HighHalf(b) && LowHalf(a) == LowHalf(b)
    ensures a == b
  {
    var w, x, y, z := HighHalf(a), HighHalf(b), LowHalf(a), LowHalf(b);
    assert forall i :: 0 <= i < 8 ==> w[i] == x[i] && y[i] == z[i];
    SameBits(a, b);
  }

  lemma WordBitsDetermine(a: bv16, b: bv16)
    requires WordBits(a) == WordBits(b)
    ensures a == b
  {
    hide HighHalf, LowHalf;
    assert WordBits(a)[..8] == HighHalf(a) && WordBits(a)[8..] == LowHalf(a);
    assert WordBits(b)[..8] == HighHalf(b) && WordBits(b)[8..] == LowHalf(b);
    HalvesDetermine(a, b);
  }

  lemma HalfBitFacts(c: bv16)
    ensures (((c >> 8) as bv8) & 0x80 == 0) == (c & 0x8000 == 0)
    ensures (((c >> 8) as bv8) & 0x40 == 0) == (c & 0x4000 == 0)
    ensures (((c >> 8) as bv8) & 0x20 == 0) == (c & 0x2000 == 0)
    ensures (((c >> 8) as bv8) & 0x10 == 0) == (c & 0x1000 == 0)
    ensures (((c >> 8) as bv8) & 0x08 == 0) == (c & 0x0800 == 0)
    ensures (((c >> 8) as bv8) & 0x04 == 0) == (c & 0x0400 == 0)
    ensures (((c >> 8) as bv8) & 0x02 == 0) == (c & 0x0200 == 0)
    ensures (((c >> 8) as bv8) & 0x01 == 0) == (c & 0x0100 == 0)
    ensures (((c & 0xFF) as bv8) & 0x80 == 0) == (c & 0x0080 == 0)
    ensures (((c & 0xFF) as bv8) & 0x40 == 0) == (c & 0x0040 == 0)
    ensures (((c & 0xFF) as bv8) & 0x20 == 0) == (c & 0x0020 == 0)
    ensures (((c & 0xFF) as bv8) & 0x10 == 0) == (c & 0x0010 == 0)
    ensures (((c & 0xFF) as bv8) & 0x08 == 0) == (c & 0x0008 == 0)
    ensures (((c & 0xFF) as bv8) & 0x04 == 0) == (c & 0x0004 == 0)
    ensures (((c & 0xFF) as bv8) & 0x02 == 0) == (c & 0x0002 == 0)
    ensures (((c & 0xFF) as bv8) & 0x01 == 0) == (c & 0x0001 == 0)
  {
  }

  lemma HighBits(c: bv16)
    ensures ByteBits(CrcHigh(c)) == HighHalf(c)
  {
    HalfBitFacts(c);
  }

  lemma LowBits(c: bv16)
    ensures ByteBits(CrcLow(c)) == LowHalf(c)
  {
    HalfBitFacts(c);
  }

  lemma WordIsTwoBytes(c: bv16)
    ensures WordBits(c) == ByteBits(CrcHigh(c)) + ByteBits(CrcLow(c))
  {
    hide ByteBits, CrcHigh, CrcLow, HighHalf, LowHalf;
    HighBits(c);
    LowBits(c);
  }

  lemma PresetBits()
    ensures WordBits(PRESET) == Gf2.Ones(16)
  {
    var h, l := HighHalf(PRESET), LowHalf(PRESET);
    assert forall i :: 0 <= i < 8 ==> h[i] && l[i];
  }

  lemma SameByte(a: byte, b: byte)
    requires (a & 0x80 == 0) == (b & 0x80 == 0) && (a & 0x40 == 0) == (b & 0x40 == 0)
    requires (a & 0x20 == 0) == (b & 0x20 == 0) && (a & 0x10 == 0) == (b & 0x10 == 0)
    requires (a & 0x08 == 0) == (b & 0x08 == 0) && (a & 0x04 == 0) == (b & 0x04 == 0)
    requires (a & 0x02 == 0) == (b & 0x02 == 0) && (a & 0x01 == 0) == (b & 0x01 == 0)
    ensures a == b
  {
  }

  lemma ByteBitsDetermine(a: byte, b: byte)
    requires ByteBits(a) == ByteBits(b)
    ensures a == b
  {
    var x, y := ByteBits(a), ByteBits(b);
    assert forall i :: 0 <= i < 8 ==> x[i] == y[i];
    SameByte(a, b);
  }

  lemma {:induction false} BitsDetermine(a: seq<byte>, b: seq<byte>)
    requires |a| == |b| && Bits(a) == Bits(b)
    ensures a == b
  {
    hide ByteBits;
    if a != [] {
      var n := |a| - 1;
      assert Bits(a)[..8 * n] == Bits(a[..n]) && Bits(b)[..8 * n] == Bits(b[..n]);
      assert Bits(a)[8 * n..] == ByteBits(a[n]) && Bits(b)[8 * n..] == ByteBits(b[n]);
      BitsDetermine(a[..n], b[..n]);
      ByteBitsDetermine(a[n], b[n]);
      assert a == a[..n] + [a[n]] && b == b[..n] + [b[n]];
    }
  }

  lemma {:induction false} BitsAppend(a: seq<byte>, b: seq<byte>)
    ensures Bits(a + b) == Bits(a) + Bits(b)
  {
    hide ByteBits;
    if b == [] {
      assert a + b == a;
    } else {
      var n := |b| - 1;
      assert (a + b)[..|a + b| - 1] == a + b[..n];
      BitsAppend(a, b[..n]);
    }
  }

  lemma BitsOfOne(d: byte)
    ensures Bits([d]) == ByteBits(d)
  {
    assert [d][..0] == [];
  }

  // ----- What the check is, and what it detects -----

  /**
    The check is the remainder on division by the generator of the message followed by
    sixteen zeros, the first sixteen bits of that dividend being complemented.
    */
  lemma CrcIsRemainder(data: seq<byte>)
    ensures WordBits(Checksum(data)) ==
            Gf2.Residue(Gf2.Zeros(16),
                        Gf2.Xor(Bits(data) + Gf2.Zeros(16), Gf2.Ones(16) + Gf2.Zeros(8 * |data|)))
  {
    hide WordBits, Bits, Register, Gf2.Feed, Gf2.Residue, Gf2.Xor, Gf2.Zeros, Gf2.Ones;
    RegisterBits(PRESET, data);
    PresetBits();
    Gf2.FeedIsRemainder(Gf2.Ones(16), Bits(data));
  }

  /** How the checks of two messages differ depends only on how the messages differ. */
  lemma CrcDifference(a: seq<byte>, b: seq<byte>)
    requires |a| == |b|
    ensures Gf2.Xor(WordBits(Checksum(a)), WordBits(Checksum(b)))
         == Gf2.Feed(Gf2.Zeros(16), Gf2.Xor(Bits(a), Bits(b)))
  {
    hide WordBits, Bits, Register, Gf2.Feed;
    RegisterBits(PRESET, a);
    RegisterBits(PRESET, b);
    var p := WordBits(PRESET);
    Gf2.FeedLinear(p, p, Bits(a), Bits(b));
    assert Gf2.Xor(p, p) == Gf2.Zeros(16);
  }

  /** Equally long messages have the same check exactly when the generator divides their difference. */
  lemma SameCheckIff(a: seq<byte>, b: seq<byte>)
    requires |a| == |b|
    ensures Checksum(a) == Checksum(b) <==>
      Gf2.Feed(Gf2.Zeros(16), Gf2.Xor(Bits(a), Bits(b))) == Gf2.Zeros(16)
    ensures Checksum(a) == Checksum(b) <==>
      Gf2.Residue(Gf2.Zeros(16), Gf2.Xor(Bits(a), Bits(b))) == Gf2.Zeros(16)
  {
    hide WordBits, Bits, Checksum, Gf2.Feed, Gf2.Residue, Gf2.TimesXPower;
    CrcDifference(a, b);
    var x, y, e := WordBits(Checksum(a)), WordBits(Checksum(b)), Gf2.Xor(Bits(a), Bits(b));
    if Gf2.Xor(x, y) == Gf2.Zeros(16) {
      Gf2.EqualFromXor(x, y);
      WordBitsDetermine(Checksum(a), Checksum(b));
    }
    assert Gf2.Xor(x, x) == Gf2.Zeros(16);
    Gf2.FeedIsShiftedResidue(e);
    if Gf2.Residue(Gf2.Zeros(16), e) == Gf2.Zeros(16) {
      Gf2.PowerOfZero(16);
    } else {
      Gf2.PowerNonZero(Gf2.Residue(Gf2.Zeros(16), e), 16);
    }
  }

  /** The two messages differ only inside sixteen consecutive bits, wherever those start. */
  ghost predicate DifferInWindow(a: seq<byte>, b: seq<byte>, lo: nat)
    requires |a| == |b|
  {
    forall i :: 0 <= i < 8 * |a| && Bits(a)[i] != Bits(b)[i] ==> lo <= i < lo + 16
  }

  lemma BurstDetected(a: seq<byte>, b: seq<byte>, lo: nat)
    requires |a| == |b| && a != b && DifferInWindow(a, b, lo)
    ensures Checksum(a) != Checksum(b)
  {
    hide WordBits, Bits, Register, Gf2.Feed;
    var e := Gf2.Xor(Bits(a), Bits(b));
    assert true in e by {
      if true !in e {
        assert forall i :: 0 <= i < 8 * |a| ==> !e[i];
        assert Bits(a) == Bits(b);
        BitsDetermine(a, b);
      }
    }
    Gf2.BurstLeavesTrace(e, lo);
    CrcDifference(a, b);
    var w := WordBits(Checksum(a));
    assert Gf2.Xor(w, w) == Gf2.Zeros(16);
  }

  /** The check has the parity of the message. */
  lemma CrcParity(data: seq<byte>)
    ensures Gf2.Weight(WordBits(Checksum(data))) % 2 == Gf2.Weight(Bits(data)) % 2
  {
    hide WordBits, Bits, Register, Gf2.Feed, Gf2.Weight;
    RegisterBits(PRESET, data);
    PresetBits();
    Gf2.FeedParity(WordBits(PRESET), Bits(data));
    Gf2.WeightOfOnes(16);
  }

  /** An odd number of flipped bits changes the check. */
  lemma OddBitsDetected(a: seq<byte>, b: seq<byte>)
    requires |a| == |b| && Gf2.Weight(Gf2.Xor(Bits(a), Bits(b))) % 2 == 1
    ensures Checksum(a) != Checksum(b)
  {
    hide Bits, Checksum, Gf2.Weight, Gf2.Xor, Gf2.Feed;
    SameCheckIff(a, b);
    Gf2.FeedParity(Gf2.Zeros(16), Gf2.Xor(Bits(a), Bits(b)));
    Gf2.WeightOfZeros(16);
  }

  /** Eight turns of the inner loop in a row. */
  function Eight(c: bv16): bv16 {
    ShiftRegister(ShiftRegister(ShiftRegister(ShiftRegister(
      ShiftRegister(ShiftRegister(ShiftRegister(ShiftRegister(c))))))))
  }

  lemma EightTurns(c: bv16)
    ensures ShiftTimes(c, 8) == Eight(c)
  {
    hide ShiftRegister;
    assert ShiftTimes(c, 2) == ShiftRegister(ShiftTimes(c, 1));
    assert ShiftTimes(c, 4) == ShiftRegister(ShiftRegister(ShiftTimes(c, 2)));
    assert ShiftTimes(c, 6) == ShiftRegister(ShiftRegister(ShiftTimes(c, 4)));
  }

  lemma OneMore(s: seq<byte>, i: nat, before: bv16, after: bv16)
    requires i < |s| && Checksum(s[..i]) == before && Eight(Seed(before, s[i])) == after
    ensures Checksum(s[..i + 1]) == after
  {
    hide ShiftRegister, Seed, Eight;
    assert s[..i + 1][..i] == s[..i];
    EightTurns(Seed(before, s[i]));
  }

  /** The published check value of this CRC: 0x29B1 for the nine ASCII digits from 1 to 9. */
  lemma CheckValue()
    ensures Checksum([0x31, 0x32, 0x33, 0x34, 0x35, 0x36, 0x37, 0x38, 0x39]) == 0x29B1
  {
    hide Checksum;
    var s: seq<byte> := [0x31, 0x32, 0x33, 0x34, 0x35, 0x36, 0x37, 0x38, 0x39];
    NoData();
    assert s[..0] == [] && s[..9] == s;
    OneMore(s, 0, 0xFFFF, 0xC782);
    OneMore(s, 1, 0xC782, 0x3DBA);
    OneMore(s, 2, 0x3DBA, 0x5BCE);
    OneMore(s, 3, 0x5BCE, 0x5349);
    OneMore(s, 4, 0x5349, 0x4560);
    OneMore(s, 5, 0x4560, 0x2EF4);
    OneMore(s, 6, 0x2EF4, 0x7718);
    OneMore(s, 7, 0x7718, 0xA12B);
    OneMore(s, 8, 0xA12B, 0x29B1);
  }

  lemma NoData()
    ensures Checksum([]) == 0xFFFF
  {
  }
}
