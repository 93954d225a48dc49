/**
  How long multiplication by x takes to come back: modulo x^16 + x^12 + x^5 + 1 its order is
  32767, so two flipped bits escape the check exactly when their distance is a multiple of that.

  Powers are computed by squaring, which is linear over two elements, and the order is settled
  by the three largest proper divisors of 32767 = 7 * 31 * 151.
  */
module Period {
  import opened Gf2
  import opened Crc
  import opened Bytes

  const PERIOD: nat := 32767

  function One(): Register {
    Zeros(15) + [true]
  }

  /** The n-th power of x. */
  function Power(n: nat): Register {
    TimesXPower(One(), n)
  }

  // ----- Squaring, place by place on the two halves of a register -----

  function SquareHigh(h: seq<bool>, l: seq<bool>): (r: seq<bool>)
    requires |h| == |l| == 8
    ensures |r| == 8
  {
    [h[2],
     ((h[2] != h[4]) != h[6]) != l[0],
     h[3],
     ((h[3] != h[5]) != h[7]) != l[1],
     (h[0] != h[2]) != h[4],
     (h[0] != h[2]) != l[2],
     (h[1] != h[3]) != h[5],
     ((h[0] != h[1]) != h[3]) != l[3]]
  }

  function SquareLow(h: seq<bool>, l: seq<bool>): (r: seq<bool>)
    requires |h| == |l| == 8
    ensures |r| == 8
  {
    [((h[0] != h[2]) != h[4]) != h[6],
     (((h[0] != h[1]) != h[2]) != h[4]) != l[4],
     ((h[1] != h[3]) != h[5]) != h[7],
     ((h[1] != h[3]) != h[5]) != l[5],
     h[0],
     (((h[0] != h[2]) != h[4]) != h[6]) != l[6],
     h[1],
     (((h[1] != h[3]) != h[5]) != h[7]) != l[7]]
  }

  function Square(r: Register): Register {
    SquareHigh(r[..8], r[8..]) + SquareLow(r[..8], r[8..])
  }

  function ShiftHigh(h: seq<bool>, l: seq<bool>): (r: seq<bool>)
    requires |h| == |l| == 8
    ensures |r| == 8
  {
    [h[1], h[2], h[3], h[4] != h[0], h[5], h[6], h[7], l[0]]
  }

  function ShiftLow(h: seq<bool>, l: seq<bool>): (r: seq<bool>)
    requires |h| == |l| == 8
    ensures |r| == 8
  {
    [l[1], l[2], l[3] != h[0], l[4], l[5], l[6], l[7], h[0]]
  }

  lemma SquareOfShiftHigh(h: seq<bool>, l: seq<bool>)
    requires |h| == |l| == 8
    ensures var x, y := SquareHigh(h, l), SquareLow(h, l);
      SquareHigh(ShiftHigh(h, l), ShiftLow(h, l)) == ShiftHigh(ShiftHigh(x, y), ShiftLow(x, y))
  {
    var x, y := SquareHigh(h, l), SquareLow(h, l);
    var a := SquareHigh(ShiftHigh(h, l), ShiftLow(h, l));
    var b := ShiftHigh(ShiftHigh(x, y), ShiftLow(x, y));
    assert a[0] == b[0] && a[1] == b[1] && a[2] == b[2] && a[3] == b[3];
    assert a[4] == b[4] && a[5] == b[5] && a[6] == b[6] && a[7] == b[7];
  }

  lemma SquareOfShiftLow(h: seq<bool>, l: seq<bool>)
    requires |h| == |l| == 8
    ensures var x, y := SquareHigh(h, l), SquareLow(h, l);
      SquareLow(ShiftHigh(h, l), ShiftLow(h, l)) == ShiftLow(ShiftHigh(x, y), ShiftLow(x, y))
  {
  }

  lemma ShiftByHalves(h: seq<bool>, l: seq<bool>)
    requires |h| == |l| == 8
    ensures TimesX(h + l) == ShiftHigh(h, l) + ShiftLow(h, l)
  {
    TimesXByPlace(h, l);
  }

  lemma SquareByHalves(h: seq<bool>, l: seq<bool>)
    requires |h| == |l| == 8
    ensures Square(h + l) == SquareHigh(h, l) + SquareLow(h, l)
  {
    hide SquareHigh, SquareLow;
    assert (h + l)[..8] == h && (h + l)[8..] == l;
  }

  /** The square of x times a polynomial is x twice times its square. */
  lemma SquareTimesX(r: Register)
    ensures Square(TimesX(r)) == TimesX(TimesX(Square(r)))
  {
    hide TimesX, Square, SquareHigh, SquareLow, ShiftHigh, ShiftLow;
    var h, l := r[..8], r[8..];
    assert r == h + l;
    var x, y := SquareHigh(h, l), SquareLow(h, l);
    ShiftByHalves(h, l);
    SquareByHalves(ShiftHigh(h, l), ShiftLow(h, l));
    SquareByHalves(h, l);
    ShiftByHalves(x, y);
    ShiftByHalves(ShiftHigh(x, y), ShiftLow(x, y));
    SquareOfShiftHigh(h, l);
    SquareOfShiftLow(h, l);
  }

  lemma SquareOfOne()
    ensures Square(One()) == One()
  {
  }

  lemma TwoMore(n: nat)
    ensures Power(n + 2) == TimesX(TimesX(Power(n)))
  {
    hide TimesX, One;
    assert TimesXPower(One(), n + 1) == TimesX(TimesXPower(One(), n));
  }

  /** Squaring doubles the exponent. */
  lemma {:induction false} SquareOfPower(n: nat)
    ensures Square(Power(n)) == Power(2 * n)
  {
    hide Square, TimesX, One;
    if n == 0 {
      SquareOfOne();
    } else {
      SquareOfPower(n - 1);
      SquareTimesX(Power(n - 1));
      TwoMore(2 * n - 2);
    }
  }

  // ----- Some powers -----

  lemma First()
    ensures Power(1) == WordBits(0x0002)
  {
    hide TimesX;
    ShiftBits(0x0001);
    OneWord();
    assert Power(1) == TimesX(Power(0));
  }

  lemma OneWord()
    ensures One() == WordBits(0x0001)
  {
  }

  lemma Twice(n: nat, u: bv16, v: bv16)
    requires Power(n) == WordBits(u)
    requires SquareHigh(HighHalf(u), LowHalf(u)) == HighHalf(v)
    requires SquareLow(HighHalf(u), LowHalf(u)) == LowHalf(v)
    ensures Power(2 * n) == WordBits(v)
  {
    hide Power, SquareHigh, SquareLow, HighHalf, LowHalf, Square;
    SquareOfPower(n);
    SquareByHalves(HighHalf(u), LowHalf(u));
  }

  lemma Onward(n: nat, u: bv16, v: bv16)
    requires Power(n) == WordBits(u) && ShiftRegister(u) == v
    ensures Power(n + 1) == WordBits(v)
  {
    hide WordBits, TimesX;
    ShiftBits(u);
    assert Power(n + 1) == TimesX(Power(n));
  }

  lemma Power32()
    ensures Power(32) == WordBits(0x3730)
  {
    hide Power, WordBits;
    First();
    Twice(1, 0x0002, 0x0004);
    Twice(2, 0x0004, 0x0010);
    Twice(4, 0x0010, 0x0100);
    Twice(8, 0x0100, 0x1021);
    Twice(16, 0x1021, 0x3730);
  }

  lemma Power1024()
    ensures Power(1024) == WordBits(0x36C4)
  {
    hide Power, WordBits;
    Power32();
    Twice(32, 0x3730, 0xB861);
    Twice(64, 0xB861, 0xAEFC);
    Twice(128, 0xAEFC, 0x8E29);
    Twice(256, 0x8E29, 0x13FC);
    Twice(512, 0x13FC, 0x36C4);
  }

  lemma Power32768()
    ensures Power(32768) == WordBits(0x0002)
  {
    hide Power, WordBits;
    Power1024();
    Twice(1024, 0x36C4, 0xFD50);
    Twice(2048, 0xFD50, 0xAA9E);
    Twice(4096, 0xAA9E, 0x881C);
    Twice(8192, 0x881C, 0x4458);
    Twice(16384, 0x4458, 0x0002);
  }

  lemma Power27()
    ensures Power(27) == WordBits(0x89A9)
  {
    hide Power, WordBits;
    First();
    Twice(1, 0x0002, 0x0004);
    Onward(2, 0x0004, 0x0008);
    Twice(3, 0x0008, 0x0040);
    Twice(6, 0x0040, 0x1000);
    Onward(12, 0x1000, 0x2000);
    Twice(13, 0x2000, 0xCCC4);
    Onward(26, 0xCCC4, 0x89A9);
  }

  lemma Power217()
    ensures Power(217) == WordBits(0x48E3)
  {
    hide Power, WordBits;
    Power27();
    Twice(27, 0x89A9, 0x1168);
    Twice(54, 0x1168, 0x3750);
    Twice(108, 0x3750, 0xAC61);
    Onward(216, 0xAC61, 0x48E3);
  }

  lemma Power1057()
    ensures Power(1057) == WordBits(0xF2AF)
  {
    hide Power, WordBits;
    Power32();
    Onward(32, 0x3730, 0x6E60);
    Twice(33, 0x6E60, 0xC1C6);
    Twice(66, 0xC1C6, 0x4E8A);
    Twice(132, 0x4E8A, 0x5946);
    Twice(264, 0x5946, 0x78B3);
    Twice(528, 0x78B3, 0xF147);
    Onward(1056, 0xF147, 0xF2AF);
  }

  lemma Power73()
    ensures Power(73) == WordBits(0x8FA6)
  {
    hide Power, WordBits;
    First();
    Twice(1, 0x0002, 0x0004);
    Twice(2, 0x0004, 0x0010);
    Twice(4, 0x0010, 0x0100);
    Onward(8, 0x0100, 0x0200);
    Twice(9, 0x0200, 0x4084);
    Twice(18, 0x4084, 0x4363);
    Twice(36, 0x4363, 0x47D3);
    Onward(72, 0x47D3, 0x8FA6);
  }

  lemma Power585()
    ensures Power(585) == WordBits(0x4500)
  {
    hide Power, WordBits;
    Power73();
    Twice(73, 0x8FA6, 0x4388);
    Twice(146, 0x4388, 0x1396);
    Twice(292, 0x1396, 0x2280);
    Onward(584, 0x2280, 0x4500);
  }

  lemma Power4681()
    ensures Power(4681) == WordBits(0x2C42)
  {
    hide Power, WordBits;
    Power585();
    Twice(585, 0x4500, 0x0163);
    Twice(1170, 0x0163, 0x0424);
    Twice(2340, 0x0424, 0x1621);
    Onward(4680, 0x1621, 0x2C42);
  }


  // ----- The order -----

  lemma {:induction false} PowerAdd(r: Register, m: nat, n: nat)
    ensures TimesXPower(TimesXPower(r, m), n) == TimesXPower(r, m + n)
  {
    hide TimesX;
    if n > 0 {
      PowerAdd(r, m, n - 1);
    }
  }

  lemma {:induction false} PowerInjective(a: Register, b: Register, n: nat)
    requires TimesXPower(a, n) == TimesXPower(b, n)
    ensures a == b
  {
    hide TimesX;
    if n > 0 {
      TimesXInjective(TimesXPower(a, n - 1), TimesXPower(b, n - 1));
      PowerInjective(a, b, n - 1);
    }
  }

  lemma Cancel(m: nat, n: nat)
    requires Power(m + n) == Power(m)
    ensures Power(n) == One()
  {
    hide TimesXPower, One;
    PowerAdd(One(), n, m);
    PowerInjective(Power(n), One(), m);
  }

  lemma {:induction false} Multiple(d: nat, k: nat)
    requires Power(d) == One()
    ensures Power(d * k) == One()
  {
    hide TimesX, One;
    if k > 0 {
      Multiple(d, k - 1);
      PowerAdd(One(), d * (k - 1), d);
      assert d * k == d * (k - 1) + d;
    }
  }

  /** Euclid's algorithm on two exponents: some common divisor of both gives one as well. */
  lemma {:induction false} CommonDivisor(a: nat, b: nat) returns (g: nat, s: nat, t: nat)
    requires 0 < a && 0 < b && Power(a) == One() && Power(b) == One()
    ensures g > 0 && a == g * s && b == g * t && Power(g) == One()
    decreases a + b
  {
    hide Power, One;
    if a == b {
      g, s, t := a, 1, 1;
    } else if a < b {
      Cancel(a, b - a);
      g, s, t := CommonDivisor(a, b - a);
      t := s + t;
    } else {
      Cancel(b, a - b);
      g, s, t := CommonDivisor(a - b, b);
      s := s + t;
    }
  }

  lemma SmallDivisor(g: nat, t: nat)
    requires g * t == 32767 && g <= 181
    ensures g == 1 || g == 7 || g == 31 || g == 151
  {
  }

  lemma LargePair(g: nat, t: nat)
    requires g >= 182 && t >= 182
    ensures g * t > 32767
  {
    assert g * t >= 182 * t;
  }

  /** A proper divisor of 32767 divides one of its three largest. */
  lemma ProperDivisor(g: nat, t: nat) returns (m: nat)
    requires g * t == 32767 && g < 32767
    ensures g * m == 217 || g * m == 1057 || g * m == 4681
  {
    if g <= 181 {
      SmallDivisor(g, t);
      m := if g == 1 then 217 else if g == 7 then 31 else 7;
    } else {
      if t > 181 {
        LargePair(g, t);
      } else {
        SmallDivisor(t, g);
      }
      m := 1;
    }
  }

  lemma NotYetOne()
    ensures Power(217) != One() && Power(1057) != One() && Power(4681) != One()
  {
    hide Power, One, WordBits;
    Power217();
    Power1057();
    Power4681();
    OneWord();
    if Power(217) == One() {
      WordBitsDetermine(0x48E3, 0x0001);
    }
    if Power(1057) == One() {
      WordBitsDetermine(0xF2AF, 0x0001);
    }
    if Power(4681) == One() {
      WordBitsDetermine(0x2C42, 0x0001);
    }
  }

  lemma FullTurn()
    ensures Power(PERIOD) == One()
  {
    hide Power, One, WordBits;
    Power32768();
    First();
    Cancel(1, PERIOD);
  }

  /** A power of x is one exactly when its exponent is a multiple of 32767. */
  lemma OrderOfX(n: nat)
    ensures Power(n) == One() <==> n % PERIOD == 0
  {
    hide Power, One;
    FullTurn();
    var q, r := n / PERIOD, n % PERIOD;
    Multiple(PERIOD, q);
    assert n == PERIOD * q + r;
    if r == 0 {
    } else if Power(n) == One() {
      Cancel(PERIOD * q, r);
      var g, s, t := CommonDivisor(r, PERIOD);
      assert g <= r by { assert s >= 1; }
      var m := ProperDivisor(g, t);
      Multiple(g, m);
      NotYetOne();
    }
  }

  /** The order is that of x: a multiple of the generator's factor other than x + 1 comes back at once. */
  lemma SomeComeBackSooner()
    ensures WordBits(0xF01F) != Zeros(16) && TimesX(WordBits(0xF01F)) == WordBits(0xF01F)
  {
    hide TimesX;
    ShiftBits(0xF01F);
    assert WordBits(0xF01F)[0];
  }

  // ----- Two flipped bits -----

  lemma TwoOnes(k: nat)
    requires k > 0
    ensures Feed(Zeros(16), [true] + Zeros(k - 1) + [true]) == Xor(Power(16 + k), Power(16))
  {
    hide TimesX, Xor, TimesXPower, Feed, Pad;
    var t := TimesX(Pad([true]));
    assert Power(16) == t by { PowerOfUnit(true); }
    OneFed();
    var front := [true] + Zeros(k - 1);
    FeedAppend(Zeros(16), [true], Zeros(k - 1));
    FeedZeros(t, k - 1);
    LastFed(front, true);
    TimesXLinear(Feed(Zeros(16), front), Pad([true]));
    PowerStep(t, k - 1);
    PowerAdd(One(), 16, k);
  }

  lemma OneFed()
    ensures Feed(Zeros(16), [true]) == TimesX(Pad([true]))
  {
    hide TimesX, Pad, Xor;
    assert [true][..0] == [] && [true][0..] == [true];
    XorZeros(Pad([true]));
    FeedNothing(Zeros(16));
  }

  lemma LastFed(front: seq<bool>, b: bool)
    ensures Feed(Zeros(16), front + [b]) == TimesX(Xor(Feed(Zeros(16), front), Pad([b])))
  {
    hide TimesX, Pad, Xor;
    assert (front + [b])[..|front|] == front && (front + [b])[|front|..] == [b];
  }

  lemma TwoOnesEscapeIff(k: nat)
    requires k > 0
    ensures Feed(Zeros(16), [true] + Zeros(k - 1) + [true]) == Zeros(16) <==> k % PERIOD == 0
  {
    hide Feed, Xor, TimesXPower, One;
    TwoOnes(k);
    OrderOfX(k);
    PowerAdd(One(), k, 16);
    if Power(16 + k) == Power(16) {
      Cancel(16, k);
      assert Xor(Power(16), Power(16)) == Zeros(16);
    } else if Xor(Power(16 + k), Power(16)) == Zeros(16) {
      EqualFromXor(Power(16 + k), Power(16));
    }
  }

  ghost predicate OnlyOnes(e: seq<bool>, i: nat, j: nat) {
    forall n :: 0 <= n < |e| ==> (e[n] <==> n == i || n == j)
  }

  lemma CutTwo(e: seq<bool>, i: nat, j: nat)
    requires i < j < |e| && OnlyOnes(e, i, j)
    ensures e == Zeros(i) + ([true] + Zeros(j - i - 1) + [true]) + Zeros(|e| - j - 1)
  {
  }

  lemma TwoBitsLeaveTraceIff(e: seq<bool>, i: nat, j: nat)
    requires i < j < |e| && OnlyOnes(e, i, j)
    ensures Feed(Zeros(16), e) == Zeros(16) <==> (j - i) % PERIOD == 0
  {
    hide Feed, Zeros, TimesXPower, OnlyOnes;
    var w := [true] + Zeros(j - i - 1) + [true];
    CutTwo(e, i, j);
    ZerosAround(i, w, |e| - j - 1);
    TwoOnesEscapeIff(j - i);
    if Feed(Zeros(16), w) == Zeros(16) {
      PowerOfZero(|e| - j - 1);
    } else {
      PowerNonZero(Feed(Zeros(16), w), |e| - j - 1);
    }
  }

  /** The two messages differ in exactly these two bits. */
  ghost predicate DifferAt(a: seq<byte>, b: seq<byte>, i: nat, j: nat)
    requires |a| == |b|
  {
    i < j < 8 * |a| && forall n :: 0 <= n < 8 * |a| ==> (Bits(a)[n] != Bits(b)[n] <==> n == i || n == j)
  }

  /** Two flipped bits go unnoticed exactly when their distance is a multiple of 32767. */
  lemma TwoBitsUndetectedIff(a: seq<byte>, b: seq<byte>, i: nat, j: nat)
    requires |a| == |b| && DifferAt(a, b, i, j)
    ensures Checksum(a) == Checksum(b) <==> (j - i) % PERIOD == 0
  {
    hide Feed, Checksum, Bits;
    SameCheckIff(a, b);
    TwoBitsLeaveTraceIff(Xor(Bits(a), Bits(b)), i, j);
  }

  lemma {:induction false} NoOnes(e: seq<bool>)
    requires Weight(e) == 0
    ensures true !in e
  {
    if e != [] {
      NoOnes(e[..|e| - 1]);
      assert e == e[..|e| - 1] + [e[|e| - 1]];
    }
  }

  lemma {:induction false} SingleOne(e: seq<bool>) returns (i: nat)
    requires Weight(e) == 1
    ensures i < |e| && forall n :: 0 <= n < |e| ==> (e[n] <==> n == i)
  {
    var front := e[..|e| - 1];
    if e[|e| - 1] {
      NoOnes(front);
      i := |e| - 1;
      assert forall n :: 0 <= n < |front| ==> front[n] in front && e[n] == front[n];
    } else {
      i := SingleOne(front);
      assert forall n :: 0 <= n < |front| ==> e[n] == front[n];
    }
  }

  lemma {:induction false} PairOfOnes(e: seq<bool>) returns (i: nat, j: nat)
    requires Weight(e) == 2
    ensures i < j < |e| && OnlyOnes(e, i, j)
  {
    var front := e[..|e| - 1];
    if e[|e| - 1] {
      i := SingleOne(front);
      j := |e| - 1;
      assert forall n :: 0 <= n < |front| ==> e[n] == front[n];
    } else {
      i, j := PairOfOnes(front);
      assert forall n :: 0 <= n < |front| ==> e[n] == front[n];
    }
  }

  /** One, two or three flipped bits anywhere in a message of up to 4095 bytes change its check. */
  lemma FewBitsDetected(a: seq<byte>, b: seq<byte>)
    requires |a| == |b| <= 4095
    requires 1 <= Weight(Xor(Bits(a), Bits(b))) <= 3
    ensures Checksum(a) != Checksum(b)
  {
    hide Checksum, Bits, Weight, Xor;
    if Weight(Xor(Bits(a), Bits(b))) == 2 {
      TwoBitsDetected(a, b);
    } else {
      OddBitsDetected(a, b);
    }
  }

  lemma TwoBitsDetected(a: seq<byte>, b: seq<byte>)
    requires |a| == |b| <= 4095 && Weight(Xor(Bits(a), Bits(b))) == 2
    ensures Checksum(a) != Checksum(b)
  {
    hide Feed, Checksum, Bits, Weight;
    var i, j := PairOfOnes(Xor(Bits(a), Bits(b)));
    TwoBitsUndetectedIff(a, b, i, j);
  }
}
