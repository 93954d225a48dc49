/**
  Polynomials over the two-element field, as bit strings with the highest power first, and
  division by the generator x^16 + x^12 + x^5 + 1.

  A register holds the sixteen coefficients of a remainder.  `Feed` is the direct register
  (each message bit meets the bit about to leave); `Residue` is schoolbook long division.
  */
module Gf2 {
  type Register = r: seq<bool> | |r| == 16 witness seq(16, _ => false)

  function Zeros(n: nat): (z: seq<bool>)
    ensures |z| == n
    ensures forall i :: 0 <= i < n ==> !z[i]
  {
    seq(n, _ => false)
  }

  function Ones(n: nat): (z: seq<bool>)
    ensures |z| == n
    ensures forall i :: 0 <= i < n ==> z[i]
  {
    seq(n, _ => true)
  }

  /** Sum of two polynomials of the same width. */
  function Xor(a: seq<bool>, b: seq<bool>): (d: seq<bool>)
    requires |a| == |b|
    ensures |d| == |a|
    ensures forall i :: 0 <= i < |d| ==> d[i] == (a[i] != b[i])
  {
    seq(|a|, i requires 0 <= i < |a| => a[i] != b[i])
  }

  /** The coefficients of x^12 + x^5 + 1, which x^16 is congruent to. */
  function Tail(): Register {
    Zeros(3) + [true] + Zeros(6) + [true] + Zeros(4) + [true]
  }

  /** Multiplication by x, reduced by the generator. */
  function TimesX(r: Register): Register {
    Xor(r[1..] + [false], if r[0] then Tail() else Zeros(16))
  }

  function TimesXPower(r: Register, n: nat): Register {
    if n == 0 then r else TimesX(TimesXPower(r, n - 1))
  }

  /** Up to sixteen bits, left-aligned in a register. */
  function Pad(bits: seq<bool>): Register
    requires |bits| <= 16
  {
    bits + Zeros(16 - |bits|)
  }

  function Feed(r: Register, bits: seq<bool>): Register {
    if bits == [] then r
    else TimesX(Xor(Feed(r, bits[..|bits| - 1]), Pad(bits[|bits| - 1..])))
  }

  /** The remainder of a bit string, read as a polynomial, by long division. */
  function Residue(r: Register, bits: seq<bool>): Register {
    if bits == [] then r
    else Xor(TimesX(Residue(r, bits[..|bits| - 1])), Zeros(15) + bits[|bits| - 1..])
  }

  // ----- Multiplication by x is a linear bijection -----

  lemma TimesXLinear(a: Register, b: Register)
    ensures TimesX(Xor(a, b)) == Xor(TimesX(a), TimesX(b))
  {
    assert forall i {:trigger TimesX(Xor(a, b))[i]} :: 0 <= i < 16 ==>
      TimesX(Xor(a, b))[i] == Xor(TimesX(a), TimesX(b))[i];
  }

  lemma TimesXAt(b: Register, i: nat)
    requires i < 16
    ensures TimesX(b)[i] == ((i < 15 && b[i + 1]) != (b[0] && (i == 3 || i == 10 || i == 15)))
  {
    assert Tail()[i] == (i == 3 || i == 10 || i == 15);
  }

  lemma TimesXByPlace(h: seq<bool>, l: seq<bool>)
    requires |h| == |l| == 8
    ensures TimesX(h + l) == [h[1], h[2], h[3], h[4] != h[0], h[5], h[6], h[7], l[0]]
                           + [l[1], l[2], l[3] != h[0], l[4], l[5], l[6], l[7], h[0]]
  {
    hide TimesX;
    var b: Register := h + l;
    forall i | 0 <= i < 16
      ensures TimesX(b)[i] == ((i < 15 && b[i + 1]) != (b[0] && (i == 3 || i == 10 || i == 15)))
    {
      TimesXAt(b, i);
    }
  }

  lemma XorByPlace(a: seq<bool>, b: seq<bool>)
    requires |a| == |b| == 8
    ensures Xor(a, b) == [a[0] != b[0], a[1] != b[1], a[2] != b[2], a[3] != b[3],
                          a[4] != b[4], a[5] != b[5], a[6] != b[6], a[7] != b[7]]
  {
    hide Xor;
    var d := Xor(a, b);
    assert d[0] == (a[0] != b[0]) && d[1] == (a[1] != b[1]) && d[2] == (a[2] != b[2]) && d[3] == (a[3] != b[3]);
    assert d[4] == (a[4] != b[4]) && d[5] == (a[5] != b[5]) && d[6] == (a[6] != b[6]) && d[7] == (a[7] != b[7]);
    Eight(d);
  }

  lemma Eight(d: seq<bool>)
    requires |d| == 8
    ensures d == [d[0], d[1], d[2], d[3], d[4], d[5], d[6], d[7]]
  {
  }

  lemma TimesXInjective(a: Register, b: Register)
    requires TimesX(a) == TimesX(b)
    ensures a == b
  {
    assert TimesX(a)[15] == a[0] && TimesX(b)[15] == b[0];
    forall i | 1 <= i < 16
      ensures a[i] == b[i]
    {
      assert TimesX(a)[i - 1] == TimesX(b)[i - 1];
    }
  }

  lemma {:induction false} PowerLinear(a: Register, b: Register, n: nat)
    ensures TimesXPower(Xor(a, b), n) == Xor(TimesXPower(a, n), TimesXPower(b, n))
  {
    hide TimesX, Xor;
    if n > 0 {
      PowerLinear(a, b, n - 1);
      TimesXLinear(TimesXPower(a, n - 1), TimesXPower(b, n - 1));
    }
  }

  lemma {:induction false} PowerOfZero(n: nat)
    ensures TimesXPower(Zeros(16), n) == Zeros(16)
  {
    if n > 0 {
      PowerOfZero(n - 1);
      assert TimesX(Zeros(16)) == Zeros(16);
    }
  }

  lemma {:induction false} PowerNonZero(r: Register, n: nat)
    requires r != Zeros(16)
    ensures TimesXPower(r, n) != Zeros(16)
  {
    hide TimesX;
    if n > 0 {
      PowerNonZero(r, n - 1);
      assert TimesXPower(Zeros(16), 1) == TimesX(Zeros(16));
      PowerOfZero(1);
      if TimesXPower(r, n) == Zeros(16) {
        TimesXInjective(TimesXPower(r, n - 1), Zeros(16));
      }
    }
  }

  lemma {:induction false} PowerFirst(r: Register, n: nat)
    ensures TimesXPower(TimesX(r), n) == TimesXPower(r, n + 1)
  {
    hide TimesX;
    if n > 0 {
      PowerFirst(r, n - 1);
    }
  }

  // ----- The direct register -----

  lemma XorSwap(a: seq<bool>, b: seq<bool>, c: seq<bool>, d: seq<bool>)
    requires |a| == |b| == |c| == |d|
    ensures Xor(Xor(a, b), Xor(c, d)) == Xor(Xor(a, c), Xor(b, d))
  {
  }

  lemma XorZeros(a: seq<bool>)
    ensures Xor(a, Zeros(|a|)) == a && Xor(Zeros(|a|), a) == a
  {
  }

  lemma EqualFromXor(a: seq<bool>, b: seq<bool>)
    requires |a| == |b| && Xor(a, b) == Zeros(|a|)
    ensures a == b
  {
    assert forall i :: 0 <= i < |a| ==> !Xor(a, b)[i];
  }

  lemma {:induction false} FeedAppend(r: Register, a: seq<bool>, b: seq<bool>)
    ensures Feed(r, a + b) == Feed(Feed(r, a), b)
  {
    if b == [] {
      assert a + b == a;
    } else {
      var n := |b| - 1;
      assert (a + b)[..|a + b| - 1] == a + b[..n];
      assert (a + b)[|a + b| - 1..] == b[n..];
      FeedAppend(r, a, b[..n]);
    }
  }

  /** The register is linear, jointly in its start value and in the message. */
  lemma {:induction false} FeedLinear(r: Register, s: Register, a: seq<bool>, b: seq<bool>)
    requires |a| == |b|
    ensures Feed(Xor(r, s), Xor(a, b)) == Xor(Feed(r, a), Feed(s, b))
  {
    hide TimesX;
    if a != [] {
      var n := |a| - 1;
      assert Xor(a, b)[..n] == Xor(a[..n], b[..n]);
      FeedLinear(r, s, a[..n], b[..n]);
      var x, y := Feed(r, a[..n]), Feed(s, b[..n]);
      assert Pad(Xor(a, b)[n..]) == Xor(Pad(a[n..]), Pad(b[n..]));
      XorSwap(x, y, Pad(a[n..]), Pad(b[n..]));
      TimesXLinear(Xor(x, Pad(a[n..])), Xor(y, Pad(b[n..])));
    }
  }

  lemma {:induction false} FeedZeros(r: Register, n: nat)
    ensures Feed(r, Zeros(n)) == TimesXPower(r, n)
  {
    if n > 0 {
      assert Zeros(n)[..n - 1] == Zeros(n - 1);
      FeedZeros(r, n - 1);
      var x := TimesXPower(r, n - 1);
      assert Xor(x, Pad(Zeros(n)[n - 1..])) == x;
    }
  }

  lemma FeedNothing(r: Register)
    ensures Feed(r, []) == r
  {
  }

  lemma FeedFirst(r: Register, bits: seq<bool>)
    requires bits != []
    ensures Feed(r, bits) == Feed(TimesX(Xor(r, Pad(bits[..1]))), bits[1..])
  {
    assert bits == bits[..1] + bits[1..];
    FeedAppend(r, bits[..1], bits[1..]);
    assert bits[..1][..0] == [] && bits[..1][0..] == bits[..1];
  }

  lemma AheadStep(r: Register, bits: seq<bool>)
    requires 0 < |bits| <= 16
    ensures TimesX(Xor(r, Pad(bits))) == Xor(TimesX(Xor(r, Pad(bits[..1]))), Pad(bits[1..]))
  {
    var one, all := Xor(r, Pad(bits[..1])), Xor(r, Pad(bits));
    assert all[1..] + [false] == Xor(one[1..] + [false], Pad(bits[1..]));
    assert all[0] == one[0];
  }

  /** Feeding at most sixteen bits one by one is adding them all first and then shifting. */
  lemma {:induction false} FeedAhead(r: Register, bits: seq<bool>)
    requires |bits| <= 16
    ensures Feed(r, bits) == TimesXPower(Xor(r, Pad(bits)), |bits|)
    decreases |bits|
  {
    if bits == [] {
      assert Xor(r, Pad(bits)) == r;
    } else {
      FeedFirst(r, bits);
      FeedAhead(TimesX(Xor(r, Pad(bits[..1]))), bits[1..]);
      AheadStep(r, bits);
      PowerFirst(Xor(r, Pad(bits)), |bits| - 1);
    }
  }

  // ----- The direct register computes the remainder -----

  lemma {:induction false} ResidueAppend(r: Register, a: seq<bool>, b: seq<bool>)
    ensures Residue(r, a + b) == Residue(Residue(r, a), b)
  {
    if b == [] {
      assert a + b == a;
    } else {
      var n := |b| - 1;
      assert (a + b)[..|a + b| - 1] == a + b[..n];
      assert (a + b)[|a + b| - 1..] == b[n..];
      ResidueAppend(r, a, b[..n]);
    }
  }

  lemma {:induction false} ResidueLinear(r: Register, s: Register, a: seq<bool>, b: seq<bool>)
    requires |a| == |b|
    ensures Residue(Xor(r, s), Xor(a, b)) == Xor(Residue(r, a), Residue(s, b))
  {
    hide TimesX;
    if a != [] {
      var n := |a| - 1;
      assert Xor(a, b)[..n] == Xor(a[..n], b[..n]);
      ResidueLinear(r, s, a[..n], b[..n]);
      var x, y := Residue(r, a[..n]), Residue(s, b[..n]);
      TimesXLinear(x, y);
      assert Zeros(15) + Xor(a, b)[n..] == Xor(Zeros(15) + a[n..], Zeros(15) + b[n..]);
      XorSwap(TimesX(x), TimesX(y), Zeros(15) + a[n..], Zeros(15) + b[n..]);
    }
  }

  lemma {:induction false} ResidueZeros(r: Register, n: nat)
    ensures Residue(r, Zeros(n)) == TimesXPower(r, n)
  {
    hide TimesX, Xor;
    if n > 0 {
      assert Zeros(n)[..n - 1] == Zeros(n - 1);
      ResidueZeros(r, n - 1);
      var x := TimesX(TimesXPower(r, n - 1));
      assert Zeros(15) + Zeros(n)[n - 1..] == Zeros(16);
      XorZeros(x);
    }
  }

  lemma ResidueRoom(short: seq<bool>, last: seq<bool>)
    requires |short| < 16 && |last| == 1
    ensures Xor(TimesX(Zeros(16 - |short|) + short), Zeros(15) + last)
         == Zeros(15 - |short|) + (short + last)
  {
    var x: Register := Zeros(16 - |short|) + short;
    assert !x[0];
    assert x[1..] == Zeros(15 - |short|) + short;
    XorZeros(x[1..] + [false]);
    assert TimesX(x) == x[1..] + [false];
  }

  /** Up to sixteen bits divide to themselves. */
  lemma {:induction false} ResidueShort(bits: seq<bool>)
    requires |bits| <= 16
    ensures Residue(Zeros(16), bits) == Zeros(16 - |bits|) + bits
  {
    hide TimesX, Xor, Zeros;
    if bits != [] {
      var n := |bits| - 1;
      ResidueShort(bits[..n]);
      ResidueRoom(bits[..n], bits[n..]);
      assert bits[..n] + bits[n..] == bits;
    }
  }

  /** Multiplying one bit by x^16 is shifting it out at the top. */
  lemma PowerOfUnit(b: bool)
    ensures TimesXPower(Zeros(15) + [b], 16) == TimesX(Pad([b]))
  {
    var u := Zeros(15) + [b];
    ResidueShort([b]);
    assert Residue(Zeros(16), [b]) == u;
    ResidueAppend(Zeros(16), [b], Zeros(15));
    ResidueZeros(u, 15);
    ResidueShort([b] + Zeros(15));
    assert Zeros(0) + ([b] + Zeros(15)) == Pad([b]);
  }

  lemma PowerStep(r: Register, n: nat)
    ensures TimesX(TimesXPower(r, n)) == TimesXPower(r, n + 1)
  {
  }

  lemma {:induction false} FeedIsShiftedResidue(m: seq<bool>)
    ensures Feed(Zeros(16), m) == TimesXPower(Residue(Zeros(16), m), 16)
  {
    hide TimesX, Xor, TimesXPower, Zeros;
    if m == [] {
      PowerOfZero(16);
    } else {
      var n := |m| - 1;
      var q := Residue(Zeros(16), m[..n]);
      FeedIsShiftedResidue(m[..n]);
      TimesXLinear(Feed(Zeros(16), m[..n]), Pad(m[n..]));
      PowerFirst(q, 16);
      PowerStep(q, 16);
      PowerLinear(TimesX(q), Zeros(15) + m[n..], 16);
      PowerOfUnit(m[n]);
      assert m[n..] == [m[n]];
    }
  }

  /**
    With any preset, the direct register over `m` ends with the remainder of `m` followed by
    sixteen zeros, the first sixteen of those bits having the preset added to them.
    */
  lemma FeedIsRemainder(preset: Register, m: seq<bool>)
    ensures Feed(preset, m) == Residue(Zeros(16), Xor(m + Zeros(16), preset + Zeros(|m|)))
  {
    hide TimesX, Xor, TimesXPower, Zeros, Feed, Residue;
    var zero := Zeros(16);
    XorZeros(zero);
    ResidueLinear(zero, zero, m + Zeros(16), preset + Zeros(|m|));
    ResidueAppend(zero, m, Zeros(16));
    ResidueZeros(Residue(zero, m), 16);
    FeedIsShiftedResidue(m);
    ResidueAppend(zero, preset, Zeros(|m|));
    ResidueShort(preset);
    assert Zeros(0) + preset == preset;
    ResidueZeros(preset, |m|);
    XorZeros(preset);
    XorZeros(m);
    FeedLinear(zero, preset, m, Zeros(|m|));
    FeedZeros(preset, |m|);
  }

  // ----- Parity -----

  /** Number of ones. */
  function Weight(bits: seq<bool>): nat {
    if bits == [] then 0 else Weight(bits[..|bits| - 1]) + if bits[|bits| - 1] then 1 else 0
  }

  lemma {:induction false} WeightAppend(a: seq<bool>, b: seq<bool>)
    ensures Weight(a + b) == Weight(a) + Weight(b)
  {
    if b == [] {
      assert a + b == a;
    } else {
      assert (a + b)[..|a + b| - 1] == a + b[..|b| - 1];
      WeightAppend(a, b[..|b| - 1]);
    }
  }

  lemma {:induction false} WeightOfZeros(n: nat)
    ensures Weight(Zeros(n)) == 0
  {
    if n > 0 {
      assert Zeros(n)[..n - 1] == Zeros(n - 1);
      WeightOfZeros(n - 1);
    }
  }

  lemma {:induction false} WeightOfOnes(n: nat)
    ensures Weight(Ones(n)) == n
  {
    if n > 0 {
      assert Ones(n)[..n - 1] == Ones(n - 1);
      WeightOfOnes(n - 1);
    }
  }

  lemma {:induction false} WeightOfXor(a: seq<bool>, b: seq<bool>)
    requires |a| == |b|
    ensures Weight(Xor(a, b)) % 2 == (Weight(a) + Weight(b)) % 2
  {
    if a != [] {
      var n := |a| - 1;
      assert Xor(a, b)[..n] == Xor(a[..n], b[..n]);
      WeightOfXor(a[..n], b[..n]);
    }
  }

  lemma WeightOfOne(b: bool)
    ensures Weight([b]) == if b then 1 else 0
  {
    assert [b][..0] == [];
  }

  lemma WeightOfNone()
    ensures Weight([]) == 0
  {
  }

  lemma WeightOfPrefix(b: seq<bool>, k: nat)
    requires k < |b|
    ensures Weight(b[..k + 1]) == Weight(b[..k]) + if b[k] then 1 else 0
  {
    assert b[..k + 1][..k] == b[..k];
  }

  lemma WeightOfEight(b: seq<bool>)
    requires |b| == 8
    ensures Weight(b) == (if b[0] then 1 else 0) + (if b[1] then 1 else 0)
                       + (if b[2] then 1 else 0) + (if b[3] then 1 else 0)
                       + (if b[4] then 1 else 0) + (if b[5] then 1 else 0)
                       + (if b[6] then 1 else 0) + (if b[7] then 1 else 0)
  {
    hide Weight;
    assert b[..8] == b;
    WeightOfNone();
    assert b[..0] == [];
    WeightOfPrefix(b, 0);
    WeightOfPrefix(b, 1);
    WeightOfPrefix(b, 2);
    WeightOfPrefix(b, 3);
    WeightOfPrefix(b, 4);
    WeightOfPrefix(b, 5);
    WeightOfPrefix(b, 6);
    WeightOfPrefix(b, 7);
  }

  lemma TailIsOdd()
    ensures Weight(Tail()) == 3
  {
    var a := Zeros(3);
    var b := a + [true];
    var c := b + Zeros(6);
    var d := c + [true];
    var e := d + Zeros(4);
    WeightOfOne(true);
    WeightOfZeros(3);
    WeightOfZeros(6);
    WeightOfZeros(4);
    WeightAppend(a, [true]);
    WeightAppend(b, Zeros(6));
    WeightAppend(c, [true]);
    WeightAppend(d, Zeros(4));
    WeightAppend(e, [true]);
  }

  /** The generator has an even number of terms, so multiplication by x keeps the parity. */
  lemma TimesXKeepsParity(r: Register)
    ensures Weight(TimesX(r)) % 2 == Weight(r) % 2
  {
    var shifted := r[1..] + [false];
    WeightOfXor(shifted, if r[0] then Tail() else Zeros(16));
    TailIsOdd();
    WeightOfZeros(16);
    WeightAppend(r[1..], [false]);
    WeightOfOne(false);
    assert r == r[..1] + r[1..] && r[..1] == [r[0]];
    WeightAppend(r[..1], r[1..]);
    WeightOfOne(r[0]);
  }

  lemma FeedStepParity(r: Register, b: bool)
    ensures Weight(TimesX(Xor(r, Pad([b])))) % 2 == (Weight(r) + if b then 1 else 0) % 2
  {
    TimesXKeepsParity(Xor(r, Pad([b])));
    WeightOfXor(r, Pad([b]));
    WeightAppend([b], Zeros(15));
    WeightOfOne(b);
    WeightOfZeros(15);
  }

  lemma {:induction false} FeedParity(r: Register, bits: seq<bool>)
    ensures Weight(Feed(r, bits)) % 2 == (Weight(r) + Weight(bits)) % 2
  {
    hide TimesX, Xor, Pad;
    if bits != [] {
      var n := |bits| - 1;
      FeedParity(r, bits[..n]);
      assert bits[n..] == [bits[n]];
      FeedStepParity(Feed(r, bits[..n]), bits[n]);
    }
  }

  // ----- Bursts -----

  lemma ShortMessageLeavesTrace(w: seq<bool>)
    requires |w| <= 16 && true in w
    ensures Feed(Zeros(16), w) != Zeros(16)
  {
    hide TimesX, Xor, TimesXPower, Zeros, Feed;
    FeedAhead(Zeros(16), w);
    var i :| 0 <= i < |w| && w[i];
    assert Xor(Zeros(16), Pad(w))[i];
    PowerNonZero(Xor(Zeros(16), Pad(w)), |w|);
  }

  lemma ZerosAround(m: nat, w: seq<bool>, n: nat)
    ensures Feed(Zeros(16), Zeros(m) + w + Zeros(n)) == TimesXPower(Feed(Zeros(16), w), n)
  {
    FeedAppend(Zeros(16), Zeros(m) + w, Zeros(n));
    FeedAppend(Zeros(16), Zeros(m), w);
    FeedZeros(Zeros(16), m);
    PowerOfZero(m);
    FeedZeros(Feed(Zeros(16), w), n);
  }

  lemma CutBurst(e: seq<bool>, lo: nat, hi: nat)
    requires lo <= hi <= |e|
    requires forall i :: 0 <= i < |e| && e[i] ==> lo <= i < hi
    ensures e == Zeros(lo) + e[lo..hi] + Zeros(|e| - hi)
  {
  }

  /** A nonzero message confined to sixteen consecutive places leaves a nonzero remainder. */
  lemma BurstLeavesTrace(e: seq<bool>, lo: nat)
    requires true in e
    requires forall i :: 0 <= i < |e| && e[i] ==> lo <= i < lo + 16
    ensures Feed(Zeros(16), e) != Zeros(16)
  {
    hide TimesXPower, Feed, Pad, Zeros, TimesX, Xor;
    var hi := if lo + 16 <= |e| then lo + 16 else |e|;
    var w := e[lo..hi];
    assert true in w by {
      var i :| 0 <= i < |e| && e[i];
      assert w[i - lo] == e[i];
    }
    CutBurst(e, lo, hi);
    ShortMessageLeavesTrace(w);
    ZerosAround(lo, w, |e| - hi);
    PowerNonZero(Feed(Zeros(16), w), |e| - hi);
  }
}
