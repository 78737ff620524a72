/**
 The check seen bit by bit, in the order the serial line sends the bits, and what that says about
 flipped bits: an odd number of them never goes unnoticed.
 */
module CrcBits {
  import opened Crc

  // ----- one bit at a time -----

  /** The register takes in one bit. */
  function StepBit(r: bv16, on: bool): bv16 {
    ShiftBit(if on then r ^ 1 else r)
  }

  /** Bit p of a message on the line. */
  predicate OnLine(m: seq<bv8>, p: nat)
    requires p < 8 * |m|
  {
    Bit(m[p / 8], p % 8)
  }

  /** The register after the first n bits of m. */
  function ResidueBits(r: bv16, m: seq<bv8>, n: nat): bv16
    requires n <= 8 * |m|
    decreases n
  {
    if n == 0 then r else StepBit(ResidueBits(r, m, n - 1), OnLine(m, n - 1))
  }

  lemma PullBit(r: bv16, c: bv16)
    ensures ShiftBit(Xor(r, c)) == Xor(StepBit(r, c & 1 == 1), c >> 1)
  {
    if c & 1 == 1 {
      if r & 1 == 1 { assert (r ^ c) & 1 == 0; assert (r ^ 1) & 1 == 0; } else { assert (r ^ c) & 1 == 1; assert (r ^ 1) & 1 == 1; }
    } else {
      if r & 1 == 1 { assert (r ^ c) & 1 == 1; } else { assert (r ^ c) & 1 == 0; }
    }
  }

  /** The register after the first k bits of the byte b. */
  function SomeBits(r: bv16, b: bv8, k: nat): bv16
    requires k <= 8
    decreases k
  {
    if k == 0 then r else StepBit(SomeBits(r, b, k - 1), Bit(b, k - 1))
  }

  lemma BitsInOrder(b: bv8)
    ensures ((b as bv16) & 1 == 1) == Bit(b, 0) && (((b as bv16) >> 1) & 1 == 1) == Bit(b, 1)
    ensures (((b as bv16) >> 2) & 1 == 1) == Bit(b, 2) && (((b as bv16) >> 3) & 1 == 1) == Bit(b, 3)
    ensures (((b as bv16) >> 4) & 1 == 1) == Bit(b, 4) && (((b as bv16) >> 5) & 1 == 1) == Bit(b, 5)
    ensures (((b as bv16) >> 6) & 1 == 1) == Bit(b, 6) && (((b as bv16) >> 7) & 1 == 1) == Bit(b, 7)
  {}

  lemma FeedIsEightBits(r: bv16, b: bv8)
    ensures Feed(r, b) == SomeBits(r, b, 8)
  {
    var c := b as bv16;
    BitsInOrder(b);
    Chain(c);
    hide StepBit, ShiftBit, Xor, Bit;
    var c1, c2, c3, c4, c5, c6, c7 := c >> 1, c >> 2, c >> 3, c >> 4, c >> 5, c >> 6, c >> 7;
    PullBit(r, c);
    var r1 := StepBit(r, Bit(b, 0)); PullBit(r1, c1);
    var r2 := StepBit(r1, Bit(b, 1)); PullBit(r2, c2);
    var r3 := StepBit(r2, Bit(b, 2)); PullBit(r3, c3);
    var r4 := StepBit(r3, Bit(b, 3)); PullBit(r4, c4);
    var r5 := StepBit(r4, Bit(b, 4)); PullBit(r5, c5);
    var r6 := StepBit(r5, Bit(b, 5)); PullBit(r6, c6);
    var r7 := StepBit(r6, Bit(b, 6)); PullBit(r7, c7);
    XorNothing(StepBit(r7, Bit(b, 7)));
    assert SomeBits(r, b, 1) == r1;
    assert SomeBits(r, b, 3) == StepBit(SomeBits(r, b, 2), Bit(b, 2)) == r3;
    assert SomeBits(r, b, 5) == StepBit(SomeBits(r, b, 4), Bit(b, 4)) == r5;
    assert SomeBits(r, b, 7) == StepBit(SomeBits(r, b, 6), Bit(b, 6)) == r7;
    XorIs(r, c);
  }

  lemma Chain(c: bv16)
    requires c < 0x100
    ensures (c >> 1) >> 1 == c >> 2 && (c >> 2) >> 1 == c >> 3 && (c >> 3) >> 1 == c >> 4 && (c >> 4) >> 1 == c >> 5
    ensures (c >> 5) >> 1 == c >> 6 && (c >> 6) >> 1 == c >> 7 && (c >> 7) >> 1 == 0
  {}

  lemma XorNothing(r: bv16) ensures Xor(r, 0) == r {}
  lemma XorIs(r: bv16, c: bv16) ensures Xor(r, c) == r ^ c {}

  lemma {:induction false} ResidueBitByBit(r: bv16, m: seq<bv8>, i: nat)
    requires i <= |m|
    ensures ResidueBits(r, m, 8 * i) == Residue(r, m[..i])
    decreases i
  {
    hide StepBit, Bit, Feed;
    if i > 0 {
      ResidueBitByBit(r, m, i - 1);
      assert m[..i] == m[..i - 1] + [m[i - 1]];
      ResidueConcat(r, m[..i - 1], [m[i - 1]]);
      var s := Residue(r, m[..i - 1]);
      assert [m[i - 1]][1..] == [];
      assert Residue(s, [m[i - 1]]) == Residue(Feed(s, m[i - 1]), []);
      FeedIsEightBits(s, m[i - 1]);
      BitsOfOneByte(r, m, i - 1, 8);
    }
  }

  lemma {:induction false} BitsOfOneByte(r: bv16, m: seq<bv8>, i: nat, k: nat)
    requires i < |m| && k <= 8
    ensures ResidueBits(r, m, 8 * i + k) == SomeBits(ResidueBits(r, m, 8 * i), m[i], k)
    decreases k
  {
    hide StepBit, Bit;
    if k > 0 {
      BitsOfOneByte(r, m, i, k - 1);
      assert (8 * i + (k - 1)) / 8 == i && (8 * i + (k - 1)) % 8 == k - 1;
    }
  }

  // ----- parity -----

  function Fold8(r: bv16): bv16 { r ^ (r >> 8) }
  function Fold4(r: bv16): bv16 { r ^ (r >> 4) }
  function Fold2(r: bv16): bv16 { r ^ (r >> 2) }
  function Fold1(r: bv16): bv16 { r ^ (r >> 1) }

  /** Whether an odd number of bits of the register is set. */
  predicate OddRegister(r: bv16) {
    Fold1(Fold2(Fold4(Fold8(r)))) & 1 == 1
  }

  lemma StepBitParity(r: bv16, on: bool)
    ensures OddRegister(StepBit(r, on)) == (OddRegister(r) != on)
  {
    hide OddRegister, ShiftBit;
    ShiftBitParity(r);
    ShiftBitParity(r ^ 1);
    FlipParity(r);
  }

  lemma ShiftBitParity(r: bv16)
    ensures OddRegister(ShiftBit(r)) == OddRegister(r)
  {
    if r & 1 == 1 { ShiftOddParity(r); } else { ShiftEvenParity(r); }
  }

  lemma ShiftOddParity(r: bv16)
    requires r & 1 == 1
    ensures OddRegister((r >> 1) ^ 0xA001) == OddRegister(r)
  {}

  lemma ShiftEvenParity(r: bv16)
    requires r & 1 == 0
    ensures OddRegister(r >> 1) == OddRegister(r)
  {}

  lemma FlipParity(r: bv16)
    ensures OddRegister(r ^ 1) != OddRegister(r)
  {}

  /** How many of the first n bits on the line are set. */
  function CountOnLine(m: seq<bv8>, n: nat): nat
    requires n <= 8 * |m|
    decreases n
  {
    if n == 0 then 0 else CountOnLine(m, n - 1) + if OnLine(m, n - 1) then 1 else 0
  }

  lemma {:induction false} ParityKept(r: bv16, m: seq<bv8>, n: nat)
    requires n <= 8 * |m|
    ensures OddRegister(ResidueBits(r, m, n)) == (OddRegister(r) != (CountOnLine(m, n) % 2 == 1))
    decreases n
  {
    hide StepBit, OddRegister, OnLine;
    if n > 0 {
      ParityKept(r, m, n - 1);
      StepBitParity(ResidueBits(r, m, n - 1), OnLine(m, n - 1));
    }
  }

  /**
   An odd number of flipped bits is always detected, whatever the length of the frame and wherever
   they are, check bytes included.
   */
  lemma OddFlipsDetected(f: seq<bv8>, g: seq<bv8>)
    requires |f| == |g| && CrcOk(f) && CountOnLine(Difference(f, g), 8 * |f|) % 2 == 1
    ensures !CrcOk(g)
  {
    hide CrcOk, OddRegister;
    if CrcOk(g) {
      var e := Difference(f, g);
      AcceptedPairDifference(f, g);
      ResidueBitByBit(0, e, |e|);
      assert e[..|e|] == e;
      ParityKept(0, e, 8 * |e|);
      EmptyIsEven();
    }
  }

  lemma EmptyIsEven()
    ensures !OddRegister(0)
  {}
}
