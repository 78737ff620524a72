/**
 The cyclic redundancy check of modbus.c: the table-driven loop, the bit-by-bit register of
 section 6.2.2 of MODBUS over Serial Line V1.02 it has to agree with, and what the check detects.
 */
module Crc {

  // ----- the reference: one shift register, one bit at a time -----

  /** One shift of the register: the bit that leaves selects the polynomial 0xA001. */
  function ShiftBit(r: bv16): bv16 {
    if r & 1 == 1 then (r >> 1) ^ 0xA001 else r >> 1
  }

  function ShiftByte(r: bv16): bv16 {
    ShiftBit(ShiftBit(ShiftBit(ShiftBit(ShiftBit(ShiftBit(ShiftBit(ShiftBit(r))))))))
  }

  function Feed(r: bv16, b: bv8): bv16 {
    ShiftByte(r ^ (b as bv16))
  }

  /** The register after the message m went through it, starting from r. */
  function Residue(r: bv16, m: seq<bv8>): bv16
    decreases |m|
  {
    if |m| == 0 then r else Residue(Feed(r, m[0]), m[1..])
  }

  function SwapBytes(r: bv16): bv16 {
    ((r & 0xFF) << 8) | (r >> 8)
  }

  /** Two bytes as a 16-bit value, high byte first. */
  function JoinBytes(hi: bv8, lo: bv8): bv16 { ((hi as bv16) << 8) | (lo as bv16) }

  /** The check value in the order the program puts it on the wire, high byte first. */
  function Crc16Of(m: seq<bv8>): bv16 {
    SwapBytes(Residue(0xFFFF, m))
  }

  // ----- the program's tables, in sixteen rows of sixteen -----

  /** Entry j of a line of sixteen. */
  function Entry(j: bv8, e0: bv8, e1: bv8, e2: bv8, e3: bv8, e4: bv8, e5: bv8, e6: bv8, e7: bv8,
                 e8: bv8, e9: bv8, e10: bv8, e11: bv8, e12: bv8, e13: bv8, e14: bv8, e15: bv8): bv8 {
    if j < 8 then
      if j == 0 then e0 else if j == 1 then e1 else if j == 2 then e2 else if j == 3 then e3
      else if j == 4 then e4 else if j == 5 then e5 else if j == 6 then e6 else e7
    else
      if j == 8 then e8 else if j == 9 then e9 else if j == 10 then e10 else if j == 11 then e11
      else if j == 12 then e12 else if j == 13 then e13 else if j == 14 then e14 else e15
  }

  /** table_crc_hi at index i, one line of sixteen entries for each value of the upper four bits. */
  function TableCrcHi(i: bv8): bv8 {
    var j := i & 0xF;
    if i >> 4 == 0 then Entry(j, 0x00, 0xC1, 0x81, 0x40, 0x01, 0xC0, 0x80, 0x41, 0x01, 0xC0, 0x80, 0x41, 0x00, 0xC1, 0x81, 0x40)
    else if i >> 4 == 1 then Entry(j, 0x01, 0xC0, 0x80, 0x41, 0x00, 0xC1, 0x81, 0x40, 0x00, 0xC1, 0x81, 0x40, 0x01, 0xC0, 0x80, 0x41)
    else if i >> 4 == 2 then Entry(j, 0x01, 0xC0, 0x80, 0x41, 0x00, 0xC1, 0x81, 0x40, 0x00, 0xC1, 0x81, 0x40, 0x01, 0xC0, 0x80, 0x41)
    else if i >> 4 == 3 then Entry(j, 0x00, 0xC1, 0x81, 0x40, 0x01, 0xC0, 0x80, 0x41, 0x01, 0xC0, 0x80, 0x41, 0x00, 0xC1, 0x81, 0x40)
    else if i >> 4 == 4 then Entry(j, 0x01, 0xC0, 0x80, 0x41, 0x00, 0xC1, 0x81, 0x40, 0x00, 0xC1, 0x81, 0x40, 0x01, 0xC0, 0x80, 0x41)
    else if i >> 4 == 5 then Entry(j, 0x00, 0xC1, 0x81, 0x40, 0x01, 0xC0, 0x80, 0x41, 0x01, 0xC0, 0x80, 0x41, 0x00, 0xC1, 0x81, 0x40)
    else if i >> 4 == 6 then Entry(j, 0x00, 0xC1, 0x81, 0x40, 0x01, 0xC0, 0x80, 0x41, 0x01, 0xC0, 0x80, 0x41, 0x00, 0xC1, 0x81, 0x40)
    else if i >> 4 == 7 then Entry(j, 0x01, 0xC0, 0x80, 0x41, 0x00, 0xC1, 0x81, 0x40, 0x00, 0xC1, 0x81, 0x40, 0x01, 0xC0, 0x80, 0x41)
    else if i >> 4 == 8 then Entry(j, 0x01, 0xC0, 0x80, 0x41, 0x00, 0xC1, 0x81, 0x40, 0x00, 0xC1, 0x81, 0x40, 0x01, 0xC0, 0x80, 0x41)
    else if i >> 4 == 9 then Entry(j, 0x00, 0xC1, 0x81, 0x40, 0x01, 0xC0, 0x80, 0x41, 0x01, 0xC0, 0x80, 0x41, 0x00, 0xC1, 0x81, 0x40)
    else if i >> 4 == 10 then Entry(j, 0x00, 0xC1, 0x81, 0x40, 0x01, 0xC0, 0x80, 0x41, 0x01, 0xC0, 0x80, 0x41, 0x00, 0xC1, 0x81, 0x40)
    else if i >> 4 == 11 then Entry(j, 0x01, 0xC0, 0x80, 0x41, 0x00, 0xC1, 0x81, 0x40, 0x00, 0xC1, 0x81, 0x40, 0x01, 0xC0, 0x80, 0x41)
    else if i >> 4 == 12 then Entry(j, 0x00, 0xC1, 0x81, 0x40, 0x01, 0xC0, 0x80, 0x41, 0x01, 0xC0, 0x80, 0x41, 0x00, 0xC1, 0x81, 0x40)
    else if i >> 4 == 13 then Entry(j, 0x01, 0xC0, 0x80, 0x41, 0x00, 0xC1, 0x81, 0x40, 0x00, 0xC1, 0x81, 0x40, 0x01, 0xC0, 0x80, 0x41)
    else if i >> 4 == 14 then Entry(j, 0x01, 0xC0, 0x80, 0x41, 0x00, 0xC1, 0x81, 0x40, 0x00, 0xC1, 0x81, 0x40, 0x01, 0xC0, 0x80, 0x41)
    else Entry(j, 0x00, 0xC1, 0x81, 0x40, 0x01, 0xC0, 0x80, 0x41, 0x01, 0xC0, 0x80, 0x41, 0x00, 0xC1, 0x81, 0x40)
  }

  /** table_crc_lo at index i, one line of sixteen entries for each value of the upper four bits. */
  function TableCrcLo(i: bv8): bv8 {
    var j := i & 0xF;
    if i >> 4 == 0 then Entry(j, 0x00, 0xC0, 0xC1, 0x01, 0xC3, 0x03, 0x02, 0xC2, 0xC6, 0x06, 0x07, 0xC7, 0x05, 0xC5, 0xC4, 0x04)
    else if i >> 4 == 1 then Entry(j, 0xCC, 0x0C, 0x0D, 0xCD, 0x0F, 0xCF, 0xCE, 0x0E, 0x0A, 0xCA, 0xCB, 0x0B, 0xC9, 0x09, 0x08, 0xC8)
    else if i >> 4 == 2 then Entry(j, 0xD8, 0x18, 0x19, 0xD9, 0x1B, 0xDB, 0xDA, 0x1A, 0x1E, 0xDE, 0xDF, 0x1F, 0xDD, 0x1D, 0x1C, 0xDC)
    else if i >> 4 == 3 then Entry(j, 0x14, 0xD4, 0xD5, 0x15, 0xD7, 0x17, 0x16, 0xD6, 0xD2, 0x12, 0x13, 0xD3, 0x11, 0xD1, 0xD0, 0x10)
    else if i >> 4 == 4 then Entry(j, 0xF0, 0x30, 0x31, 0xF1, 0x33, 0xF3, 0xF2, 0x32, 0x36, 0xF6, 0xF7, 0x37, 0xF5, 0x35, 0x34, 0xF4)
    else if i >> 4 == 5 then Entry(j, 0x3C, 0xFC, 0xFD, 0x3D, 0xFF, 0x3F, 0x3E, 0xFE, 0xFA, 0x3A, 0x3B, 0xFB, 0x39, 0xF9, 0xF8, 0x38)
    else if i >> 4 == 6 then Entry(j, 0x28, 0xE8, 0xE9, 0x29, 0xEB, 0x2B, 0x2A, 0xEA, 0xEE, 0x2E, 0x2F, 0xEF, 0x2D, 0xED, 0xEC, 0x2C)
    else if i >> 4 == 7 then Entry(j, 0xE4, 0x24, 0x25, 0xE5, 0x27, 0xE7, 0xE6, 0x26, 0x22, 0xE2, 0xE3, 0x23, 0xE1, 0x21, 0x20, 0xE0)
    else if i >> 4 == 8 then Entry(j, 0xA0, 0x60, 0x61, 0xA1, 0x63, 0xA3, 0xA2, 0x62, 0x66, 0xA6, 0xA7, 0x67, 0xA5, 0x65, 0x64, 0xA4)
    else if i >> 4 == 9 then Entry(j, 0x6C, 0xAC, 0xAD, 0x6D, 0xAF, 0x6F, 0x6E, 0xAE, 0xAA, 0x6A, 0x6B, 0xAB, 0x69, 0xA9, 0xA8, 0x68)
    else if i >> 4 == 10 then Entry(j, 0x78, 0xB8, 0xB9, 0x79, 0xBB, 0x7B, 0x7A, 0xBA, 0xBE, 0x7E, 0x7F, 0xBF, 0x7D, 0xBD, 0xBC, 0x7C)
    else if i >> 4 == 11 then Entry(j, 0xB4, 0x74, 0x75, 0xB5, 0x77, 0xB7, 0xB6, 0x76, 0x72, 0xB2, 0xB3, 0x73, 0xB1, 0x71, 0x70, 0xB0)
    else if i >> 4 == 12 then Entry(j, 0x50, 0x90, 0x91, 0x51, 0x93, 0x53, 0x52, 0x92, 0x96, 0x56, 0x57, 0x97, 0x55, 0x95, 0x94, 0x54)
    else if i >> 4 == 13 then Entry(j, 0x9C, 0x5C, 0x5D, 0x9D, 0x5F, 0x9F, 0x9E, 0x5E, 0x5A, 0x9A, 0x9B, 0x5B, 0x99, 0x59, 0x58, 0x98)
    else if i >> 4 == 14 then Entry(j, 0x88, 0x48, 0x49, 0x89, 0x4B, 0x8B, 0x8A, 0x4A, 0x4E, 0x8E, 0x8F, 0x4F, 0x8D, 0x4D, 0x4C, 0x8C)
    else Entry(j, 0x44, 0x84, 0x85, 0x45, 0x87, 0x47, 0x46, 0x86, 0x82, 0x42, 0x43, 0x83, 0x41, 0x81, 0x80, 0x40)
  }

  // ----- the tables hold the shifted bytes -----

  lemma TableHiIsShift(i: bv8)
    ensures TableCrcHi(i) == (ShiftByte(i as bv16) & 0xFF) as bv8
  {}

  lemma TableLoIsShift(i: bv8)
    ensures TableCrcLo(i) == (ShiftByte(i as bv16) >> 8) as bv8
  {
    hide TableCrcLo, ShiftByte;
    if i < 0x40 { TableLoFrom00(i); } else if i < 0x80 { TableLoFrom40(i); }
    else if i < 0xC0 { TableLoFrom80(i); } else { TableLoFromC0(i); }
  }

  lemma TableLoFrom00(i: bv8)
    requires i < 0x40
    ensures TableCrcLo(i) == (ShiftByte(i as bv16) >> 8) as bv8
  {
    hide TableCrcLo, ShiftByte;
    if i < 0x20 { TableLoFrom00To1F(i); } else { TableLoFrom20(i); }
  }

  lemma TableLoFrom00To1F(i: bv8)
    requires i < 0x20
    ensures TableCrcLo(i) == (ShiftByte(i as bv16) >> 8) as bv8
  {}

  lemma TableLoFrom20(i: bv8)
    requires 0x20 <= i < 0x40
    ensures TableCrcLo(i) == (ShiftByte(i as bv16) >> 8) as bv8
  {}

  lemma TableLoFrom40(i: bv8)
    requires 0x40 <= i < 0x80
    ensures TableCrcLo(i) == (ShiftByte(i as bv16) >> 8) as bv8
  {}

  lemma TableLoFrom80(i: bv8)
    requires 0x80 <= i < 0xC0
    ensures TableCrcLo(i) == (ShiftByte(i as bv16) >> 8) as bv8
  {}

  lemma TableLoFromC0(i: bv8)
    requires 0xC0 <= i
    ensures TableCrcLo(i) == (ShiftByte(i as bv16) >> 8) as bv8
  {}

  // ----- the register is linear -----

  function Xor(a: bv16, b: bv16): bv16 { a ^ b }

  lemma ShiftBitLinear(a: bv16, b: bv16)
    ensures ShiftBit(Xor(a, b)) == Xor(ShiftBit(a), ShiftBit(b))
  {
    if a & 1 == 1 {
      if b & 1 == 1 { assert (a ^ b) & 1 == 0; } else { assert (a ^ b) & 1 == 1; }
    } else {
      if b & 1 == 1 { assert (a ^ b) & 1 == 1; } else { assert (a ^ b) & 1 == 0; }
    }
  }

  lemma ShiftByteLinear(a: bv16, b: bv16)
    ensures ShiftByte(Xor(a, b)) == Xor(ShiftByte(a), ShiftByte(b))
  {
    hide Xor, ShiftBit;
    ShiftBitLinear(a, b);
    var a1, b1 := ShiftBit(a), ShiftBit(b); ShiftBitLinear(a1, b1);
    var a2, b2 := ShiftBit(a1), ShiftBit(b1); ShiftBitLinear(a2, b2);
    var a3, b3 := ShiftBit(a2), ShiftBit(b2); ShiftBitLinear(a3, b3);
    var a4, b4 := ShiftBit(a3), ShiftBit(b3); ShiftBitLinear(a4, b4);
    var a5, b5 := ShiftBit(a4), ShiftBit(b4); ShiftBitLinear(a5, b5);
    var a6, b6 := ShiftBit(a5), ShiftBit(b5); ShiftBitLinear(a6, b6);
    ShiftBitLinear(ShiftBit(a6), ShiftBit(b6));
  }

  lemma FeedLinear(r: bv16, s: bv16, a: bv8, b: bv8)
    ensures Feed(Xor(r, s), a ^ b) == Xor(Feed(r, a), Feed(s, b))
  {
    hide ShiftByte;
    ShiftByteLinear(r ^ (a as bv16), s ^ (b as bv16));
    assert (r ^ s) ^ ((a ^ b) as bv16) == Xor(r ^ (a as bv16), s ^ (b as bv16));
  }

  /** Position by position, the bits in which two equally long messages differ. */
  function Difference(f: seq<bv8>, g: seq<bv8>): (e: seq<bv8>)
    requires |f| == |g|
    ensures |e| == |f| && forall i :: 0 <= i < |e| ==> e[i] == f[i] ^ g[i]
  {
    seq(|f|, i requires 0 <= i < |f| => f[i] ^ g[i])
  }

  lemma {:induction false} ResidueLinear(r: bv16, s: bv16, f: seq<bv8>, g: seq<bv8>)
    requires |f| == |g|
    ensures Residue(Xor(r, s), Difference(f, g)) == Xor(Residue(r, f), Residue(s, g))
    decreases |f|
  {
    hide Xor, Feed;
    if |f| > 0 {
      FeedLinear(r, s, f[0], g[0]);
      assert Difference(f, g)[1..] == Difference(f[1..], g[1..]);
      ResidueLinear(Feed(r, f[0]), Feed(s, g[0]), f[1..], g[1..]);
    }
  }

  lemma {:induction false} ResidueConcat(r: bv16, a: seq<bv8>, b: seq<bv8>)
    ensures Residue(r, a + b) == Residue(Residue(r, a), b)
    decreases |a|
  {
    hide Feed;
    if |a| == 0 {
      assert a + b == b;
    } else {
      assert (a + b)[1..] == a[1..] + b;
      ResidueConcat(Feed(r, a[0]), a[1..], b);
    }
  }

  /** A register that is not empty stays so while only zero bytes come in, and an empty one stays empty. */
  lemma {:induction false} ResidueOfZeros(r: bv16, m: seq<bv8>)
    requires forall i :: 0 <= i < |m| ==> m[i] == 0
    ensures Residue(r, m) == 0 <==> r == 0
    decreases |m|
  {
    if |m| > 0 {
      FeedZero(r);
      hide Feed;
      ResidueOfZeros(Feed(r, 0), m[1..]);
    }
  }

  lemma FeedZero(r: bv16)
    ensures Feed(r, 0) == 0 <==> r == 0
  {}

  lemma FeedIsZero(r: bv16, b: bv8)
    ensures Feed(r, b) == 0 <==> r == b as bv16
  {}

  lemma ShiftByteBelowByte(x: bv16, b: bv8)
    ensures ShiftByte(x) == b as bv16 <==> x == (b as bv16) << 8
  {}

  lemma SwapForth(r: bv16, a: bv8, b: bv8)
    requires r ^ (a as bv16) == (b as bv16) << 8
    ensures SwapBytes(r) == JoinBytes(a, b)
  {}

  lemma SwapBack(r: bv16, a: bv8, b: bv8)
    requires SwapBytes(r) == JoinBytes(a, b)
    ensures r ^ (a as bv16) == (b as bv16) << 8
  {}

  lemma FeedPair(r: bv16, a: bv8, b: bv8)
    ensures Feed(Feed(r, a), b) == 0 <==> SwapBytes(r) == JoinBytes(a, b)
  {
    hide ShiftByte, SwapBytes, JoinBytes;
    FeedIsZero(Feed(r, a), b);
    ShiftByteBelowByte(r ^ (a as bv16), b);
    if r ^ (a as bv16) == (b as bv16) << 8 { SwapForth(r, a, b); }
    if SwapBytes(r) == JoinBytes(a, b) { SwapBack(r, a, b); }
  }

  // ----- what the check accepts -----

  /** The check of modbus.c, lines 577-579: the last two bytes, high byte first, are the check value of the rest. */
  predicate CrcOk(f: seq<bv8>) {
    |f| >= 2 && Crc16Of(f[..|f| - 2]) == JoinBytes(f[|f| - 2], f[|f| - 1])
  }

  lemma ResidueOfPair(r: bv16, a: bv8, b: bv8)
    ensures Residue(r, [a, b]) == Feed(Feed(r, a), b)
  {
    hide Feed;
    assert [a, b][1..] == [b];
    assert [b][1..] == [];
    assert Residue(Feed(r, a), [b]) == Residue(Feed(Feed(r, a), b), []);
  }

  /** A frame passes exactly when the register is empty after the whole frame, check bytes included. */
  lemma CrcOkIffNoResidue(f: seq<bv8>)
    requires |f| >= 2
    ensures CrcOk(f) <==> Residue(0xFFFF, f) == 0
  {
    hide Feed, SwapBytes, Residue, JoinBytes;
    var m, a, b := f[..|f| - 2], f[|f| - 2], f[|f| - 1];
    assert f == m + [a, b];
    ResidueConcat(0xFFFF, m, [a, b]);
    ResidueOfPair(Residue(0xFFFF, m), a, b);
    FeedPair(Residue(0xFFFF, m), a, b);
  }

  /** Two accepted frames of one length differ by a pattern that leaves the empty register empty. */
  lemma AcceptedPairDifference(f: seq<bv8>, g: seq<bv8>)
    requires |f| == |g| && CrcOk(f) && CrcOk(g)
    ensures Residue(0, Difference(f, g)) == 0
  {
    hide Residue, SwapBytes;
    CrcOkIffNoResidue(f);
    CrcOkIffNoResidue(g);
    ResidueLinear(0xFFFF, 0xFFFF, f, g);
  }

  // ----- bursts -----

  /** Bit k of a byte, in the order the serial line sends them: least significant bit first. */
  predicate Bit(b: bv8, k: nat)
    requires k < 8
  {
    match k
    case 0 => b & 0x01 != 0
    case 1 => b & 0x02 != 0
    case 2 => b & 0x04 != 0
    case 3 => b & 0x08 != 0
    case 4 => b & 0x10 != 0
    case 5 => b & 0x20 != 0
    case 6 => b & 0x40 != 0
    case 7 => b & 0x80 != 0
  }

  /** Bit p of the frame on the line is not the same in f and g. */
  predicate Flipped(f: seq<bv8>, g: seq<bv8>, p: nat)
    requires |f| == |g| && p < 8 * |f|
  {
    Bit(f[p / 8] ^ g[p / 8], p % 8)
  }

  /** Everything that differs between f and g lies within sixteen consecutive bits, from bit p on. */
  ghost predicate Burst16(f: seq<bv8>, g: seq<bv8>, p: nat)
    requires |f| == |g|
  {
    forall q: nat :: q < 8 * |f| && Flipped(f, g, q) ==> p <= q < p + 16
  }

  /** The lower s bits of a byte. */
  function Lower(s: nat): bv8
    requires s < 8
  {
    match s
    case 0 => 0x00
    case 1 => 0x01
    case 2 => 0x03
    case 3 => 0x07
    case 4 => 0x0F
    case 5 => 0x1F
    case 6 => 0x3F
    case 7 => 0x7F
  }

  lemma ClearBelow(x: bv8, s: nat)
    requires s < 8 && forall k: nat :: k < s ==> !Bit(x, k)
    ensures x & Lower(s) == 0
  {
    assert s > 0 ==> !Bit(x, 0);
    assert s > 1 ==> !Bit(x, 1);
    assert s > 2 ==> !Bit(x, 2);
    assert s > 3 ==> !Bit(x, 3);
    assert s > 4 ==> !Bit(x, 4);
    assert s > 5 ==> !Bit(x, 5);
    assert s > 6 ==> !Bit(x, 6);
  }

  lemma ClearFrom(x: bv8, s: nat)
    requires s < 8 && forall k: nat :: s <= k < 8 ==> !Bit(x, k)
    ensures x & Lower(s) == x
  {
    assert s <= 0 ==> !Bit(x, 0);
    assert s <= 1 ==> !Bit(x, 1);
    assert s <= 2 ==> !Bit(x, 2);
    assert s <= 3 ==> !Bit(x, 3);
    assert s <= 4 ==> !Bit(x, 4);
    assert s <= 5 ==> !Bit(x, 5);
    assert s <= 6 ==> !Bit(x, 6);
    assert !Bit(x, 7);
  }

  /** Three bytes in a row whose set bits lie within sixteen bits do not leave the register empty. */
  lemma WindowLeavesResidue(a: bv8, b: bv8, c: bv8, s: nat)
    requires s < 8 && a & Lower(s) == 0 && c & Lower(s) == c
    requires a != 0 || b != 0 || c != 0
    ensures Feed(Feed(Feed(0, a), b), c) != 0
  {
    MaskedWindow(a, b, c, Lower(s));
  }

  lemma MaskedWindow(a: bv8, b: bv8, c: bv8, low: bv8)
    requires low & (low + 1) == 0 && low < 0x80
    requires a & low == 0 && c & low == c
    requires a != 0 || b != 0 || c != 0
    ensures Feed(Feed(Feed(0, a), b), c) != 0
  {}

  lemma EqualWhenNothingFlipped(x: bv8)
    requires forall k: nat :: k < 8 ==> !Bit(x, k)
    ensures x == 0
  {
    ClearFrom(x, 0);
  }

  lemma BitInBurst(f: seq<bv8>, g: seq<bv8>, p: nat, i: nat, k: nat)
    requires |f| == |g| && i < |f| && k < 8 && Burst16(f, g, p) && Bit(f[i] ^ g[i], k)
    ensures p <= 8 * i + k < p + 16
  {
    hide Bit;
    assert (8 * i + k) / 8 == i && (8 * i + k) % 8 == k;
    assert Flipped(f, g, 8 * i + k);
  }

  /** Outside the three bytes around a burst nothing is flipped. */
  lemma BurstOutside(f: seq<bv8>, g: seq<bv8>, p: nat, i: nat)
    requires |f| == |g| && i < |f| && Burst16(f, g, p) && (i < p / 8 || p / 8 + 2 < i)
    ensures f[i] ^ g[i] == 0
  {
    hide Bit, Burst16;
    var x := f[i] ^ g[i];
    forall k: nat | k < 8 ensures !Bit(x, k) { if Bit(x, k) { BitInBurst(f, g, p, i, k); } }
    EqualWhenNothingFlipped(x);
  }

  lemma BurstFirst(f: seq<bv8>, g: seq<bv8>, p: nat, i: nat)
    requires |f| == |g| && i < |f| && Burst16(f, g, p) && i == p / 8
    ensures (f[i] ^ g[i]) & Lower(p % 8) == 0
  {
    hide Bit, Burst16, Lower;
    var x := f[i] ^ g[i];
    forall k: nat | k < p % 8 ensures !Bit(x, k) { if Bit(x, k) { BitInBurst(f, g, p, i, k); } }
    ClearBelow(x, p % 8);
  }

  lemma BurstLast(f: seq<bv8>, g: seq<bv8>, p: nat, i: nat)
    requires |f| == |g| && i < |f| && Burst16(f, g, p) && i == p / 8 + 2
    ensures (f[i] ^ g[i]) & Lower(p % 8) == f[i] ^ g[i]
  {
    hide Bit, Burst16, Lower;
    var x := f[i] ^ g[i];
    forall k: nat | p % 8 <= k < 8 ensures !Bit(x, k) { if Bit(x, k) { BitInBurst(f, g, p, i, k); } }
    ClearFrom(x, p % 8);
  }

  /** An error pattern that is zero but for three neighbouring bytes within one window is never absorbed. */
  lemma WindowNotAbsorbed(e: seq<bv8>, k: nat, s: nat)
    requires k + 3 <= |e| && s < 8
    requires forall i :: 0 <= i < |e| && (i < k || k + 2 < i) ==> e[i] == 0
    requires e[k] & Lower(s) == 0 && e[k + 2] & Lower(s) == e[k + 2]
    requires e[k] != 0 || e[k + 1] != 0 || e[k + 2] != 0
    ensures Residue(0, e) != 0
  {
    hide Feed, Lower;
    var w, tail := [e[k], e[k + 1], e[k + 2]], e[k + 3..];
    assert e == e[..k] + (w + tail);
    ResidueConcat(0, e[..k], w + tail);
    ResidueOfZeros(0, e[..k]);
    ResidueConcat(0, w, tail);
    ResidueOfTriple(0, e[k], e[k + 1], e[k + 2]);
    WindowLeavesResidue(e[k], e[k + 1], e[k + 2], s);
    ResidueOfZeros(Residue(0, w), tail);
  }

  lemma ResidueOfTriple(r: bv16, a: bv8, b: bv8, c: bv8)
    ensures Residue(r, [a, b, c]) == Feed(Feed(Feed(r, a), b), c)
  {
    hide Feed;
    assert [a, b, c][1..] == [b, c];
    ResidueOfPair(Feed(r, a), b, c);
  }

  /** The difference a burst makes, with three zero bytes added so that its window always fits. */
  lemma BurstPattern(f: seq<bv8>, g: seq<bv8>, p: nat) returns (e: seq<bv8>)
    requires |f| == |g| && f != g && Burst16(f, g, p)
    ensures e == Difference(f, g) + [0, 0, 0] && p / 8 + 3 <= |e|
    ensures forall i :: 0 <= i < |e| && (i < p / 8 || p / 8 + 2 < i) ==> e[i] == 0
    ensures e[p / 8] & Lower(p % 8) == 0 && e[p / 8 + 2] & Lower(p % 8) == e[p / 8 + 2]
    ensures e[p / 8] != 0 || e[p / 8 + 1] != 0 || e[p / 8 + 2] != 0
  {
    hide Lower, Burst16;
    var k := p / 8;
    e := Difference(f, g) + [0, 0, 0];
    var first := FirstDifference(f, g);
    forall i | 0 <= i < |e| && (i < k || k + 2 < i)
      ensures e[i] == 0
    {
      if i < |f| { BurstOutside(f, g, p, i); }
    }
    assert e[first] != 0;
    assert k <= first <= k + 2;
    BurstFirst(f, g, p, k);
    ZeroInLower(p % 8);
    if k + 2 < |f| { BurstLast(f, g, p, k + 2); }
  }

  /**
   A burst is always detected: when an accepted frame is changed, and all changed bits lie within
   sixteen consecutive bits, the changed frame is not accepted. Check bytes included, any length.
   */
  lemma BurstDetected(f: seq<bv8>, g: seq<bv8>, p: nat)
    requires |f| == |g| && f != g && CrcOk(f) && Burst16(f, g, p)
    ensures !CrcOk(g)
  {
    hide CrcOk, Residue, Lower, Burst16, Difference;
    if CrcOk(g) {
      AcceptedPairDifference(f, g);
      var e := BurstPattern(f, g, p);
      ResidueConcat(0, Difference(f, g), [0, 0, 0]);
      ResidueOfZeros(0, [0, 0, 0]);
      WindowNotAbsorbed(e, p / 8, p % 8);
    }
  }

  lemma ZeroInLower(s: nat)
    requires s < 8
    ensures 0 & Lower(s) == 0
  {}

  lemma FirstDifference(f: seq<bv8>, g: seq<bv8>) returns (i: nat)
    requires |f| == |g| && f != g
    ensures i < |f| && f[i] ^ g[i] != 0
  {
    i :| 0 <= i < |f| && f[i] != g[i];
    SameWhenNoDifference(f[i], g[i]);
  }

  lemma SameWhenNoDifference(x: bv8, y: bv8)
    requires x != y
    ensures x ^ y != 0
  {}

  // ----- the program's loop -----

  /** The two bytes of the program are the two halves of the register, low half in crc_hi. */
  predicate Halves(hi: bv8, lo: bv8, r: bv16) {
    hi == (r & 0xFF) as bv8 && lo == (r >> 8) as bv8
  }

  lemma TableStep(hi: bv8, lo: bv8, b: bv8, r: bv16)
    requires Halves(hi, lo, r)
    ensures Halves(lo ^ TableCrcHi(hi ^ b), TableCrcLo(hi ^ b), Feed(r, b))
  {
    hide TableCrcHi, TableCrcLo, ShiftByte, Halves, Feed, Xor;
    var i := hi ^ b;
    TableHiIsShift(i);
    TableLoIsShift(i);
    FeedSplit(hi, lo, b, r);
    HalvesOfSum(lo, ShiftByte(i as bv16), Feed(r, b));
  }

  lemma FeedSplit(hi: bv8, lo: bv8, b: bv8, r: bv16)
    requires Halves(hi, lo, r)
    ensures Feed(r, b) == Xor(lo as bv16, ShiftByte((hi ^ b) as bv16))
  {
    hide ShiftByte, Halves, Xor;
    IndexAndRest(hi, lo, b, r);
    ShiftByteLinear((lo as bv16) << 8, (hi ^ b) as bv16);
    ShiftedDown(lo);
  }

  lemma IndexAndRest(hi: bv8, lo: bv8, b: bv8, r: bv16)
    requires Halves(hi, lo, r)
    ensures r ^ (b as bv16) == Xor((lo as bv16) << 8, (hi ^ b) as bv16)
  {}

  lemma ShiftedDown(lo: bv8)
    ensures ShiftByte((lo as bv16) << 8) == lo as bv16
  {}

  lemma HalvesOfSum(lo: bv8, y: bv16, r: bv16)
    requires r == Xor(lo as bv16, y)
    ensures Halves(lo ^ (y & 0xFF) as bv8, (y >> 8) as bv8, r)
  {}

  lemma JoinHalves(hi: bv8, lo: bv8, r: bv16)
    requires Halves(hi, lo, r)
    ensures JoinBytes(hi, lo) == SwapBytes(r)
  {}

  /** modbus.c, lines 371-386. */
  method Crc16(buffer: seq<bv8>) returns (crc: bv16)
    ensures crc == Crc16Of(buffer)
  {
    hide Feed, TableCrcHi, TableCrcLo, Halves, SwapBytes, Residue, JoinBytes;
    var crc_hi: bv8, crc_lo: bv8 := 0xFF, 0xFF;
    ghost var r: bv16 := 0xFFFF;
    InitialHalves();
    assert buffer[0..] == buffer;
    var n := 0;
    while n < |buffer|
      invariant 0 <= n <= |buffer|
      invariant Halves(crc_hi, crc_lo, r)
      invariant Residue(r, buffer[n..]) == Residue(0xFFFF, buffer)
    {
      var i := crc_hi ^ buffer[n];
      TableStep(crc_hi, crc_lo, buffer[n], r);
      ResidueStep(r, buffer, n);
      r := Feed(r, buffer[n]);
      crc_hi := crc_lo ^ TableCrcHi(i);
      crc_lo := TableCrcLo(i);
      n := n + 1;
    }
    assert buffer[n..] == [];
    ResidueOfNothing(r);
    JoinHalves(crc_hi, crc_lo, r);
    crc := JoinBytes(crc_hi, crc_lo);
  }

  lemma ResidueStep(r: bv16, m: seq<bv8>, n: nat)
    requires n < |m|
    ensures Residue(r, m[n..]) == Residue(Feed(r, m[n]), m[n + 1..])
  {
    hide Feed;
    assert m[n..][1..] == m[n + 1..];
  }

  lemma ResidueOfNothing(r: bv16)
    ensures Residue(r, []) == r
  {}

  lemma InitialHalves()
    ensures Halves(0xFF, 0xFF, 0xFFFF)
  {}
}
