/**
  * The shift registers behind the two checksums, one byte at a time: the reflected CRC-16/MCRF4XX register that
  * MAVLink frames use and the polynomial 0xD5 register that CRSF frames use. What is proved here is about bits:
  * a table-free step is eight shifts, and no step ever maps two registers, or two bytes, to one.
  */
module CrcRegisters {
  import opened Common

  // ---------------------------------------------------------------- bytes as bit vectors

  function Pack(b0: bool, b1: bool, b2: bool, b3: bool, b4: bool, b5: bool, b6: bool, b7: bool): bv8 {
    (if b0 then 1 else 0) | (if b1 then 2 else 0) | (if b2 then 4 else 0) | (if b3 then 8 else 0) |
    (if b4 then 16 else 0) | (if b5 then 32 else 0) | (if b6 then 64 else 0) | (if b7 then 128 else 0)
  }

  function Weigh(b0: bool, b1: bool, b2: bool, b3: bool, b4: bool, b5: bool, b6: bool, b7: bool): byte {
    (if b0 then 1 else 0) + (if b1 then 2 else 0) + (if b2 then 4 else 0) + (if b3 then 8 else 0) +
    (if b4 then 16 else 0) + (if b5 then 32 else 0) + (if b6 then 64 else 0) + (if b7 then 128 else 0)
  }

  /** The bits of a byte, read by repeated halving. */
  function BitsOf(b: byte): bv8 {
    var h1 := b / 2; var h2 := h1 / 2; var h3 := h2 / 2; var h4 := h3 / 2;
    var h5 := h4 / 2; var h6 := h5 / 2; var h7 := h6 / 2;
    Pack(b % 2 == 1, h1 % 2 == 1, h2 % 2 == 1, h3 % 2 == 1, h4 % 2 == 1, h5 % 2 == 1, h6 % 2 == 1, h7 % 2 == 1)
  }

  function ValueOf(x: bv8): byte {
    Weigh(x & 1 != 0, x & 2 != 0, x & 4 != 0, x & 8 != 0, x & 16 != 0, x & 32 != 0, x & 64 != 0, x & 128 != 0)
  }

  lemma Halving(n: nat)
    ensures n == 2 * (n / 2) + if n % 2 == 1 then 1 else 0
  {
  }

  lemma PackedBits(b0: bool, b1: bool, b2: bool, b3: bool, b4: bool, b5: bool, b6: bool, b7: bool)
    ensures ValueOf(Pack(b0, b1, b2, b3, b4, b5, b6, b7)) == Weigh(b0, b1, b2, b3, b4, b5, b6, b7)
  {
  }

  /** Reading a byte as bits loses nothing. */
  lemma ValueOfBits(b: byte)
    ensures ValueOf(BitsOf(b)) == b
  {
    var h1 := b / 2; var h2 := h1 / 2; var h3 := h2 / 2; var h4 := h3 / 2;
    var h5 := h4 / 2; var h6 := h5 / 2; var h7 := h6 / 2;
    PackedBits(b % 2 == 1, h1 % 2 == 1, h2 % 2 == 1, h3 % 2 == 1, h4 % 2 == 1, h5 % 2 == 1, h6 % 2 == 1, h7 % 2 == 1);
    BinaryExpansion(b, h1, h2, h3, h4, h5, h6, h7);
  }

  lemma BinaryExpansion(b: byte, h1: nat, h2: nat, h3: nat, h4: nat, h5: nat, h6: nat, h7: nat)
    requires h1 == b / 2 && h2 == h1 / 2 && h3 == h2 / 2 && h4 == h3 / 2
    requires h5 == h4 / 2 && h6 == h5 / 2 && h7 == h6 / 2
    ensures b == Weigh(b % 2 == 1, h1 % 2 == 1, h2 % 2 == 1, h3 % 2 == 1,
                       h4 % 2 == 1, h5 % 2 == 1, h6 % 2 == 1, h7 % 2 == 1)
  {
    Halving(b); Halving(h1); Halving(h2); Halving(h3); Halving(h4); Halving(h5); Halving(h6);
    TopHalf(b, h1, h2, h3, h4, h5, h6, h7);
    Halving(h7);
    Regroup(b, h1, h2, h3, h4, h5, h6, h7, b % 2 == 1, h1 % 2 == 1, h2 % 2 == 1, h3 % 2 == 1,
            h4 % 2 == 1, h5 % 2 == 1, h6 % 2 == 1, h7 % 2 == 1);
  }

  lemma TopHalf(b: byte, h1: nat, h2: nat, h3: nat, h4: nat, h5: nat, h6: nat, h7: nat)
    requires b >= 2 * h1 && h1 >= 2 * h2 && h2 >= 2 * h3 && h3 >= 2 * h4
    requires h4 >= 2 * h5 && h5 >= 2 * h6 && h6 >= 2 * h7
    ensures h7 < 2
  {
  }

  lemma Regroup(b: nat, h1: nat, h2: nat, h3: nat, h4: nat, h5: nat, h6: nat, h7: nat,
                r0: bool, r1: bool, r2: bool, r3: bool, r4: bool, r5: bool, r6: bool, r7: bool)
    requires b == 2 * h1 + (if r0 then 1 else 0) && h1 == 2 * h2 + (if r1 then 1 else 0)
    requires h2 == 2 * h3 + (if r2 then 1 else 0) && h3 == 2 * h4 + (if r3 then 1 else 0)
    requires h4 == 2 * h5 + (if r4 then 1 else 0) && h5 == 2 * h6 + (if r5 then 1 else 0)
    requires h6 == 2 * h7 + (if r6 then 1 else 0) && h7 == if r7 then 1 else 0
    ensures b == Weigh(r0, r1, r2, r3, r4, r5, r6, r7)
  {
  }

  // ---------------------------------------------------------------- CRC-16/MCRF4XX

  /** One shift of the defining register: polynomial 0x8408 (0x1021 reflected). */
  function Shift16(crc: bv16): bv16 {
    (crc >> 1) ^ (if crc & 1 == 1 then 0x8408 else 0)
  }

  function Shifts16(crc: bv16): bv16 {
    Shift16(Shift16(Shift16(Shift16(Shift16(Shift16(Shift16(Shift16(crc))))))))
  }

  /** The bits of a byte enter the low end of the register. */
  function Entered(crc: bv16, bits: bv8): bv16 {
    crc ^ (bits as bv16)
  }

  /** The defining step: the byte enters and the register shifts eight times. */
  function Step16(crc: bv16, b: byte): bv16 {
    Shifts16(Entered(crc, BitsOf(b)))
  }

  function HighByte(x: bv16): bv16 {
    x >> 8
  }

  function LowByte(x: bv16): bv16 {
    x & 0xFF
  }

  function Mix(high: bv16, low: bv16): bv16 {
    var folded := (low ^ (low << 4)) & 0xFF;
    high ^ (folded << 8) ^ (folded << 3) ^ (folded >> 4)
  }

  /** One byte of the table-free form. */
  function FoldByte(crc: bv16, b: byte): bv16 {
    Mix(HighByte(crc), LowByte((BitsOf(b) as bv16) ^ LowByte(crc)))
  }

  /** Four shifts at once: the low nibble leaves three traces. */
  function Nibble(x: bv16): bv16 {
    var low := x & 0xF;
    (x >> 4) ^ low ^ (low << 7) ^ (low << 12)
  }

  /** Two shifts at once. */
  function Pair(x: bv16): bv16 {
    (x >> 2) ^ (if x & 1 == 1 then 0x4204 else 0) ^ (if x & 2 == 2 then 0x8408 else 0)
  }

  lemma TwoShifts(x: bv16)
    ensures Shift16(Shift16(x)) == Pair(x)
  {
  }

  lemma TwoPairs(x: bv16)
    ensures Pair(Pair(x)) == Nibble(x)
  {
  }

  lemma FourShifts(x: bv16)
    ensures Shift16(Shift16(Shift16(Shift16(x)))) == Nibble(x)
  {
    hide Shift16, Pair, Nibble;
    TwoShifts(x);
    TwoShifts(Pair(x));
    TwoPairs(x);
  }

  lemma TwoNibbles(x: bv16)
    ensures Nibble(Nibble(x)) == Mix(HighByte(x), LowByte(x))
  {
  }

  lemma MixShifts(x: bv16)
    ensures Mix(HighByte(x), LowByte(x)) == Shifts16(x)
  {
    hide Shift16, Mix, Nibble, HighByte, LowByte;
    FourShifts(x);
    FourShifts(Nibble(x));
    TwoNibbles(x);
  }

  lemma HalvesOfXor(crc: bv16, bits: bv8)
    ensures HighByte(crc) == HighByte(Entered(crc, bits))
    ensures LowByte((bits as bv16) ^ LowByte(crc)) == LowByte(Entered(crc, bits))
  {
  }

  /** The table-free step is eight shifts of the defining register, for every register and byte. */
  lemma FoldByteRefines(crc: bv16, b: byte)
    ensures FoldByte(crc, b) == Step16(crc, b)
  {
    hide BitsOf, Mix, Shifts16, Entered, HighByte, LowByte;
    HalvesOfXor(crc, BitsOf(b));
    MixShifts(Entered(crc, BitsOf(b)));
  }

  lemma TwoShiftsInjective(x: bv16, y: bv16)
    requires Shift16(Shift16(x)) == Shift16(Shift16(y))
    ensures x == y
  {
  }

  lemma Shifts16Injective(x: bv16, y: bv16)
    requires Shifts16(x) == Shifts16(y)
    ensures x == y
  {
    hide Shift16;
    var x1, y1 := Shift16(Shift16(x)), Shift16(Shift16(y));
    var x2, y2 := Shift16(Shift16(x1)), Shift16(Shift16(y1));
    var x3, y3 := Shift16(Shift16(x2)), Shift16(Shift16(y2));
    TwoShiftsInjective(x3, y3);
    TwoShiftsInjective(x2, y2);
    TwoShiftsInjective(x1, y1);
    TwoShiftsInjective(x, y);
  }

  lemma EnteredInjective(x: bv16, y: bv16, bits: bv8)
    requires Entered(x, bits) == Entered(y, bits)
    ensures x == y
  {
  }

  lemma Step16Injective(x: bv16, y: bv16, b: byte)
    requires Step16(x, b) == Step16(y, b)
    ensures x == y
  {
    hide BitsOf, Shifts16, Entered;
    Shifts16Injective(Entered(x, BitsOf(b)), Entered(y, BitsOf(b)));
    EnteredInjective(x, y, BitsOf(b));
  }

  // ---------------------------------------------------------------- two bytes at once

  function Xor(x: bv16, y: bv16): bv16 {
    x ^ y
  }

  function Half(x: bv16): bv16 {
    x >> 1
  }

  /** A register bit that leaves as zero only moves down. */
  lemma ShiftDescends(x: bv16, high: bv16)
    requires high & 1 == 0
    ensures Shift16(Xor(x, high)) == Xor(Shift16(x), Half(high))
  {
    hide Xor, Half;
    HalfOfXor(x, high);
    ShiftIsHalf(x);
    ShiftIsHalf(Xor(x, high));
    XorRegroups(Half(x), Half(high), if x & 1 == 1 then 0x8408 else 0);
  }

  lemma HalfOfXor(x: bv16, high: bv16)
    requires high & 1 == 0
    ensures Half(Xor(x, high)) == Xor(Half(x), Half(high)) && Xor(x, high) & 1 == x & 1
  {
  }

  lemma ShiftIsHalf(x: bv16)
    ensures Shift16(x) == Xor(Half(x), if x & 1 == 1 then 0x8408 else 0)
  {
  }

  lemma XorRegroups(a: bv16, b: bv16, c: bv16)
    ensures Xor(Xor(a, b), c) == Xor(Xor(a, c), b)
  {
  }

  /** The high byte comes down through eight even halves. */
  lemma HighByteHalves(high: bv16, h1: bv16, h2: bv16, h3: bv16, h4: bv16, h5: bv16, h6: bv16, h7: bv16)
    requires high & 0xFF == 0 && h1 == Half(high) && h2 == Half(h1) && h3 == Half(h2) && h4 == Half(h3)
    requires h5 == Half(h4) && h6 == Half(h5) && h7 == Half(h6)
    ensures high & 1 == 0 && h1 & 1 == 0 && h2 & 1 == 0 && h3 & 1 == 0
    ensures h4 & 1 == 0 && h5 & 1 == 0 && h6 & 1 == 0 && h7 & 1 == 0
    ensures Half(h7) == HighByte(high)
  {
  }

  lemma HighByteDescends(x: bv16, high: bv16)
    requires high & 0xFF == 0
    ensures Shifts16(Xor(x, high)) == Xor(Shifts16(x), HighByte(high))
  {
    hide Shift16, Xor, Half, HighByte;
    var h1 := Half(high); var h2 := Half(h1); var h3 := Half(h2); var h4 := Half(h3);
    var h5 := Half(h4); var h6 := Half(h5); var h7 := Half(h6);
    HighByteHalves(high, h1, h2, h3, h4, h5, h6, h7);
    var x1 := Shift16(x); var x2 := Shift16(x1); var x3 := Shift16(x2); var x4 := Shift16(x3);
    var x5 := Shift16(x4); var x6 := Shift16(x5); var x7 := Shift16(x6);
    ShiftDescends(x, high);
    ShiftDescends(x1, h1);
    ShiftDescends(x2, h2);
    ShiftDescends(x3, h3);
    ShiftDescends(x4, h4);
    ShiftDescends(x5, h5);
    ShiftDescends(x6, h6);
    ShiftDescends(x7, h7);
  }

  function Joined(first: bv8, second: bv8): bv16 {
    (first as bv16) | ((second as bv16) << 8)
  }

  /** A byte in the high half. */
  function Raised(second: bv8): bv16 {
    (second as bv16) << 8
  }

  lemma JoinedXor(crc: bv16, first: bv8, second: bv8)
    ensures Xor(crc, Joined(first, second)) == Xor(Entered(crc, first), Raised(second))
    ensures Raised(second) & 0xFF == 0
  {
  }

  lemma RaisedEnters(x: bv16, second: bv8)
    ensures Xor(x, HighByte(Raised(second))) == Entered(x, second)
  {
  }

  lemma JoinedInjective(first: bv8, second: bv8, first': bv8, second': bv8)
    requires Joined(first, second) == Joined(first', second')
    ensures first == first' && second == second'
  {
  }

  lemma XorCancels(crc: bv16, x: bv16, y: bv16)
    requires Xor(crc, x) == Xor(crc, y)
    ensures x == y
  {
  }

  /** Absorbing two bytes is one absorption of both, the second in the high half. */
  lemma TwoBytesAtOnce(crc: bv16, first: byte, second: byte)
    ensures Step16(Step16(crc, first), second)
         == Shifts16(Shifts16(Xor(crc, Joined(BitsOf(first), BitsOf(second)))))
  {
    hide BitsOf, Shifts16, Joined, Xor, Entered, Raised, HighByte;
    var bits, raised := BitsOf(first), Raised(BitsOf(second));
    JoinedXor(crc, bits, BitsOf(second));
    HighByteDescends(Entered(crc, bits), raised);
    RaisedEnters(Shifts16(Entered(crc, bits)), BitsOf(second));
  }

  lemma TwoBytesInjective(crc: bv16, a: byte, b: byte, a': byte, b': byte)
    requires Step16(Step16(crc, a), b) == Step16(Step16(crc, a'), b')
    ensures a == a' && b == b'
  {
    hide BitsOf, Shifts16, Joined, Xor, Step16, ValueOf;
    TwoBytesAtOnce(crc, a, b);
    TwoBytesAtOnce(crc, a', b');
    var x, y := Joined(BitsOf(a), BitsOf(b)), Joined(BitsOf(a'), BitsOf(b'));
    Shifts16Injective(Shifts16(Xor(crc, x)), Shifts16(Xor(crc, y)));
    Shifts16Injective(Xor(crc, x), Xor(crc, y));
    XorCancels(crc, x, y);
    JoinedInjective(BitsOf(a), BitsOf(b), BitsOf(a'), BitsOf(b'));
    ValueOfBits(a);
    ValueOfBits(b);
    ValueOfBits(a');
    ValueOfBits(b');
  }

  // ---------------------------------------------------------------- CRC-16 as the number a frame carries

  function WordOf(crc: bv16): nat {
    Word16(ValueOf((crc & 0xFF) as bv8), ValueOf((crc >> 8) as bv8))
  }

  lemma WeighInjective(a0: bool, a1: bool, a2: bool, a3: bool, a4: bool, a5: bool, a6: bool, a7: bool,
                       b0: bool, b1: bool, b2: bool, b3: bool, b4: bool, b5: bool, b6: bool, b7: bool)
    requires Weigh(a0, a1, a2, a3, a4, a5, a6, a7) == Weigh(b0, b1, b2, b3, b4, b5, b6, b7)
    ensures a0 == b0 && a1 == b1 && a2 == b2 && a3 == b3 && a4 == b4 && a5 == b5 && a6 == b6 && a7 == b7
  {
  }

  lemma BitsDetermine(x: bv8, y: bv8)
    requires (x & 1 != 0) == (y & 1 != 0) && (x & 2 != 0) == (y & 2 != 0) && (x & 4 != 0) == (y & 4 != 0)
    requires (x & 8 != 0) == (y & 8 != 0) && (x & 16 != 0) == (y & 16 != 0) && (x & 32 != 0) == (y & 32 != 0)
    requires (x & 64 != 0) == (y & 64 != 0) && (x & 128 != 0) == (y & 128 != 0)
    ensures x == y
  {
  }

  lemma ValueInjective(x: bv8, y: bv8)
    requires ValueOf(x) == ValueOf(y)
    ensures x == y
  {
    WeighInjective(x & 1 != 0, x & 2 != 0, x & 4 != 0, x & 8 != 0, x & 16 != 0, x & 32 != 0, x & 64 != 0, x & 128 != 0,
                   y & 1 != 0, y & 2 != 0, y & 4 != 0, y & 8 != 0, y & 16 != 0, y & 32 != 0, y & 64 != 0, y & 128 != 0);
    BitsDetermine(x, y);
  }

  lemma HalvesDetermine(x: bv16, y: bv16)
    requires (x & 0xFF) as bv8 == (y & 0xFF) as bv8 && (x >> 8) as bv8 == (y >> 8) as bv8
    ensures x == y
  {
  }

  /** A frame's two CRC bytes determine the register. */
  lemma WordOfInjective(x: bv16, y: bv16)
    requires WordOf(x) == WordOf(y)
    ensures x == y
  {
    hide ValueOf;
    ValueInjective((x & 0xFF) as bv8, (y & 0xFF) as bv8);
    ValueInjective((x >> 8) as bv8, (y >> 8) as bv8);
    HalvesDetermine(x, y);
  }

  // ---------------------------------------------------------------- CRC-8, polynomial 0xD5

  /** One shift of the defining register; the eight-bit width is the source's mask. */
  function Shift8(value: bv8): bv8 {
    (value << 1) ^ (if value & 0x80 != 0 then 0xD5 else 0)
  }

  function Shifts8(value: bv8, n: nat): bv8
    decreases n
  {
    if n == 0 then value else Shifts8(Shift8(value), n - 1)
  }

  function Step8(value: bv8, b: byte): bv8 {
    Shifts8(value ^ BitsOf(b), 8)
  }

  lemma Shift8Injective(x: bv8, y: bv8)
    requires Shift8(x) == Shift8(y)
    ensures x == y
  {
  }

  lemma {:induction false} Shifts8Injective(x: bv8, y: bv8, n: nat)
    requires Shifts8(x, n) == Shifts8(y, n)
    ensures x == y
    decreases n
  {
    if n > 0 {
      Shifts8Injective(Shift8(x), Shift8(y), n - 1);
      Shift8Injective(x, y);
    }
  }

  lemma XorCancels8(x: bv8, y: bv8, bits: bv8, bits': bv8)
    requires x ^ bits == y ^ bits'
    ensures bits == bits' ==> x == y
    ensures x == y ==> bits == bits'
  {
  }

  lemma Step8Injective(p: bv8, a: byte, q: bv8, b: byte)
    requires Step8(p, a) == Step8(q, b)
    ensures a == b ==> p == q
    ensures p == q ==> a == b
  {
    hide BitsOf, Shifts8, ValueOf;
    AbsorbBits8Injective(p, q, BitsOf(a), BitsOf(b));
    ValueOfBits(a);
    ValueOfBits(b);
  }

  lemma AbsorbBits8Injective(p: bv8, q: bv8, bits: bv8, bits': bv8)
    requires Shifts8(p ^ bits, 8) == Shifts8(q ^ bits', 8)
    ensures bits == bits' ==> p == q
    ensures p == q ==> bits == bits'
  {
    hide Shifts8;
    Shifts8Injective(p ^ bits, q ^ bits', 8);
    XorCancels8(p, q, bits, bits');
  }
}
