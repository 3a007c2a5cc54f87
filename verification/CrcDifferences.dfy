/**
  * How a difference between two CRC-16 registers travels: bytes that both absorb only turn it, so it can be followed
  * without knowing either register.
  */
module CrcDifferences {
  import opened Common
  import opened Crc
  import opened CrcRegisters

  // ---------------------------------------------------------------- differences travel alone

  /** What `n` bytes make of a difference between two registers. */
  function Turns(x: bv16, n: nat): bv16
    decreases n
  {
    if n == 0 then x else Turns(Shifts16(x), n - 1)
  }

  lemma XorJoins(a: bv16, b: bv16, c: bv16)
    ensures Xor(Xor(a, b), c) == Xor(a, Xor(b, c))
  {
  }

  /** The sum of two sums, taken in pairs. */
  lemma XorPairs(a: bv16, p: bv16, b: bv16, q: bv16)
    ensures Xor(Xor(a, p), Xor(b, q)) == Xor(Xor(a, b), Xor(p, q))
  {
    hide Xor;
    XorJoins(Xor(a, p), b, q);
    XorRegroups(a, p, b);
    XorJoins(Xor(a, b), p, q);
  }

  lemma HalvesLinear(x: bv16, y: bv16)
    ensures Xor(Half(x), Half(y)) == Half(Xor(x, y))
  {
  }

  /** What the bit that leaves brings in. */
  function Feedback(x: bv16): bv16 {
    if x & 1 == 1 then 0x8408 else 0
  }

  lemma FeedbackLinear(x: bv16, y: bv16)
    ensures Xor(Feedback(x), Feedback(y)) == Feedback(Xor(x, y))
  {
  }

  lemma ShiftLinear(x: bv16, y: bv16)
    ensures Xor(Shift16(x), Shift16(y)) == Shift16(Xor(x, y))
  {
    hide Shift16, Xor, Half;
    ShiftIsHalf(x);
    ShiftIsHalf(y);
    ShiftIsHalf(Xor(x, y));
    XorPairs(Half(x), Feedback(x), Half(y), Feedback(y));
    HalvesLinear(x, y);
    FeedbackLinear(x, y);
  }

  lemma ShiftsLinear(x: bv16, y: bv16)
    ensures Xor(Shifts16(x), Shifts16(y)) == Shifts16(Xor(x, y))
  {
    hide Shift16, Xor;
    var x1 := Shift16(x); var x2 := Shift16(x1); var x3 := Shift16(x2); var x4 := Shift16(x3);
    var x5 := Shift16(x4); var x6 := Shift16(x5); var x7 := Shift16(x6);
    var y1 := Shift16(y); var y2 := Shift16(y1); var y3 := Shift16(y2); var y4 := Shift16(y3);
    var y5 := Shift16(y4); var y6 := Shift16(y5); var y7 := Shift16(y6);
    ShiftLinear(x, y);
    ShiftLinear(x1, y1);
    ShiftLinear(x2, y2);
    ShiftLinear(x3, y3);
    ShiftLinear(x4, y4);
    ShiftLinear(x5, y5);
    ShiftLinear(x6, y6);
    ShiftLinear(x7, y7);
  }

  function Wide(bits: bv8): bv16 {
    bits as bv16
  }

  lemma EnteredIsXor(x: bv16, bits: bv8)
    ensures Entered(x, bits) == Xor(x, Wide(bits))
  {
  }

  lemma WideLinear(bits: bv8, bits': bv8)
    ensures Xor(Wide(bits), Wide(bits')) == Wide(bits ^ bits')
  {
  }

  lemma XorNothing(x: bv16, bits: bv8)
    ensures Xor(x, Wide(bits ^ bits)) == x
  {
  }

  lemma StepDifference(x: bv16, y: bv16, a: byte, b: byte)
    ensures Xor(Step16(x, a), Step16(y, b)) == Shifts16(Xor(Xor(x, y), Wide(BitsOf(a) ^ BitsOf(b))))
  {
    hide BitsOf, Shifts16, Entered, Xor, Wide;
    EnteredIsXor(x, BitsOf(a));
    EnteredIsXor(y, BitsOf(b));
    ShiftsLinear(Entered(x, BitsOf(a)), Entered(y, BitsOf(b)));
    XorPairs(x, Wide(BitsOf(a)), y, Wide(BitsOf(b)));
    WideLinear(BitsOf(a), BitsOf(b));
  }

  /** The same bytes, absorbed by two registers, only turn their difference. */
  lemma {:induction false} DifferenceTurns(data: seq<byte>, x: bv16, y: bv16)
    ensures Xor(Crc16(data, x), Crc16(data, y)) == Turns(Xor(x, y), |data|)
    decreases |data|
  {
    hide Step16, Xor, BitsOf, Shifts16, Wide;
    if data != [] {
      var b := data[0];
      StepDifference(x, y, b, b);
      XorNothing(Xor(x, y), BitsOf(b));
      DifferenceTurns(data[1..], Step16(x, b), Step16(y, b));
    }
  }

  lemma {:induction false} TurnsMore(x: bv16, m: nat, n: nat)
    ensures Turns(x, m + n) == Turns(Turns(x, m), n)
    decreases m
  {
    hide Shifts16;
    if m > 0 {
      TurnsMore(Shifts16(x), m - 1, n);
    }
  }

  // ---------------------------------------------------------------- turning by numbers

  /** Eight shifts, two nibbles at a time, and the same backwards. */
  function Turned(x: bv16): bv16 {
    var low := x & 0xF;
    var half := (x >> 4) ^ low ^ (low << 7) ^ (low << 12);
    var next := half & 0xF;
    (half >> 4) ^ next ^ (next << 7) ^ (next << 12)
  }

  function Unturned(y: bv16): bv16 {
    var high := y >> 12;
    var half := ((y ^ high ^ (high << 7) ^ (high << 12)) << 4) | high;
    var next := half >> 12;
    ((half ^ next ^ (next << 7) ^ (next << 12)) << 4) | next
  }

  lemma TurnedIsShifts(x: bv16)
    ensures Turned(x) == Shifts16(x)
  {
    hide Shift16, Mix, HighByte, LowByte;
    FourShifts(x);
    FourShifts(Nibble(x));
  }

  lemma NibbleBack(x: bv16)
    ensures var y := Nibble(x); ((y ^ (y >> 12) ^ ((y >> 12) << 7) ^ ((y >> 12) << 12)) << 4) | (y >> 12) == x
  {
  }

  lemma TurnedBack(x: bv16)
    ensures Unturned(Turned(x)) == x
  {
    NibbleBack(x);
    NibbleBack(Nibble(x));
  }
}
