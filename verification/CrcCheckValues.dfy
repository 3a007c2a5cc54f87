/** The CRCs against what their standards publish: the check values of the text "123456789". */
module CrcCheckValues {
  import opened Common
  import opened Crc
  import opened CrcRegisters
  import opened LoggingCrc
  import Assembler

  const NINE: seq<byte> := [49, 50, 51, 52, 53, 54, 55, 56, 57]

  lemma NineBits()
    ensures ValueOf(0x31) == 49 && ValueOf(0x32) == 50 && ValueOf(0x33) == 51 && ValueOf(0x34) == 52
    ensures ValueOf(0x35) == 53 && ValueOf(0x36) == 54 && ValueOf(0x37) == 55 && ValueOf(0x38) == 56
    ensures ValueOf(0x39) == 57
  {
  }

  /** CRC-16/MCRF4XX publishes 0x6F91. */
  lemma Crc16Check()
    ensures Crc16(NINE, 0xFFFF) == 0x6F91
  {
    hide Stands, Crc16, Absorb, Step16, Shifts16, BitsOf, Entered, ValueOf;
    NineBits();
    Unspelled(NINE, 0xFFFF);
    Spell(NINE, 0xFFFF, 0, 0xFFFF, 0x31, 0x2F8D, 0x32, 0x4D53, 0x33, 0x634B, 0x34, 0x8B13);
    Spell(NINE, 0xFFFF, 4, 0x8B13, 0x35, 0x44BF, 0x36, 0x198D, 0x37, 0x1AC8, 0x38, 0xF795);
    Letter(NINE, 0xFFFF, 8, 0xF795, 0x39, 0x6F91);
    Spelled(NINE, 0xFFFF, 0x6F91);
  }

  /** The register is compared as the number it is written as. */
  lemma WordCheck()
    ensures WordOf(0x6F91) == 0x6F91
  {
  }

  // ---------------------------------------------------------------- CRC-8

  /** A register that takes a byte with these bits. */
  predicate Takes8(a: bv8, bits: bv8, b: bv8) {
    var x := a ^ bits;
    Shift8(Shift8(Shift8(Shift8(Shift8(Shift8(Shift8(Shift8(x)))))))) == b
  }

  lemma EightShifts(x: bv8)
    ensures Shifts8(x, 8) == Shift8(Shift8(Shift8(Shift8(Shift8(Shift8(Shift8(Shift8(x))))))))
  {
    hide Shift8;
  }

  lemma Letter8(data: seq<byte>, a: bv8, bits: bv8, b: bv8)
    requires data != [] && data[0] == ValueOf(bits) && Takes8(a, bits, b)
    ensures Absorb(Step8, data, a) == Absorb(Step8, data[1..], b)
  {
    hide ValueOf, BitsOf, Shift8;
    ValueOfBits(data[0]);
    if BitsOf(data[0]) != bits {
      ValueInjective(BitsOf(data[0]), bits);
    }
    EightShifts(a ^ bits);
  }

  lemma Next8(k: nat, a: bv8, bits: bv8, b: bv8)
    requires k < 9 && NINE[k] == ValueOf(bits) && Takes8(a, bits, b)
    ensures Absorb(Step8, NINE[k..], a) == Absorb(Step8, NINE[k + 1..], b)
  {
    hide ValueOf, Absorb, Takes8;
    Letter8(NINE[k..], a, bits, b);
    assert NINE[k..][1..] == NINE[k + 1..];
  }

  /** CRC-8/DVB-S2 publishes 0xBC. */
  lemma Crc8Check()
    ensures Crc8(NINE) == 0xBC
  {
    hide Absorb, ValueOf, BitsOf;
    NineBits();
    Next8(0, 0x00, 0x31, 0x23);
    Next8(1, 0x23, 0x32, 0x87);
    Next8(2, 0x87, 0x33, 0xE7);
    Next8(3, 0xE7, 0x34, 0x8A);
    Next8(4, 0x8A, 0x35, 0x64);
    Next8(5, 0x64, 0x36, 0xB0);
    Next8(6, 0xB0, 0x37, 0xBB);
    Next8(7, 0xBB, 0x38, 0x45);
    Next8(8, 0x45, 0x39, 0xBC);
    assert NINE[0..] == NINE && NINE[9..] == [];
    NothingLeft8(0xBC);
  }

  lemma NothingLeft8(register: bv8)
    ensures Absorb(Step8, [], register) == register
    ensures ValueOf(0xBC) == 0xBC
  {
  }

  // ---------------------------------------------------------------- what a logging frame carries

  /** A logging frame's CRC is that of its covered bytes followed by the message's published extra byte. */
  lemma FrameCrcCovers(input: seq<byte>)
    ensures Assembler.FrameCrc(Assembler.LOGGING_DATA, input) == WordOf(Crc16(input + [193], 0xFFFF))
    ensures Assembler.FrameCrc(Assembler.LOGGING_DATA_ACKED, input) == WordOf(Crc16(input + [35], 0xFFFF))
  {
    hide Step16, Assembler.LoggingCrcExtra, WordOf;
    PublishedExtra();
    AbsorbComposes(Step16, input, [193], 0xFFFF);
    AbsorbComposes(Step16, input, [35], 0xFFFF);
  }
}
