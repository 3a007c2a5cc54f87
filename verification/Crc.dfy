/**
  * The two checksums of the saved-frame converters: the table-free CRC-16/MCRF4XX that MAVLink frames
  * carry and the CRC-8 (polynomial 0xD5) that CRSF frames carry. Each loop is proved equal to the
  * bit-at-a-time shift register that defines the code, and the error-detection claims are proved of
  * that register.
  */
module Crc {
  import opened Common
  import opened CrcRegisters

  // ---------------------------------------------------------------- registers that absorb bytes

  /** A register that absorbs a byte string from the left, one `step` a byte. */
  function Absorb<R>(step: (R, byte) -> R, data: seq<byte>, register: R): R
    decreases |data|
  {
    if data == [] then register else Absorb(step, data[1..], step(register, data[0]))
  }

  /** Absorbing two parts in turn is absorbing their concatenation. */
  lemma {:induction false} AbsorbComposes<R>(step: (R, byte) -> R, a: seq<byte>, b: seq<byte>, register: R)
    ensures Absorb(step, a + b, register) == Absorb(step, b, Absorb(step, a, register))
    decreases |a|
  {
    if a == [] {
      assert a + b == b;
    } else {
      assert (a + b)[1..] == a[1..] + b;
      AbsorbComposes(step, a[1..], b, step(register, a[0]));
    }
  }

  ghost predicate KeepsApart<R(!new)>(step: (R, byte) -> R) {
    forall x, y, b :: x != y ==> step(x, b) != step(y, b)
  }

  lemma {:induction false} AbsorbKeepsApart<R(!new)>(step: (R, byte) -> R, data: seq<byte>, x: R, y: R)
    requires KeepsApart(step) && x != y
    ensures Absorb(step, data, x) != Absorb(step, data, y)
    decreases |data|
  {
    if data != [] {
      AbsorbKeepsApart(step, data[1..], step(x, data[0]), step(y, data[0]));
    }
  }

  /** If the middle parts lead to different registers, so do the whole strings. */
  lemma DifferenceSurvives<R(!new)>(step: (R, byte) -> R, before: seq<byte>, x: seq<byte>, y: seq<byte>,
                                    after: seq<byte>, register: R)
    requires KeepsApart(step)
    requires Absorb(step, x, Absorb(step, before, register)) != Absorb(step, y, Absorb(step, before, register))
    ensures Absorb(step, before + x + after, register) != Absorb(step, before + y + after, register)
  {
    AbsorbComposes(step, before, x, register);
    AbsorbComposes(step, before, y, register);
    AbsorbComposes(step, before + x, after, register);
    AbsorbComposes(step, before + y, after, register);
    AbsorbKeepsApart(step, after, Absorb(step, before + x, register), Absorb(step, before + y, register));
  }

  // ---------------------------------------------------------------- CRC-16/MCRF4XX

  function Crc16(data: seq<byte>, crc: bv16): bv16 {
    Absorb(Step16, data, crc)
  }

  /** The accumulator loop of the MAVLink frame CRC computes the defining code on every byte string. */
  method CrcX25(data: seq<byte>, start: bv16) returns (crc: bv16)
    ensures crc == Crc16(data, start)
  {
    crc := start;
    for i := 0 to |data|
      invariant Crc16(data, start) == Crc16(data[i..], crc)
    {
      FoldByteRefines(crc, data[i]);
      assert data[i..][1..] == data[i + 1..];
      crc := FoldByte(crc, data[i]);
    }
  }

  lemma Step16KeepsApart()
    ensures KeepsApart(Step16)
  {
    forall x, y, b | Step16(x, b) == Step16(y, b)
      ensures x == y
    {
      Step16Injective(x, y, b);
    }
  }

  /** Equal-length byte strings that differ in one byte, or in two adjacent bytes, never share a CRC. */
  lemma BurstDetected(before: seq<byte>, x: seq<byte>, y: seq<byte>, after: seq<byte>, crc: bv16)
    requires |x| == |y| <= 2 && x != y
    ensures Crc16(before + x + after, crc) != Crc16(before + y + after, crc)
  {
    var c := Crc16(before, crc);
    Step16KeepsApart();
    if |x| == 1 {
      if Step16(c, x[0]) == Step16(c, y[0]) {
        TwoBytesInjective(c, x[0], 0, y[0], 0);
      }
    } else if Step16(Step16(c, x[0]), x[1]) == Step16(Step16(c, y[0]), y[1]) {
      TwoBytesInjective(c, x[0], x[1], y[0], y[1]);
    }
    AbsorbsUpToTwo(x, c);
    AbsorbsUpToTwo(y, c);
    DifferenceSurvives(Step16, before, x, y, after, crc);
  }

  lemma AbsorbsUpToTwo(x: seq<byte>, c: bv16)
    requires 1 <= |x| <= 2
    ensures Crc16(x, c) == if |x| == 1 then Step16(c, x[0]) else Step16(Step16(c, x[0]), x[1])
  {
    hide Step16;
    var one := Step16(c, x[0]);
    assert Crc16(x, c) == Absorb(Step16, x[1..], one);
    if |x| == 2 {
      assert x[1..][1..] == [];
      assert Absorb(Step16, x[1..], one) == Absorb(Step16, [], Step16(one, x[1]));
    }
  }

  // ---------------------------------------------------------------- CRC_EXTRA

  datatype WireField = WireField(kind: seq<byte>, name: seq<byte>, count: byte)

  /** The published derivation: message name, then each wire-ordered field, arrays add their length. */
  function ExtraRegister(fields: seq<WireField>, crc: bv16): bv16
    decreases |fields|
  {
    if fields == [] then crc
    else
      var f := fields[0];
      var named := Crc16(f.name + [32], Crc16(f.kind + [32], crc));
      ExtraRegister(fields[1..], if f.count != 0 then Crc16([f.count], named) else named)
  }

  function ExtraOf(name: seq<byte>, fields: seq<WireField>): byte {
    var crc := ExtraRegister(fields, Crc16(name + [32], 0xFFFF));
    ValueOf((((crc & 0xFF) ^ (crc >> 8)) & 0xFF) as bv8)
  }

  /** A message declaration written out as one byte string. */
  function Declaration(fields: seq<WireField>): seq<byte>
    decreases |fields|
  {
    if fields == [] then []
    else
      var f := fields[0];
      (f.kind + [32] + (f.name + [32])) + (if f.count != 0 then [f.count] else []) + Declaration(fields[1..])
  }

  /** The field-by-field derivation is one run of the code over the whole declaration. */
  lemma {:induction false} ExtraIsCrcOfDeclaration(fields: seq<WireField>, crc: bv16)
    ensures ExtraRegister(fields, crc) == Crc16(Declaration(fields), crc)
    decreases |fields|
  {
    hide Step16;
    if fields != [] {
      var f := fields[0];
      var tail := if f.count != 0 then [f.count] else [];
      var words := f.kind + [32] + (f.name + [32]);
      AbsorbComposes(Step16, f.kind + [32], f.name + [32], crc);
      AbsorbComposes(Step16, words, tail, crc);
      AbsorbComposes(Step16, words + tail, Declaration(fields[1..]), crc);
      ExtraIsCrcOfDeclaration(fields[1..], Crc16(words + tail, crc));
    }
  }

  // ---------------------------------------------------------------- CRC-8, polynomial 0xD5

  function Crc8(data: seq<byte>): byte {
    ValueOf(Absorb(Step8, data, 0))
  }

  /** The nested loops of the CRSF checksum compute the defining register on every byte string. */
  method ComputeCrc8(data: seq<byte>) returns (value: bv8)
    ensures ValueOf(value) == Crc8(data)
  {
    hide BitsOf, ValueOf;
    value := 0;
    for i := 0 to |data|
      invariant Absorb(Step8, data, 0) == Absorb(Step8, data[i..], value)
    {
      assert data[i..][1..] == data[i + 1..];
      ghost var absorbed := value ^ BitsOf(data[i]);
      value := value ^ BitsOf(data[i]);
      for n := 0 to 8
        invariant Shifts8(absorbed, 8) == Shifts8(value, 8 - n)
      {
        value := (value << 1) ^ (if value & 0x80 != 0 then 0xD5 else 0);
      }
    }
  }

  lemma AbsorbsOne(c: bv8, b: byte)
    ensures Absorb(Step8, [b], c) == Step8(c, b)
  {
    hide Step8;
    assert [b][1..] == [];
    assert Absorb(Step8, [b], c) == Absorb(Step8, [b][1..], Step8(c, [b][0]));
  }

  /** Equal-length byte strings that differ in one byte never share a CRC-8. */
  lemma ByteErrorDetected(before: seq<byte>, x: byte, y: byte, after: seq<byte>)
    requires x != y
    ensures Crc8(before + [x] + after) != Crc8(before + [y] + after)
  {
    hide Step8, ValueOf;
    var c := Absorb(Step8, before, 0);
    if Step8(c, x) == Step8(c, y) {
      Step8Injective(c, x, c, y);
    }
    forall p, q, b | Step8(p, b) == Step8(q, b)
      ensures p == q
    {
      Step8Injective(p, b, q, b);
    }
    AbsorbsOne(c, x);
    AbsorbsOne(c, y);
    DifferenceSurvives(Step8, before, [x], [y], after, 0);
    if Crc8(before + [x] + after) == Crc8(before + [y] + after) {
      ValueInjective(Absorb(Step8, before + [x] + after, 0), Absorb(Step8, before + [y] + after, 0));
    }
  }
}
