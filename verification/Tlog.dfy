/**
  * Framing of a saved TLOG: an eight-byte big-endian recorder word, then one MAVLink1 or MAVLink2 frame.
  * `RecordAt` reads one record as the converter does. `Frame` is the complete content of a record, and
  * `Encode` writes it; together they say which byte strings are saved captures at all.
  */
module Tlog {
  import opened Common

  const MAX_INPUT_BYTES := 64 * 1024 * 1024
  const MAX_RECORDS := 2_000_000
  const MAX_FRAME_BYTES := 10 + 255 + 2 + 13
  const MAVLINK1_STX: byte := 0xFE
  const MAVLINK2_STX: byte := 0xFD

  /** The fixed refusal codes of a capture that cannot be reconstructed. */
  datatype Refusal =
    | InputTooLarge | TooManyRecords | TruncatedRecord | TruncatedFrame | UnsupportedIncompatFlag
    | UnexpectedFrameStart | FrameExceedsInput | CrcMismatch | InvalidLength | InvalidFirstMessageOffset
    | NoUlogHeader | TruncatedUlogMessage | AmbiguousLoggingSources | TooManyFragments
    | CaptureStartsMidMessage | DuplicateConflict | SequenceGap | SequenceOutOfOrder | UlogTooLarge
    | NoLoggingFragments | SourceNotPresent

  datatype Record = Record(tlogOffset: nat, timestampWord: nat, version: nat, mavlinkSequence: byte,
                           sysid: byte, compid: byte, msgid: nat, signed: bool, payload: seq<byte>,
                           crc: nat, crcInput: seq<byte>, frameBytes: nat)

  /** Read the record at the start of `rest`, the unread part of the capture. */
  function RecordAt(rest: seq<byte>, offset: nat): Result<Record, Refusal> {
    if |rest| < 8 + 6 then Err(TruncatedRecord)
    else
      var word := BigEndian(rest[..8]);
      if rest[8] == MAVLINK2_STX then
        if |rest| - 8 < 10 then Err(TruncatedFrame)
        else if rest[10] / 2 != 0 then Err(UnsupportedIncompatFlag)
        else
          var signed := rest[10] % 2 == 1;
          var msgid := Word24(rest[15], rest[16], rest[17]);
          RecordWith(rest, offset, word, 2, rest[12], rest[13], rest[14], msgid, signed, 10, rest[9])
      else if rest[8] == MAVLINK1_STX then
        RecordWith(rest, offset, word, 1, rest[10], rest[11], rest[12], rest[13], false, 6, rest[9])
      else Err(UnexpectedFrameStart)
  }

  function RecordWith(rest: seq<byte>, offset: nat, word: nat, version: nat, sequence: byte, sysid: byte,
                      compid: byte, msgid: nat, signed: bool, headerLen: nat, payloadLen: byte)
    : Result<Record, Refusal>
    requires |rest| >= 8 + headerLen && headerLen > 0
  {
    var frameBytes: nat := headerLen + payloadLen + 2 + (if signed then 13 else 0);
    if |rest| - 8 < frameBytes then Err(FrameExceedsInput)
    else
      var payloadAt := 8 + headerLen;
      var crcAt := payloadAt + payloadLen;
      Ok(Record(offset, word, version, sequence, sysid, compid, msgid, signed, rest[payloadAt..crcAt],
                Word16(rest[crcAt], rest[crcAt + 1]), rest[9..crcAt], frameBytes))
  }

  // ---------------------------------------------------------------- the encoder

  /** Everything one saved record holds. A MAVLink2 frame is signed when it carries a signature. */
  datatype Frame =
    | Frame1(stamp: seq<byte>, sequence: byte, sysid: byte, compid: byte, msgid: nat, payload: seq<byte>,
             crc: nat)
    | Frame2(stamp: seq<byte>, compat: byte, sequence: byte, sysid: byte, compid: byte, msgid: nat,
             payload: seq<byte>, crc: nat, signature: seq<byte>)
  {
    predicate Valid() {
      && |stamp| == 8 && |payload| < 256 && crc < 65536
      && (Frame1? ==> msgid < 256)
      && (Frame2? ==> msgid < 0x100_0000 && (|signature| == 0 || |signature| == 13))
    }

    /** The header after the start byte. */
    function Header(): (h: seq<byte>)
      requires Valid()
      ensures |h| == if Frame1? then 5 else 9
    {
      match this
      case Frame1(_, q, s, c, m, p, _) => [|p|, q, s, c, m]
      case Frame2(_, k, q, s, c, m, p, _, sig) =>
        [|p|, if sig == [] then 0 else 1, k, q, s, c, m % 256, m / 256 % 256, m / 65536]
    }

    function Tail(): seq<byte> {
      if Frame1? then [] else signature
    }

    /** The bytes the frame's CRC covers, before the message's CRC_EXTRA. */
    function CrcInput(): seq<byte>
      requires Valid()
    {
      Header() + payload
    }

    function Encode(): (bytes: seq<byte>)
      requires Valid()
      ensures |bytes| >= 16
    {
      stamp + [if Frame1? then MAVLINK1_STX else MAVLINK2_STX] + CrcInput() + [crc % 256, crc / 256] + Tail()
    }

    /** What the reader reports of this frame. */
    function AsRecord(offset: nat): Record
      requires Valid()
    {
      Record(offset, BigEndian(stamp), if Frame1? then 1 else 2, sequence, sysid, compid, msgid,
             Frame2? && signature != [], payload, crc, CrcInput(), |Encode()| - 8)
    }
  }

  ghost predicate AllValid(frames: seq<Frame>) {
    forall i | 0 <= i < |frames| :: frames[i].Valid()
  }

  function EncodeAll(frames: seq<Frame>): seq<byte>
    requires AllValid(frames)
    decreases |frames|
  {
    if frames == [] then [] else frames[0].Encode() + EncodeAll(frames[1..])
  }

  lemma {:induction false} EncodeAllAppend(a: seq<Frame>, b: seq<Frame>)
    requires AllValid(a) && AllValid(b)
    ensures AllValid(a + b) && EncodeAll(a + b) == EncodeAll(a) + EncodeAll(b)
    decreases |a|
  {
    hide Frame.Encode, Frame.Valid;
    if a == [] {
      assert a + b == b;
    } else {
      assert (a + b)[1..] == a[1..] + b;
      EncodeAllAppend(a[1..], b);
    }
  }

  /** Where the parts of a written frame lie. */
  lemma EncodedParts(f: Frame, after: seq<byte>, rest: seq<byte>, payloadAt: nat, crcAt: nat)
    requires f.Valid() && rest == f.Encode() + after
    requires payloadAt == 9 + |f.Header()| && crcAt == payloadAt + |f.payload|
    ensures crcAt + 2 + |f.Tail()| == |f.Encode()| <= |rest|
    ensures rest[..8] == f.stamp && rest[8] == (if f.Frame1? then MAVLINK1_STX else MAVLINK2_STX)
    ensures rest[9..payloadAt] == f.Header()
    ensures rest[payloadAt..crcAt] == f.payload && rest[9..crcAt] == f.CrcInput()
    ensures Word16(rest[crcAt], rest[crcAt + 1]) == f.crc
  {
    assert rest[crcAt] == f.crc % 256 && rest[crcAt + 1] == f.crc / 256;
    assert rest[9..crcAt] == f.CrcInput();
    assert rest[9..payloadAt] == rest[9..crcAt][..|f.Header()|];
    assert rest[payloadAt..crcAt] == rest[9..crcAt][|f.Header()|..];
  }

  /** A recorded time as its recorder writes it: `width` bytes, the most significant one first. */
  function Stamp(time: nat, width: nat): (s: seq<byte>)
    ensures |s| == width
  {
    if width == 0 then [] else Stamp(time / 256, width - 1) + [time % 256]
  }

  /** How many values that many bytes can hold. */
  function Values(width: nat): nat {
    if width == 0 then 1 else 256 * Values(width - 1)
  }

  /** The word kept of a record is the time it was stamped with. */
  lemma {:induction false} StampRead(time: nat, width: nat)
    requires time < Values(width)
    ensures BigEndian(Stamp(time, width)) == time
  {
    if width > 0 {
      assert Stamp(time, width)[..width - 1] == Stamp(time / 256, width - 1);
      StampRead(time / 256, width - 1);
    }
  }

  /** Reading undoes writing: a written frame, whatever follows it, is read back exactly. */
  lemma RecordAtEncoded(f: Frame, after: seq<byte>, offset: nat)
    requires f.Valid()
    ensures RecordAt(f.Encode() + after, offset) == Ok(f.AsRecord(offset))
  {
    if f.Frame1? {
      Record1AtEncoded(f, after, offset);
    } else {
      Record2AtEncoded(f, after, offset);
    }
  }

  lemma Record1AtEncoded(f: Frame, after: seq<byte>, offset: nat)
    requires f.Valid() && f.Frame1?
    ensures RecordAt(f.Encode() + after, offset) == Ok(f.AsRecord(offset))
  {
    var rest := f.Encode() + after;
    EncodedParts(f, after, rest, 14, 14 + |f.payload|);
    assert forall k | 0 <= k < 5 :: rest[9 + k] == rest[9..14][k];
    assert rest[9] == |f.payload| && rest[10] == f.sequence && rest[11] == f.sysid;
    assert rest[12] == f.compid && rest[13] == f.msgid;
  }

  lemma Record2AtEncoded(f: Frame, after: seq<byte>, offset: nat)
    requires f.Valid() && f.Frame2?
    ensures RecordAt(f.Encode() + after, offset) == Ok(f.AsRecord(offset))
  {
    hide Frame.Encode, Frame.CrcInput, Word24;
    var rest := f.Encode() + after;
    EncodedParts(f, after, rest, 18, 18 + |f.payload|);
    Header2Parts(f, rest[9..18]);
    assert forall k | 0 <= k < 9 :: rest[9 + k] == rest[9..18][k];
  }

  lemma Header2Parts(f: Frame, h: seq<byte>)
    requires f.Valid() && f.Frame2? && h == f.Header()
    ensures h[0] == |f.payload| && h[1] == (if f.signature == [] then 0 else 1) && h[3] == f.sequence
    ensures h[4] == f.sysid && h[5] == f.compid && Word24(h[6], h[7], h[8]) == f.msgid
  {
  }

  /** Writing undoes reading: a record is only accepted where the capture holds one written frame. */
  lemma EncodedAtRecord(rest: seq<byte>, offset: nat) returns (f: Frame)
    requires RecordAt(rest, offset).Ok?
    ensures f.Valid() && |f.Encode()| <= |rest| && f.Encode() == rest[..|f.Encode()|]
    ensures RecordAt(rest, offset).value == f.AsRecord(offset)
    ensures RecordAt(rest, offset).value.frameBytes + 8 == |f.Encode()|
  {
    if rest[8] == MAVLINK2_STX {
      f := EncodedFrame2(rest, offset);
    } else {
      f := EncodedFrame1(rest, offset);
    }
  }

  lemma EncodedFrame1(rest: seq<byte>, offset: nat) returns (f: Frame)
    requires RecordAt(rest, offset).Ok? && rest[8] == MAVLINK1_STX
    ensures f.Valid() && |f.Encode()| <= |rest| && f.Encode() == rest[..|f.Encode()|]
    ensures RecordAt(rest, offset).value == f.AsRecord(offset)
    ensures RecordAt(rest, offset).value.frameBytes + 8 == |f.Encode()|
  {
    var r := RecordAt(rest, offset).value;
    var crcAt: nat := 14 + |r.payload|;
    f := Frame1(rest[..8], r.mavlinkSequence, r.sysid, r.compid, r.msgid, r.payload, r.crc);
    assert f.Header() == rest[9..14];
    assert f.CrcInput() == rest[9..crcAt];
    Reassemble(rest, f, crcAt, 8 + r.frameBytes);
  }

  lemma EncodedFrame2(rest: seq<byte>, offset: nat) returns (f: Frame)
    requires RecordAt(rest, offset).Ok? && rest[8] == MAVLINK2_STX
    ensures f.Valid() && |f.Encode()| <= |rest| && f.Encode() == rest[..|f.Encode()|]
    ensures RecordAt(rest, offset).value == f.AsRecord(offset)
    ensures RecordAt(rest, offset).value.frameBytes + 8 == |f.Encode()|
  {
    var r := RecordAt(rest, offset).value;
    var crcAt: nat := 18 + |r.payload|;
    f := Frame2(rest[..8], rest[11], r.mavlinkSequence, r.sysid, r.compid, r.msgid, r.payload, r.crc,
                rest[crcAt + 2..8 + r.frameBytes]);
    MessageIdBytes(rest[15], rest[16], rest[17]);
    assert f.Header() == rest[9..18];
    assert f.CrcInput() == rest[9..crcAt];
    Reassemble(rest, f, crcAt, 8 + r.frameBytes);
  }

  lemma MessageIdBytes(a: byte, b: byte, c: byte)
    ensures var m := Word24(a, b, c);
            m < 0x100_0000 && m % 256 == a && m / 256 % 256 == b && m / 65536 == c
  {
    var m := Word24(a, b, c);
    var high := b as int + 256 * c;
    assert m == 256 * high + a;
    assert m / 256 == high && high / 256 == c;
    assert m / 65536 == m / 256 / 256;
  }

  lemma Reassemble(rest: seq<byte>, f: Frame, crcAt: nat, stop: nat)
    requires f.Valid() && 9 <= crcAt && crcAt + 2 <= stop <= |rest|
    requires f.stamp == rest[..8] && rest[8] == (if f.Frame1? then MAVLINK1_STX else MAVLINK2_STX)
    requires f.CrcInput() == rest[9..crcAt] && f.crc == Word16(rest[crcAt], rest[crcAt + 1])
    requires f.Tail() == rest[crcAt + 2..stop]
    ensures f.Encode() == rest[..stop]
  {
    var crc: seq<byte> := [f.crc % 256, f.crc / 256];
    assert crc == rest[crcAt..crcAt + 2];
    assert rest[..stop] == rest[..8] + [rest[8]] + rest[9..crcAt] + rest[crcAt..crcAt + 2] + rest[crcAt + 2..stop];
  }

  /** No record is longer than the stated bound, which keeps every slice short. */
  lemma FrameLengthBound(f: Frame)
    requires f.Valid()
    ensures |f.Encode()| <= 8 + MAX_FRAME_BYTES
  {
  }
}
