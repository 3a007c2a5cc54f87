/**
  * MSP replies: what one reply says under the selected meaning, the conversion of a whole native stream, and the
  * canvas that a DisplayPort stream draws.
  */
module MspDecoding {
  import opened Common
  import opened Framing
  import opened MspFraming
  import opened NativeCapture
  import Canvas
  import CrcRegisters

  const ATTITUDE: byte := 108

  datatype Meaning = AttitudeReports | DisplayOperations

  /** Tenths of a degree, and whole degrees of yaw; or one canvas operation. */
  datatype Reply = Attitude(roll: int, pitch: int, yaw: int) | Display(operation: Canvas.Event)

  /** The exclusive-or of all bytes. */
  function Parity(bytes: seq<byte>): bv8 {
    if bytes == [] then 0 else Parity(bytes[..|bytes| - 1]) ^ CrcRegisters.BitsOf(bytes[|bytes| - 1])
  }

  method ComputeParity(bytes: seq<byte>) returns (parity: bv8)
    ensures parity == Parity(bytes)
  {
    parity := 0;
    assert bytes[..0] == [];
    for i := 0 to |bytes|
      invariant parity == Parity(bytes[..i])
    {
      assert bytes[..i + 1][..i] == bytes[..i];
      parity := parity ^ CrcRegisters.BitsOf(bytes[i]);
    }
    assert bytes[..|bytes|] == bytes;
  }

  /** A little-endian two's-complement word of 16 bits. */
  function Signed16(low: byte, high: byte): int {
    var word := Word16(low, high);
    if word < 0x8000 then word else word - 0x1_0000
  }

  /** The shape of an ordinary reply with the length it declares. */
  predicate Shaped(frame: seq<byte>) {
    && |frame| >= 6 && frame[0] == DOLLAR && frame[1] == LETTER_M && frame[2] == REPLY
    && frame[3] != 255 && frame[3] as int == |frame| - 6
  }

  function RecordOf(frame: seq<byte>, time: nat): Canvas.Record
    requires |frame| >= 6
  {
    Canvas.Record(frame[4], frame[5..|frame| - 1], time)
  }

  function ReadAttitude(frame: seq<byte>): Result<Option<Reply>, ReadError>
    requires |frame| >= 6
  {
    if frame[4] != ATTITUDE then Ok(None)
    else if |frame| != 12 then Err(AttitudeLength)
    else
      var roll, pitch, yaw := Signed16(frame[5], frame[6]), Signed16(frame[7], frame[8]), Word16(frame[9], frame[10]);
      if !(-1800 <= roll <= 1800) || !(-900 <= pitch <= 900) || yaw > 360 then Err(AttitudeRange)
      else Ok(Some(Attitude(roll, pitch, yaw)))
  }

  /** An operation beyond the known ones is kept as unsupported; a known one must have its own shape. */
  function ReadDisplay(frame: seq<byte>): Result<Option<Reply>, ReadError>
    requires |frame| >= 6
  {
    var record := RecordOf(frame, 0);
    match Canvas.Read(record)
    case None => Err(DisplayOperation)
    case Some(operation) =>
      if record.messageType == Canvas.DISPLAY_PORT && record.payload[0] <= 4 then Ok(Some(Display(operation)))
      else Ok(None)
  }

  function Read(meaning: Meaning, frame: seq<byte>): Result<Option<Reply>, ReadError> {
    if !Shaped(frame) then Err(ReplyHeader)
    else if Parity(frame[3..]) != 0 then Err(ChecksumMismatch)
    else if meaning.AttitudeReports? then ReadAttitude(frame)
    else ReadDisplay(frame)
  }

  function ReaderOf(meaning: Meaning): Reader<Reply> {
    frame => Read(meaning, frame)
  }

  method ReadPacket(meaning: Meaning, frame: seq<byte>) returns (r: Result<Option<Reply>, ReadError>)
    ensures r == Read(meaning, frame)
  {
    if !Shaped(frame) {
      return Err(ReplyHeader);
    }
    var parity := ComputeParity(frame[3..]);
    if parity != 0 {
      return Err(ChecksumMismatch);
    }
    r := if meaning.AttitudeReports? then ReadAttitude(frame) else ReadDisplay(frame);
  }

  method ReadPackets(meaning: Meaning, packets: seq<Span>) returns (r: Result<seq<Option<Reply>>, ReadError>)
    ensures r == ReadAll(ReaderOf(meaning), BytesOf(packets))
  {
    hide Read;
    var all, read := BytesOf(packets), ReaderOf(meaning);
    var readings: seq<Option<Reply>> := [];
    var k := 0;
    while k < |all|
      invariant 0 <= k <= |all| && ReadAll(read, all[..k]) == Ok(readings)
    {
      ReadSnoc(read, all, k);
      var one := ReadPacket(meaning, all[k]);
      if one.Err? {
        RefusalStands(read, all, k + 1);
        return Err(one.error);
      }
      readings := readings + [one.value];
      k := k + 1;
    }
    assert all[..k] == all;
    r := Ok(readings);
  }

  /** Convert a saved MSP stream: frame it, read every kept reply, and check what was selected. */
  method ConvertMsp(data: seq<byte>, meaning: Meaning, window: Option<Window>)
    returns (r: Result<Native<Reply>, NativeError>)
    requires window.Some? ==> window.value.start < window.value.stop
    ensures r == Converted(MspFramed(data, window), ReaderOf(meaning), window)
  {
    var framed := FrameMsp(data, window);
    if framed.Err? {
      return Err(Misframed(framed.error));
    }
    var readings := ReadPackets(meaning, framed.value.rows);
    if readings.Err? {
      return Err(Unreadable(readings.error));
    }
    r := Checked(framed.value, readings.value, window);
  }

  // ---------------------------------------------------------------- what the checks leave

  /** A framed reply always has its shape, so only its checksum and its own meaning can refuse it. */
  lemma FramedShaped(data: seq<byte>, k: nat)
    requires k < |ScanOf(data).spans| && ScanOf(data).spans[k].Whole?
    ensures Shaped(ScanOf(data).spans[k].bytes)
  {
    StreamSound(data);
  }

  lemma {:induction false} ParityJoins(a: seq<byte>, b: seq<byte>)
    ensures Parity(a + b) == Parity(a) ^ Parity(b)
  {
    hide CrcRegisters.BitsOf;
    if b == [] {
      assert a + b == a;
    } else {
      assert (a + b)[..|a + b| - 1] == a + b[..|b| - 1];
      ParityJoins(a, b[..|b| - 1]);
      XorRegroups(Parity(a), Parity(b[..|b| - 1]), CrcRegisters.BitsOf(b[|b| - 1]));
    }
  }

  lemma XorRegroups(x: bv8, y: bv8, z: bv8)
    ensures x ^ (y ^ z) == (x ^ y) ^ z
  {
  }

  lemma XorApart(x: bv8, y: bv8, z: bv8, w: bv8)
    requires y != z
    ensures (x ^ y) ^ w != (x ^ z) ^ w
  {
  }

  lemma ParityOne(b: byte)
    ensures Parity([b]) == CrcRegisters.BitsOf(b)
  {
    hide CrcRegisters.BitsOf;
    assert [b][..0] == [];
    XorZero(CrcRegisters.BitsOf(b));
  }

  lemma XorZero(x: bv8)
    ensures 0 ^ x == x
  {
  }

  /** A reply with one covered byte changed is always refused, unlike an S.Port packet. */
  lemma ByteChangeRefused(meaning: Meaning, before: seq<byte>, x: byte, y: byte, after: seq<byte>)
    requires |before| >= 3 && x != y && Read(meaning, before + [x] + after).Ok?
    ensures Read(meaning, before + [y] + after).Err?
  {
    hide CrcRegisters.BitsOf, CrcRegisters.ValueOf, ReadAttitude, ReadDisplay, Parity;
    var head := before[3..];
    assert (before + [x] + after)[3..] == head + [x] + after;
    assert (before + [y] + after)[3..] == head + [y] + after;
    ParityJoins(head + [x], after);
    ParityJoins(head, [x]);
    ParityJoins(head + [y], after);
    ParityJoins(head, [y]);
    ParityOne(x);
    ParityOne(y);
    CrcRegisters.ValueOfBits(x);
    CrcRegisters.ValueOfBits(y);
    XorApart(Parity(head), CrcRegisters.BitsOf(x), CrcRegisters.BitsOf(y), Parity(after));
  }

  // ---------------------------------------------------------------- what a reply says

  /** A reply as a controller sends it: marker, size, code, payload, and the exclusive-or of size to payload. */
  function ReplyOf(code: byte, payload: seq<byte>): (reply: seq<byte>)
    requires |payload| < 255
    ensures |reply| == 6 + |payload|
  {
    var covered: seq<byte> := [|payload|, code] + payload;
    [36, 77, 62] + covered + [CrcRegisters.ValueOf(Parity(covered))]
  }

  lemma XorCancels(x: bv8, y: bv8)
    ensures x ^ y == 0 <==> x == y
  {
  }

  /** The last byte of covered bytes with no parity is the parity of the others. */
  lemma SealedExactly(covered: seq<byte>, last: byte)
    ensures Parity(covered + [last]) == 0 <==> last == CrcRegisters.ValueOf(Parity(covered))
  {
    hide CrcRegisters.BitsOf, CrcRegisters.ValueOf, Parity;
    ParityJoins(covered, [last]);
    ParityOne(last);
    XorCancels(Parity(covered), CrcRegisters.BitsOf(last));
    CrcRegisters.ValueOfBits(last);
    if last == CrcRegisters.ValueOf(Parity(covered)) && CrcRegisters.BitsOf(last) != Parity(covered) {
      CrcRegisters.ValueInjective(CrcRegisters.BitsOf(last), Parity(covered));
    }
  }

  /** A frame passes the shape and the checksum exactly when it is the reply of some code and payload. */
  lemma ReplyExactly(frame: seq<byte>)
    ensures Shaped(frame) && Parity(frame[3..]) == 0
       <==> |frame| >= 6 && |frame| < 261 && frame == ReplyOf(frame[4], frame[5..|frame| - 1])
  {
    hide Parity, CrcRegisters.ValueOf;
    if 6 <= |frame| < 261 {
      var payload := frame[5..|frame| - 1];
      var covered: seq<byte> := [|payload|, frame[4]] + payload;
      SealedExactly(covered, frame[|frame| - 1]);
      if frame[3] == |payload| {
        assert frame[3..] == covered + [frame[|frame| - 1]];
      }
      if Shaped(frame) && Parity(frame[3..]) == 0 {
        assert frame == [36, 77, 62] + covered + [frame[|frame| - 1]];
      }
    }
  }

  lemma ReplyParts(code: byte, payload: seq<byte>)
    requires |payload| < 255
    ensures var frame := ReplyOf(code, payload);
            Shaped(frame) && Parity(frame[3..]) == 0 && frame[4] == code && frame[5..|frame| - 1] == payload
  {
    hide Parity;
    var frame := ReplyOf(code, payload);
    assert frame[4] == code && frame[5..|frame| - 1] == payload;
    ReplyExactly(frame);
  }

  function Signed16Bytes(n: int): (s: seq<byte>)
    requires -0x8000 <= n < 0x8000
    ensures |s| == 2
  {
    var word := if n < 0 then n + 0x1_0000 else n;
    [word % 256, word / 256]
  }

  lemma Signed16Written(n: int)
    requires -0x8000 <= n < 0x8000
    ensures Signed16(Signed16Bytes(n)[0], Signed16Bytes(n)[1]) == n
  {
  }

  lemma Signed16Read(low: byte, high: byte)
    ensures -0x8000 <= Signed16(low, high) < 0x8000 && Signed16Bytes(Signed16(low, high)) == [low, high]
  {
  }

  /** An attitude as a controller sends it: roll, then pitch, then yaw, low byte first. */
  function AttitudePayload(roll: int, pitch: int, yaw: nat): (payload: seq<byte>)
    requires -0x8000 <= roll < 0x8000 && -0x8000 <= pitch < 0x8000 && yaw < 0x1_0000
    ensures |payload| == 6
  {
    Signed16Bytes(roll) + Signed16Bytes(pitch) + [yaw % 256, yaw / 256]
  }

  /** A sent attitude is read back as its own angles, or refused when an angle is out of range. */
  lemma AttitudeRead(roll: int, pitch: int, yaw: nat)
    requires -0x8000 <= roll < 0x8000 && -0x8000 <= pitch < 0x8000 && yaw < 0x1_0000
    ensures Read(AttitudeReports, ReplyOf(108, AttitudePayload(roll, pitch, yaw)))
         == if -1800 <= roll <= 1800 && -900 <= pitch <= 900 && yaw <= 360 then Ok(Some(Attitude(roll, pitch, yaw)))
            else Err(AttitudeRange)
  {
    hide Signed16, Signed16Bytes, Parity, Shaped, ReplyOf;
    var payload := AttitudePayload(roll, pitch, yaw);
    var frame := ReplyOf(108, payload);
    ReplyParts(108, payload);
    assert forall k | 0 <= k < 6 :: frame[5 + k] == frame[5..11][k];
    assert payload[0] == Signed16Bytes(roll)[0] && payload[1] == Signed16Bytes(roll)[1];
    assert payload[2] == Signed16Bytes(pitch)[0] && payload[3] == Signed16Bytes(pitch)[1];
    Signed16Written(roll);
    Signed16Written(pitch);
  }

  /** Conversely, only a sent attitude is read as one. */
  lemma AttitudeWasSent(frame: seq<byte>, roll: int, pitch: int, yaw: int)
    requires Read(AttitudeReports, frame) == Ok(Some(Attitude(roll, pitch, yaw)))
    ensures -1800 <= roll <= 1800 && -900 <= pitch <= 900 && 0 <= yaw <= 360
    ensures frame == ReplyOf(108, AttitudePayload(roll, pitch, yaw))
  {
    hide Signed16, Signed16Bytes, Parity, Shaped, ReplyOf;
    assert |frame| >= 6 by { ShapedLong(frame); }
    assert |frame| == 12;
    ReplyExactly(frame);
    Signed16Read(frame[5], frame[6]);
    Signed16Read(frame[7], frame[8]);
    assert frame[5..11] == Signed16Bytes(roll) + Signed16Bytes(pitch) + [frame[9], frame[10]];
  }

  lemma ShapedLong(frame: seq<byte>)
    requires Shaped(frame)
    ensures 6 <= |frame| < 261
  {
  }

  /** What else a reply can come to: another code says nothing, and a selected one is refused for its payload. */
  lemma OtherOutcomes(frame: seq<byte>)
    ensures forall meaning :: Read(meaning, frame) == Err(ReplyHeader) <==> !Shaped(frame)
    ensures forall meaning ::
              Read(meaning, frame) == Err(ChecksumMismatch) <==> Shaped(frame) && frame != Resealed(frame)
    ensures Read(AttitudeReports, frame) == Err(AttitudeLength)
       <==> Shaped(frame) && frame == Resealed(frame) && frame[4] == 108 && |frame| != 12
    ensures Read(AttitudeReports, frame) == Ok(None)
       <==> Shaped(frame) && frame == Resealed(frame) && frame[4] != 108
    ensures Read(DisplayOperations, frame) == Err(DisplayOperation)
       <==> && Shaped(frame) && frame == Resealed(frame) && frame[4] == 182
            && Canvas.Malformed(frame[5..|frame| - 1])
    ensures Read(DisplayOperations, frame) == Ok(None)
       <==> && Shaped(frame) && frame == Resealed(frame)
            && (frame[4] != 182 || (|frame| > 6 && frame[5] > 4))
  {
    hide Parity, ReplyOf, Canvas.Malformed, Shaped, Canvas.ReadWrite, Signed16;
    ReplyExactly(frame);
    if Shaped(frame) {
      ShapedLong(frame);
      assert Resealed(frame) == ReplyOf(frame[4], frame[5..|frame| - 1]);
      Canvas.MalformedExactly(RecordOf(frame, 0));
    }
  }

  /** The frame with the checksum that its other bytes call for. */
  function Resealed(frame: seq<byte>): seq<byte> {
    if 6 <= |frame| < 261 then ReplyOf(frame[4], frame[5..|frame| - 1]) else frame
  }

  /** A canvas operation is read of exactly the replies in which it was sent. */
  lemma DisplayExactly(frame: seq<byte>, operation: Canvas.Event)
    ensures Read(DisplayOperations, frame) == Ok(Some(Display(operation)))
       <==> && 7 <= |frame| < 261 && frame == ReplyOf(182, frame[5..|frame| - 1])
            && frame[5] <= 4 && Canvas.Encodes(frame[5..|frame| - 1], operation)
  {
    hide Parity, ReplyOf, Canvas.Encodes, Shaped;
    ReplyExactly(frame);
    if Shaped(frame) {
      ShapedLong(frame);
    }
    if 6 <= |frame| {
      Canvas.OperationExactly(RecordOf(frame, 0), operation);
      if 7 <= |frame| < 261 {
        ReplyParts(182, frame[5..|frame| - 1]);
      }
    }
  }

  /** When the whole stream is accepted, a window of it is accepted exactly when it lies within the packets. */
  lemma MspWindowed(data: seq<byte>, meaning: Meaning, window: Window)
    requires window.start < window.stop
    requires Converted(MspFramed(data, None), ReaderOf(meaning), None).Ok?
    ensures IsWindow(Converted(MspFramed(data, Some(window)), ReaderOf(meaning), Some(window)),
                     Converted(MspFramed(data, None), ReaderOf(meaning), None).value, window, |data|)
  {
    hide Read, Broken, Reported, IsWindow, ScanOf, Tiles, ReadAll;
    StreamSound(data);
    WindowedReadings(ScanOf(data).spans, ReaderOf(meaning), window, |data|);
  }

  /** Replies sent with any marker-free noise around them are read back as exactly what each of them says. */
  lemma TransmissionRead(items: seq<Item>, trailing: seq<byte>, meaning: Meaning)
    requires (forall i | 0 <= i < |items| :: items[i].Valid()) && Unmarked(trailing)
    requires MspFramed(Stream(items) + trailing, None).Ok?
    ensures var native := Converted(MspFramed(Stream(items) + trailing, None), ReaderOf(meaning), None);
            && (native.Ok? <==> (forall i | 0 <= i < |items| :: Read(meaning, items[i].reply).Ok?)
                                && exists i | 0 <= i < |items| ::
                                     Read(meaning, items[i].reply).Ok? && Read(meaning, items[i].reply).value.Some?)
            && (native.Ok? ==> && |native.value.readings| == |items|
                               && forall i | 0 <= i < |items| ::
                                    Read(meaning, items[i].reply) == Ok(native.value.readings[i]))
  {
    hide Read, ScanOf, Stream, IsReply, Unmarked, BytesOf;
    var data := Stream(items) + trailing;
    StreamRoundTrip(items, trailing);
    StreamSound(data);
    var framed := MspFramed(data, None);
    var kept := BytesOf(framed.value.rows);
    assert kept == Replies(items);
    assert forall i | 0 <= i < |items| :: kept[i] == items[i].reply;
    assert forall i | 0 <= i < |kept| :: ReaderOf(meaning)(kept[i]) == Read(meaning, kept[i]);
    ConvertedExactly(framed, ReaderOf(meaning), None);
  }

  // ---------------------------------------------------------------- the canvas of a native stream

  /** The kept replies as canvas records, all at the caller's capture time. */
  function RecordsOf(packets: seq<seq<byte>>, time: nat): seq<Canvas.Record>
    requires forall i | 0 <= i < |packets| :: |packets[i]| >= 6
  {
    seq(|packets|, i requires 0 <= i < |packets| => RecordOf(packets[i], time))
  }

  /** Once the operations have been read, the canvas's own decoding of the same replies can never refuse. */
  lemma CanvasReadable(packets: seq<seq<byte>>, time: nat)
    requires ReadAll(ReaderOf(DisplayOperations), packets).Ok?
    ensures forall i | 0 <= i < |packets| :: |packets[i]| >= 6
    ensures Canvas.Readable(RecordsOf(packets, time))
  {
    hide Parity;
    NativeCapture.ReadExactly(ReaderOf(DisplayOperations), packets);
    forall i | 0 <= i < |packets|
      ensures |packets[i]| >= 6 && Canvas.Read(RecordOf(packets[i], time)).Some?
    {
      assert Read(DisplayOperations, packets[i]).Ok?;
    }
  }

  /** Convert a saved DisplayPort stream and draw its canvas. */
  method ConvertCanvas(data: seq<byte>, window: Window, time: nat, rows: int, columns: int)
    returns (r: Result<Native<Reply>, NativeError>, drawn: Option<seq<Canvas.Frame>>)
    requires window.start < window.stop
    ensures r == Converted(MspFramed(data, Some(window)), ReaderOf(DisplayOperations), Some(window))
    ensures r.Err? ==> drawn.None?
    ensures r.Ok? ==>
              var kept := BytesOf(r.value.framed.rows);
              && (forall i | 0 <= i < |kept| :: |kept[i]| >= 6)
              && drawn == if Canvas.Accepted(RecordsOf(kept, time), rows, columns)
                          then Some(Canvas.Frames(RecordsOf(kept, time), |kept|, rows, columns)) else None
  {
    hide Read, Canvas.Accepted, Canvas.Frames, ReadAll, MspFramed, BytesOf;
    drawn := None;
    r := ConvertMsp(data, DisplayOperations, Some(window));
    if r.Ok? {
      var kept := BytesOf(r.value.framed.rows);
      CanvasReadable(kept, time);
      var ok, frames := Canvas.Convert(RecordsOf(kept, time), rows, columns);
      if ok {
        drawn := Some(frames);
      }
    }
  }
}
