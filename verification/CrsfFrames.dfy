/**
  * What a saved CRSF frame says, by its layout. The frames are written here byte by byte, independently of the
  * reader, and the frame checks are shown to accept exactly those frames, each with exactly what was written in it.
  */
module CrsfFrames {
  import opened Common
  import opened CrsfEntry
  import opened CrsfParameters
  import Crc

  /** A frame: its address, the length of what follows, the body and the CRC-8 of the body. */
  function Framed(address: byte, body: seq<byte>): (frame: seq<byte>)
    requires |body| <= 61
    ensures |frame| == |body| + 3
  {
    [address, |body| + 1] + body + [Crc.Crc8(body)]
  }

  function Unsigned32Bytes(n: nat): (s: seq<byte>)
    requires n < 0x1_0000_0000
    ensures |s| == 4
  {
    [n / 0x100_0000, n / 0x1_0000 % 256, n / 256 % 256, n % 256]
  }

  /** What the frames that matter say. Destination and origin are a device and a host, in either direction. */
  datatype Said =
    | Asks(device: byte, host: byte, number: byte, chunk: byte, beyond: seq<byte>)
    | Identifies(host: byte, device: byte, identity: Identity, beyond: seq<byte>)
    | Replies(host: byte, device: byte, number: byte, remaining: byte, data: seq<byte>)
  {
    predicate Valid() {
      match this
      case Identifies(_, _, identity, beyond) =>
        && Plain(identity.name) && identity.serial < 0x1_0000_0000 && identity.hardware < 0x1_0000_0000
        && identity.firmware < 0x1_0000_0000 && (identity.version == None ==> beyond == [])
      case _ => true
    }

    /** Type, destination, origin, and then what the type calls for. */
    function Body(): (body: seq<byte>)
      requires Valid()
      ensures |body| >= 5
    {
      match this
      case Asks(device, host, number, chunk, beyond) => [0x2C, device, host, number, chunk] + beyond
      case Replies(host, device, number, remaining, data) => [0x2B, host, device, number, remaining] + data
      case Identifies(host, device, identity, beyond) =>
        [0x29, host, device] + (identity.name + [0]
        + (Unsigned32Bytes(identity.serial) + Unsigned32Bytes(identity.hardware) + Unsigned32Bytes(identity.firmware)
           + [identity.total] + (if identity.version.Some? then [identity.version.value] else []) + beyond))
    }

    function AsEvent(time: nat): Event {
      match this
      case Asks(device, host, number, chunk, _) => Read(device, host, number, chunk)
      case Identifies(_, device, identity, _) => Reported(device, identity)
      case Replies(host, device, number, remaining, data) => Chunk(device, host, number, remaining, data, time)
    }
  }

  predicate InTime(previous: Option<nat>, time: nat) {
    time < 0x8000_0000_0000_0000 && (previous.Some? ==> previous.value <= time)
  }

  // ---------------------------------------------------------------- the checks and the layout

  lemma FramedParts(address: byte, body: seq<byte>)
    requires 3 <= |body| <= 61
    ensures var frame := Framed(address, body);
            frame[2..|frame| - 1] == body && frame[5..|frame| - 1] == body[3..]
  {
  }

  /** The frame checks pass exactly the well-framed bodies that come in time. */
  ghost predicate WellFramed(frame: seq<byte>, body: seq<byte>) {
    1 <= |body| <= 61 && exists address :: frame == Framed(address, body)
  }

  /** The bytes of a well-framed body, in the reader's terms. */
  predicate Sealed(frame: seq<byte>) {
    && 4 <= |frame| <= 64 && frame[1] == |frame| - 2
    && Crc.Crc8(frame[2..|frame| - 1]) == frame[|frame| - 1]
  }

  lemma FramedSeals(address: byte, body: seq<byte>)
    requires 1 <= |body| <= 61
    ensures Sealed(Framed(address, body)) && body == Framed(address, body)[2..|body| + 2]
  {
    hide Crc.Crc8;
    var frame := Framed(address, body);
    assert frame[2..|frame| - 1] == body;
  }

  lemma SealedFramed(frame: seq<byte>)
    requires Sealed(frame)
    ensures frame == Framed(frame[0], frame[2..|frame| - 1])
  {
    hide Crc.Crc8;
  }

  lemma SealedShort(frame: seq<byte>)
    ensures Sealed(frame) ==> 4 <= |frame| <= 64
  {
  }

  lemma FramedBody(frame: seq<byte>, body: seq<byte>)
    ensures WellFramed(frame, body) <==> Sealed(frame) && body == frame[2..|frame| - 1]
  {
    hide Sealed, Framed;
    if WellFramed(frame, body) {
      var address :| frame == Framed(address, body);
      FramedSeals(address, body);
    }
    SealedShort(frame);
    if Sealed(frame) && body == frame[2..|frame| - 1] {
      SealedFramed(frame);
    }
  }

  lemma CheckedSealed(previous: Option<nat>, time: nat, frame: seq<byte>)
    ensures InTime(previous, time) && Sealed(frame) ==> Checked(previous, time, frame) == EventOf(time, frame)
    ensures Checked(previous, time, frame).Ok? ==> InTime(previous, time) && Sealed(frame)
  {
    hide Crc.Crc8, EventOf;
  }

  lemma FramedExactly(previous: Option<nat>, time: nat, frame: seq<byte>)
    ensures (exists body :: WellFramed(frame, body)) <==> Sealed(frame)
    ensures forall body | WellFramed(frame, body) ::
              4 <= |frame| <= 64 && body == frame[2..|frame| - 1] && |body| == |frame| - 3
    ensures InTime(previous, time) && (exists body :: WellFramed(frame, body))
            ==> |frame| >= 4 && Checked(previous, time, frame) == EventOf(time, frame)
    ensures Checked(previous, time, frame).Ok? ==> InTime(previous, time) && exists body :: WellFramed(frame, body)
  {
    hide WellFramed, Checked, EventOf, InTime;
    CheckedSealed(previous, time, frame);
    forall body
      ensures WellFramed(frame, body) <==> Sealed(frame) && body == frame[2..|frame| - 1]
    {
      FramedBody(frame, body);
    }
    if Sealed(frame) {
      FramedBody(frame, frame[2..|frame| - 1]);
    }
  }

  lemma WordWritten(n: nat)
    requires n < 0x1_0000_0000
    ensures var s := Unsigned32Bytes(n); Unsigned32(s[0], s[1], s[2], s[3]) == n
  {
    WordDigits(n);
  }

  lemma WordRead(a: byte, b: byte, c: byte, d: byte)
    ensures Unsigned32(a, b, c, d) < 0x1_0000_0000
    ensures Unsigned32Bytes(Unsigned32(a, b, c, d)) == [a, b, c, d]
  {
    var m := Unsigned32(a, b, c, d);
    assert m / 256 == 0x1_0000 * a + 256 * b + c;
    assert m / 0x1_0000 == 256 * a + b;
    assert m / 0x100_0000 == a;
  }

  /** The identity's fields in their layout. */
  function IdentityBytes(identity: Identity, beyond: seq<byte>): (s: seq<byte>)
    requires Identifies(0, 0, identity, beyond).Valid()
  {
    Unsigned32Bytes(identity.serial) + Unsigned32Bytes(identity.hardware) + Unsigned32Bytes(identity.firmware)
    + [identity.total] + (if identity.version.Some? then [identity.version.value] else []) + beyond
  }

  lemma IdentityWritten(identity: Identity, beyond: seq<byte>)
    requires Identifies(0, 0, identity, beyond).Valid()
    ensures IdentityOf(identity.name + [0] + IdentityBytes(identity, beyond)) == Ok(identity)
  {
    hide Unsigned32, Unsigned32Bytes;
    var rest := IdentityBytes(identity, beyond);
    StringWritten(identity.name, rest);
    WordWritten(identity.serial);
    WordWritten(identity.hardware);
    WordWritten(identity.firmware);
    var s, h := Unsigned32Bytes(identity.serial), Unsigned32Bytes(identity.hardware);
    var f := Unsigned32Bytes(identity.firmware);
    assert forall k | 0 <= k < 4 :: rest[k] == s[k] && rest[4 + k] == h[k] && rest[8 + k] == f[k];
    assert rest[12] == identity.total;
  }

  lemma IdentityRead(payload: seq<byte>) returns (identity: Identity, beyond: seq<byte>)
    requires IdentityOf(payload).Ok?
    ensures IdentityOf(payload) == Ok(identity) && Identifies(0, 0, identity, beyond).Valid()
    ensures payload == identity.name + [0] + IdentityBytes(identity, beyond)
  {
    hide Unsigned32, IdentityBytes;
    identity := IdentityOf(payload).value;
    StringRead(payload);
    var rest := ReadString(payload).value.1;
    beyond := if |rest| > 13 then rest[14..] else [];
    WordRead(rest[0], rest[1], rest[2], rest[3]);
    WordRead(rest[4], rest[5], rest[6], rest[7]);
    WordRead(rest[8], rest[9], rest[10], rest[11]);
    IdentityLaid(rest, identity, beyond);
  }

  lemma IdentityLaid(rest: seq<byte>, identity: Identity, beyond: seq<byte>)
    requires |rest| >= 13 && Identifies(0, 0, identity, beyond).Valid()
    requires Unsigned32Bytes(identity.serial) == [rest[0], rest[1], rest[2], rest[3]]
    requires Unsigned32Bytes(identity.hardware) == [rest[4], rest[5], rest[6], rest[7]]
    requires Unsigned32Bytes(identity.firmware) == [rest[8], rest[9], rest[10], rest[11]]
    requires identity.total == rest[12] && identity.version == if |rest| > 13 then Some(rest[13]) else None
    requires beyond == if |rest| > 13 then rest[14..] else []
    ensures rest == IdentityBytes(identity, beyond)
  {
    hide Unsigned32Bytes;
  }

  /** A written frame is read as exactly what was written. */
  lemma SaidIsRead(previous: Option<nat>, time: nat, address: byte, said: Said)
    requires InTime(previous, time) && said.Valid() && |said.Body()| <= 61
    ensures Checked(previous, time, Framed(address, said.Body())) == Ok(said.AsEvent(time))
  {
    hide IdentityOf, Crc.Crc8, Unsigned32Bytes;
    var body, frame := said.Body(), Framed(address, said.Body());
    assert WellFramed(frame, body);
    FramedExactly(previous, time, frame);
    FramedParts(address, body);
    assert frame[2] == body[0] && frame[3] == body[1] && frame[4] == body[2] && frame[5] == body[3];
    assert frame[6] == body[4] && frame[5..|frame| - 1] == body[3..];
    if said.Identifies? {
      IdentityWritten(said.identity, said.beyond);
      assert body[3..] == said.identity.name + [0] + IdentityBytes(said.identity, said.beyond);
    }
  }

  /** What is read of an accepted frame was written in it. */
  lemma ReadWasSaid(previous: Option<nat>, time: nat, frame: seq<byte>) returns (address: byte, said: Said)
    requires Checked(previous, time, frame).Ok? && !Checked(previous, time, frame).value.Ignored?
    ensures said.Valid() && |said.Body()| <= 61 && frame == Framed(address, said.Body())
    ensures Checked(previous, time, frame) == Ok(said.AsEvent(time))
  {
    hide IdentityOf, Crc.Crc8, Unsigned32Bytes, Said.Body;
    FramedExactly(previous, time, frame);
    address := frame[0];
    assert frame == Framed(address, frame[2..|frame| - 1]);
    said := EventSaid(time, frame);
  }

  lemma EventSaid(time: nat, frame: seq<byte>) returns (said: Said)
    requires 4 <= |frame| <= 64 && EventOf(time, frame).Ok? && !EventOf(time, frame).value.Ignored?
    ensures said.Valid() && frame[2..|frame| - 1] == said.Body() && EventOf(time, frame) == Ok(said.AsEvent(time))
  {
    hide IdentityOf, Unsigned32Bytes;
    var body := frame[2..|frame| - 1];
    if frame[2] == DEVICE_INFORMATION {
      said := IdentitySaid(time, frame);
    } else if frame[2] == PARAMETER_READ {
      said := Asks(frame[3], frame[4], frame[5], frame[6], body[5..]);
      assert body == said.Body();
    } else {
      said := Replies(frame[3], frame[4], frame[5], frame[6], frame[5..|frame| - 1][2..]);
      assert body == said.Body();
    }
  }

  lemma IdentitySaid(time: nat, frame: seq<byte>) returns (said: Said)
    requires 6 <= |frame| <= 64 && frame[2] == 0x29 && IdentityOf(frame[5..|frame| - 1]).Ok?
    ensures said.Valid() && frame[2..|frame| - 1] == said.Body() && EventOf(time, frame) == Ok(said.AsEvent(time))
  {
    hide IdentityOf, Unsigned32Bytes;
    var identity, beyond := IdentityRead(frame[5..|frame| - 1]);
    said := Identifies(frame[3], frame[4], identity, beyond);
    assert said.Body() == [0x29, frame[3], frame[4]] + (identity.name + [0] + IdentityBytes(identity, beyond));
    assert frame[2..|frame| - 1] == [0x29, frame[3], frame[4]] + frame[5..|frame| - 1];
  }

  /** A read, an identity or a chunk is read of exactly the frames that are written so. */
  lemma FrameExactly(previous: Option<nat>, time: nat, frame: seq<byte>, event: Event)
    requires !event.Ignored?
    ensures Checked(previous, time, frame) == Ok(event)
       <==> && InTime(previous, time)
            && exists address, said: Said ::
                 && said.Valid() && |said.Body()| <= 61 && frame == Framed(address, said.Body())
                 && event == said.AsEvent(time)
  {
    hide Checked, EventOf, Crc.Crc8, Said.Body;
    if Checked(previous, time, frame) == Ok(event) {
      FramedExactly(previous, time, frame);
      var address, said := ReadWasSaid(previous, time, frame);
    }
    forall address, said: Said | InTime(previous, time) && said.Valid() && |said.Body()| <= 61
                                 && frame == Framed(address, said.Body()) && event == said.AsEvent(time)
      ensures Checked(previous, time, frame) == Ok(event)
    {
      SaidIsRead(previous, time, address, said);
    }
  }

  /** Ignored are exactly the well-framed bodies of other types, and reads too short to say a chunk. */
  lemma IgnoredExactly(previous: Option<nat>, time: nat, frame: seq<byte>)
    ensures Checked(previous, time, frame) == Ok(Ignored)
       <==> && InTime(previous, time)
            && exists body :: && WellFramed(frame, body) && body[0] != 0x29 && body[0] != 0x2B
                              && (body[0] == 0x2C ==> |body| < 5)
  {
    hide IdentityOf, Crc.Crc8, WellFramed;
    FramedExactly(previous, time, frame);
  }

  // ---------------------------------------------------------------- what is refused

  /** A name and its null, and then fewer than thirteen bytes. */
  ghost predicate ShortIdentity(payload: seq<byte>) {
    exists name, rest :: Plain(name) && payload == name + [0] + rest && |rest| < 13
  }

  /** What is wrong with a frame: the first of its time, its size, its length byte, its CRC and its body. */
  ghost predicate Wrong(previous: Option<nat>, time: nat, frame: seq<byte>, e: Error) {
    if !InTime(previous, time) then e == CaptureTime
    else if |frame| < 4 || |frame| > 64 then e == FrameBounds
    else if frame[1] != |frame| - 2 then e == FrameLength
    else if Crc.Crc8(frame[2..|frame| - 1]) != frame[|frame| - 1] then e == FrameCrc
    else WrongBody(frame[2..|frame| - 1], e)
  }

  /** A body too short for its type, or an identity whose name does not end or that is too short after it. */
  ghost predicate WrongBody(body: seq<byte>, e: Error)
    requires body != []
  {
    if body[0] != 0x29 && body[0] != 0x2B then false
    else if |body| < 3 then e == ShortExtendedFrame
    else if body[0] == 0x2B then |body| < 5 && e == ShortEntryFrame
    else (0 !in body[3..] && e == BadEntry(Unterminated)) || (ShortIdentity(body[3..]) && e == BadEntry(ShortPayload))
  }

  lemma {:induction false} UnterminatedExactly(s: seq<byte>)
    ensures ReadString(s) == Err(Unterminated) <==> 0 !in s
    ensures ReadString(s) != Err(ShortPayload)
    decreases |s|
  {
    if s != [] {
      UnterminatedExactly(s[1..]);
      assert s == [s[0]] + s[1..];
    }
  }

  lemma IdentityRefused(payload: seq<byte>)
    ensures IdentityOf(payload) == Err(Unterminated) <==> 0 !in payload
    ensures IdentityOf(payload) == Err(ShortPayload) <==> ShortIdentity(payload)
  {
    UnterminatedExactly(payload);
    if ReadString(payload).Ok? {
      StringRead(payload);
      var (name, rest) := ReadString(payload).value;
      assert payload[|name|] == 0;
      assert |rest| < 13 ==> IdentityOf(payload) == Err(ShortPayload);
      assert |rest| >= 13 ==> IdentityOf(payload).Ok?;
      assert |rest| < 13 ==> ShortIdentity(payload);
    } else {
      var why := ReadString(payload).error;
      assert ReadString(payload) == Err(why) && (why == Unterminated || why == ShortPayload);
    }
    if ShortIdentity(payload) {
      var name, rest :| Plain(name) && payload == name + [0] + rest && |rest| < 13;
      StringWritten(name, rest);
    }
  }

  lemma BodyRefused(time: nat, frame: seq<byte>, e: Error)
    requires 4 <= |frame|
    ensures EventOf(time, frame) == Err(e) <==> WrongBody(frame[2..|frame| - 1], e)
  {
    hide IdentityOf, ShortIdentity;
    var body := frame[2..|frame| - 1];
    assert body[0] == frame[2];
    if |frame| >= 6 {
      var payload := frame[5..|frame| - 1];
      IdentityRefused(payload);
      assert body[3..] == payload;
      if IdentityOf(payload).Err? {
        var why := IdentityOf(payload).error;
        assert IdentityOf(payload) == Err(why) && (why == Unterminated || why == ShortPayload);
      }
    }
  }

  /** A frame is refused for exactly what is wrong with it. */
  lemma FrameRefused(previous: Option<nat>, time: nat, frame: seq<byte>, e: Error)
    ensures Checked(previous, time, frame) == Err(e) <==> Wrong(previous, time, frame, e)
  {
    hide EventOf, WrongBody, Crc.Crc8;
    if 4 <= |frame| {
      BodyRefused(time, frame, e);
    }
  }
}
