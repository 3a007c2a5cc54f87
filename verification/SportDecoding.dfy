/**
  * S.Port electrical reports: what one packet says, and the conversion of a whole native stream, framing and
  * reading together.
  */
module SportDecoding {
  import opened Common
  import opened Framing
  import opened NativeCapture
  import SportChecksum
  import SportFraming
  import SportStuffing

  const DATA_FRAME: byte := 0x10
  const CURRENT_FIRST := 0x0200
  const VOLTAGE_FIRST := 0x0210
  const VOLTAGE_LAST := 0x021F

  /** An electrical report: hundredths of a volt, or tenths of an ampere. */
  datatype Electrical = Electrical(voltage: bool, value: int, sensor: nat, application: nat)

  /** A little-endian two's-complement word of 32 bits. */
  function Signed32(a: byte, b: byte, c: byte, d: byte): int {
    var word := Word16(a, b) + 65536 * Word16(c, d);
    if word < 0x8000_0000 then word else word - 0x1_0000_0000
  }

  function Read(frame: seq<byte>): Result<Option<Electrical>, ReadError> {
    if |frame| != SportFraming.PACKET_LEN then Err(PacketLength)
    else if SportChecksum.ChecksumOf(frame[1..]) != 255 then Err(ChecksumMismatch)
    else
      var application := Word16(frame[2], frame[3]);
      if frame[1] != DATA_FRAME || !(CURRENT_FIRST <= application <= VOLTAGE_LAST) then Ok(None)
      else
        var value := Signed32(frame[4], frame[5], frame[6], frame[7]);
        var voltage := application >= VOLTAGE_FIRST;
        if voltage && value < 0 then Err(NegativeVoltage)
        else Ok(Some(Electrical(voltage, value, frame[0] % 32, application)))
  }

  method ReadPacket(frame: seq<byte>) returns (r: Result<Option<Electrical>, ReadError>)
    ensures r == Read(frame)
  {
    if |frame| != SportFraming.PACKET_LEN {
      return Err(PacketLength);
    }
    var checksum := SportChecksum.Checksum(frame[1..]);
    if checksum != 255 {
      return Err(ChecksumMismatch);
    }
    var application := Word16(frame[2], frame[3]);
    if frame[1] != DATA_FRAME || !(CURRENT_FIRST <= application <= VOLTAGE_LAST) {
      return Ok(None);
    }
    var value := Signed32(frame[4], frame[5], frame[6], frame[7]);
    var voltage := application >= VOLTAGE_FIRST;
    if voltage && value < 0 {
      return Err(NegativeVoltage);
    }
    r := Ok(Some(Electrical(voltage, value, frame[0] % 32, application)));
  }

  method ReadPackets(packets: seq<Span>) returns (r: Result<seq<Option<Electrical>>, ReadError>)
    ensures r == ReadAll(Read, BytesOf(packets))
  {
    hide Read;
    var all := BytesOf(packets);
    var readings: seq<Option<Electrical>> := [];
    var k := 0;
    while k < |all|
      invariant 0 <= k <= |all| && ReadAll(Read, all[..k]) == Ok(readings)
    {
      ReadSnoc(Read, all, k);
      var one := ReadPacket(all[k]);
      if one.Err? {
        RefusalStands(Read, all, k + 1);
        return Err(one.error);
      }
      readings := readings + [one.value];
      k := k + 1;
    }
    assert all[..k] == all;
    r := Ok(readings);
  }

  /** Convert a saved S.Port stream: frame it, read every kept packet, and check what was selected. */
  method ConvertSport(data: seq<byte>, window: Option<Window>) returns (r: Result<Native<Electrical>, NativeError>)
    requires window.Some? ==> window.value.start < window.value.stop
    ensures r == Converted(SportFraming.SportFramed(data, window), Read, window)
  {
    var framed := SportFraming.FrameSport(data, window);
    if framed.Err? {
      return Err(Misframed(framed.error));
    }
    var readings := ReadPackets(framed.value.rows);
    if readings.Err? {
      return Err(Unreadable(readings.error));
    }
    r := Checked(framed.value, readings.value, window);
  }

  // ---------------------------------------------------------------- exact acceptance

  /** A voltage report may not be negative. */
  predicate Sensible(frame: seq<byte>)
    requires |frame| == SportFraming.PACKET_LEN
  {
    var application := Word16(frame[2], frame[3]);
    !(frame[1] == DATA_FRAME && VOLTAGE_FIRST <= application <= VOLTAGE_LAST)
    || Signed32(frame[4], frame[5], frame[6], frame[7]) >= 0
  }

  /** A packet's covered bytes sum to a positive multiple of 255. */
  predicate Sealed(frame: seq<byte>)
    requires |frame| == SportFraming.PACKET_LEN
  {
    SportChecksum.Sum(frame[1..]) > 0 && SportChecksum.Residue(SportChecksum.Sum(frame[1..])) == 0
  }

  /** A packet is read exactly when it is sealed and its report is sensible, and refused for what it is not. */
  lemma ReadExactly(frame: seq<byte>)
    requires |frame| == SportFraming.PACKET_LEN
    ensures Read(frame).Ok? <==> Sealed(frame) && Sensible(frame)
    ensures Read(frame) == Err(ChecksumMismatch) <==> !Sealed(frame)
    ensures Read(frame) == Err(NegativeVoltage) <==> Sealed(frame) && !Sensible(frame)
  {
    hide SportChecksum.ChecksumOf, SportChecksum.Sum, SportChecksum.Residue;
    SportChecksum.AcceptedExactly(frame[1..]);
  }

  /** When the whole stream is accepted, a window of it is accepted exactly when it lies within the packets. */
  lemma SportWindowed(data: seq<byte>, window: Window)
    requires window.start < window.stop
    requires Converted(SportFraming.SportFramed(data, None), Read, None).Ok?
    ensures IsWindow(Converted(SportFraming.SportFramed(data, Some(window)), Read, Some(window)),
                     Converted(SportFraming.SportFramed(data, None), Read, None).value, window, |data|)
  {
    hide Read, Outcome, IsWindow, SportFraming.SpansOf;
    SportFraming.StreamTiled(data);
    SportFraming.SkipsOfStream(data);
    WindowedReadings(SportFraming.SpansOf(data), Read, window, |data|);
  }

  // ---------------------------------------------------------------- a transmission is read back

  function Wrapped(value: int): nat
    requires -0x8000_0000 <= value < 0x8000_0000
  {
    if value < 0 then value + 0x1_0000_0000 else value
  }

  /** The nine bytes a sensor sends: its report, sealed by the byte that completes the checksum. */
  function Packet(id: byte, application: nat, value: int): (packet: seq<byte>)
    requires application < 65536 && -0x8000_0000 <= value < 0x8000_0000
    ensures |packet| == SportFraming.PACKET_LEN
  {
    var word := Wrapped(value);
    var body: seq<byte> := [DATA_FRAME, application % 256, application / 256,
                            word % 256, word / 256 % 256, word / 65536 % 256, word / 0x100_0000];
    [id] + body + [SportChecksum.Seal(body)]
  }

  lemma WordRestored(value: int)
    requires -0x8000_0000 <= value < 0x8000_0000
    ensures var word := Wrapped(value);
            Signed32(word % 256, word / 256 % 256, word / 65536 % 256, word / 0x100_0000) == value
  {
    var word := Wrapped(value);
    var high := word / 65536;
    assert word == 65536 * high + word % 65536;
    assert word % 65536 == Word16(word % 256, word / 256 % 256) by {
      assert word / 256 == 256 * (word / 256 / 256) + word / 256 % 256;
      assert word / 256 / 256 == high;
    }
    assert high == Word16(high % 256, high / 256) && high / 256 == word / 0x100_0000;
  }

  /** A sent report is read back with its own value, sensor and application; another application says nothing. */
  lemma PacketRead(id: byte, application: nat, value: int)
    requires application < 65536 && -0x8000_0000 <= value < 0x8000_0000
    ensures Read(Packet(id, application, value))
         == if !(CURRENT_FIRST <= application <= VOLTAGE_LAST) then Ok(None)
            else if application >= VOLTAGE_FIRST && value < 0 then Err(NegativeVoltage)
            else Ok(Some(Electrical(application >= VOLTAGE_FIRST, value, id % 32, application)))
  {
    hide SportChecksum.ChecksumOf, SportChecksum.Seal, Signed32, Wrapped;
    var packet := Packet(id, application, value);
    SportChecksum.SealCompletes(packet[1..8]);
    assert packet[1..] == packet[1..8] + [SportChecksum.Seal(packet[1..8])];
    WordRestored(value);
    assert Word16(packet[2], packet[3]) == application;
  }

  /** Conversely, a report is read of a sealed packet only when a sensor sends it so, up to the checksum byte. */
  lemma ReportExactly(frame: seq<byte>, report: Electrical)
    requires |frame| == SportFraming.PACKET_LEN
    ensures Read(frame) == Ok(Some(report))
       <==> && Sealed(frame) && 0x0200 <= report.application <= 0x021F
            && -0x8000_0000 <= report.value < 0x8000_0000 && (report.voltage ==> report.value >= 0)
            && (report.voltage <==> report.application >= 0x0210) && report.sensor == frame[0] % 32
            && frame[..8] == Packet(frame[0], report.application, report.value)[..8]
  {
    hide SportChecksum.ChecksumOf, SportChecksum.Seal, SportChecksum.Sum, SportChecksum.Residue, Signed32, Wrapped;
    SportChecksum.AcceptedExactly(frame[1..]);
    WordRead(frame[4], frame[5], frame[6], frame[7]);
    var value := Signed32(frame[4], frame[5], frame[6], frame[7]);
    var application := Word16(frame[2], frame[3]);
    assert frame[..8] == [frame[0], frame[1], frame[2], frame[3], frame[4], frame[5], frame[6], frame[7]];
    assert Packet(frame[0], application, value)[..8]
        == [frame[0], DATA_FRAME, frame[2], frame[3], frame[4], frame[5], frame[6], frame[7]];
    if 0x0200 <= report.application <= 0x021F && -0x8000_0000 <= report.value < 0x8000_0000
       && frame[..8] == Packet(frame[0], report.application, report.value)[..8] {
      SamePacket(frame, report.application, report.value);
    }
  }

  lemma SamePacket(frame: seq<byte>, application: nat, value: int)
    requires |frame| == SportFraming.PACKET_LEN && application < 65536 && -0x8000_0000 <= value < 0x8000_0000
    requires frame[..8] == Packet(frame[0], application, value)[..8]
    ensures frame[1] == DATA_FRAME && Word16(frame[2], frame[3]) == application
    ensures Signed32(frame[4], frame[5], frame[6], frame[7]) == value
  {
    hide SportChecksum.Seal, Signed32, Wrapped;
    WordRestored(value);
    var packet := Packet(frame[0], application, value);
    assert forall k | 0 <= k < 8 :: frame[k] == frame[..8][k] == packet[k];
  }

  lemma WordRead(a: byte, b: byte, c: byte, d: byte)
    ensures var value := Signed32(a, b, c, d);
            && -0x8000_0000 <= value < 0x8000_0000
            && var word := Wrapped(value);
               word % 256 == a && word / 256 % 256 == b && word / 65536 % 256 == c && word / 0x100_0000 == d
  {
    var low, high := Word16(a, b), Word16(c, d);
    var word := low + 65536 * high;
    assert Wrapped(Signed32(a, b, c, d)) == word;
    assert word / 65536 == high && word / 256 == b + 256 * high;
    assert word / 0x100_0000 == high / 256;
  }

  /**
    * A transmission is read back: whatever noise and cut-off attempts lie between the stuffed packets, the capture
    * is accepted exactly when each packet can be read and one of them is a report, and the readings are theirs.
    */
  lemma TransmissionRead(items: seq<SportStuffing.Item>, trailing: seq<byte>)
    requires forall i | 0 <= i < |items| :: items[i].Valid()
    requires SportStuffing.DelimiterFree(trailing)
    requires SportFraming.SportFramed(SportStuffing.Stream(items) + trailing, None).Ok?
    ensures var native := Converted(SportFraming.SportFramed(SportStuffing.Stream(items) + trailing, None), Read, None);
            && (native.Ok? <==> (forall i | 0 <= i < |items| :: Read(items[i].packet).Ok?)
                                && exists i | 0 <= i < |items| ::
                                     Read(items[i].packet).Ok? && Read(items[i].packet).value.Some?)
            && (native.Ok? ==> && |native.value.readings| == |items|
                               && forall i | 0 <= i < |items| :: Read(items[i].packet) == Ok(native.value.readings[i]))
  {
    hide Read, SportFraming.SpansOf, SportStuffing.Stream, SportStuffing.Item.Valid,
         SportStuffing.DelimiterFree, BytesOf;
    var data := SportStuffing.Stream(items) + trailing;
    SportStuffing.StreamRoundTrip(items, trailing);
    SportFraming.SkipsOfStream(data);
    var framed := SportFraming.SportFramed(data, None);
    var kept := BytesOf(framed.value.rows);
    assert kept == SportStuffing.Packets(items);
    assert forall i | 0 <= i < |items| :: kept[i] == items[i].packet;
    ConvertedExactly(framed, Read, None);
  }
}
