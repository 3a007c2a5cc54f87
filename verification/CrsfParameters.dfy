/**
  * Saved CRSF frames to reported parameter entries. One pass keeps, per origin, the chunk run that is being
  * joined, and per origin and host the chunk-zero read that may evidence where the next run starts.
  */
module CrsfParameters {
  import opened Common
  import Crc
  import CrcRegisters
  import opened CrsfEntry

  const DEVICE_INFORMATION := 0x29
  const PARAMETER_ENTRY := 0x2B
  const PARAMETER_READ := 0x2C
  const MAX_CHUNKS := 16
  const MAX_ENTRY_BYTES := 896
  const TIME_LIMIT := 0x8000_0000_0000_0000

  datatype Error =
    | CaptureTime | FrameBounds | FrameLength | FrameCrc | ShortExtendedFrame | ShortEntryFrame
    | DestinationChanged | RunBreaks | ChunkBound | BadEntry(why: EntryError)

  /** A reported device identity: its provenance fields, the version absent when the frame omits it. */
  datatype Identity = Identity(name: seq<byte>, serial: nat, hardware: nat, firmware: nat, total: byte,
                               version: Option<byte>)

  function Unsigned32(a: byte, b: byte, c: byte, d: byte): nat {
    0x100_0000 * a + 0x1_0000 * b + 256 * c + d
  }

  function IdentityOf(payload: seq<byte>): Result<Identity, EntryError> {
    var (name, rest) :- ReadString(payload);
    if |rest| < 13 then Err(ShortPayload)
    else
      Ok(Identity(name, Unsigned32(rest[0], rest[1], rest[2], rest[3]),
                  Unsigned32(rest[4], rest[5], rest[6], rest[7]),
                  Unsigned32(rest[8], rest[9], rest[10], rest[11]), rest[12],
                  if |rest| > 13 then Some(rest[13]) else None))
  }

  // ---------------------------------------------------------------- what one frame says

  datatype Event =
    | Read(device: byte, host: byte, number: byte, chunk: byte)
    | Reported(origin: byte, identity: Identity)
    | Chunk(origin: byte, host: byte, number: byte, remaining: byte, data: seq<byte>, time: nat)
    | Ignored

  /** The meaning of one complete frame whose length and CRC have been checked. */
  function EventOf(time: nat, frame: seq<byte>): Result<Event, Error>
    requires |frame| >= 4
  {
    var kind := frame[2];
    if kind == PARAMETER_READ && |frame| >= 8 then Ok(Read(frame[3], frame[4], frame[5], frame[6]))
    else if kind != DEVICE_INFORMATION && kind != PARAMETER_ENTRY then Ok(Ignored)
    else if |frame| < 6 then Err(ShortExtendedFrame)
    else
      var payload := frame[5..|frame| - 1];
      if kind == DEVICE_INFORMATION then
        match IdentityOf(payload)
        case Err(why) => Err(BadEntry(why))
        case Ok(identity) => Ok(Reported(frame[4], identity))
      else if |payload| < 2 then Err(ShortEntryFrame)
      else Ok(Chunk(frame[4], frame[3], payload[0], payload[1], payload[2..], time))
  }

  /** The frame checks, in the order they are made. */
  function Checked(previous: Option<nat>, time: nat, frame: seq<byte>): Result<Event, Error> {
    if time >= TIME_LIMIT || (previous.Some? && time < previous.value) then Err(CaptureTime)
    else if !(4 <= |frame| <= 64) then Err(FrameBounds)
    else if frame[1] != |frame| - 2 || !(2 <= frame[1] <= 62) then Err(FrameLength)
    else if Crc.Crc8(frame[2..|frame| - 1]) != frame[|frame| - 1] then Err(FrameCrc)
    else EventOf(time, frame)
  }

  // ---------------------------------------------------------------- the state of the pass

  datatype Held = Held(number: byte, remaining: byte, data: seq<byte>, chunks: nat, time: nat, host: byte,
                       observedStart: bool)

  datatype StartBasis = Observed | Declared | Absent

  datatype Value = NotRead | Parsed(entry: Entry)

  datatype Row = Row(time: nat, origin: byte, host: byte, number: byte, chunks: nat, start: StartBasis,
                     identity: Option<Identity>, payload: seq<byte>, value: Value)

  datatype State = State(identities: map<byte, Identity>, pending: map<byte, Held>,
                         requests: map<(byte, byte), byte>, rows: seq<Row>, invalidated: nat)

  const START := State(map[], map[], map[], [], 0)

  /** The run a chunk continues or starts. */
  function Joined(st: State, c: Event): Result<Held, Error>
    requires c.Chunk?
  {
    if c.origin !in st.pending then
      var observed := (c.origin, c.host) in st.requests && st.requests[(c.origin, c.host)] == c.number;
      Ok(Held(c.number, c.remaining, c.data, 1, c.time, c.host, observed))
    else
      var held := st.pending[c.origin];
      if held.host != c.host then Err(DestinationChanged)
      else if held.number != c.number || c.remaining as int != held.remaining - 1 then Err(RunBreaks)
      else Ok(held.(remaining := c.remaining, data := held.data + c.data, chunks := held.chunks + 1))
  }

  /** The row of a completed run. A value is read only when the run's start is evidenced or declared. */
  function RowOf(held: Held, origin: byte, identity: Option<Identity>, declared: bool): Result<Row, Error> {
    var start := if held.observedStart then Observed else if declared then Declared else Absent;
    var row := Row(held.time, origin, held.host, held.number, held.chunks, start, identity, held.data, NotRead);
    if start == Absent then Ok(row)
    else
      match ReadEntry(held.data)
      case Err(why) => Err(BadEntry(why))
      case Ok(entry) => Ok(row.(value := Parsed(entry)))
  }

  function Step(st: State, event: Event, declared: bool): Result<State, Error> {
    match event
    case Ignored => Ok(st)
    case Read(device, host, number, chunk) =>
      if chunk == 0 then Ok(st.(requests := st.requests[(device, host) := number]))
      else Ok(st.(requests := st.requests - {(device, host)},
                  invalidated := st.invalidated + if (device, host) in st.requests then 1 else 0))
    case Reported(origin, identity) => Ok(st.(identities := st.identities[origin := identity]))
    case Chunk(origin, host, number, remaining, data, time) =>
      var held :- Joined(st, event);
      var requests := if origin in st.pending then st.requests else st.requests - {(origin, host)};
      if held.chunks > MAX_CHUNKS || |held.data| > MAX_ENTRY_BYTES then Err(ChunkBound)
      else if remaining != 0 then Ok(st.(requests := requests, pending := st.pending[origin := held]))
      else
        var row :- RowOf(held, origin, if origin in st.identities then Some(st.identities[origin]) else None,
                         declared);
        Ok(st.(requests := requests, pending := st.pending - {origin}, rows := st.rows + [row]))
  }

  /** The pass over a list of events. */
  function Pass(events: seq<Event>, declared: bool): Result<State, Error> {
    if events == [] then Ok(START)
    else
      var st :- Pass(events[..|events| - 1], declared);
      Step(st, events[|events| - 1], declared)
  }

  /** The pass over saved lines: check each, then take it; the first refusal wins. */
  datatype Line = Line(time: nat, frame: seq<byte>)

  function PreviousTime(lines: seq<Line>): Option<nat> {
    if lines == [] then None else Some(lines[|lines| - 1].time)
  }

  function Converted(lines: seq<Line>, declared: bool): Result<State, Error> {
    if lines == [] then Ok(START)
    else
      var before, last := lines[..|lines| - 1], lines[|lines| - 1];
      var st :- Converted(before, declared);
      var event :- Checked(PreviousTime(before), last.time, last.frame);
      Step(st, event, declared)
  }

  /** Once refused, a capture stays refused with the same reason. */
  lemma {:induction false} RefusalStands(lines: seq<Line>, k: nat, declared: bool)
    requires k <= |lines| && Converted(lines[..k], declared).Err?
    ensures Converted(lines, declared) == Err(Converted(lines[..k], declared).error)
    decreases |lines| - k
  {
    if k == |lines| {
      assert lines[..k] == lines;
    } else {
      assert lines[..k + 1][..k] == lines[..k];
      RefusalStands(lines, k + 1, declared);
    }
  }

  lemma NothingConverted(lines: seq<Line>, declared: bool)
    ensures Converted(lines[..0], declared) == Ok(START) && PreviousTime(lines[..0]) == None
  {
  }

  lemma ConvertedNext(lines: seq<Line>, i: nat, declared: bool)
    requires i < |lines| && Converted(lines[..i], declared).Ok?
    ensures PreviousTime(lines[..i + 1]) == Some(lines[i].time)
    ensures Converted(lines[..i + 1], declared)
            == match Checked(PreviousTime(lines[..i]), lines[i].time, lines[i].frame)
               case Err(e) => Err(e)
               case Ok(event) => Step(Converted(lines[..i], declared).value, event, declared)
  {
    hide Checked, Step;
    assert lines[..i + 1][..i] == lines[..i];
  }

  method Convert(lines: seq<Line>, declared: bool) returns (r: Result<State, Error>)
    ensures r == Converted(lines, declared)
  {
    hide EventOf, RowOf, Converted, PreviousTime, Crc.Crc8, CrcRegisters.ValueOf;
    NothingConverted(lines, declared);
    var identities: map<byte, Identity>, pending: map<byte, Held> := map[], map[];
    var requests: map<(byte, byte), byte>, rows: seq<Row> := map[], [];
    var invalidated: nat := 0;
    var previous: Option<nat> := None;
    var i := 0;
    while i < |lines|
      invariant 0 <= i <= |lines|
      invariant previous == PreviousTime(lines[..i])
      invariant Converted(lines[..i], declared) == Ok(State(identities, pending, requests, rows, invalidated))
    {
      var time, frame := lines[i].time, lines[i].frame;
      ConvertedNext(lines, i, declared);
      if Converted(lines[..i + 1], declared).Err? {
        RefusalStands(lines, i + 1, declared);
      }
      i := i + 1;
      if time >= TIME_LIMIT || (previous.Some? && time < previous.value) {
        return Err(CaptureTime);
      }
      previous := Some(time);
      if !(4 <= |frame| <= 64) {
        return Err(FrameBounds);
      }
      if frame[1] != |frame| - 2 || !(2 <= frame[1] <= 62) {
        return Err(FrameLength);
      }
      var crc := Crc.ComputeCrc8(frame[2..|frame| - 1]);
      if CrcRegisters.ValueOf(crc) != frame[|frame| - 1] {
        return Err(FrameCrc);
      }
      var read := EventOf(time, frame);
      if read.Err? {
        return Err(read.error);
      }
      match read.value
      case Ignored =>
      case Read(device, host, number, chunk) =>
        if chunk == 0 {
          requests := requests[(device, host) := number];
        } else {
          if (device, host) in requests {
            invalidated := invalidated + 1;
          }
          requests := requests - {(device, host)};
        }
      case Reported(origin, identity) =>
        identities := identities[origin := identity];
      case Chunk(origin, host, number, remaining, data, at) =>
        var held: Held;
        if origin !in pending {
          var observed := (origin, host) in requests && requests[(origin, host)] == number;
          requests := requests - {(origin, host)};
          held := Held(number, remaining, data, 1, at, host, observed);
        } else {
          held := pending[origin];
          if held.host != host {
            return Err(DestinationChanged);
          }
          if held.number != number || remaining as int != held.remaining - 1 {
            return Err(RunBreaks);
          }
          held := held.(remaining := remaining, data := held.data + data, chunks := held.chunks + 1);
        }
        if held.chunks > MAX_CHUNKS || |held.data| > MAX_ENTRY_BYTES {
          return Err(ChunkBound);
        }
        if remaining != 0 {
          pending := pending[origin := held];
        } else {
          pending := pending - {origin};
          var row := RowOf(held, origin, if origin in identities then Some(identities[origin]) else None, declared);
          if row.Err? {
            return Err(row.error);
          }
          rows := rows + [row.value];
        }
    }
    assert lines[..|lines|] == lines;
    return Ok(State(identities, pending, requests, rows, invalidated));
  }
}
