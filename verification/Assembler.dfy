/**
  * Rebuilding the streamed ULog from saved LOGGING_DATA / LOGGING_DATA_ACKED fragments. `Assemble` is the
  * converter's one pass over the capture; `Assembled` is the same pass as a fold over records, and module
  * Reassembly says what that fold means.
  */
module Assembler {
  import opened Common
  import opened Tlog
  import Crc
  import CrcRegisters
  import Ulog

  const LOGGING_DATA := 266
  const LOGGING_DATA_ACKED := 267
  const LOGGING_PAYLOAD_LEN := 255
  const LOGGING_DATA_LEN := 249
  const NO_MESSAGE_START := 255
  const SEQUENCE_MODULO := 65536
  const REORDER_GUARD := 32768
  const MAX_FRAGMENTS := 200_000
  const MAX_ULOG_BYTES := 32 * 1024 * 1024

  // ---------------------------------------------------------------- one fragment

  function Ascii(s: string): seq<byte> {
    seq(|s|, i requires 0 <= i < |s| => if s[i] < 128 as char then s[i] as int else 63)
  }

  /** Wire order of both logging messages. */
  function LoggingFields(): seq<Crc.WireField> {
    [ Crc.WireField(Ascii("uint16_t"), Ascii("sequence"), 0),
      Crc.WireField(Ascii("uint8_t"), Ascii("target_system"), 0),
      Crc.WireField(Ascii("uint8_t"), Ascii("target_component"), 0),
      Crc.WireField(Ascii("uint8_t"), Ascii("length"), 0),
      Crc.WireField(Ascii("uint8_t"), Ascii("first_message_offset"), 0),
      Crc.WireField(Ascii("uint8_t"), Ascii("data"), 249) ]
  }

  predicate IsLogging(msgid: nat) {
    msgid == LOGGING_DATA || msgid == LOGGING_DATA_ACKED
  }

  function LoggingCrcExtra(msgid: nat): byte {
    Crc.ExtraOf(if msgid == LOGGING_DATA then Ascii("LOGGING_DATA") else Ascii("LOGGING_DATA_ACKED"),
                LoggingFields())
  }

  /** The CRC a logging frame must carry: its covered bytes, then the message's CRC_EXTRA. */
  function FrameCrc(msgid: nat, crcInput: seq<byte>): nat {
    CrcRegisters.WordOf(Crc.Crc16([LoggingCrcExtra(msgid)], Crc.Crc16(crcInput, 0xFFFF)))
  }

  datatype Sender = Sender(sysid: byte, compid: byte)

  datatype Fragment = Fragment(tlogOffset: nat, timestampWord: nat, msgid: nat, version: nat,
                               mavlinkSequence: byte, signed: bool, sender: Sender, targetSystem: byte,
                               targetComponent: byte, sequence: nat, length: nat, firstMessageOffset: byte,
                               data: seq<byte>)

  /** MAVLink2 truncates trailing zeros; exactly those are restored. */
  function Padded(payload: seq<byte>): (p: seq<byte>)
    ensures |p| >= LOGGING_PAYLOAD_LEN
    ensures |payload| <= LOGGING_PAYLOAD_LEN ==> |p| == LOGGING_PAYLOAD_LEN
  {
    if |payload| >= LOGGING_PAYLOAD_LEN then payload else payload + Zeros(LOGGING_PAYLOAD_LEN - |payload|)
  }

  function FragmentOf(record: Record): (r: Result<Fragment, Refusal>)
    ensures r.Ok? ==> r.value.length == |r.value.data| <= LOGGING_DATA_LEN && r.value.sequence < SEQUENCE_MODULO
    ensures r.Ok? ==> r.value.sender == Sender(record.sysid, record.compid) && r.value.msgid == record.msgid
  {
    if FrameCrc(record.msgid, record.crcInput) != record.crc then Err(CrcMismatch)
    else FieldsOf(record, Padded(record.payload))
  }

  function FieldsOf(record: Record, padded: seq<byte>): (r: Result<Fragment, Refusal>)
    requires |padded| >= LOGGING_PAYLOAD_LEN
    ensures r.Ok? ==> r.value.length == |r.value.data| <= LOGGING_DATA_LEN && r.value.sequence < SEQUENCE_MODULO
    ensures r.Ok? ==> r.value.sender == Sender(record.sysid, record.compid) && r.value.msgid == record.msgid
  {
    var length: nat := padded[4];
    if length > LOGGING_DATA_LEN then Err(InvalidLength)
    else if padded[5] != NO_MESSAGE_START && padded[5] > padded[4] then Err(InvalidFirstMessageOffset)
    else
      Ok(Fragment(record.tlogOffset, record.timestampWord, record.msgid, record.version,
                  record.mavlinkSequence, record.signed, Sender(record.sysid, record.compid), padded[2],
                  padded[3], Word16(padded[0], padded[1]), length, padded[5], padded[6..6 + length]))
  }

  // ---------------------------------------------------------------- the pass over the capture

  /** A retained fragment and where it went: appended at an output range, or collapsed onto an earlier one. */
  datatype Reference = Reference(fragment: Fragment, collapsedDuplicateOf: Option<nat>,
                                 outputStart: Option<nat>, outputEnd: Option<nat>)

  datatype State = State(records: nat, unrelated: map<nat, seq<nat>>, senders: map<Sender, nat>,
                         selected: Option<Sender>, out: seq<byte>, retained: seq<Reference>,
                         previous: Option<Fragment>, loggingFragments: nat, selectedFragments: nat,
                         duplicates: nat, wraps: nat, acked: nat)

  function Init(source: Option<Sender>): State {
    State(0, map[], map[], source, [], [], None, 0, 0, 0, 0, 0)
  }

  function Listed(unrelated: map<nat, seq<nat>>, msgid: nat, offset: nat): map<nat, seq<nat>> {
    unrelated[msgid := (if msgid in unrelated then unrelated[msgid] else []) + [offset]]
  }

  function Counted(senders: map<Sender, nat>, sender: Sender): map<Sender, nat> {
    senders[sender := (if sender in senders then senders[sender] else 0) + 1]
  }

  function Take(st: State, record: Record, source: Option<Sender>): Result<State, Refusal> {
    if !IsLogging(record.msgid) then
      Ok(st.(records := st.records + 1, unrelated := Listed(st.unrelated, record.msgid, record.tlogOffset)))
    else
      var fragment :- FragmentOf(record);
      var st1 := st.(records := st.records + 1, loggingFragments := st.loggingFragments + 1,
                     senders := Counted(st.senders, fragment.sender),
                     selected := if st.selected.None? then Some(fragment.sender) else st.selected);
      if Some(fragment.sender) != st1.selected then
        if source.None? then Err(AmbiguousLoggingSources) else Ok(st1)
      else Collect(st1, fragment)
  }

  function Collect(st: State, fragment: Fragment): Result<State, Refusal> {
    if st.selectedFragments + 1 > MAX_FRAGMENTS then Err(TooManyFragments)
    else
      var st1 := st.(selectedFragments := st.selectedFragments + 1,
                     acked := st.acked + if fragment.msgid == LOGGING_DATA_ACKED then 1 else 0);
      if st.previous.None? then
        if fragment.firstMessageOffset != 0 then Err(CaptureStartsMidMessage) else Append(st1, fragment)
      else
        var previous := st.previous.value;
        var step := (fragment.sequence - previous.sequence) % SEQUENCE_MODULO;
        if step == 0 then
          if fragment.data != previous.data || fragment.length != previous.length then Err(DuplicateConflict)
          else Ok(st1.(duplicates := st.duplicates + 1,
                       retained := st.retained + [Reference(fragment, Some(previous.tlogOffset), None, None)]))
        else if step != 1 then
          Err(if step <= REORDER_GUARD then SequenceGap else SequenceOutOfOrder)
        else
          Append(st1.(wraps := st.wraps + if fragment.sequence < previous.sequence then 1 else 0), fragment)
  }

  function Append(st: State, fragment: Fragment): Result<State, Refusal> {
    var out := st.out + fragment.data;
    if |out| > MAX_ULOG_BYTES then Err(UlogTooLarge)
    else Ok(st.(out := out, previous := Some(fragment),
                retained := st.retained + [Reference(fragment, None, Some(|st.out|), Some(|out|))]))
  }

  /** Read and take the records of `rest` in recording order; the first refusal wins. */
  function Scan(rest: seq<byte>, offset: nat, st: State, source: Option<Sender>): Result<State, Refusal>
    decreases |rest|
  {
    if rest == [] then Ok(st)
    else if st.records >= MAX_RECORDS then Err(TooManyRecords)
    else
      var record :- RecordAt(rest, offset);
      var st1 :- Take(st, record, source);
      Scan(rest[8 + record.frameBytes..], offset + 8 + record.frameBytes, st1, source)
  }

  lemma ScanEnd(rest: seq<byte>, offset: nat, st: State, source: Option<Sender>)
    requires rest == []
    ensures Scan(rest, offset, st, source) == Ok(st)
  {
  }

  lemma ScanRefusals(rest: seq<byte>, offset: nat, st: State, source: Option<Sender>)
    requires rest != []
    ensures st.records >= MAX_RECORDS ==> Scan(rest, offset, st, source) == Err(TooManyRecords)
    ensures st.records < MAX_RECORDS && RecordAt(rest, offset).Err?
            ==> Scan(rest, offset, st, source) == Err(RecordAt(rest, offset).error)
  {
    hide RecordAt;
  }

  lemma ScanStep(rest: seq<byte>, offset: nat, st: State, source: Option<Sender>)
    requires rest != [] && st.records < MAX_RECORDS && RecordAt(rest, offset).Ok?
    ensures var record := RecordAt(rest, offset).value;
            && 8 + record.frameBytes <= |rest|
            && Scan(rest, offset, st, source)
               == match Take(st, record, source)
                  case Err(e) => Err(e)
                  case Ok(st1) =>
                    Scan(rest[8 + record.frameBytes..], offset + 8 + record.frameBytes, st1, source)
  {
    hide RecordAt, Take;
    ghost var f := EncodedAtRecord(rest, offset);
  }

  datatype Assembly = Assembly(ulog: seq<byte>, selectedSource: Option<Sender>, otherSources: map<Sender, nat>,
                               records: nat, loggingFragments: nat, selectedFragments: nat,
                               appendedFragments: int, collapsedDuplicates: nat, sequenceWraps: nat,
                               ackedFragments: nat, unackedFragments: int, unrelatedFrames: nat,
                               messageCounts: map<byte, nat>, fragments: seq<Reference>,
                               unrelated: map<nat, seq<nat>>)

  /** The sum of all counts. */
  ghost function Total<K(!new)>(counts: map<K, nat>): nat
    decreases |counts|
  {
    if counts == map[] then 0
    else
      var key :| key in counts;
      counts[key] + Total(counts - {key})
  }

  lemma {:induction false} TotalPick<K(!new)>(counts: map<K, nat>, key: K)
    requires key in counts
    ensures Total(counts) == counts[key] + Total(counts - {key})
    decreases |counts|
  {
    var first :| first in counts && Total(counts) == counts[first] + Total(counts - {first});
    if first != key {
      var rest := counts - {first};
      assert |rest| < |counts|;
      TotalPick(rest, key);
      TotalPick(counts - {key}, first);
      assert rest - {key} == counts - {key} - {first};
    }
  }

  /** How many frames each unrelated message id has. */
  function FrameCounts(unrelated: map<nat, seq<nat>>): map<nat, nat> {
    map msgid <- unrelated :: |unrelated[msgid]|
  }

  ghost function Finish(st: State, source: Option<Sender>): Result<Assembly, Refusal> {
    if st.loggingFragments == 0 then Err(NoLoggingFragments)
    else if source.Some? && source.value !in st.senders then Err(SourceNotPresent)
    else
      var counts :- Ulog.CountsOf(st.out);
      Ok(Assembly(st.out, st.selected, if st.selected.Some? then st.senders - {st.selected.value} else st.senders,
                  st.records, st.loggingFragments, st.selectedFragments, st.selectedFragments - st.duplicates,
                  st.duplicates, st.wraps, st.acked, st.selectedFragments - st.acked,
                  Total(FrameCounts(st.unrelated)), counts, st.retained, st.unrelated))
  }

  ghost function Assembled(data: seq<byte>, source: Option<Sender>): Result<Assembly, Refusal> {
    if |data| > MAX_INPUT_BYTES then Err(InputTooLarge)
    else
      var st :- Scan(data, 0, Init(source), source);
      Finish(st, source)
  }

  // ---------------------------------------------------------------- the converter

  method SumFrames(unrelated: map<nat, seq<nat>>) returns (total: nat)
    ensures total == Total(FrameCounts(unrelated))
  {
    total := 0;
    var rest := unrelated;
    while rest != map[]
      invariant total + Total(FrameCounts(rest)) == Total(FrameCounts(unrelated))
      decreases |rest|
    {
      var msgid :| msgid in rest;
      TotalPick(FrameCounts(rest), msgid);
      assert FrameCounts(rest) - {msgid} == FrameCounts(rest - {msgid});
      total := total + |rest[msgid]|;
      rest := rest - {msgid};
    }
  }

  method Logging(record: Record) returns (r: Result<Fragment, Refusal>)
    ensures r == FragmentOf(record)
  {
    hide LoggingFields;
    var crc := Crc.CrcX25(record.crcInput, 0xFFFF);
    crc := Crc.CrcX25([LoggingCrcExtra(record.msgid)], crc);
    if CrcRegisters.WordOf(crc) != record.crc {
      return Err(CrcMismatch);
    }
    return FieldsOf(record, Padded(record.payload));
  }

  /** Append the selected sender's next fragment, or collapse an immediate repeat, or refuse. */
  method TakeFragment(fragment: Fragment, out: seq<byte>, retained: seq<Reference>, previous: Option<Fragment>,
                      selectedFragments: nat, duplicates: nat, wraps: nat, acked: nat, ghost st: State)
    returns (refusal: Option<Refusal>, out': seq<byte>, retained': seq<Reference>, previous': Option<Fragment>,
             selectedFragments': nat, duplicates': nat, wraps': nat, acked': nat)
    requires st == st.(out := out, retained := retained, previous := previous, selectedFragments := selectedFragments,
                       duplicates := duplicates, wraps := wraps, acked := acked)
    ensures Collect(st, fragment)
         == match refusal
            case Some(e) => Err(e)
            case None => Ok(st.(out := out', retained := retained', previous := previous',
                                selectedFragments := selectedFragments', duplicates := duplicates',
                                wraps := wraps', acked := acked'))
  {
    refusal, out', retained', previous' := None, out, retained, previous;
    selectedFragments', duplicates', wraps', acked' := selectedFragments + 1, duplicates, wraps, acked;
    if selectedFragments' > MAX_FRAGMENTS {
      refusal := Some(TooManyFragments);
      return;
    }
    if fragment.msgid == LOGGING_DATA_ACKED {
      acked' := acked + 1;
    }
    if previous.None? {
      if fragment.firstMessageOffset != 0 {
        refusal := Some(CaptureStartsMidMessage);
        return;
      }
    } else {
      var step := (fragment.sequence - previous.value.sequence) % SEQUENCE_MODULO;
      if step == 0 {
        if fragment.data != previous.value.data || fragment.length != previous.value.length {
          refusal := Some(DuplicateConflict);
          return;
        }
        duplicates' := duplicates + 1;
        retained' := retained + [Reference(fragment, Some(previous.value.tlogOffset), None, None)];
        return;
      }
      if step != 1 {
        refusal := Some(if step <= REORDER_GUARD then SequenceGap else SequenceOutOfOrder);
        return;
      }
      if fragment.sequence < previous.value.sequence {
        wraps' := wraps + 1;
      }
    }
    var start := |out|;
    out' := out + fragment.data;
    if |out'| > MAX_ULOG_BYTES {
      refusal := Some(UlogTooLarge);
      return;
    }
    retained' := retained + [Reference(fragment, None, Some(start), Some(|out'|))];
    previous' := Some(fragment);
  }

  lemma SliceOn(data: seq<byte>, offset: nat, n: nat)
    requires offset + n <= |data|
    ensures data[offset..][n..] == data[offset + n..]
  {
  }

  method Assemble(data: seq<byte>, source: Option<Sender>) returns (r: Result<Assembly, Refusal>)
    ensures r == Assembled(data, source)
  {
    hide RecordAt, FragmentOf, Ulog.CountsOf, Total, Scan, FrameCounts, Collect;
    if |data| > MAX_INPUT_BYTES {
      return Err(InputTooLarge);
    }
    var unrelated: map<nat, seq<nat>>, senders: map<Sender, nat> := map[], map[];
    var selected, previous: Option<Fragment> := source, None;
    var out: seq<byte>, retained: seq<Reference> := [], [];
    var records: nat, loggingFragments: nat, selectedFragments: nat := 0, 0, 0;
    var duplicates: nat, wraps: nat, acked: nat := 0, 0, 0;
    var offset: nat := 0;
    while offset < |data|
      invariant offset <= |data|
      invariant Scan(data[offset..], offset,
                     State(records, unrelated, senders, selected, out, retained, previous, loggingFragments,
                           selectedFragments, duplicates, wraps, acked), source)
                == Scan(data, 0, Init(source), source)
    {
      ghost var st := State(records, unrelated, senders, selected, out, retained, previous, loggingFragments,
                            selectedFragments, duplicates, wraps, acked);
      ScanRefusals(data[offset..], offset, st, source);
      if records >= MAX_RECORDS {
        return Err(TooManyRecords);
      }
      var read := RecordAt(data[offset..], offset);
      if read.Err? {
        return Err(read.error);
      }
      var record := read.value;
      var next := offset + 8 + record.frameBytes;
      ScanStep(data[offset..], offset, st, source);
      SliceOn(data, offset, 8 + record.frameBytes);
      offset := next;
      records := records + 1;
      if !IsLogging(record.msgid) {
        unrelated := Listed(unrelated, record.msgid, record.tlogOffset);
        continue;
      }
      var logging := Logging(record);
      if logging.Err? {
        return Err(logging.error);
      }
      var fragment := logging.value;
      loggingFragments := loggingFragments + 1;
      senders := Counted(senders, fragment.sender);
      if selected.None? {
        selected := Some(fragment.sender);
      }
      if Some(fragment.sender) != selected {
        if source.None? {
          return Err(AmbiguousLoggingSources);
        }
        continue;
      }
      var refusal: Option<Refusal>;
      ghost var st1 := st.(records := records, loggingFragments := loggingFragments, senders := senders,
                           selected := selected);
      refusal, out, retained, previous, selectedFragments, duplicates, wraps, acked :=
        TakeFragment(fragment, out, retained, previous, selectedFragments, duplicates, wraps, acked, st1);
      if refusal.Some? {
        return Err(refusal.value);
      }
    }
    ScanEnd(data[offset..], offset, State(records, unrelated, senders, selected, out, retained, previous,
                                          loggingFragments, selectedFragments, duplicates, wraps, acked), source);
    if loggingFragments == 0 {
      return Err(NoLoggingFragments);
    }
    if source.Some? && source.value !in senders {
      return Err(SourceNotPresent);
    }
    var counts := Ulog.MessageCounts(out);
    if counts.Err? {
      return Err(counts.error);
    }
    var unrelatedFrames := SumFrames(unrelated);
    return Ok(Assembly(out, selected, if selected.Some? then senders - {selected.value} else senders, records,
                       loggingFragments, selectedFragments, selectedFragments - duplicates, duplicates, wraps,
                       acked, selectedFragments - acked, unrelatedFrames, counts.value, retained, unrelated));
  }
}
