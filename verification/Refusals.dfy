/**
  * Why reassembly refuses a capture. Every refusal names the first thing that is wrong, in terms of the capture's
  * bytes, its frames and the fragments before it: `RefusedExactly` says so in both directions, for every input.
  */
module Refusals {
  import opened Common
  import opened Tlog
  import opened Assembler
  import opened Reassembly
  import opened Reconstruction
  import Ulog

  // ---------------------------------------------------------------- bytes that are no record

  /** What is wrong with bytes at which no record can be read. */
  ghost predicate Torn(rest: seq<byte>, e: Refusal)
    requires rest != []
  {
    match e
    case TruncatedRecord => |rest| < 14
    case UnexpectedFrameStart => |rest| >= 14 && rest[8] != 0xFE && rest[8] != 0xFD
    case TruncatedFrame => 14 <= |rest| < 18 && rest[8] == 0xFD
    case UnsupportedIncompatFlag => |rest| >= 18 && rest[8] == 0xFD && rest[10] >= 2
    case FrameExceedsInput => |rest| >= 14 && (rest[8] == 0xFD ==> |rest| >= 18) && CutOff(rest)
    case _ => false
  }

  /** The bytes are the beginning of a frame, but not all of it. */
  ghost predicate CutOff(rest: seq<byte>) {
    exists f: Frame :: f.Valid() && rest < f.Encode()
  }

  lemma TornExactly(rest: seq<byte>, offset: nat, e: Refusal)
    requires rest != []
    ensures RecordAt(rest, offset) == Err(e) <==> Torn(rest, e)
  {
    hide Frame.Encode, Frame.Valid, Word16, Word24, BigEndian, CutOff;
    if RecordAt(rest, offset) == Err(FrameExceedsInput) {
      ExceedsIsCut(rest, offset);
    }
    if CutOff(rest) && |rest| >= 14 && (rest[8] == 0xFD ==> |rest| >= 18) {
      CutExceeds(rest, offset);
    }
  }

  lemma ExceedsIsCut(rest: seq<byte>, offset: nat)
    requires RecordAt(rest, offset) == Err(FrameExceedsInput)
    ensures CutOff(rest)
  {
    hide Frame.Encode, Frame.Valid, Word16, Word24, BigEndian;
    var longer := rest + Zeros(MAX_FRAME_BYTES);
    assert longer[8] == rest[8] && longer[9] == rest[9] && longer[10] == rest[10];
    var f := EncodedAtRecord(longer, offset);
    assert |f.Encode()| > |rest|;
    assert rest == longer[..|rest|] == f.Encode()[..|rest|];
  }

  lemma CutExceeds(rest: seq<byte>, offset: nat)
    requires |rest| >= 14 && (rest[8] == 0xFD ==> |rest| >= 18) && CutOff(rest)
    ensures RecordAt(rest, offset) == Err(FrameExceedsInput)
  {
    hide Frame.Encode, Frame.Valid, Word16, Word24, BigEndian;
    var f: Frame :| f.Valid() && rest < f.Encode();
    RecordAtEncoded(f, [], offset);
    var whole := f.Encode();
    assert whole + [] == whole;
    assert whole[8] == rest[8] && whole[9] == rest[9] && whole[10] == rest[10];
  }

  // ---------------------------------------------------------------- a frame that cannot be taken

  /** A payload byte, where truncated trailing zeros count as zeros. */
  function ByteOf(payload: seq<byte>, k: nat): byte {
    if k < |payload| then payload[k] else 0
  }

  /** What is wrong with a logging frame by itself: its CRC, then its length, then its first message offset. */
  ghost predicate Unreadable(f: Frame, e: Refusal)
    requires f.Valid()
  {
    var sound := FrameCrc(f.msgid, f.CrcInput()) == f.crc;
    var length, first := ByteOf(f.payload, 4), ByteOf(f.payload, 5);
    match e
    case CrcMismatch => !sound
    case InvalidLength => sound && length > 249
    case InvalidFirstMessageOffset => sound && length <= 249 && first != 255 && first > length
    case _ => false
  }

  lemma UnreadableExactly(f: Frame, offset: nat, e: Refusal)
    requires f.Valid()
    ensures Reading(f, offset) == Err(e) <==> Unreadable(f, e)
  {
    hide FrameCrc;
    var padded := Padded(f.payload);
    assert padded[4] == ByteOf(f.payload, 4) && padded[5] == ByteOf(f.payload, 5);
  }

  /** What is wrong with a fragment after those collected before it. */
  ghost predicate Unfit(frs: seq<Fragment>, f: Fragment, e: Refusal) {
    if e == TooManyFragments then |frs| >= 200_000
    else if |frs| >= 200_000 then false
    else if frs == [] then
      || (e == CaptureStartsMidMessage && f.firstMessageOffset != 0)
      || (e == UlogTooLarge && f.firstMessageOffset == 0 && |f.data| > 32 * 1024 * 1024)
    else
      var last := frs[|frs| - 1];
      match e
      case DuplicateConflict => f.sequence == last.sequence && (f.data != last.data || f.length != last.length)
      case SequenceGap => exists d | 2 <= d <= 32768 :: f.sequence == Ahead(last.sequence, d)
      case SequenceOutOfOrder => exists d | 1 <= d < 32768 :: last.sequence == Ahead(f.sequence, d)
      case UlogTooLarge => f.sequence == Ahead(last.sequence, 1) && |Joined(frs)| + |f.data| > 32 * 1024 * 1024
      case _ => false
  }

  /** The sequence number `d` steps after another. */
  function Ahead(sequence: nat, d: nat): nat {
    (sequence + d) % 65536
  }

  /** The forward step between two numbers: none, the next, ahead by at most half the numbers, or behind. */
  lemma StepIs(a: nat, b: nat)
    requires a < 65536 && b < 65536
    ensures var step := (b - a) % 65536;
            && b == Ahead(a, step) && (step != 0 ==> a == Ahead(b, 65536 - step))
            && forall d: nat | d < 65536 ::
                 (b == Ahead(a, d) ==> d == step) && (a == Ahead(b, d) ==> d == (a - b) % 65536)
  {
  }

  lemma StepsApart(a: nat, b: nat)
    requires a < 65536 && b < 65536
    ensures var step := (b - a) % 65536;
            && (step == 0 <==> b == a) && (step == 1 <==> b == Ahead(a, 1))
            && (2 <= step <= 32768 <==> exists d | 2 <= d <= 32768 :: b == Ahead(a, d))
            && (step > 32768 <==> exists d | 1 <= d < 32768 :: a == Ahead(b, d))
  {
    hide Ahead;
    StepIs(a, b);
    StepIs(b, a);
    var step := (b - a) % 65536;
    assert a == Ahead(a, 0) by { StepIs(a, a); }
    if step > 32768 {
      assert a == Ahead(b, 65536 - step);
    }
    if d :| 1 <= d < 32768 && a == Ahead(b, d) {
      assert d == (a - b) % 65536;
    }
  }

  lemma UnfitExactly(st: State, frs: seq<Fragment>, f: Fragment, e: Refusal)
    requires Collected(st, frs) && Acceptable(frs) && f.sequence < SEQUENCE_MODULO
    ensures Collect(st, f) == Err(e) <==> Unfit(frs, f, e)
  {
    hide Joined, NewOnes, InSequence, References, WrapCount, AckedCount, LastNew, Ahead;
    if frs == [] {
      JoinedNothing();
      assert st.previous.None? by { NothingNew(); }
    } else {
      assert Acceptable(frs);
      LastNewStandsIn(frs);
      StepsApart(frs[|frs| - 1].sequence, f.sequence);
    }
  }

  lemma NothingNew()
    ensures LastNew([]) == None
  {
  }

  /** What is wrong with a frame after those taken before it. */
  ghost predicate BadFrame(before: seq<Frame>, f: Frame, source: Option<Sender>, e: Refusal)
    requires AllValid(before) && f.Valid()
  {
    && Logs(f)
    && match Reading(f, |EncodeAll(before)|)
       case Err(_) => Unreadable(f, e)
       case Ok(fragment) =>
         if Chosen(before, source).Some? && Chosen(before, source) != Some(SenderOf(f))
         then source.None? && e == AmbiguousLoggingSources
         else Unfit(Picked(before, source), fragment, e)
  }

  lemma BadFrameExactly(st: State, before: seq<Frame>, f: Frame, source: Option<Sender>, e: Refusal)
    requires AllValid(before) && f.Valid() && Gathered(st, before, source) && Admissible(before, source)
    ensures Take(st, f.AsRecord(|EncodeAll(before)|), source) == Err(e) <==> BadFrame(before, f, source, e)
  {
    hide FragmentOf, Unreadable, Unfit, Collected, Collect, Picked, Admissible, Frame.CrcInput, Frame.Encode,
         Frame.Valid, Take, Gathered, Noted, Reading, EncodeAll;
    var offset := |EncodeAll(before)|;
    UnreadableExactly(f, offset, e);
    Taken(st, f, offset, source);
    Selects(st, before, source);
    if Logs(f) && Reading(f, offset).Ok? {
      NotedUnfit(st, before, f, source, e);
    }
  }

  lemma Selects(st: State, before: seq<Frame>, source: Option<Sender>)
    requires AllValid(before) && Gathered(st, before, source)
    ensures st.selected == Chosen(before, source)
  {
  }

  lemma NotedUnfit(st: State, before: seq<Frame>, f: Frame, source: Option<Sender>, e: Refusal)
    requires AllValid(before) && f.Valid() && Gathered(st, before, source) && Admissible(before, source)
    requires Reading(f, |EncodeAll(before)|).Ok?
    ensures Collect(Noted(st, f), Reading(f, |EncodeAll(before)|).value) == Err(e)
       <==> Unfit(Picked(before, source), Reading(f, |EncodeAll(before)|).value, e)
  {
    hide Unfit, Collected, Collect, Picked, Acceptable, AllRead, OneSender, Frame.CrcInput, Frame.Encode, Frame.Valid;
    CollectedElsewhere(st, Noted(st, f), Picked(before, source));
    UnfitExactly(Noted(st, f), Picked(before, source), Reading(f, |EncodeAll(before)|).value, e);
  }

  /** The counters after a readable logging frame, before it is collected. */
  function Noted(st: State, f: Frame): State {
    st.(records := st.records + 1, loggingFragments := st.loggingFragments + 1,
        senders := Counted(st.senders, SenderOf(f)),
        selected := if st.selected.None? then Some(SenderOf(f)) else st.selected)
  }

  lemma Taken(st: State, f: Frame, offset: nat, source: Option<Sender>)
    requires f.Valid()
    ensures !Logs(f) ==> Take(st, f.AsRecord(offset), source).Ok?
    ensures Logs(f) ==>
              Take(st, f.AsRecord(offset), source)
              == match Reading(f, offset)
                 case Err(e) => Err(e)
                 case Ok(fragment) =>
                   if st.selected.Some? && st.selected != Some(SenderOf(f)) then
                     if source.None? then Err(AmbiguousLoggingSources) else Ok(Noted(st, f))
                   else Collect(Noted(st, f), fragment)
  {
    hide FragmentOf, Collect, Frame.CrcInput, Frame.Encode, Frame.Valid;
  }

  // ---------------------------------------------------------------- an end that is not enough

  /** What is wrong with a capture all of whose frames could be taken. */
  ghost predicate BadEnd(frames: seq<Frame>, source: Option<Sender>, e: Refusal)
    requires AllValid(frames)
  {
    var frs := Picked(frames, source);
    match e
    case NoLoggingFragments => forall i | 0 <= i < |frames| :: !Logs(frames[i])
    case SourceNotPresent =>
      source.Some? && frs == [] && exists i | 0 <= i < |frames| :: Logs(frames[i])
    case NoUlogHeader => frs != [] && !Ulog.HasHeader(Joined(frs))
    case TruncatedUlogMessage =>
      frs != [] && Ulog.HasHeader(Joined(frs)) && !exists ms :: Ulog.IsUlog(Joined(frs), ms)
    case _ => false
  }

  lemma {:induction false} WalkTruncated(rest: seq<byte>, counts: map<byte, nat>)
    ensures Ulog.Walk(rest, counts).Err? ==> Ulog.Walk(rest, counts) == Err(TruncatedUlogMessage)
    decreases |rest|
  {
    if |rest| >= 3 && |rest| - 3 >= Word16(rest[0], rest[1]) {
      WalkTruncated(rest[3 + Word16(rest[0], rest[1])..], Ulog.Bump(counts, rest[2]));
    }
  }

  lemma {:induction false} LogsCounted(frames: seq<Frame>)
    ensures LoggingCount(frames) == 0 <==> forall i | 0 <= i < |frames| :: !Logs(frames[i])
  {
    if frames != [] {
      LogsCounted(frames[..|frames| - 1]);
    }
  }

  lemma UlogRefused(data: seq<byte>, e: Refusal)
    ensures Ulog.CountsOf(data) == Err(e)
       <==> || (e == NoUlogHeader && !Ulog.HasHeader(data))
            || (e == TruncatedUlogMessage && Ulog.HasHeader(data) && !exists ms :: Ulog.IsUlog(data, ms))
  {
    hide Ulog.Walk, Ulog.HasHeader, Ulog.IsUlog;
    Ulog.CountsOfUlog(data);
    if Ulog.HasHeader(data) {
      assert |data| >= Ulog.ULOG_HEADER_LEN by { HeaderFits(data); }
      WalkTruncated(data[Ulog.ULOG_HEADER_LEN..], map[]);
    }
  }

  lemma HeaderFits(data: seq<byte>)
    requires Ulog.HasHeader(data)
    ensures |data| >= Ulog.ULOG_HEADER_LEN
  {
  }

  lemma BadEndExactly(st: State, frames: seq<Frame>, source: Option<Sender>, e: Refusal)
    requires AllValid(frames) && Gathered(st, frames, source) && Admissible(frames, source)
    ensures Finish(st, source) == Err(e) <==> BadEnd(frames, source, e)
  {
    hide Collected, Picked, Acceptable, AllRead, OneSender, Joined, Total, FrameCounts, Ulog.CountsOf, Ulog.HasHeader,
         Ulog.IsUlog;
    PresentExactly(frames, source);
    GatheredOut(st, frames, source);
    LogsCounted(frames);
    UlogRefused(st.out, e);
  }

  // ---------------------------------------------------------------- the first fault of a capture

  /** What stops the pass after `frames`, at the bytes `rest`. */
  ghost predicate Fault(frames: seq<Frame>, rest: seq<byte>, source: Option<Sender>, e: Refusal)
    requires AllValid(frames)
  {
    if rest == [] then BadEnd(frames, source, e)
    else if |frames| >= 2_000_000 then e == TooManyRecords
    else Torn(rest, e) || BadFrameAhead(frames, rest, source, e)
  }

  ghost predicate BadFrameAhead(frames: seq<Frame>, rest: seq<byte>, source: Option<Sender>, e: Refusal)
    requires AllValid(frames)
  {
    exists f: Frame :: f.Valid() && f.Encode() <= rest && BadFrame(frames, f, source, e)
  }

  ghost predicate FrameAhead(frames: seq<Frame>, rest: seq<byte>, source: Option<Sender>) {
    exists f: Frame :: f.Valid() && f.Encode() <= rest && AllValid(frames + [f]) && Admissible(frames + [f], source)
  }

  /** The capture is these frames, all of which can be taken, and then the fault. */
  ghost predicate StopsAt(data: seq<byte>, frames: seq<Frame>, rest: seq<byte>, source: Option<Sender>, e: Refusal) {
    && AllValid(frames) && data == EncodeAll(frames) + rest && Admissible(frames, source)
    && Fault(frames, rest, source, e)
  }

  /** Scanning goes through written frames to whatever follows them. */
  lemma {:induction false} ScanThrough(frames: seq<Frame>, rest: seq<byte>, offset: nat, st: State,
                                       source: Option<Sender>)
    requires AllValid(frames) && Play(frames, offset, st, source).Ok?
    ensures Scan(EncodeAll(frames) + rest, offset, st, source)
         == Scan(rest, offset + |EncodeAll(frames)|, Play(frames, offset, st, source).value, source)
    decreases |frames|
  {
    hide Take, RecordAt, Scan, Frame.Encode, Frame.Valid;
    if frames == [] {
      assert EncodeAll(frames) + rest == rest;
    } else {
      var f, later := frames[0], EncodeAll(frames[1..]) + rest;
      var whole := EncodeAll(frames) + rest;
      assert whole == f.Encode() + later;
      RecordAtEncoded(f, later, offset);
      ScanStep(whole, offset, st, source);
      assert whole[|f.Encode()|..] == later;
      var taken := Take(st, f.AsRecord(offset), source);
      ScanThrough(frames[1..], rest, offset + |f.Encode()|, taken.value, source);
    }
  }

  /** After frames that can be taken, the pass goes on at the rest from what they determine. */
  lemma GoesOn(data: seq<byte>, frames: seq<Frame>, rest: seq<byte>, source: Option<Sender>) returns (st: State)
    requires AllValid(frames) && data == EncodeAll(frames) + rest && Admissible(frames, source)
    requires |data| <= MAX_INPUT_BYTES
    ensures Gathered(st, frames, source) && st.records == |frames|
    ensures Scan(data, 0, Init(source), source) == Scan(rest, |EncodeAll(frames)|, st, source)
  {
    hide Take, Play, Scan, Admissible;
    PlayExactly(frames, source);
    st := Play(frames, 0, Init(source), source).value;
    ScanThrough(frames, rest, 0, Init(source), source);
  }

  lemma NoRecordNoFrame(rest: seq<byte>, offset: nat)
    ensures forall f: Frame :: f.Valid() && f.Encode() <= rest ==> RecordAt(rest, offset) == Ok(f.AsRecord(offset))
  {
    hide RecordAt, Frame.Encode, Frame.Valid, Frame.AsRecord;
    forall f: Frame | f.Valid() && f.Encode() <= rest
      ensures RecordAt(rest, offset) == Ok(f.AsRecord(offset))
    {
      RecordAtEncoded(f, rest[|f.Encode()|..], offset);
      assert f.Encode() + rest[|f.Encode()|..] == rest;
    }
  }

  /** At a frame the pass stops exactly with what is wrong with it, and otherwise the frame can be taken. */
  lemma StopsAtFrame(frames: seq<Frame>, rest: seq<byte>, st: State, source: Option<Sender>, e: Refusal)
    requires AllValid(frames) && Gathered(st, frames, source) && Admissible(frames, source) && st.records == |frames|
    requires rest != [] && |frames| < MAX_RECORDS && RecordAt(rest, |EncodeAll(frames)|).Ok?
    ensures BadFrameAhead(frames, rest, source, e) ==> Scan(rest, |EncodeAll(frames)|, st, source) == Err(e)
    ensures Scan(rest, |EncodeAll(frames)|, st, source).Ok? || Scan(rest, |EncodeAll(frames)|, st, source) == Err(e)
            ==> BadFrameAhead(frames, rest, source, e) || FrameAhead(frames, rest, source)
  {
    hide Take, RecordAt, Admissible, BadFrame, Frame.Encode, Frame.Valid, Frame.AsRecord, Scan, EncodeAll, Gathered;
    var offset := |EncodeAll(frames)|;
    ScanStep(rest, offset, st, source);
    var f := EncodedAtRecord(rest, offset);
    BadFrameExactly(st, frames, f, source, e);
    NoRecordNoFrame(rest, offset);
    forall g: Frame | g.Valid() && g.Encode() <= rest && BadFrame(frames, g, source, e)
      ensures Take(st, RecordAt(rest, offset).value, source) == Err(e)
    {
      BadFrameExactly(st, frames, g, source, e);
    }
    if Take(st, RecordAt(rest, offset).value, source).Ok? {
      TakenAdmissible(st, frames, f, source);
    }
  }

  lemma TakenAdmissible(st: State, frames: seq<Frame>, f: Frame, source: Option<Sender>)
    requires AllValid(frames) && f.Valid() && Gathered(st, frames, source) && Admissible(frames, source)
    requires |frames| < MAX_RECORDS && Take(st, f.AsRecord(|EncodeAll(frames)|), source).Ok?
    ensures AllValid(frames + [f]) && Admissible(frames + [f], source)
  {
    TakeExactly(st, frames, f, source);
  }

  /** The pass stops with a fault exactly where one is, and otherwise goes on to one more frame. */
  lemma StopsOrTakes(data: seq<byte>, frames: seq<Frame>, rest: seq<byte>, source: Option<Sender>, e: Refusal)
    requires AllValid(frames) && data == EncodeAll(frames) + rest && Admissible(frames, source)
    requires |data| <= MAX_INPUT_BYTES
    ensures Fault(frames, rest, source, e) ==> Assembled(data, source) == Err(e)
    ensures Assembled(data, source) == Err(e) ==> Fault(frames, rest, source, e) || FrameAhead(frames, rest, source)
  {
    hide Take, RecordAt, Finish, Admissible, BadEnd, Torn, Frame.Encode, Frame.Valid, Scan, EncodeAll, Gathered,
         FrameAhead, BadFrameAhead;
    var st := GoesOn(data, frames, rest, source);
    var offset := |EncodeAll(frames)|;
    assert Assembled(data, source) == match Scan(rest, offset, st, source)
                                      case Err(why) => Err(why)
                                      case Ok(last) => Finish(last, source);
    if rest == [] {
      ScanEnd(rest, offset, st, source);
      BadEndExactly(st, frames, source, e);
    } else {
      ScanRefusals(rest, offset, st, source);
      if |frames| < MAX_RECORDS {
        TornExactly(rest, offset, e);
        if RecordAt(rest, offset).Ok? {
          StopsAtFrame(frames, rest, st, source, e);
        } else {
          NoFrameAhead(frames, rest, source, e);
        }
      }
    }
  }

  lemma NoFrameAhead(frames: seq<Frame>, rest: seq<byte>, source: Option<Sender>, e: Refusal)
    requires AllValid(frames) && RecordAt(rest, |EncodeAll(frames)|).Err?
    ensures !BadFrameAhead(frames, rest, source, e)
  {
    hide BadFrame, RecordAt, Frame.Encode, Frame.Valid, Frame.AsRecord;
    NoRecordNoFrame(rest, |EncodeAll(frames)|);
  }

  /** From frames that can be taken on, a refused capture has a first fault. */
  lemma {:induction false} FaultFound(data: seq<byte>, frames: seq<Frame>, rest: seq<byte>, source: Option<Sender>,
                                      e: Refusal)
    requires AllValid(frames) && data == EncodeAll(frames) + rest && Admissible(frames, source)
    requires |data| <= MAX_INPUT_BYTES && Assembled(data, source) == Err(e)
    ensures exists before, after :: StopsAt(data, before, after, source, e)
    decreases |rest|
  {
    hide Assembled, Admissible, Fault, Frame.Encode, Frame.Valid, EncodeAll;
    StopsOrTakes(data, frames, rest, source, e);
    if Fault(frames, rest, source, e) {
      assert StopsAt(data, frames, rest, source, e);
    } else {
      var f: Frame :| f.Valid() && f.Encode() <= rest && AllValid(frames + [f]) && Admissible(frames + [f], source);
      var later := rest[|f.Encode()|..];
      EncodeAllAppend(frames, [f]);
      OneEncoded(f);
      assert rest == f.Encode() + later;
      assert data == EncodeAll(frames + [f]) + later;
      FaultFound(data, frames + [f], later, source, e);
    }
  }

  lemma OneEncoded(f: Frame)
    requires f.Valid() && AllValid([f])
    ensures EncodeAll([f]) == f.Encode()
  {
    hide Frame.Encode;
    assert [f][1..] == [] && EncodeAll([]) == [];
  }

  /**
    * A capture is refused for a reason exactly when it begins with frames that can all be taken and that reason is
    * what is wrong next; a capture over the size bound is refused for that alone.
    */
  lemma RefusedExactly(data: seq<byte>, source: Option<Sender>, e: Refusal)
    ensures Assembled(data, source) == Err(e)
       <==> if |data| > 64 * 1024 * 1024 then e == InputTooLarge
            else exists frames, rest :: StopsAt(data, frames, rest, source, e)
  {
    hide Scan, Finish, Fault, Frame.Encode, EncodeAll, Admissible;
    if |data| <= MAX_INPUT_BYTES {
      forall frames, rest | StopsAt(data, frames, rest, source, e)
        ensures Assembled(data, source) == Err(e)
      {
        StopsOrTakes(data, frames, rest, source, e);
      }
      if Assembled(data, source) == Err(e) {
        NothingTaken(data, source);
        FaultFound(data, [], data, source, e);
      }
    }
  }

  lemma NothingTaken(data: seq<byte>, source: Option<Sender>)
    ensures Admissible([], source) && EncodeAll([]) + data == data
  {
    PlayNothing(source);
  }
}
