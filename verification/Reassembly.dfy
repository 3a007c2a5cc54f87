/**
  * What the reassembly pass accepts, and what it returns. A capture is described by its frames; the
  * selected sender's fragments are described by the order in which their sequence numbers follow. Here the
  * pass is tied to that description one fragment and one frame at a time.
  */
module Reassembly {
  import opened Common
  import opened Tlog
  import opened Assembler

  // ---------------------------------------------------------------- the fragments of one sender

  /** The last fragment starts a new piece of output: it does not repeat its predecessor's sequence number. */
  predicate LastIsNew(frs: seq<Fragment>)
    requires frs != []
  {
    |frs| == 1 || frs[|frs| - 1].sequence != frs[|frs| - 2].sequence
  }

  /** The fragments that extend the output, in order. */
  function NewOnes(frs: seq<Fragment>): seq<Fragment> {
    if frs == [] then []
    else NewOnes(frs[..|frs| - 1]) + (if LastIsNew(frs) then [frs[|frs| - 1]] else [])
  }

  function Payloads(frs: seq<Fragment>): seq<seq<byte>> {
    seq(|frs|, i requires 0 <= i < |frs| => frs[i].data)
  }

  function Joined(frs: seq<Fragment>): seq<byte> {
    Flatten(Payloads(NewOnes(frs)))
  }

  /** A fragment may follow another by one step of the modulo-65536 counter, or repeat it byte for byte. */
  predicate Follows(p: Fragment, f: Fragment) {
    || f.sequence == (p.sequence + 1) % SEQUENCE_MODULO
    || (f.sequence == p.sequence && f.data == p.data && f.length == p.length)
  }

  ghost predicate InSequence(frs: seq<Fragment>) {
    && (frs != [] ==> frs[0].firstMessageOffset == 0)
    && (forall i | 0 <= i < |frs| :: frs[i].sequence < SEQUENCE_MODULO)
    && (forall i | 0 < i < |frs| :: Follows(frs[i - 1], frs[i]))
  }

  ghost predicate Acceptable(frs: seq<Fragment>) {
    InSequence(frs) && |frs| <= MAX_FRAGMENTS && |Joined(frs)| <= MAX_ULOG_BYTES
  }

  function WrapCount(frs: seq<Fragment>): nat {
    if |frs| < 2 then 0
    else WrapCount(frs[..|frs| - 1]) + if frs[|frs| - 1].sequence < frs[|frs| - 2].sequence then 1 else 0
  }

  function AckedCount(frs: seq<Fragment>): nat {
    if frs == [] then 0
    else AckedCount(frs[..|frs| - 1]) + if frs[|frs| - 1].msgid == LOGGING_DATA_ACKED then 1 else 0
  }

  function LastNew(frs: seq<Fragment>): Option<Fragment> {
    if frs == [] then None
    else if LastIsNew(frs) then Some(frs[|frs| - 1])
    else LastNew(frs[..|frs| - 1])
  }

  function References(frs: seq<Fragment>): seq<Reference> {
    if frs == [] then []
    else
      var before := frs[..|frs| - 1];
      var f := frs[|frs| - 1];
      References(before) +
      [if LastIsNew(frs) then Reference(f, None, Some(|Joined(before)|), Some(|Joined(frs)|))
       else Reference(f, if LastNew(before).Some? then Some(LastNew(before).value.tlogOffset) else None, None, None)]
  }

  /** The part of the pass's state that depends on the selected fragments only. */
  ghost predicate Collected(st: State, frs: seq<Fragment>) {
    && st.out == Joined(frs) && st.retained == References(frs) && st.previous == LastNew(frs)
    && st.selectedFragments == |frs| && st.duplicates == |frs| - |NewOnes(frs)|
    && st.wraps == WrapCount(frs) && st.acked == AckedCount(frs)
  }

  lemma {:induction false} NewOnesFewer(frs: seq<Fragment>)
    ensures |NewOnes(frs)| <= |frs|
    ensures frs != [] ==> |NewOnes(frs)| > 0
  {
    if frs != [] {
      var before := frs[..|frs| - 1];
      NewOnesFewer(before);
    }
  }

  lemma JoinedSnoc(frs: seq<Fragment>, f: Fragment)
    ensures Joined(frs + [f]) == if LastIsNew(frs + [f]) then Joined(frs) + f.data else Joined(frs)
    ensures NewOnes(frs + [f]) == if LastIsNew(frs + [f]) then NewOnes(frs) + [f] else NewOnes(frs)
  {
    assert (frs + [f])[..|frs|] == frs;
    if LastIsNew(frs + [f]) {
      var parts := Payloads(NewOnes(frs) + [f]);
      assert parts[..|parts| - 1] == Payloads(NewOnes(frs));
      assert NewOnes(frs + [f]) == NewOnes(frs) + [f];
    } else {
      assert NewOnes(frs + [f]) == NewOnes(frs);
    }
  }

  /** In sequence, the last new fragment stands for the last one seen. */
  lemma {:induction false} LastNewStandsIn(frs: seq<Fragment>)
    requires InSequence(frs) && frs != []
    ensures LastNew(frs).Some? && LastNew(frs).value in frs
    ensures LastNew(frs).value.sequence == frs[|frs| - 1].sequence < SEQUENCE_MODULO
    ensures LastNew(frs).value.data == frs[|frs| - 1].data
    ensures LastNew(frs).value.length == frs[|frs| - 1].length
  {
    if !LastIsNew(frs) {
      LastNewStandsIn(frs[..|frs| - 1]);
      assert Follows(frs[|frs| - 2], frs[|frs| - 1]);
    }
  }

  lemma StepByOne(a: nat, b: nat)
    requires a < SEQUENCE_MODULO && b < SEQUENCE_MODULO
    ensures (b - a) % SEQUENCE_MODULO == 0 <==> a == b
    ensures (b - a) % SEQUENCE_MODULO == 1 <==> b == (a + 1) % SEQUENCE_MODULO
  {
  }

  /** Nothing outside the collected part changes. */
  ghost predicate SameElsewhere(st: State, after: State) {
    after == st.(out := after.out, retained := after.retained, previous := after.previous,
                 selectedFragments := after.selectedFragments, duplicates := after.duplicates,
                 wraps := after.wraps, acked := after.acked)
  }

  /** Collecting one more fragment succeeds exactly when the longer list is acceptable. */
  lemma CollectExactly(st: State, frs: seq<Fragment>, f: Fragment)
    requires Collected(st, frs) && Acceptable(frs) && f.sequence < SEQUENCE_MODULO
    ensures Collect(st, f).Ok? <==> Acceptable(frs + [f])
    ensures Collect(st, f).Ok? ==> Collected(Collect(st, f).value, frs + [f]) && SameElsewhere(st, Collect(st, f).value)
  {
    hide Collect, Collected, SameElsewhere, Joined, NewOnes, InSequence, Follows;
    var more := frs + [f];
    assert more[..|frs|] == frs;
    JoinedSnoc(frs, f);
    if frs == [] {
      CollectFirst(st, f);
      assert more == [f];
    } else {
      LastNewStandsIn(frs);
      var last := frs[|frs| - 1];
      StepByOne(last.sequence, f.sequence);
      assert more[|more| - 2] == last;
      InSequenceSnoc(frs, f);
      if f.sequence == last.sequence {
        CollectRepeat(st, frs, f);
      } else {
        CollectNext(st, frs, f);
      }
    }
  }

  lemma CollectFirst(st: State, f: Fragment)
    requires Collected(st, []) && f.sequence < SEQUENCE_MODULO
    ensures Collect(st, f).Ok? <==> Acceptable([f])
    ensures Collect(st, f).Ok? ==> Collected(Collect(st, f).value, [f]) && SameElsewhere(st, Collect(st, f).value)
  {
    hide Joined, NewOnes;
    JoinedNothing();
    JoinedSnoc([], f);
    assert [] + [f] == [f] && [f][..0] == [];
  }

  lemma JoinedNothing()
    ensures Joined([]) == [] && NewOnes([]) == []
  {
  }

  /** What one more fragment adds to the history. */
  lemma HistorySnoc(frs: seq<Fragment>, f: Fragment)
    requires frs != []
    ensures var more, last := frs + [f], frs[|frs| - 1];
            && (LastIsNew(more) <==> f.sequence != last.sequence)
            && LastNew(more) == (if f.sequence != last.sequence then Some(f) else LastNew(frs))
            && WrapCount(more) == WrapCount(frs) + (if f.sequence < last.sequence then 1 else 0)
            && AckedCount(more) == AckedCount(frs) + (if f.msgid == LOGGING_DATA_ACKED then 1 else 0)
            && References(more) == References(frs)
                 + [if f.sequence != last.sequence then Reference(f, None, Some(|Joined(frs)|), Some(|Joined(more)|))
                    else Reference(f, if LastNew(frs).Some? then Some(LastNew(frs).value.tlogOffset) else None,
                                   None, None)]
  {
    hide Joined;
    var more := frs + [f];
    assert more[..|frs|] == frs && more[|more| - 2] == frs[|frs| - 1];
  }

  lemma CollectRepeat(st: State, frs: seq<Fragment>, f: Fragment)
    requires Collected(st, frs) && Acceptable(frs) && frs != [] && f.sequence == frs[|frs| - 1].sequence
    requires LastNew(frs).Some? && LastNew(frs).value.sequence == f.sequence
    requires LastNew(frs).value.data == frs[|frs| - 1].data && LastNew(frs).value.length == frs[|frs| - 1].length
    requires Joined(frs + [f]) == Joined(frs) && NewOnes(frs + [f]) == NewOnes(frs)
    requires InSequence(frs + [f]) <==> Follows(frs[|frs| - 1], f)
    ensures Collect(st, f).Ok? <==> Acceptable(frs + [f])
    ensures Collect(st, f).Ok? ==> Collected(Collect(st, f).value, frs + [f]) && SameElsewhere(st, Collect(st, f).value)
  {
    hide Joined, NewOnes, InSequence, LastIsNew, LastNew, WrapCount, AckedCount, References;
    NewOnesFewer(frs);
    HistorySnoc(frs, f);
  }

  lemma CollectNext(st: State, frs: seq<Fragment>, f: Fragment)
    requires Collected(st, frs) && Acceptable(frs) && frs != [] && f.sequence != frs[|frs| - 1].sequence
    requires LastNew(frs).Some? && LastNew(frs).value.sequence == frs[|frs| - 1].sequence
    requires Joined(frs + [f]) == Joined(frs) + f.data && NewOnes(frs + [f]) == NewOnes(frs) + [f]
    requires InSequence(frs + [f]) <==> Follows(frs[|frs| - 1], f)
    requires (f.sequence - frs[|frs| - 1].sequence) % SEQUENCE_MODULO != 0
    requires (f.sequence - frs[|frs| - 1].sequence) % SEQUENCE_MODULO == 1
             <==> f.sequence == (frs[|frs| - 1].sequence + 1) % SEQUENCE_MODULO
    ensures Collect(st, f).Ok? <==> Acceptable(frs + [f])
    ensures Collect(st, f).Ok? ==> Collected(Collect(st, f).value, frs + [f]) && SameElsewhere(st, Collect(st, f).value)
  {
    hide Joined, NewOnes, InSequence, LastIsNew, LastNew, WrapCount, AckedCount, References;
    NewOnesFewer(frs);
    HistorySnoc(frs, f);
  }

  lemma InSequenceSnoc(frs: seq<Fragment>, f: Fragment)
    requires InSequence(frs) && frs != [] && f.sequence < SEQUENCE_MODULO
    ensures InSequence(frs + [f]) <==> Follows(frs[|frs| - 1], f)
  {
    var more := frs + [f];
    assert more[|frs| - 1] == frs[|frs| - 1] && more[|frs|] == f;
    if Follows(frs[|frs| - 1], f) {
      forall i | 0 < i < |more|
        ensures Follows(more[i - 1], more[i])
      {
        assert i < |frs| ==> more[i - 1] == frs[i - 1] && more[i] == frs[i];
      }
    }
  }

  // ---------------------------------------------------------------- the frames of a capture

  predicate Logs(f: Frame) {
    IsLogging(f.msgid)
  }

  function SenderOf(f: Frame): Sender {
    Sender(f.sysid, f.compid)
  }

  /** The fragment a valid frame carries when it starts at `offset`. */
  function Reading(f: Frame, offset: nat): Result<Fragment, Refusal>
    requires f.Valid()
  {
    FragmentOf(f.AsRecord(offset))
  }

  /** Whether a fragment can be read does not depend on where its frame lies. */
  lemma ReadingAnywhere(f: Frame, offset: nat)
    requires f.Valid()
    ensures Reading(f, offset).Ok? <==> Reading(f, 0).Ok?
    ensures Reading(f, offset).Ok? ==> Reading(f, offset).value == Reading(f, 0).value.(tlogOffset := offset)
  {
    hide FrameCrc, Padded;
  }

  function FirstSender(frames: seq<Frame>): Option<Sender> {
    if frames == [] then None
    else
      var earlier := FirstSender(frames[..|frames| - 1]);
      if earlier.Some? then earlier
      else if Logs(frames[|frames| - 1]) then Some(SenderOf(frames[|frames| - 1]))
      else None
  }

  /** The stream that is rebuilt: the caller's, or the first in recording order. */
  function Chosen(frames: seq<Frame>, source: Option<Sender>): Option<Sender> {
    if source.Some? then source else FirstSender(frames)
  }

  /** What one more frame adds to a sender's fragments, when the bytes before it number `offset`. */
  function Added(f: Frame, sender: Sender, offset: nat): seq<Fragment>
    requires f.Valid()
  {
    if Logs(f) && SenderOf(f) == sender && Reading(f, offset).Ok? then [Reading(f, offset).value] else []
  }

  /** One sender's fragments, in recording order. */
  function Fragments(frames: seq<Frame>, sender: Sender): seq<Fragment>
    requires AllValid(frames)
  {
    if frames == [] then []
    else
      var before, f := frames[..|frames| - 1], frames[|frames| - 1];
      Fragments(before, sender) + Added(f, sender, |EncodeAll(before)|)
  }

  lemma FragmentsSnoc(frames: seq<Frame>, sender: Sender)
    requires AllValid(frames) && frames != []
    ensures var before := frames[..|frames| - 1];
            Fragments(frames, sender)
            == Fragments(before, sender) + Added(frames[|frames| - 1], sender, |EncodeAll(before)|)
  {
    hide Reading, Frame.Encode, Frame.Valid;
  }

  function Picked(frames: seq<Frame>, source: Option<Sender>): seq<Fragment>
    requires AllValid(frames)
  {
    match Chosen(frames, source)
    case None => []
    case Some(sender) => Fragments(frames, sender)
  }

  function LoggingCount(frames: seq<Frame>): nat {
    if frames == [] then 0
    else LoggingCount(frames[..|frames| - 1]) + if Logs(frames[|frames| - 1]) then 1 else 0
  }

  function SenderCounts(frames: seq<Frame>): map<Sender, nat> {
    if frames == [] then map[]
    else
      var f := frames[|frames| - 1];
      var earlier := SenderCounts(frames[..|frames| - 1]);
      if Logs(f) then Counted(earlier, SenderOf(f)) else earlier
  }

  function UnrelatedOffsets(frames: seq<Frame>): map<nat, seq<nat>>
    requires AllValid(frames)
  {
    if frames == [] then map[]
    else
      var before, f := frames[..|frames| - 1], frames[|frames| - 1];
      if Logs(f) then UnrelatedOffsets(before)
      else Listed(UnrelatedOffsets(before), f.msgid, |EncodeAll(before)|)
  }

  ghost predicate AllRead(frames: seq<Frame>)
    requires AllValid(frames)
  {
    forall i | 0 <= i < |frames| :: Logs(frames[i]) ==> Reading(frames[i], 0).Ok?
  }

  /** Without an explicit source every logging frame must come from one sender. */
  ghost predicate OneSender(frames: seq<Frame>, source: Option<Sender>) {
    source.None? ==>
      forall i | 0 <= i < |frames| :: Logs(frames[i]) ==> FirstSender(frames) == Some(SenderOf(frames[i]))
  }

  ghost predicate Admissible(frames: seq<Frame>, source: Option<Sender>)
    requires AllValid(frames)
  {
    && |frames| <= MAX_RECORDS && AllRead(frames) && OneSender(frames, source)
    && Acceptable(Picked(frames, source))
  }

  /** What the pass has gathered after these frames. */
  ghost predicate Gathered(st: State, frames: seq<Frame>, source: Option<Sender>)
    requires AllValid(frames)
  {
    && st.records == |frames| && st.loggingFragments == LoggingCount(frames)
    && st.selected == Chosen(frames, source) && st.senders == SenderCounts(frames)
    && st.unrelated == UnrelatedOffsets(frames) && Collected(st, Picked(frames, source))
  }

  /** The pass over a list of frames. */
  function Play(frames: seq<Frame>, offset: nat, st: State, source: Option<Sender>): Result<State, Refusal>
    requires AllValid(frames)
    decreases |frames|
  {
    if frames == [] then Ok(st)
    else if st.records >= MAX_RECORDS then Err(TooManyRecords)
    else
      var st1 :- Take(st, frames[0].AsRecord(offset), source);
      Play(frames[1..], offset + |frames[0].Encode()|, st1, source)
  }

  /** Scanning written frames is playing them. */
  lemma {:induction false} ScanIsPlay(frames: seq<Frame>, offset: nat, st: State, source: Option<Sender>)
    requires AllValid(frames)
    ensures Scan(EncodeAll(frames), offset, st, source) == Play(frames, offset, st, source)
    decreases |frames|
  {
    hide Take, RecordAt;
    if frames != [] {
      var f, later := frames[0], EncodeAll(frames[1..]);
      var rest := EncodeAll(frames);
      RecordAtEncoded(f, later, offset);
      ScanRefusals(rest, offset, st, source);
      if st.records < MAX_RECORDS {
        ScanStep(rest, offset, st, source);
        assert rest[|f.Encode()|..] == later;
        var taken := Take(st, f.AsRecord(offset), source);
        if taken.Ok? {
          ScanIsPlay(frames[1..], offset + |f.Encode()|, taken.value, source);
        }
      }
    }
  }

  /** Whatever is scanned to the end is a list of written frames. */
  lemma {:induction false} ScanReadsFrames(rest: seq<byte>, offset: nat, st: State, source: Option<Sender>)
    returns (frames: seq<Frame>)
    requires Scan(rest, offset, st, source).Ok?
    ensures AllValid(frames) && rest == EncodeAll(frames)
    decreases |rest|
  {
    hide Take, RecordAt;
    if rest == [] {
      frames := [];
    } else {
      ScanRefusals(rest, offset, st, source);
      ScanStep(rest, offset, st, source);
      var f := EncodedAtRecord(rest, offset);
      var next := |f.Encode()|;
      var later := ScanReadsFrames(rest[next..], offset + next,
                                   Take(st, RecordAt(rest, offset).value, source).value, source);
      frames := [f] + later;
      assert frames[1..] == later;
      assert rest == rest[..next] + rest[next..];
    }
  }

  /** Playing one more frame. */
  lemma {:induction false} PlaySnoc(frames: seq<Frame>, f: Frame, offset: nat, st: State, source: Option<Sender>)
    requires AllValid(frames) && f.Valid() && AllValid(frames + [f])
    ensures Play(frames + [f], offset, st, source)
            == match Play(frames, offset, st, source)
               case Err(e) => Err(e)
               case Ok(s) =>
                 if s.records >= MAX_RECORDS then Err(TooManyRecords)
                 else Take(s, f.AsRecord(offset + |EncodeAll(frames)|), source)
    decreases |frames|
  {
    hide Take;
    var more := frames + [f];
    if frames == [] {
      assert more == [f] && [f][1..] == [];
    } else {
      assert more[0] == frames[0] && more[1..] == frames[1..] + [f];
      if st.records < MAX_RECORDS {
        var taken := Take(st, frames[0].AsRecord(offset), source);
        if taken.Ok? {
          PlaySnoc(frames[1..], f, offset + |frames[0].Encode()|, taken.value, source);
        }
      }
    }
  }

  lemma {:induction false} NoSenderNoLogs(frames: seq<Frame>)
    requires FirstSender(frames).None?
    ensures forall i | 0 <= i < |frames| :: !Logs(frames[i])
  {
    if frames != [] {
      NoSenderNoLogs(frames[..|frames| - 1]);
    }
  }

  lemma {:induction false} NoLogsNoFragments(frames: seq<Frame>, sender: Sender)
    requires AllValid(frames) && forall i | 0 <= i < |frames| :: !Logs(frames[i])
    ensures Fragments(frames, sender) == []
  {
    if frames != [] {
      NoLogsNoFragments(frames[..|frames| - 1], sender);
    }
  }

  /** How the chosen stream grows by one frame. */
  lemma PickedSnoc(before: seq<Frame>, f: Frame, source: Option<Sender>)
    requires AllValid(before) && f.Valid() && AllValid(before + [f])
    ensures !Logs(f) ==> Chosen(before + [f], source) == Chosen(before, source)
    ensures Logs(f) ==> Chosen(before + [f], source)
                        == if Chosen(before, source).None? then Some(SenderOf(f)) else Chosen(before, source)
    ensures Logs(f) && Chosen(before + [f], source) == Some(SenderOf(f)) && Reading(f, |EncodeAll(before)|).Ok?
            ==> Picked(before + [f], source) == Picked(before, source) + [Reading(f, |EncodeAll(before)|).value]
    ensures !Logs(f) || Chosen(before + [f], source) != Some(SenderOf(f)) || Reading(f, |EncodeAll(before)|).Err?
            ==> Picked(before + [f], source) == Picked(before, source)
  {
    hide FragmentOf;
    assert (before + [f])[..|before|] == before;
    if Chosen(before, source).None? && Logs(f) {
      NoSenderNoLogs(before);
      NoLogsNoFragments(before, SenderOf(f));
    }
  }

  lemma AcceptablePrefix(frs: seq<Fragment>, f: Fragment)
    requires Acceptable(frs + [f])
    ensures Acceptable(frs)
  {
    var more := frs + [f];
    JoinedSnoc(frs, f);
    assert frs != [] ==> frs[0] == more[0];
    forall i | 0 < i < |frs|
      ensures Follows(frs[i - 1], frs[i])
    {
      assert Follows(more[i - 1], more[i]);
    }
    forall i | 0 <= i < |frs|
      ensures frs[i].sequence < SEQUENCE_MODULO
    {
      assert more[i].sequence < SEQUENCE_MODULO;
    }
  }

  lemma AllReadSnoc(before: seq<Frame>, f: Frame)
    requires AllValid(before) && f.Valid() && AllValid(before + [f])
    ensures AllRead(before + [f]) <==> AllRead(before) && (Logs(f) ==> Reading(f, 0).Ok?)
  {
    hide FragmentOf;
    var frames := before + [f];
    if AllRead(frames) {
      forall i | 0 <= i < |before|
        ensures Logs(before[i]) ==> Reading(before[i], 0).Ok?
      {
        assert frames[i] == before[i];
      }
      assert frames[|before|] == f;
    }
  }

  lemma OneSenderSnoc(before: seq<Frame>, f: Frame, source: Option<Sender>)
    ensures OneSender(before + [f], source)
            <==> OneSender(before, source) && (source.None? && Logs(f) && FirstSender(before).Some?
                                               ==> FirstSender(before) == Some(SenderOf(f)))
  {
    var frames := before + [f];
    assert frames[..|before|] == before && frames[|before|] == f;
    assert forall i | 0 <= i < |before| :: frames[i] == before[i];
    if source.None? && FirstSender(before).None? {
      NoSenderNoLogs(before);
    }
  }
}
