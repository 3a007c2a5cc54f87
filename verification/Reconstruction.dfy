/** The main results about reassembly: exact acceptance, accounting, and the round trip. */
module Reconstruction {
  import opened Common
  import opened Tlog
  import opened Assembler
  import opened Reassembly
  import Ulog

  // ---------------------------------------------------------------- exact acceptance

  /** The pass over frames ends well exactly when the frames are admissible, and has then gathered them. */
  lemma {:induction false} PlayExactly(frames: seq<Frame>, source: Option<Sender>)
    requires AllValid(frames)
    ensures Play(frames, 0, Init(source), source).Ok? <==> Admissible(frames, source)
    ensures Play(frames, 0, Init(source), source).Ok?
            ==> Gathered(Play(frames, 0, Init(source), source).value, frames, source)
    decreases |frames|
  {
    hide Take, Admissible, Gathered;
    if frames == [] {
      PlayNothing(source);
    } else {
      var before, f := frames[..|frames| - 1], frames[|frames| - 1];
      assert before + [f] == frames;
      PlayExactly(before, source);
      PlaySnoc(before, f, 0, Init(source), source);
      if Play(before, 0, Init(source), source).Ok? {
        PlayStep(Play(before, 0, Init(source), source).value, before, f, source);
      } else if Admissible(frames, source) {
        AdmissibleBefore(before, f, source);
      }
    }
  }

  lemma PlayStep(st: State, before: seq<Frame>, f: Frame, source: Option<Sender>)
    requires AllValid(before) && f.Valid() && AllValid(before + [f])
    requires Admissible(before, source) && Gathered(st, before, source)
    ensures var next := if st.records >= MAX_RECORDS then Err(TooManyRecords)
                        else Take(st, f.AsRecord(0 + |EncodeAll(before)|), source);
            && (next.Ok? <==> Admissible(before + [f], source))
            && (next.Ok? ==> Gathered(next.value, before + [f], source))
  {
    hide Take, AllRead, OneSender, Acceptable, Picked;
    if |before| < MAX_RECORDS {
      TakeExactly(st, before, f, source);
    }
  }

  lemma PlayNothing(source: Option<Sender>)
    ensures Play([], 0, Init(source), source) == Ok(Init(source))
    ensures Admissible([], source) && Gathered(Init(source), [], source)
  {
  }

  lemma AdmissibleBefore(before: seq<Frame>, f: Frame, source: Option<Sender>)
    requires AllValid(before) && f.Valid() && AllValid(before + [f])
    requires Admissible(before + [f], source)
    ensures Admissible(before, source)
  {
    hide Acceptable, AllRead, OneSender;
    PickedSnoc(before, f, source);
    AllReadSnoc(before, f);
    OneSenderSnoc(before, f, source);
    if Picked(before + [f], source) != Picked(before, source) {
      AcceptablePrefix(Picked(before, source), Reading(f, |EncodeAll(before)|).value);
    }
  }

  /** Taking one more frame succeeds exactly when the longer list stays admissible. */
  lemma TakeExactly(st: State, before: seq<Frame>, f: Frame, source: Option<Sender>)
    requires AllValid(before) && f.Valid() && AllValid(before + [f])
    requires Admissible(before, source) && Gathered(st, before, source)
    requires |before| < MAX_RECORDS
    ensures Take(st, f.AsRecord(|EncodeAll(before)|), source).Ok? <==> Admissible(before + [f], source)
    ensures Take(st, f.AsRecord(|EncodeAll(before)|), source).Ok?
            ==> Gathered(Take(st, f.AsRecord(|EncodeAll(before)|), source).value, before + [f], source)
  {
    hide Acceptable, AllRead, OneSender, FragmentOf, Collected, Collect, Picked, Frame.Encode, Frame.CrcInput,
         Frame.Valid;
    var frames := before + [f];
    var offset := |EncodeAll(before)|;
    assert frames[..|before|] == before;
    PickedSnoc(before, f, source);
    AllReadSnoc(before, f);
    OneSenderSnoc(before, f, source);
    ReadingAnywhere(f, offset);
    var frs := Picked(before, source);
    if Logs(f) && Reading(f, offset).Ok? {
      var fragment := Reading(f, offset).value;
      var st1 := st.(records := st.records + 1, loggingFragments := st.loggingFragments + 1,
                     senders := Counted(st.senders, fragment.sender),
                     selected := if st.selected.None? then Some(fragment.sender) else st.selected);
      CollectedElsewhere(st, st1, frs);
      CollectExactly(st1, frs, fragment);
    } else if !Logs(f) {
      CollectedElsewhere(st, st.(records := st.records + 1,
                                 unrelated := Listed(st.unrelated, f.msgid, offset)), frs);
    }
  }

  lemma CollectedElsewhere(st: State, st1: State, frs: seq<Fragment>)
    requires Collected(st, frs) && st1.out == st.out && st1.retained == st.retained
    requires st1.previous == st.previous && st1.selectedFragments == st.selectedFragments
    requires st1.duplicates == st.duplicates && st1.wraps == st.wraps && st1.acked == st.acked
    ensures Collected(st1, frs)
  {
  }

  /** The frames, the selected fragments and the rebuilt file are all well formed. */
  ghost predicate Reconstructs(data: seq<byte>, frames: seq<Frame>, source: Option<Sender>) {
    && |data| <= MAX_INPUT_BYTES && AllValid(frames) && data == EncodeAll(frames)
    && Admissible(frames, source) && Picked(frames, source) != []
    && exists ms :: Ulog.IsUlog(Joined(Picked(frames, source)), ms)
  }

  lemma {:induction false} SendersCounted(frames: seq<Frame>, sender: Sender)
    requires AllValid(frames) && AllRead(frames)
    ensures sender in SenderCounts(frames) <==> |Fragments(frames, sender)| > 0
    ensures sender in SenderCounts(frames) ==> SenderCounts(frames)[sender] == |Fragments(frames, sender)|
  {
    hide FragmentOf;
    if frames != [] {
      var before, f := frames[..|frames| - 1], frames[|frames| - 1];
      assert frames == before + [f];
      AllReadSnoc(before, f);
      SendersCounted(before, sender);
      ReadingAnywhere(f, |EncodeAll(before)|);
    }
  }

  lemma {:induction false} FirstSenderLogs(frames: seq<Frame>)
    requires AllValid(frames)
    ensures FirstSender(frames).Some? <==> LoggingCount(frames) > 0
    ensures FirstSender(frames).Some? ==> FirstSender(frames).value in SenderCounts(frames)
  {
    if frames != [] {
      FirstSenderLogs(frames[..|frames| - 1]);
    }
  }

  lemma PresentExactly(frames: seq<Frame>, source: Option<Sender>)
    requires AllValid(frames) && AllRead(frames)
    ensures Picked(frames, source) != []
            <==> LoggingCount(frames) > 0 && (source.Some? ==> source.value in SenderCounts(frames))
  {
    FirstSenderLogs(frames);
    var chosen := Chosen(frames, source);
    if chosen.Some? {
      SendersCounted(frames, chosen.value);
    }
    NoCountsWithoutLogs(frames);
  }

  lemma {:induction false} NoCountsWithoutLogs(frames: seq<Frame>)
    ensures LoggingCount(frames) == 0 ==> SenderCounts(frames) == map[]
  {
    if frames != [] {
      NoCountsWithoutLogs(frames[..|frames| - 1]);
    }
  }

  /** The pass over written frames, from the capture's bytes to its result. */
  lemma AssembledFrames(frames: seq<Frame>, source: Option<Sender>)
    requires AllValid(frames) && |EncodeAll(frames)| <= MAX_INPUT_BYTES
    ensures Assembled(EncodeAll(frames), source).Ok? <==> Reconstructs(EncodeAll(frames), frames, source)
    ensures Assembled(EncodeAll(frames), source).Ok?
            ==> exists st :: Gathered(st, frames, source) && Finish(st, source) == Assembled(EncodeAll(frames), source)
  {
    hide Take, Play, Scan, Collected, Acceptable, Picked, OneSender;
    ScanIsPlay(frames, 0, Init(source), source);
    PlayExactly(frames, source);
    if Admissible(frames, source) {
      var st := Play(frames, 0, Init(source), source).value;
      GatheredOut(st, frames, source);
      PresentExactly(frames, source);
      Ulog.CountsOfUlog(st.out);
      assert Assembled(EncodeAll(frames), source) == Finish(st, source);
    }
  }

  lemma GatheredOut(st: State, frames: seq<Frame>, source: Option<Sender>)
    requires AllValid(frames) && Gathered(st, frames, source)
    ensures st.out == Joined(Picked(frames, source))
  {
  }

  /**
    * The pass succeeds on exactly the captures that are well-formed frames, whose logging frames are all
    * readable, whose selected fragments follow one another, and whose joined bytes are a complete ULog.
    */
  lemma AssembledExactly(data: seq<byte>, source: Option<Sender>)
    ensures Assembled(data, source).Ok? <==> exists frames :: Reconstructs(data, frames, source)
  {
    if Assembled(data, source).Ok? {
      var frames := ScanReadsFrames(data, 0, Init(source), source);
      AssembledFrames(frames, source);
    }
    forall frames | Reconstructs(data, frames, source)
      ensures Assembled(data, source).Ok?
    {
      AssembledFrames(frames, source);
    }
  }

  // ---------------------------------------------------------------- what is returned

  /** The rebuilt file and every count, in terms of the capture's frames. */
  lemma ReturnedAssembly(data: seq<byte>, frames: seq<Frame>, source: Option<Sender>)
    requires Reconstructs(data, frames, source)
    ensures Assembled(data, source).Ok?
    ensures var a := Assembled(data, source).value;
            var frs := Picked(frames, source);
            && a.ulog == Joined(frs) && a.fragments == References(frs)
            && a.selectedSource == Chosen(frames, source)
            && a.records == |frames| && a.selectedFragments == |frs|
            && a.appendedFragments == |NewOnes(frs)|
            && a.collapsedDuplicates + a.appendedFragments == a.selectedFragments
            && a.ackedFragments == AckedCount(frs) && a.unackedFragments == |frs| - AckedCount(frs)
            && a.records == a.loggingFragments + a.unrelatedFrames
            && a.loggingFragments == a.selectedFragments + Total(a.otherSources)
            && OthersReported(a, frames) && UnrelatedReported(a, frames)
            && a.sequenceWraps == WrapCount(frs)
            && exists ms :: Ulog.IsUlog(a.ulog, ms) && Ulog.Tallies(a.messageCounts, Ulog.Kinds(ms))
  {
    hide OthersReported, UnrelatedReported;
    AssembledFrames(frames, source);
    var st :| Gathered(st, frames, source) && Finish(st, source) == Assembled(data, source);
    FinishedCounts(st, frames, source);
    FinishedReports(st, frames, source);
    NewOnesFewer(Picked(frames, source));
    Ulog.CountsOfUlog(st.out);
    var ms :| Ulog.IsUlog(st.out, ms);
  }

  /** The other senders, each with the number of its readable fragments, and nobody without any. */
  ghost predicate OthersReported(a: Assembly, frames: seq<Frame>)
    requires AllValid(frames)
  {
    && (forall sender :: sender in a.otherSources
                         <==> Some(sender) != a.selectedSource && Fragments(frames, sender) != [])
    && (forall sender <- a.otherSources :: a.otherSources[sender] == |Fragments(frames, sender)|)
  }

  /** Every other message id that occurs, with the offsets of all its frames in order, and no logging id. */
  ghost predicate UnrelatedReported(a: Assembly, frames: seq<Frame>)
    requires AllValid(frames)
  {
    && (forall msgid: nat :: msgid in a.unrelated <==> !IsLogging(msgid) && OffsetsOf(frames, msgid) != [])
    && (forall msgid <- a.unrelated :: a.unrelated[msgid] == OffsetsOf(frames, msgid))
  }

  lemma {:induction false} NoLoggingListed(frames: seq<Frame>, msgid: nat)
    requires AllValid(frames) && IsLogging(msgid)
    ensures msgid !in UnrelatedOffsets(frames)
  {
    if frames != [] {
      NoLoggingListed(frames[..|frames| - 1], msgid);
    }
  }

  lemma FinishedReports(st: State, frames: seq<Frame>, source: Option<Sender>)
    requires AllValid(frames) && AllRead(frames) && Gathered(st, frames, source) && Finish(st, source).Ok?
    ensures OthersReported(Finish(st, source).value, frames)
    ensures UnrelatedReported(Finish(st, source).value, frames)
  {
    hide Ulog.CountsOf, FragmentOf, Picked, References, Joined, UnrelatedOffsets, OffsetsOf, Fragments, SenderCounts,
         Collected, Total;
    var a := Finish(st, source).value;
    FirstSenderLogs(frames);
    forall sender
      ensures sender in a.otherSources <==> Some(sender) != a.selectedSource && Fragments(frames, sender) != []
      ensures sender in a.otherSources ==> a.otherSources[sender] == |Fragments(frames, sender)|
    {
      SendersCounted(frames, sender);
    }
    forall msgid: nat
      ensures msgid in a.unrelated <==> !IsLogging(msgid) && OffsetsOf(frames, msgid) != []
      ensures msgid in a.unrelated ==> a.unrelated[msgid] == OffsetsOf(frames, msgid)
    {
      if IsLogging(msgid) {
        NoLoggingListed(frames, msgid);
      } else {
        ListedOffsets(frames, msgid);
      }
    }
  }

  lemma FinishedCounts(st: State, frames: seq<Frame>, source: Option<Sender>)
    requires AllValid(frames) && AllRead(frames) && Gathered(st, frames, source) && Finish(st, source).Ok?
    ensures st.records == st.loggingFragments + Total(FrameCounts(st.unrelated))
    ensures st.loggingFragments == st.selectedFragments + Total(Finish(st, source).value.otherSources)
  {
    hide Ulog.CountsOf, FragmentOf, Picked, References, Joined;
    UnrelatedBalance(frames);
    SenderBalance(frames);
    FirstSenderLogs(frames);
    var chosen := Chosen(frames, source).value;
    SendersCounted(frames, chosen);
    TotalPick(st.senders, chosen);
    PickedIs(frames, source, chosen);
  }

  lemma PickedIs(frames: seq<Frame>, source: Option<Sender>, chosen: Sender)
    requires AllValid(frames) && Chosen(frames, source) == Some(chosen)
    ensures Picked(frames, source) == Fragments(frames, chosen)
  {
  }

  lemma TotalBump<K(!new)>(counts: map<K, nat>, key: K, value: nat)
    requires value == (if key in counts then counts[key] else 0) + 1
    ensures Total(counts[key := value]) == Total(counts) + 1
  {
    TotalPick(counts[key := value], key);
    assert counts[key := value] - {key} == counts - {key};
    if key in counts {
      TotalPick(counts, key);
    } else {
      assert counts - {key} == counts;
    }
  }

  /** Every frame is either a logging frame or listed under its message id. */
  lemma {:induction false} UnrelatedBalance(frames: seq<Frame>)
    requires AllValid(frames)
    ensures |frames| == LoggingCount(frames) + Total(FrameCounts(UnrelatedOffsets(frames)))
  {
    if frames != [] {
      var before, f := frames[..|frames| - 1], frames[|frames| - 1];
      UnrelatedBalance(before);
      if !Logs(f) {
        var listed := UnrelatedOffsets(before);
        var longer := Listed(listed, f.msgid, |EncodeAll(before)|);
        assert FrameCounts(longer) == FrameCounts(listed)[f.msgid := |longer[f.msgid]|];
        TotalBump(FrameCounts(listed), f.msgid, |longer[f.msgid]|);
      }
    }
  }

  /** Every logging frame is counted under its sender. */
  lemma {:induction false} SenderBalance(frames: seq<Frame>)
    ensures LoggingCount(frames) == Total(SenderCounts(frames))
  {
    if frames != [] {
      var before, f := frames[..|frames| - 1], frames[|frames| - 1];
      SenderBalance(before);
      if Logs(f) {
        var counts := SenderCounts(before);
        TotalBump(counts, SenderOf(f), (if SenderOf(f) in counts then counts[SenderOf(f)] else 0) + 1);
      }
    }
  }

  /** A listed offset is where a frame of that message id starts, and all of them are listed in order. */
  function OffsetsOf(frames: seq<Frame>, msgid: nat): seq<nat>
    requires AllValid(frames)
  {
    if frames == [] then []
    else
      var before, f := frames[..|frames| - 1], frames[|frames| - 1];
      OffsetsOf(before, msgid) + (if f.msgid == msgid then [|EncodeAll(before)|] else [])
  }

  lemma {:induction false} ListedOffsets(frames: seq<Frame>, msgid: nat)
    requires AllValid(frames) && !IsLogging(msgid)
    ensures msgid in UnrelatedOffsets(frames) <==> |OffsetsOf(frames, msgid)| > 0
    ensures msgid in UnrelatedOffsets(frames) ==> UnrelatedOffsets(frames)[msgid] == OffsetsOf(frames, msgid)
  {
    if frames != [] {
      ListedOffsets(frames[..|frames| - 1], msgid);
    }
  }

  /** Where the sequence counter stands `k` steps after `first`, and how often it has turned over by then. */
  function CounterAt(first: nat, k: nat): nat {
    (first + k) % SEQUENCE_MODULO
  }

  function TurnsAt(first: nat, k: nat): nat {
    (first + k) / SEQUENCE_MODULO
  }

  /**
    * The k-th new fragment carries the k-th sequence number after the first, modulo 65536, and the wraps
    * counted on the way are the full turns of the counter.
    */
  ghost predicate Numbered(frs: seq<Fragment>)
    requires frs != []
  {
    var news := NewOnes(frs);
    && |news| > 0
    && (forall k | 0 <= k < |news| :: news[k].sequence == CounterAt(frs[0].sequence, k))
    && frs[|frs| - 1].sequence == CounterAt(frs[0].sequence, |news| - 1)
    && WrapCount(frs) == TurnsAt(frs[0].sequence, |news| - 1)
  }

  lemma {:induction false} NumbersAdvance(frs: seq<Fragment>)
    requires InSequence(frs) && frs != []
    ensures Numbered(frs)
  {
    hide NewOnes, CounterAt, TurnsAt, WrapCount, InSequence, Joined;
    var before, f := frs[..|frs| - 1], frs[|frs| - 1];
    assert before + [f] == frs;
    JoinedSnoc(before, f);
    SequenceBefore(frs);
    if before == [] {
      NumberFirst(frs, f);
    } else {
      NumbersAdvance(before);
      NumberNext(frs[0].sequence, |NewOnes(before)| - 1, frs[|frs| - 2], f);
      NumberOneMore(frs, before, f);
    }
  }

  lemma SequenceBefore(frs: seq<Fragment>)
    requires InSequence(frs) && frs != []
    ensures InSequence(frs[..|frs| - 1]) && frs[|frs| - 1].sequence < SEQUENCE_MODULO
    ensures |frs| >= 2 ==> Follows(frs[|frs| - 2], frs[|frs| - 1])
  {
  }

  lemma NumberFirst(frs: seq<Fragment>, f: Fragment)
    requires frs == [f] && f.sequence < SEQUENCE_MODULO
    ensures Numbered(frs)
  {
    assert frs[..0] == [] && NewOnes([]) == [];
    assert NewOnes(frs) == [f];
  }

  lemma NumberNext(first: nat, k: nat, last: Fragment, f: Fragment)
    requires last.sequence == CounterAt(first, k) && Follows(last, f)
    ensures f.sequence != last.sequence
            ==> f.sequence == CounterAt(first, k + 1)
                && TurnsAt(first, k + 1) == TurnsAt(first, k) + if f.sequence < last.sequence then 1 else 0
  {
    CounterTurns(first, k, last.sequence);
  }

  lemma NumberOneMore(frs: seq<Fragment>, before: seq<Fragment>, f: Fragment)
    requires before != [] && frs == before + [f] && Numbered(before)
    requires var k := |NewOnes(before)|;
             f.sequence != before[|before| - 1].sequence
             ==> f.sequence == CounterAt(frs[0].sequence, k)
                 && TurnsAt(frs[0].sequence, k)
                    == TurnsAt(frs[0].sequence, k - 1) + if f.sequence < before[|before| - 1].sequence then 1 else 0
    requires NewOnes(frs) == if LastIsNew(frs) then NewOnes(before) + [f] else NewOnes(before)
    ensures Numbered(frs)
  {
    hide NewOnes, CounterAt, TurnsAt;
    assert frs[..|frs| - 1] == before && frs[|frs| - 2] == before[|before| - 1];
  }

  lemma CounterTurns(first: nat, k: nat, residue: nat)
    requires residue == CounterAt(first, k)
    ensures (residue + 1) % SEQUENCE_MODULO == CounterAt(first, k + 1)
    ensures TurnsAt(first, k + 1)
            == TurnsAt(first, k) + if (residue + 1) % SEQUENCE_MODULO < residue then 1 else 0
    ensures (residue + 1) % SEQUENCE_MODULO != residue
  {
  }

  /** A retained fragment's reference: its output range holds its bytes, or it was collapsed and adds none. */
  ghost predicate Placed(r: Reference, f: Fragment, whole: seq<byte>, before: seq<byte>, after: seq<byte>,
                         isNew: bool) {
    && r.fragment == f && after <= whole
    && (if isNew then
          && r.collapsedDuplicateOf == None
          && r.outputStart == Some(|before|) && r.outputEnd == Some(|after|)
          && |before| <= |after| && whole[|before|..|after|] == f.data
        else r.outputStart == None && r.outputEnd == None && before == after)
  }

  /** Appended references' output ranges tile the rebuilt file in order and hold their fragment's bytes. */
  lemma {:induction false} ReferencesTile(frs: seq<Fragment>, i: nat)
    requires i < |frs|
    ensures |References(frs)| == |frs|
    ensures Placed(References(frs)[i], frs[i], Joined(frs), Joined(frs[..i]), Joined(frs[..i + 1]),
                   LastIsNew(frs[..i + 1]))
  {
    hide Joined, LastNew, NewOnes, References, LastIsNew;
    var before, f := frs[..|frs| - 1], frs[|frs| - 1];
    assert before + [f] == frs;
    JoinedSnoc(before, f);
    ReferencesLength(before);
    ReferenceLast(frs);
    if i < |before| {
      ReferencesTile(before, i);
      assert before[..i + 1] == frs[..i + 1] && before[..i] == frs[..i];
    } else {
      assert frs[..i + 1] == frs && frs[..i] == before;
    }
  }

  lemma ReferenceLast(frs: seq<Fragment>)
    requires frs != []
    ensures var before := frs[..|frs| - 1];
            && |References(frs)| == |References(before)| + 1 && References(before) <= References(frs)
            && var r := References(frs)[|References(before)|];
               && r.fragment == frs[|frs| - 1]
               && (if LastIsNew(frs) then
                     r.collapsedDuplicateOf == None && r.outputStart == Some(|Joined(before)|)
                     && r.outputEnd == Some(|Joined(frs)|)
                   else r.outputStart == None && r.outputEnd == None)
  {
    hide Joined, LastNew, LastIsNew;
  }

  lemma {:induction false} ReferencesLength(frs: seq<Fragment>)
    ensures |References(frs)| == |frs|
  {
    if frs != [] {
      ReferencesLength(frs[..|frs| - 1]);
    }
  }

  /** A collapsed duplicate names an earlier appended fragment with its own number and bytes. */
  lemma {:induction false} CollapsedNamesItsTwin(frs: seq<Fragment>, i: nat)
    requires InSequence(frs) && i < |frs| && |References(frs)| == |frs| && !LastIsNew(frs[..i + 1])
    ensures exists j | 0 <= j < i ::
              && LastIsNew(frs[..j + 1]) && References(frs)[i].collapsedDuplicateOf == Some(frs[j].tlogOffset)
              && frs[j].sequence == frs[i].sequence && frs[j].data == frs[i].data
  {
    hide References, NewOnes, Joined, LastNew;
    var prefix, before := frs[..i + 1], frs[..i];
    ReferencesOfPrefix(frs, i);
    assert prefix[..i] == before;
    RepeatedReference(prefix);
    PrefixInSequence(frs, i);
    LastNewStandsIn(before);
    var j := LastNewAt(before);
    assert before[..j + 1] == frs[..j + 1];
  }

  lemma PrefixInSequence(frs: seq<Fragment>, i: nat)
    requires InSequence(frs) && i < |frs| && !LastIsNew(frs[..i + 1])
    ensures i > 0 && InSequence(frs[..i]) && frs[i].sequence == frs[i - 1].sequence && frs[i].data == frs[i - 1].data
  {
    assert Follows(frs[i - 1], frs[i]);
  }

  lemma RepeatedReference(frs: seq<Fragment>)
    requires frs != [] && !LastIsNew(frs) && |References(frs)| == |frs|
    ensures var before := LastNew(frs[..|frs| - 1]);
            before.Some? ==> References(frs)[|frs| - 1].collapsedDuplicateOf == Some(before.value.tlogOffset)
  {
    ReferencesLength(frs[..|frs| - 1]);
  }

  lemma {:induction false} ReferencesOfPrefix(frs: seq<Fragment>, i: nat)
    requires i < |frs|
    ensures |References(frs)| == |frs| && |References(frs[..i + 1])| == i + 1
    ensures References(frs)[i] == References(frs[..i + 1])[i]
  {
    var before := frs[..|frs| - 1];
    ReferencesLength(frs);
    ReferencesLength(frs[..i + 1]);
    ReferencesLength(before);
    if i < |before| {
      ReferencesOfPrefix(before, i);
      assert before[..i + 1] == frs[..i + 1];
    } else {
      assert frs[..i + 1] == frs;
    }
  }

  lemma {:induction false} LastNewAt(frs: seq<Fragment>) returns (j: nat)
    requires frs != []
    ensures j < |frs| && LastIsNew(frs[..j + 1]) && LastNew(frs) == Some(frs[j])
  {
    if LastIsNew(frs) {
      j := |frs| - 1;
      assert frs[..j + 1] == frs;
    } else {
      var before := frs[..|frs| - 1];
      j := LastNewAt(before);
      assert before[..j + 1] == frs[..j + 1];
    }
  }
}
