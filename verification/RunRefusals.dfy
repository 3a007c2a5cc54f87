/**
  * Why the parameter pass refuses a capture: the first line that is wrong in itself, or the first chunk that does
  * not fit its origin's run; and the reads whose evidence a later read withdrew.
  */
module RunRefusals {
  import opened Common
  import opened CrsfEntry
  import opened CrsfParameters
  import opened ChunkRuns
  import opened RunEvidence
  import opened RunAcceptance
  import CrsfFrames

  /** What is wrong with a chunk: its host, its place in the run, the run's extent, or the entry it ends. */
  ghost predicate Misfit(events: seq<Event>, e: Event, declared: bool, why: Error)
    requires e.Chunk?
  {
    var open := OpenRun(events, e.origin);
    if open != [] && e.host != open[0].host then why == DestinationChanged
    else if open != [] && (e.number != open[0].number || e.remaining as int != open[|open| - 1].remaining - 1)
    then why == RunBreaks
    else if |open| + 1 > 16 || |Flatten(Datas(open + [e]))| > 896 then why == ChunkBound
    else
      && e.remaining == 0 && (declared || StartObserved(events, e.origin, e.host, e.number))
      && ReadEntry(Flatten(Datas(open + [e]))).Err?
      && why == BadEntry(ReadEntry(Flatten(Datas(open + [e]))).error)
  }

  /** What joining makes of a chunk, its two refusals included. */
  lemma JoinedOr(st: State, events: seq<Event>, e: Event)
    requires e.Chunk? && PendingIs(st, events) && RequestsMean(st, events)
    ensures var open := OpenRun(events, e.origin);
            Joined(st, e).Err? ==>
              open != []
              && if e.host != open[0].host then Joined(st, e) == Err(DestinationChanged)
                 else Joined(st, e) == Err(RunBreaks)
                      && (e.number != open[0].number || e.remaining as int != open[|open| - 1].remaining - 1)
    ensures var open := OpenRun(events, e.origin);
            Joined(st, e).Ok? && open != [] ==>
              e.host == open[0].host && e.number == open[0].number
              && e.remaining as int == open[|open| - 1].remaining - 1
  {
    hide StartObserved, EvidenceOf, Flatten, Datas, RequestsMean, OpenRun;
    assert e.origin in st.pending ==> HeldIs(st.pending[e.origin], events, e.origin);
  }

  /** A chunk is refused for exactly what is wrong with it, and nothing else is refused. */
  lemma StepRefused(st: State, events: seq<Event>, e: Event, declared: bool, why: Error)
    requires PendingIs(st, events) && RequestsMean(st, events)
    ensures Step(st, e, declared) == Err(why) <==> e.Chunk? && Misfit(events, e, declared, why)
  {
    hide PendingIs, RequestsMean, OpenRun, StartObserved, Consistent, Joined, Flatten, Datas, HeldRefused, Misfit;
    if e.Chunk? {
      JoinedExactly(st, events, e);
      JoinedOr(st, events, e);
      ChunkRefused(st, e, declared, why);
      if Joined(st, e).Ok? {
        RunRefused(st, events, e, declared, why);
      } else {
        NotJoined(st, events, e, declared, why);
      }
    }
  }

  /** What is wrong with a joined run. */
  predicate HeldRefused(held: Held, ended: bool, declared: bool, why: Error) {
    if held.chunks > 16 || |held.data| > 896 then why == ChunkBound
    else
      && ended && (declared || held.observedStart) && ReadEntry(held.data).Err?
      && why == BadEntry(ReadEntry(held.data).error)
  }

  lemma ChunkRefused(st: State, e: Event, declared: bool, why: Error)
    requires e.Chunk?
    ensures Step(st, e, declared) == Err(why)
       <==> match Joined(st, e)
            case Err(error) => why == error
            case Ok(held) => HeldRefused(held, e.remaining == 0, declared, why)
  {
    hide Joined, ReadEntry;
  }

  lemma NotJoined(st: State, events: seq<Event>, e: Event, declared: bool, why: Error)
    requires e.Chunk? && PendingIs(st, events) && RequestsMean(st, events) && Joined(st, e).Err?
    ensures Joined(st, e) == Err(why) <==> Misfit(events, e, declared, why)
  {
    hide PendingIs, RequestsMean, OpenRun, StartObserved, Joined, ReadEntry, Flatten, Datas;
    JoinedOr(st, events, e);
  }

  lemma RunRefused(st: State, events: seq<Event>, e: Event, declared: bool, why: Error)
    requires e.Chunk? && PendingIs(st, events) && RequestsMean(st, events) && Joined(st, e).Ok?
    ensures HeldRefused(Joined(st, e).value, e.remaining == 0, declared, why) <==> Misfit(events, e, declared, why)
  {
    hide PendingIs, RequestsMean, OpenRun, StartObserved, Consistent, Joined, ReadEntry, Flatten, Datas;
    JoinedExactly(st, events, e);
    JoinedOr(st, events, e);
  }

  /** The first line that is refused: in itself, or for the chunk it holds. */
  ghost predicate WrongLine(lines: seq<Line>, k: nat, declared: bool, why: Error)
    requires k < |lines|
  {
    && EventsOf(lines[..k]).Ok?
    && match Checked(PreviousTime(lines[..k]), lines[k].time, lines[k].frame)
       case Err(_) => CrsfFrames.Wrong(PreviousTime(lines[..k]), lines[k].time, lines[k].frame, why)
       case Ok(e) => e.Chunk? && Misfit(EventsOf(lines[..k]).value, e, declared, why)
  }

  /** A line after an accepted beginning is refused exactly for what is wrong with it. */
  lemma LineRefused(lines: seq<Line>, k: nat, declared: bool, why: Error)
    requires k < |lines| && Converted(lines[..k], declared).Ok?
    ensures Converted(lines[..k + 1], declared) == Err(why) <==> WrongLine(lines, k, declared, why)
  {
    hide Checked, Step, Misfit, CrsfFrames.Wrong, EventsOf, PendingIs, RequestsMean;
    var before, last := lines[..k], lines[k];
    ConvertedNext(lines, k, declared);
    ConvertedIsPass(before, declared);
    CrsfFrames.FrameRefused(PreviousTime(before), last.time, last.frame, why);
    PassExactly(EventsOf(before).value, declared);
    RequestsAfter(EventsOf(before).value, declared);
    match Checked(PreviousTime(before), last.time, last.frame) {
      case Err(_) =>
      case Ok(e) => StepRefused(Converted(before, declared).value, EventsOf(before).value, e, declared, why);
    }
  }

  lemma {:induction false} FirstWrong(lines: seq<Line>, declared: bool) returns (k: nat)
    requires Converted(lines, declared).Err?
    ensures k < |lines| && Converted(lines[..k], declared).Ok? && Converted(lines[..k + 1], declared).Err?
  {
    hide Checked, Step;
    var before := lines[..|lines| - 1];
    assert lines[..|lines|] == lines;
    if Converted(before, declared).Ok? {
      k := |before|;
    } else {
      k := FirstWrong(before, declared);
      assert before[..k] == lines[..k] && before[..k + 1] == lines[..k + 1];
    }
  }

  /** A capture is refused for a reason exactly when an accepted beginning is followed by a line wrong for it. */
  lemma RefusedExactly(lines: seq<Line>, declared: bool, why: Error)
    ensures Converted(lines, declared) == Err(why)
       <==> exists k | 0 <= k < |lines| :: Converted(lines[..k], declared).Ok? && WrongLine(lines, k, declared, why)
  {
    hide Converted, WrongLine;
    if Converted(lines, declared).Err? {
      var k := FirstWrong(lines, declared);
      RefusalStands(lines, k + 1, declared);
      LineRefused(lines, k, declared, Converted(lines[..k + 1], declared).error);
    }
    forall k | 0 <= k < |lines| && Converted(lines[..k], declared).Ok? && WrongLine(lines, k, declared, why)
      ensures Converted(lines, declared) == Err(why)
    {
      LineRefused(lines, k, declared, why);
      RefusalStands(lines, k + 1, declared);
    }
  }

  // ---------------------------------------------------------------- withdrawn evidence

  /** The reads for a later chunk that withdrew a chunk-zero read, the only evidence of a start at that time. */
  function Withdrawals(events: seq<Event>): nat {
    if events == [] then 0
    else
      var before, last := events[..|events| - 1], events[|events| - 1];
      Withdrawals(before)
      + if last.Read? && last.chunk != 0 && EvidenceOf(before, last.device, last.host).ZeroRead? then 1 else 0
  }

  lemma {:induction false} WithdrawalsCounted(events: seq<Event>, declared: bool)
    requires Pass(events, declared).Ok?
    ensures Pass(events, declared).value.invalidated == Withdrawals(events)
  {
    hide EvidenceOf;
    if events != [] {
      var before, last := events[..|events| - 1], events[|events| - 1];
      WithdrawalsCounted(before, declared);
      RequestsAfter(before, declared);
    }
  }
}
