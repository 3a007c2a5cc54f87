/** Which captures the parameter pass accepts, said of the frames alone and without the pass's dictionaries. */
module RunAcceptance {
  import opened Common
  import opened CrsfEntry
  import opened CrsfParameters
  import opened ChunkRuns
  import opened RunEvidence

  /** The chunks of an origin's run that has not ended yet. */
  function OpenRun(events: seq<Event>, o: byte): (run: seq<Event>)
    ensures forall k | 0 <= k < |run| :: run[k].Chunk? && run[k].origin == o
  {
    if events == [] then []
    else
      var before, last := events[..|events| - 1], events[|events| - 1];
      if last.Chunk? && last.origin == o then
        if last.remaining == 0 then [] else OpenRun(before, o) + [last]
      else OpenRun(before, o)
  }

  /** Whether the origin's open run, or else the run that would start now, begins at a requested start. */
  predicate StartObserved(events: seq<Event>, o: byte, host: byte, number: byte) {
    if OpenRun(events, o) == [] then EvidenceOf(events, o, host) == ZeroRead(number)
    else StartObserved(events[..|events| - 1], o, host, number)
  }

  /**
    * What the pass demands of a chunk: it continues its origin's run, the run stays within sixteen chunks and 896
    * bytes, and when it ends with its start evidenced or declared, its bytes can be read as an entry.
    */
  ghost predicate Fits(events: seq<Event>, e: Event, declared: bool)
    requires e.Chunk?
  {
    var run := OpenRun(events, e.origin) + [e];
    && Consistent(run, e.origin) && |run| <= MAX_CHUNKS && |Flatten(Datas(run))| <= MAX_ENTRY_BYTES
    && (e.remaining == 0 && (declared || StartObserved(events, e.origin, e.host, e.number)) ==>
          ReadEntry(Flatten(Datas(run))).Ok?)
  }

  ghost predicate Admissible(events: seq<Event>, declared: bool) {
    forall n | 0 <= n < |events| && events[n].Chunk? :: Fits(events[..n], events[n], declared)
  }

  // ---------------------------------------------------------------- what the pass holds of an open run

  ghost predicate HeldIs(held: Held, events: seq<Event>, o: byte) {
    var run := OpenRun(events, o);
    && Consistent(run, o) && held.number == run[0].number && held.host == run[0].host
    && held.remaining == run[|run| - 1].remaining && held.chunks == |run| && held.data == Flatten(Datas(run))
    && (held.observedStart <==> StartObserved(events, o, held.host, held.number))
  }

  ghost predicate PendingIs(st: State, events: seq<Event>) {
    forall o: byte ::
      && (o in st.pending <==> OpenRun(events, o) != [])
      && (o in st.pending ==> HeldIs(st.pending[o], events, o))
  }

  lemma OpenSnoc(events: seq<Event>, e: Event, o: byte)
    ensures OpenRun(events + [e], o)
         == if e.Chunk? && e.origin == o then (if e.remaining == 0 then [] else OpenRun(events, o) + [e])
            else OpenRun(events, o)
  {
    assert (events + [e])[..|events|] == events;
  }

  /** While a run is open its start stays where it was. */
  lemma StartStays(events: seq<Event>, e: Event, o: byte, host: byte, number: byte)
    requires OpenRun(events + [e], o) != []
    ensures StartObserved(events + [e], o, host, number) == StartObserved(events, o, host, number)
  {
    assert (events + [e])[..|events|] == events;
  }

  /** A run that fits as far as it goes has only one way to continue. */
  lemma ConsistentMore(run: seq<Event>, e: Event, o: byte)
    requires Consistent(run, o) && e.Chunk? && e.origin == o
    ensures Consistent(run + [e], o)
       <==> e.host == run[0].host && e.number == run[0].number && e.remaining as int == run[|run| - 1].remaining - 1
  {
    var longer := run + [e];
    assert longer[|run|] == e && longer[0] == run[0];
    assert run[|run| - 1].remaining as int == run[0].remaining - (|run| - 1);
    if Consistent(longer, o) {
      assert longer[|run|].remaining as int == longer[0].remaining - |run|;
    } else if e.host == run[0].host && e.number == run[0].number
              && e.remaining as int == run[|run| - 1].remaining - 1 {
      ConsistentSnoc(run, e, o);
    }
  }

  lemma DatasMore(run: seq<Event>, e: Event)
    requires e.Chunk? && forall k | 0 <= k < |run| :: run[k].Chunk?
    ensures Flatten(Datas(run + [e])) == Flatten(Datas(run)) + e.data
  {
    assert Datas(run + [e])[..|run|] == Datas(run);
  }

  /** Joining a chunk to its origin's run succeeds exactly when the run stays consistent. */
  lemma JoinedExactly(st: State, events: seq<Event>, e: Event)
    requires e.Chunk? && PendingIs(st, events) && RequestsMean(st, events)
    ensures var run := OpenRun(events, e.origin) + [e];
            && (Joined(st, e).Ok? <==> Consistent(run, e.origin))
            && (Joined(st, e).Ok? ==>
                  var held := Joined(st, e).value;
                  && held.number == e.number == run[0].number && held.host == e.host == run[0].host
                  && held.remaining == e.remaining && held.chunks == |run| && held.data == Flatten(Datas(run))
                  && (held.observedStart <==> StartObserved(events, e.origin, e.host, e.number)))
  {
    hide EvidenceOf, Consistent, Flatten, Datas;
    var o := e.origin;
    var run := OpenRun(events, o);
    if o in st.pending {
      hide StartObserved;
      assert HeldIs(st.pending[o], events, o);
      RunNotEmpty(run, o);
      ConsistentMore(run, e, o);
      DatasMore(run, e);
    } else {
      assert run + [e] == [e];
      OneChunk(e);
    }
  }

  lemma RunNotEmpty(run: seq<Event>, o: byte)
    requires Consistent(run, o)
    ensures run != []
  {
  }

  /** One more event is accepted exactly when it is no chunk, or a chunk that fits. */
  lemma StepExactly(st: State, events: seq<Event>, e: Event, declared: bool)
    requires PendingIs(st, events) && RequestsMean(st, events)
    ensures Step(st, e, declared).Ok? <==> (e.Chunk? ==> Fits(events, e, declared))
  {
    hide PendingIs, RequestsMean, OpenRun, StartObserved, Consistent, Joined, ReadEntry, Datas, Flatten;
    if e.Chunk? {
      JoinedExactly(st, events, e);
    }
  }

  lemma PendingKeeps(st: State, events: seq<Event>, e: Event, declared: bool)
    requires PendingIs(st, events) && RequestsMean(st, events) && Step(st, e, declared).Ok?
    ensures PendingIs(Step(st, e, declared).value, events + [e])
  {
    hide OpenRun, StartObserved, Consistent, Joined, RowOf, Datas, Flatten, EvidenceOf, HeldIs;
    var after := Step(st, e, declared).value;
    if e.Chunk? {
      JoinedExactly(st, events, e);
    }
    forall o: byte
      ensures o in after.pending <==> OpenRun(events + [e], o) != []
      ensures o in after.pending ==> HeldIs(after.pending[o], events + [e], o)
    {
      OpenSnoc(events, e, o);
      if e.Chunk? && e.origin == o {
        if e.remaining != 0 {
          HeldJoined(after.pending[o], events, e);
        }
      } else if o in st.pending {
        HeldStays(st.pending[o], events, e, o);
      }
    }
  }

  lemma HeldJoined(held: Held, events: seq<Event>, e: Event)
    requires e.Chunk? && e.remaining != 0
    requires var run := OpenRun(events, e.origin) + [e];
             && Consistent(run, e.origin)
             && held.number == e.number == run[0].number && held.host == e.host == run[0].host
             && held.remaining == e.remaining && held.chunks == |run| && held.data == Flatten(Datas(run))
             && (held.observedStart <==> StartObserved(events, e.origin, e.host, e.number))
    ensures HeldIs(held, events + [e], e.origin)
  {
    hide OpenRun, StartObserved, Consistent, Datas, Flatten;
    OpenSnoc(events, e, e.origin);
    StartStays(events, e, e.origin, e.host, e.number);
  }

  lemma HeldStays(held: Held, events: seq<Event>, e: Event, o: byte)
    requires HeldIs(held, events, o) && OpenRun(events, o) != [] && !(e.Chunk? && e.origin == o)
    ensures HeldIs(held, events + [e], o)
  {
    hide OpenRun, StartObserved, Consistent, Datas, Flatten;
    OpenSnoc(events, e, o);
    StartStays(events, e, o, held.host, held.number);
  }

  /** The pass accepts exactly the captures in which every chunk fits. */
  lemma {:induction false} PassExactly(events: seq<Event>, declared: bool)
    ensures Pass(events, declared).Ok? <==> Admissible(events, declared)
    ensures Pass(events, declared).Ok? ==> PendingIs(Pass(events, declared).value, events)
  {
    hide Fits, Step, PendingIs;
    if events == [] {
      NothingPending();
    } else {
      var before, last := events[..|events| - 1], events[|events| - 1];
      assert before + [last] == events;
      PassExactly(before, declared);
      AdmissibleSnoc(before, last, declared);
      if Pass(before, declared).Ok? {
        var st := Pass(before, declared).value;
        RequestsAfter(before, declared);
        StepExactly(st, before, last, declared);
        if Step(st, last, declared).Ok? {
          PendingKeeps(st, before, last, declared);
        }
      }
    }
  }

  lemma NothingPending()
    ensures PendingIs(START, [])
  {
  }

  lemma RequestsAfter(events: seq<Event>, declared: bool)
    requires Pass(events, declared).Ok?
    ensures RequestsMean(Pass(events, declared).value, events)
  {
    hide RequestsMean, PendingMeans, RowsMean, IdentitiesMean;
    PassMeans(events, declared);
  }

  lemma AdmissibleSnoc(events: seq<Event>, e: Event, declared: bool)
    ensures Admissible(events + [e], declared)
       <==> Admissible(events, declared) && (e.Chunk? ==> Fits(events, e, declared))
  {
    hide Fits;
    var longer := events + [e];
    assert longer[..|events|] == events && longer[|events|] == e;
    forall n | 0 <= n < |events|
      ensures longer[..n] == events[..n] && longer[n] == events[n]
    {
    }
    if Admissible(longer, declared) {
      forall n | 0 <= n < |events| && events[n].Chunk?
        ensures Fits(events[..n], events[n], declared)
      {
        assert Fits(longer[..n], longer[n], declared);
      }
      assert e.Chunk? ==> Fits(longer[..|events|], longer[|events|], declared);
    }
  }

  /** A saved capture is accepted exactly when every line passes its checks and every chunk fits. */
  lemma ConvertedExactly(lines: seq<Line>, declared: bool)
    ensures Converted(lines, declared).Ok?
       <==> EventsOf(lines).Ok? && Admissible(EventsOf(lines).value, declared)
  {
    hide Admissible, Converted, EventsOf;
    ConvertedIsPass(lines, declared);
    if EventsOf(lines).Ok? {
      PassExactly(EventsOf(lines).value, declared);
    }
  }
}
