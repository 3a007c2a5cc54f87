/** Origins never interfere: the pass over a whole capture is the pass over each origin's own part of it. */
module ChunkRuns {
  import opened Common
  import opened CrsfEntry
  import opened CrsfParameters

  // ---------------------------------------------------------------- lines and events

  /** The events of lines that all pass the frame checks. */
  function EventsOf(lines: seq<Line>): Result<seq<Event>, Error> {
    if lines == [] then Ok([])
    else
      var before, last := lines[..|lines| - 1], lines[|lines| - 1];
      var events :- EventsOf(before);
      var event :- Checked(PreviousTime(before), last.time, last.frame);
      Ok(events + [event])
  }

  /** A capture is accepted exactly when every line checks and the events' pass is accepted. */
  lemma {:induction false} ConvertedIsPass(lines: seq<Line>, declared: bool)
    ensures Converted(lines, declared).Ok?
            <==> EventsOf(lines).Ok? && Pass(EventsOf(lines).value, declared).Ok?
    ensures Converted(lines, declared).Ok?
            ==> Converted(lines, declared) == Pass(EventsOf(lines).value, declared)
  {
    hide Checked, Step;
    if lines != [] {
      var before, last := lines[..|lines| - 1], lines[|lines| - 1];
      ConvertedIsPass(before, declared);
      if EventsOf(lines).Ok? {
        var events := EventsOf(lines).value;
        assert events[..|events| - 1] == EventsOf(before).value;
      }
    }
  }

  // ---------------------------------------------------------------- origins do not interfere

  /** The events an origin's rows may depend on: its own frames and the requests addressed to it. */
  predicate Concerns(event: Event, o: byte) {
    match event
    case Ignored => false
    case Read(device, _, _, _) => device == o
    case Reported(origin, _) => origin == o
    case Chunk(origin, _, _, _, _, _) => origin == o
  }

  function Only(events: seq<Event>, o: byte): seq<Event> {
    if events == [] then []
    else
      var last := events[|events| - 1];
      Only(events[..|events| - 1], o) + (if Concerns(last, o) then [last] else [])
  }

  function RowsFrom(rows: seq<Row>, o: byte): seq<Row> {
    if rows == [] then []
    else
      var last := rows[|rows| - 1];
      RowsFrom(rows[..|rows| - 1], o) + (if last.origin == o then [last] else [])
  }

  lemma RowsFromSnoc(rows: seq<Row>, r: Row, o: byte)
    ensures RowsFrom(rows + [r], o) == RowsFrom(rows, o) + (if r.origin == o then [r] else [])
  {
    assert (rows + [r])[..|rows|] == rows;
  }

  /** Two passes are in the same state as far as one origin is concerned, and `alone` has seen no other. */
  ghost predicate Agree(st: State, alone: State, o: byte) {
    && (o in st.identities <==> o in alone.identities)
    && (o in st.identities ==> st.identities[o] == alone.identities[o])
    && (o in st.pending <==> o in alone.pending)
    && (o in st.pending ==> st.pending[o] == alone.pending[o])
    && (forall h: byte :: (o, h) in st.requests <==> (o, h) in alone.requests)
    && (forall h: byte :: (o, h) in st.requests ==> st.requests[(o, h)] == alone.requests[(o, h)])
    && RowsFrom(st.rows, o) == alone.rows
  }

  /** An event that concerns an origin is accepted or refused by what concerns that origin alone. */
  lemma StepTogether(st: State, alone: State, event: Event, o: byte, declared: bool)
    requires Agree(st, alone, o) && Concerns(event, o)
    ensures Step(st, event, declared).Ok? <==> Step(alone, event, declared).Ok?
    ensures Step(st, event, declared).Ok?
            ==> Agree(Step(st, event, declared).value, Step(alone, event, declared).value, o)
  {
    hide Step, Agree;
    if event.Chunk? {
      ChunkTogether(st, alone, event, declared);
    } else {
      OtherTogether(st, alone, event, o, declared);
    }
  }

  lemma AgreeAsked(st: State, alone: State, o: byte, host: byte, number: byte)
    requires Agree(st, alone, o)
    ensures Agree(st.(requests := st.requests[(o, host) := number]),
                  alone.(requests := alone.requests[(o, host) := number]), o)
  {
    hide RowsFrom;
  }

  lemma AgreeIdentity(st: State, alone: State, o: byte, identity: Identity)
    requires Agree(st, alone, o)
    ensures Agree(st.(identities := st.identities[o := identity]),
                  alone.(identities := alone.identities[o := identity]), o)
  {
    hide RowsFrom;
  }

  lemma AgreeInvalidated(st: State, alone: State, o: byte, m: nat, n: nat)
    requires Agree(st, alone, o)
    ensures Agree(st.(invalidated := m), alone.(invalidated := n), o)
  {
    hide RowsFrom;
  }

  lemma OtherTogether(st: State, alone: State, event: Event, o: byte, declared: bool)
    requires Agree(st, alone, o) && Concerns(event, o) && !event.Chunk?
    ensures Step(st, event, declared).Ok? && Step(alone, event, declared).Ok?
    ensures Agree(Step(st, event, declared).value, Step(alone, event, declared).value, o)
  {
    hide Agree;
    match event {
      case Reported(_, identity) =>
        AgreeIdentity(st, alone, o, identity);
      case Read(_, host, number, _) =>
        AgreeAsked(st, alone, o, host, number);
        AgreeRequests(st, alone, o, host);
        AgreeInvalidated(st.(requests := st.requests - {(o, host)}),
                         alone.(requests := alone.requests - {(o, host)}), o,
                         Step(st, event, declared).value.invalidated, Step(alone, event, declared).value.invalidated);
      case _ =>
    }
  }

  lemma JoinedTogether(st: State, alone: State, event: Event)
    requires event.Chunk? && Agree(st, alone, event.origin)
    ensures Joined(st, event) == Joined(alone, event)
  {
    hide RowsFrom;
  }

  lemma ChunkTogether(st: State, alone: State, event: Event, declared: bool)
    requires event.Chunk? && Agree(st, alone, event.origin)
    ensures Step(st, event, declared).Ok? <==> Step(alone, event, declared).Ok?
    ensures Step(st, event, declared).Ok?
            ==> Agree(Step(st, event, declared).value, Step(alone, event, declared).value, event.origin)
  {
    hide RowOf, RowsFrom, Joined, Agree;
    var o := event.origin;
    JoinedTogether(st, alone, event);
    SameAccess(st, alone, o);
    if Joined(st, event).Ok? {
      var held := Joined(st, event).value;
      AgreeRequests(st, alone, o, event.host);
      var identity := if o in st.identities then Some(st.identities[o]) else None;
      var row := RowOf(held, o, identity, declared);
      var r1 := if o in st.pending then st.requests else st.requests - {(o, event.host)};
      var r2 := if o in alone.pending then alone.requests else alone.requests - {(o, event.host)};
      AgreePending(st.(requests := r1), alone.(requests := r2), o, held);
      if row.Ok? {
        RowOrigin(held, o, identity, declared);
        AgreeRow(st.(requests := r1), alone.(requests := r2), o, row.value);
      }
    }
  }

  lemma SameAccess(st: State, alone: State, o: byte)
    requires Agree(st, alone, o)
    ensures o in st.identities <==> o in alone.identities
    ensures o in st.identities ==> st.identities[o] == alone.identities[o]
    ensures o in st.pending <==> o in alone.pending
  {
  }

  lemma AgreeRequests(st: State, alone: State, o: byte, host: byte)
    requires Agree(st, alone, o)
    ensures Agree(st.(requests := st.requests - {(o, host)}), alone.(requests := alone.requests - {(o, host)}), o)
  {
    hide RowsFrom;
  }

  lemma AgreePending(st: State, alone: State, o: byte, held: Held)
    requires Agree(st, alone, o)
    ensures Agree(st.(pending := st.pending[o := held]), alone.(pending := alone.pending[o := held]), o)
  {
    hide RowsFrom;
  }

  lemma AgreeRow(st: State, alone: State, o: byte, row: Row)
    requires Agree(st, alone, o) && row.origin == o
    ensures Agree(st.(pending := st.pending - {o}, rows := st.rows + [row]),
                  alone.(pending := alone.pending - {o}, rows := alone.rows + [row]), o)
  {
    hide RowsFrom;
    RowsFromSnoc(st.rows, row, o);
  }

  lemma RowOrigin(held: Held, o: byte, identity: Option<Identity>, declared: bool)
    ensures RowOf(held, o, identity, declared).Ok? ==> RowOf(held, o, identity, declared).value.origin == o
  {
  }

  lemma ChunkRows(st: State, event: Event, declared: bool)
    requires event.Chunk? && Step(st, event, declared).Ok?
    ensures var after := Step(st, event, declared).value;
            after.rows == st.rows
            || (|after.rows| == |st.rows| + 1 && after.rows == st.rows + [after.rows[|st.rows|]]
                && after.rows[|st.rows|].origin == event.origin)
  {
    hide ReadEntry, Joined;
  }

  /** An event that does not concern an origin changes nothing of it. */
  lemma StepApart(st: State, alone: State, event: Event, o: byte, declared: bool)
    requires Agree(st, alone, o) && !Concerns(event, o) && Step(st, event, declared).Ok?
    ensures Agree(Step(st, event, declared).value, alone, o)
  {
    hide RowsFrom, RowOf, Joined;
    if event.Chunk? {
      var after := Step(st, event, declared).value;
      ChunkRows(st, event, declared);
      if after.rows != st.rows {
        RowsFromSnoc(st.rows, after.rows[|st.rows|], o);
      }
    }
  }

  /** The rows of one origin are the rows of its own sub-capture. */
  lemma {:induction false} OriginsIndependent(events: seq<Event>, o: byte, declared: bool)
    requires Pass(events, declared).Ok?
    ensures Pass(Only(events, o), declared).Ok?
    ensures Agree(Pass(events, declared).value, Pass(Only(events, o), declared).value, o)
  {
    hide Step, Agree;
    if events == [] {
      EmptyAgrees(o);
    } else {
      var before, last := events[..|events| - 1], events[|events| - 1];
      OriginsIndependent(before, o, declared);
      var st, alone := Pass(before, declared).value, Pass(Only(before, o), declared).value;
      if Concerns(last, o) {
        StepTogether(st, alone, last, o, declared);
        var only := Only(events, o);
        assert only == Only(before, o) + [last] && only[..|only| - 1] == Only(before, o);
      } else {
        StepApart(st, alone, last, o, declared);
        assert Only(events, o) == Only(before, o);
      }
    }
  }

  lemma EmptyAgrees(o: byte)
    ensures Agree(START, START, o)
  {
  }

  lemma {:induction false} AcceptedPrefix(events: seq<Event>, k: nat, declared: bool)
    requires k <= |events| && Pass(events, declared).Ok?
    ensures Pass(events[..k], declared).Ok?
    decreases |events| - k
  {
    if k == |events| {
      assert events[..k] == events;
    } else {
      AcceptedPrefix(events, k + 1, declared);
      assert events[..k + 1][..k] == events[..k];
    }
  }

  lemma OnlyConcerned(events: seq<Event>, last: Event, o: byte)
    ensures Only(events + [last], o) == Only(events, o) + (if Concerns(last, o) then [last] else [])
  {
    assert (events + [last])[..|events|] == events;
  }

  /** Every origin's own sub-capture is accepted. */
  ghost predicate EachAccepted(events: seq<Event>, declared: bool) {
    forall o: byte :: Pass(Only(events, o), declared).Ok?
  }

  lemma {:induction false} AcceptedTogether(events: seq<Event>, declared: bool)
    requires EachAccepted(events, declared)
    ensures Pass(events, declared).Ok?
  {
    hide Step, Agree;
    if events != [] {
      var before, last := events[..|events| - 1], events[|events| - 1];
      assert before + [last] == events;
      forall o: byte
        ensures Pass(Only(before, o), declared).Ok?
      {
        OnlyConcerned(before, last, o);
        assert Pass(Only(events, o), declared).Ok?;
        AcceptedPrefix(Only(events, o), |Only(before, o)|, declared);
        assert Only(events, o)[..|Only(before, o)|] == Only(before, o);
      }
      AcceptedTogether(before, declared);
      if !last.Ignored? {
        var o := if last.Read? then last.device else last.origin;
        OriginsIndependent(before, o, declared);
        OnlyConcerned(before, last, o);
        StepTogether(Pass(before, declared).value, Pass(Only(before, o), declared).value, last, o, declared);
        var only := Only(events, o);
        assert only[..|only| - 1] == Only(before, o) && only[|only| - 1] == last;
        assert Pass(only, declared).Ok?;
      } else {
        IgnoredAccepted(Pass(before, declared).value, declared);
      }
    }
  }

  /** A capture is accepted exactly when each origin's own sub-capture is. */
  lemma AcceptedOriginByOrigin(events: seq<Event>, declared: bool)
    ensures Pass(events, declared).Ok? <==> EachAccepted(events, declared)
  {
    if Pass(events, declared).Ok? {
      forall o: byte
        ensures Pass(Only(events, o), declared).Ok?
      {
        OriginsIndependent(events, o, declared);
      }
    } else if EachAccepted(events, declared) {
      AcceptedTogether(events, declared);
    }
  }

  lemma IgnoredAccepted(st: State, declared: bool)
    ensures Step(st, Ignored, declared).Ok?
  {
  }

  // ---------------------------------------------------------------- the same of saved lines

  /** A line that holds a frame of the origin, or a request addressed to it. */
  predicate Regards(line: Line, o: byte) {
    |line.frame| >= 4 && EventOf(line.time, line.frame).Ok? && Concerns(EventOf(line.time, line.frame).value, o)
  }

  /** The part of a saved capture that regards one origin. */
  function LinesOf(lines: seq<Line>, o: byte): seq<Line> {
    if lines == [] then []
    else
      var last := lines[|lines| - 1];
      LinesOf(lines[..|lines| - 1], o) + (if Regards(last, o) then [last] else [])
  }

  lemma CheckedInOrder(previous: Option<nat>, time: nat, frame: seq<byte>)
    requires Checked(previous, time, frame).Ok?
    ensures previous.Some? ==> previous.value <= time
  {
    hide EventOf;
  }

  lemma {:induction false} NoLater(lines: seq<Line>, o: byte)
    requires EventsOf(lines).Ok?
    ensures PreviousTime(LinesOf(lines, o)).Some?
            ==> PreviousTime(lines).Some? && PreviousTime(LinesOf(lines, o)).value <= PreviousTime(lines).value
  {
    hide Checked, Regards;
    if lines != [] {
      var before, last := lines[..|lines| - 1], lines[|lines| - 1];
      NoLater(before, o);
      assert Checked(PreviousTime(before), last.time, last.frame).Ok?;
      CheckedInOrder(PreviousTime(before), last.time, last.frame);
      if Regards(last, o) {
        assert LinesOf(lines, o) == LinesOf(before, o) + [last];
      } else {
        assert LinesOf(lines, o) == LinesOf(before, o);
      }
    }
  }

  /** A line that passes the frame checks also passes them when earlier lines are left out. */
  lemma CheckedSooner(previous: Option<nat>, sooner: Option<nat>, time: nat, frame: seq<byte>)
    requires Checked(previous, time, frame).Ok?
    requires sooner.Some? ==> previous.Some? && sooner.value <= previous.value
    ensures Checked(sooner, time, frame) == Checked(previous, time, frame)
    ensures |frame| >= 4 && Checked(previous, time, frame) == EventOf(time, frame)
  {
    hide EventOf;
  }

  lemma NothingAlone(o: byte)
    ensures EventsOf(LinesOf([], o)) == Ok(Only([], o))
  {
  }

  lemma EventsSnoc(lines: seq<Line>, last: Line)
    requires EventsOf(lines).Ok? && Checked(PreviousTime(lines), last.time, last.frame).Ok?
    ensures EventsOf(lines + [last])
         == Ok(EventsOf(lines).value + [Checked(PreviousTime(lines), last.time, last.frame).value])
  {
    hide Checked;
    assert (lines + [last])[..|lines|] == lines;
  }

  /** One origin's lines pass the checks by themselves, and their events are that origin's events. */
  lemma {:induction false} LinesAlone(lines: seq<Line>, o: byte)
    requires EventsOf(lines).Ok?
    ensures EventsOf(LinesOf(lines, o)) == Ok(Only(EventsOf(lines).value, o))
  {
    hide Checked, EventOf, Concerns, PreviousTime, Only;
    if lines == [] {
      NothingAlone(o);
    } else {
      var before, last := lines[..|lines| - 1], lines[|lines| - 1];
      LinesAlone(before, o);
      NoLater(before, o);
      CheckedSooner(PreviousTime(before), PreviousTime(LinesOf(before, o)), last.time, last.frame);
      var event := EventOf(last.time, last.frame);
      assert EventsOf(lines).value == EventsOf(before).value + [event.value];
      OnlyConcerned(EventsOf(before).value, event.value, o);
      if Regards(last, o) {
        assert LinesOf(lines, o) == LinesOf(before, o) + [last];
        EventsSnoc(LinesOf(before, o), last);
      } else {
        assert LinesOf(lines, o) == LinesOf(before, o);
        assert Only(EventsOf(before).value, o) + [] == Only(EventsOf(before).value, o);
      }
    }
  }

  /** The rows of one origin are what converting its own lines alone gives. */
  lemma LinesIndependent(lines: seq<Line>, o: byte, declared: bool)
    requires Converted(lines, declared).Ok?
    ensures Converted(LinesOf(lines, o), declared).Ok?
    ensures RowsFrom(Converted(lines, declared).value.rows, o) == Converted(LinesOf(lines, o), declared).value.rows
  {
    hide Converted, EventsOf, Pass, Only, LinesOf;
    ConvertedIsPass(lines, declared);
    LinesAlone(lines, o);
    OriginsIndependent(EventsOf(lines).value, o, declared);
    ConvertedIsPass(LinesOf(lines, o), declared);
  }

  /** Every origin's own lines are converted. */
  ghost predicate EachConverted(lines: seq<Line>, declared: bool) {
    forall o: byte :: Converted(LinesOf(lines, o), declared).Ok?
  }

  lemma TogetherConverted(lines: seq<Line>, declared: bool)
    requires EventsOf(lines).Ok? && EachConverted(lines, declared)
    ensures Converted(lines, declared).Ok?
  {
    hide Converted, EventsOf, Pass, Only, LinesOf;
    var events := EventsOf(lines).value;
    forall o: byte
      ensures Pass(Only(events, o), declared).Ok?
    {
      assert Converted(LinesOf(lines, o), declared).Ok?;
      LinesAlone(lines, o);
      ConvertedIsPass(LinesOf(lines, o), declared);
    }
    assert EachAccepted(events, declared);
    AcceptedOriginByOrigin(events, declared);
    ConvertedIsPass(lines, declared);
  }

  /** Lines that pass the frame checks are converted exactly when each origin's own lines are. */
  lemma ConvertedOriginByOrigin(lines: seq<Line>, declared: bool)
    requires EventsOf(lines).Ok?
    ensures Converted(lines, declared).Ok? <==> EachConverted(lines, declared)
  {
    hide Converted, EventsOf, LinesOf;
    if Converted(lines, declared).Ok? {
      forall o: byte
        ensures Converted(LinesOf(lines, o), declared).Ok?
      {
        LinesIndependent(lines, o, declared);
      }
    } else if EachConverted(lines, declared) {
      TogetherConverted(lines, declared);
    }
  }
}
