/** Every parameter row is one unbroken chunk run, and says on what evidence its value was read. */
module RunEvidence {
  import opened Common
  import opened CrsfEntry
  import opened CrsfParameters
  import opened ChunkRuns

  // ---------------------------------------------------------------- runs and evidence, in terms of events

  function ChunksOf(events: seq<Event>, o: byte): seq<Event> {
    if events == [] then []
    else
      var last := events[|events| - 1];
      ChunksOf(events[..|events| - 1], o) + (if last.Chunk? && last.origin == o then [last] else [])
  }

  /** After these events the origin's next chunk starts a run. */
  predicate BetweenRuns(events: seq<Event>, o: byte) {
    var chunks := ChunksOf(events, o);
    chunks == [] || (chunks[|chunks| - 1].Chunk? && chunks[|chunks| - 1].remaining == 0)
  }

  datatype Evidence = NoEvidence | ZeroRead(number: byte) | LaterRead | RunStart

  /** The last event of a device and host among chunk-zero reads, later-chunk reads and run starts. */
  function EvidenceOf(events: seq<Event>, o: byte, host: byte): Evidence {
    if events == [] then NoEvidence
    else
      var before, last := events[..|events| - 1], events[|events| - 1];
      if last.Read? && last.device == o && last.host == host then
        if last.chunk == 0 then ZeroRead(last.number) else LaterRead
      else if last.Chunk? && last.origin == o && last.host == host && BetweenRuns(before, o) then RunStart
      else EvidenceOf(before, o, host)
  }

  function Datas(run: seq<Event>): seq<seq<byte>>
    requires forall k | 0 <= k < |run| :: run[k].Chunk?
  {
    seq(|run|, k requires 0 <= k < |run| => run[k].data)
  }

  /** One origin's consecutive chunks of one parameter, for one host, counting down by one. */
  ghost predicate Consistent(run: seq<Event>, o: byte) {
    && |run| > 0
    && (forall k | 0 <= k < |run| :: run[k].Chunk? && run[k].origin == o)
    && (forall k | 0 <= k < |run| :: run[k].host == run[0].host && run[k].number == run[0].number)
    && (forall k | 0 <= k < |run| :: run[k].remaining as int == run[0].remaining - k)
  }

  /** `held` is the run that starts at event `i` and has not ended by the last event. */
  ghost predicate HeldFrom(held: Held, events: seq<Event>, o: byte, i: nat) {
    && i < |events| && events[i].Chunk? && events[i].origin == o && BetweenRuns(events[..i], o)
    && var run := ChunksOf(events[i..], o);
    && Consistent(run, o) && run[0] == events[i]
    && held.number == run[0].number && held.host == run[0].host && held.time == run[0].time
    && held.remaining == run[|run| - 1].remaining && held.chunks == |run| && held.data == Flatten(Datas(run))
    && (held.observedStart <==> EvidenceOf(events[..i], o, held.host) == ZeroRead(held.number))
  }

  /** The last identity an origin reported. */
  function IdentityAfter(events: seq<Event>, o: byte): Option<Identity> {
    if events == [] then None
    else
      var last := events[|events| - 1];
      if last.Reported? && last.origin == o then Some(last.identity) else IdentityAfter(events[..|events| - 1], o)
  }

  /** Where runs end: at the chunks with none remaining, in order. */
  function Ends(events: seq<Event>): (ends: seq<nat>)
    ensures forall j <- ends :: j < |events|
  {
    if events == [] then []
    else
      var last := |events| - 1;
      Ends(events[..last]) + if events[last].Chunk? && events[last].remaining == 0 then [last] else []
  }

  /**
    * A row is the whole run from event `i` to event `j`: it ends with no chunks remaining, so its chunk count
    * is one more than the first remaining count, and its payload is the chunks' bytes in order.
    */
  ghost predicate RowSpans(row: Row, events: seq<Event>, declared: bool, i: nat, j: nat) {
    && i <= j < |events| && BetweenRuns(events[..i], row.origin)
    && var run := ChunksOf(events[i..j + 1], row.origin);
    && Consistent(run, row.origin) && run[0] == events[i] && run[|run| - 1] == events[j]
    && run[|run| - 1].remaining == 0
    && row.chunks == |run| && row.chunks == run[0].remaining + 1
    && row.payload == Flatten(Datas(run))
    && row.number == run[0].number && row.host == run[0].host && row.time == run[0].time
    && (row.start == Observed <==> EvidenceOf(events[..i], row.origin, row.host) == ZeroRead(row.number))
    && (row.start == Absent ==> !declared) && (row.start == Declared ==> declared)
    && (row.value == NotRead <==> row.start == Absent)
    && (row.value.Parsed? ==> ReadEntry(row.payload) == Ok(row.value.entry))
    && row.identity == IdentityAfter(events[..j], row.origin)
  }

  /** What the pass's state means after these events. */
  ghost predicate RequestsMean(st: State, events: seq<Event>) {
    forall o: byte, h: byte ::
      && ((o, h) in st.requests <==> EvidenceOf(events, o, h).ZeroRead?)
      && ((o, h) in st.requests ==> EvidenceOf(events, o, h) == ZeroRead(st.requests[(o, h)]))
  }

  ghost predicate PendingMeans(st: State, events: seq<Event>, o: byte) {
    && (o in st.pending <==> !BetweenRuns(events, o))
    && (o in st.pending ==> exists i: nat :: HeldFrom(st.pending[o], events, o, i))
  }

  ghost predicate IdentitiesMean(st: State, events: seq<Event>) {
    forall o: byte ::
      IdentityAfter(events, o) == if o in st.identities then Some(st.identities[o]) else None
  }

  /** The row is the run that ends at event `j`. */
  ghost predicate RowMeans(row: Row, events: seq<Event>, declared: bool, j: nat) {
    exists i: nat :: RowSpans(row, events, declared, i, j)
  }

  /** The rows are the completed runs, one each and in the order they ended. */
  ghost predicate RowsMean(st: State, events: seq<Event>, declared: bool) {
    && |st.rows| == |Ends(events)|
    && forall k | 0 <= k < |st.rows| :: RowMeans(st.rows[k], events, declared, Ends(events)[k])
  }

  ghost predicate Means(st: State, events: seq<Event>, declared: bool) {
    && RequestsMean(st, events)
    && (forall o: byte :: PendingMeans(st, events, o))
    && IdentitiesMean(st, events) && RowsMean(st, events, declared)
  }

  // ---------------------------------------------------------------- growing by one event

  lemma ChunksSnoc(events: seq<Event>, e: Event, o: byte)
    ensures ChunksOf(events + [e], o)
            == if e.Chunk? && e.origin == o then ChunksOf(events, o) + [e] else ChunksOf(events, o)
  {
    assert (events + [e])[..|events|] == events;
  }

  lemma EvidenceSnoc(events: seq<Event>, e: Event, o: byte, h: byte)
    ensures EvidenceOf(events + [e], o, h)
            == if e.Read? && e.device == o && e.host == h then
                 (if e.chunk == 0 then ZeroRead(e.number) else LaterRead)
               else if e.Chunk? && e.origin == o && e.host == h && BetweenRuns(events, o) then RunStart
               else EvidenceOf(events, o, h)
  {
    assert (events + [e])[..|events|] == events;
  }

  lemma EndsSnoc(events: seq<Event>, e: Event)
    ensures Ends(events + [e]) == Ends(events) + if e.Chunk? && e.remaining == 0 then [|events|] else []
  {
    assert (events + [e])[..|events|] == events;
  }

  lemma RowKeeps(row: Row, events: seq<Event>, e: Event, declared: bool, j: nat)
    requires RowMeans(row, events, declared, j)
    ensures RowMeans(row, events + [e], declared, j)
  {
    hide EvidenceOf, BetweenRuns, ChunksOf, Consistent, IdentityAfter, ReadEntry;
    var i: nat :| RowSpans(row, events, declared, i, j);
    var longer := events + [e];
    assert longer[..i] == events[..i] && longer[i..j + 1] == events[i..j + 1] && longer[..j] == events[..j];
    assert RowSpans(row, longer, declared, i, j);
  }

  lemma HeldKeeps(held: Held, events: seq<Event>, e: Event, o: byte, i: nat)
    requires HeldFrom(held, events, o, i) && !(e.Chunk? && e.origin == o)
    ensures HeldFrom(held, events + [e], o, i)
  {
    var longer := events + [e];
    assert longer[..i] == events[..i] && longer[i..] == events[i..] + [e];
    ChunksSnoc(events[i..], e, o);
  }

  lemma ConsistentSnoc(run: seq<Event>, e: Event, o: byte)
    requires Consistent(run, o) && e.Chunk? && e.origin == o
    requires e.host == run[0].host && e.number == run[0].number
    requires e.remaining as int == run[|run| - 1].remaining - 1
    ensures Consistent(run + [e], o) && Flatten(Datas(run + [e])) == Flatten(Datas(run)) + e.data
  {
    var longer := run + [e];
    assert forall k | 0 <= k < |run| :: longer[k] == run[k];
    assert Datas(longer)[..|run|] == Datas(run);
  }

  /** A chunk that continues the run. */
  lemma HeldGrows(held: Held, events: seq<Event>, e: Event, o: byte, i: nat)
    requires HeldFrom(held, events, o, i) && e.Chunk? && e.origin == o
    requires held.host == e.host && held.number == e.number && e.remaining as int == held.remaining - 1
    ensures HeldFrom(held.(remaining := e.remaining, data := held.data + e.data, chunks := held.chunks + 1),
                     events + [e], o, i)
  {
    var longer := events + [e];
    assert longer[..i] == events[..i] && longer[i..] == events[i..] + [e];
    ChunksSnoc(events[i..], e, o);
    ConsistentSnoc(ChunksOf(events[i..], o), e, o);
  }

  /** A chunk that starts a run. */
  lemma HeldStarts(events: seq<Event>, e: Event, observed: bool)
    requires e.Chunk? && BetweenRuns(events, e.origin)
    requires observed <==> EvidenceOf(events, e.origin, e.host) == ZeroRead(e.number)
    ensures HeldFrom(Held(e.number, e.remaining, e.data, 1, e.time, e.host, observed), events + [e], e.origin,
                     |events|)
  {
    hide EvidenceOf, BetweenRuns, ChunksOf, Consistent;
    var longer := events + [e];
    assert longer[..|events|] == events && longer[|events|..] == [e];
    OneChunk(e);
  }

  lemma OneChunk(e: Event)
    requires e.Chunk?
    ensures ChunksOf([e], e.origin) == [e] && Consistent([e], e.origin) && Flatten(Datas([e])) == e.data
  {
    assert [e][..0] == [];
    assert ChunksOf([e], e.origin) == ChunksOf([], e.origin) + [e];
    assert Datas([e]) == [e.data] && [e.data][..0] == [];
    assert Flatten([e.data]) == Flatten([]) + e.data;
  }

  /** A run that ends is a row. */
  lemma HeldEnds(held: Held, events: seq<Event>, o: byte, i: nat, identity: Option<Identity>, declared: bool)
    requires HeldFrom(held, events, o, i) && held.remaining == 0
    requires events[|events| - 1].Chunk? && events[|events| - 1].origin == o
    requires RowOf(held, o, identity, declared).Ok? && identity == IdentityAfter(events[..|events| - 1], o)
    ensures RowSpans(RowOf(held, o, identity, declared).value, events, declared, i, |events| - 1)
  {
    hide ReadEntry;
    assert events[i..|events| - 1 + 1] == events[i..];
    var before, last := events[i..][..|events| - 1 - i], events[|events| - 1];
    assert events[i..] == before + [last];
    ChunksSnoc(before, last, o);
  }

  // ---------------------------------------------------------------- the invariant of the pass

  lemma RequestsKeepMeaning(st: State, events: seq<Event>, e: Event, declared: bool)
    requires RequestsMean(st, events) && Step(st, e, declared).Ok?
    requires e.Chunk? ==> (e.origin in st.pending <==> !BetweenRuns(events, e.origin))
    ensures RequestsMean(Step(st, e, declared).value, events + [e])
  {
    hide EvidenceOf, BetweenRuns, RowOf, Joined;
    forall o: byte, h: byte
      ensures var after := Step(st, e, declared).value;
              && ((o, h) in after.requests <==> EvidenceOf(events + [e], o, h).ZeroRead?)
              && ((o, h) in after.requests ==> EvidenceOf(events + [e], o, h) == ZeroRead(after.requests[(o, h)]))
    {
      EvidenceSnoc(events, e, o, h);
    }
  }

  lemma BetweenSnoc(events: seq<Event>, e: Event, o: byte)
    ensures BetweenRuns(events + [e], o)
            == if e.Chunk? && e.origin == o then e.remaining == 0 else BetweenRuns(events, o)
  {
    ChunksSnoc(events, e, o);
  }

  /** The origin of a chunk: the run it joins is explained, and so is the row if it ends there. */
  lemma ChunkKeepsMeaning(st: State, events: seq<Event>, e: Event, declared: bool)
    requires Means(st, events, declared) && e.Chunk? && Step(st, e, declared).Ok?
    ensures PendingMeans(Step(st, e, declared).value, events + [e], e.origin)
    ensures var after := Step(st, e, declared).value;
            after.rows == st.rows
            || (|after.rows| == |st.rows| + 1 && after.rows[..|st.rows|] == st.rows
                && RowMeans(after.rows[|st.rows|], events + [e], declared, |events|))
    ensures e.remaining == 0 <==> |Step(st, e, declared).value.rows| == |st.rows| + 1
  {
    hide EvidenceOf, BetweenRuns, HeldFrom, RowOf, RowSpans;
    var o := e.origin;
    assert PendingMeans(st, events, o);
    var held := Joined(st, e).value;
    var i := JoinedFrom(st, events, e);
    BetweenSnoc(events, e, o);
    if e.remaining == 0 {
      var identity := if o in st.identities then Some(st.identities[o]) else None;
      assert (events + [e])[|events|] == e && (events + [e])[..|events|] == events;
      HeldEnds(held, events + [e], o, i, identity, declared);
    }
  }

  lemma JoinedFrom(st: State, events: seq<Event>, e: Event) returns (i: nat)
    requires e.Chunk? && PendingMeans(st, events, e.origin) && RequestsMean(st, events) && Joined(st, e).Ok?
    ensures HeldFrom(Joined(st, e).value, events + [e], e.origin, i)
    ensures Joined(st, e).value.remaining == e.remaining
  {
    hide EvidenceOf, BetweenRuns, HeldFrom;
    if e.origin in st.pending {
      i :| HeldFrom(st.pending[e.origin], events, e.origin, i);
      HeldGrows(st.pending[e.origin], events, e, e.origin, i);
    } else {
      i := |events|;
      HeldStarts(events, e, Joined(st, e).value.observedStart);
    }
  }

  lemma OtherPendingKeeps(st: State, events: seq<Event>, e: Event, o: byte, declared: bool)
    requires PendingMeans(st, events, o) && Step(st, e, declared).Ok? && !(e.Chunk? && e.origin == o)
    ensures PendingMeans(Step(st, e, declared).value, events + [e], o)
  {
    hide BetweenRuns, HeldFrom, RowOf, Joined;
    BetweenSnoc(events, e, o);
    if o in st.pending {
      var i: nat :| HeldFrom(st.pending[o], events, o, i);
      HeldKeeps(st.pending[o], events, e, o, i);
    }
  }

  lemma StepKeepsMeaning(st: State, events: seq<Event>, e: Event, declared: bool)
    requires Means(st, events, declared) && Step(st, e, declared).Ok?
    ensures Means(Step(st, e, declared).value, events + [e], declared)
  {
    hide RequestsMean, PendingMeans, RowMeans, RowsMean, IdentitiesMean, Step;
    var after := Step(st, e, declared).value;
    RequestsKeep(st, events, e, declared);
    IdentitiesKeep(st, events, e, declared);
    forall o: byte
      ensures PendingMeans(after, events + [e], o)
    {
      if e.Chunk? && e.origin == o {
        ChunkKeepsMeaning(st, events, e, declared);
      } else {
        OtherPendingKeeps(st, events, e, o, declared);
      }
    }
    RowsKeep(st, events, e, declared);
  }

  lemma IdentitiesKeep(st: State, events: seq<Event>, e: Event, declared: bool)
    requires IdentitiesMean(st, events) && Step(st, e, declared).Ok?
    ensures IdentitiesMean(Step(st, e, declared).value, events + [e])
  {
    hide RowOf, Joined;
    assert (events + [e])[..|events|] == events;
  }

  lemma RequestsKeep(st: State, events: seq<Event>, e: Event, declared: bool)
    requires Means(st, events, declared) && Step(st, e, declared).Ok?
    ensures RequestsMean(Step(st, e, declared).value, events + [e])
  {
    hide RequestsMean, RowMeans, Step;
    if e.Chunk? {
      assert PendingMeans(st, events, e.origin);
    }
    RequestsKeepMeaning(st, events, e, declared);
  }

  lemma RowsKeep(st: State, events: seq<Event>, e: Event, declared: bool)
    requires Means(st, events, declared) && Step(st, e, declared).Ok?
    ensures RowsMean(Step(st, e, declared).value, events + [e], declared)
  {
    hide RequestsMean, PendingMeans, RowMeans, RowOf, Joined, IdentitiesMean, Ends;
    var after := Step(st, e, declared).value;
    EndsSnoc(events, e);
    if e.Chunk? {
      ChunkKeepsMeaning(st, events, e, declared);
    }
    forall k | 0 <= k < |after.rows|
      ensures RowMeans(after.rows[k], events + [e], declared, Ends(events + [e])[k])
    {
      if k < |st.rows| {
        RowKeeps(st.rows[k], events, e, declared, Ends(events)[k]);
        assert after.rows[k] == st.rows[k];
      }
    }
  }

  lemma StartMeans(declared: bool)
    ensures Means(START, [], declared)
  {
    assert forall o: byte, h: byte :: EvidenceOf([], o, h) == NoEvidence;
    assert forall o: byte :: BetweenRuns([], o);
  }

  /** After every accepted capture, requests, pending runs and rows mean what the events say. */
  lemma {:induction false} PassMeans(events: seq<Event>, declared: bool)
    requires Pass(events, declared).Ok?
    ensures Means(Pass(events, declared).value, events, declared)
  {
    hide Step, Means;
    if events == [] {
      StartMeans(declared);
    } else {
      var before, last := events[..|events| - 1], events[|events| - 1];
      PassMeans(before, declared);
      StepKeepsMeaning(Pass(before, declared).value, before, last, declared);
      assert before + [last] == events;
    }
  }

  // ---------------------------------------------------------------- the promises

  /**
    * The rows of an accepted capture are its completed runs, one each and in the order they ended; the `k`th row
    * is the whole run that ends at the `k`th chunk with none remaining, valued only on evidence or declaration.
    */
  lemma EveryRowExplained(events: seq<Event>, declared: bool, k: nat) returns (i: nat)
    requires Pass(events, declared).Ok? && k < |Pass(events, declared).value.rows|
    ensures |Pass(events, declared).value.rows| == |Ends(events)|
    ensures RowSpans(Pass(events, declared).value.rows[k], events, declared, i, Ends(events)[k])
  {
    hide RowSpans, Ends;
    PassMeans(events, declared);
    assert RowMeans(Pass(events, declared).value.rows[k], events, declared, Ends(events)[k]);
    i :| RowSpans(Pass(events, declared).value.rows[k], events, declared, i, Ends(events)[k]);
  }

  /** Evidence is a chunk-zero read that nothing of the same pair followed. */
  lemma {:induction false} EvidenceIsARead(events: seq<Event>, o: byte, host: byte, number: byte) returns (r: nat)
    requires EvidenceOf(events, o, host) == ZeroRead(number)
    ensures r < |events| && events[r] == Read(o, host, number, 0)
    ensures forall k | r < k < |events| :: !(events[k].Read? && events[k].device == o && events[k].host == host)
    ensures forall k | r < k < |events| ::
              !(events[k].Chunk? && events[k].origin == o && events[k].host == host && BetweenRuns(events[..k], o))
  {
    var before, last := events[..|events| - 1], events[|events| - 1];
    if last.Read? && last.device == o && last.host == host {
      r := |before|;
    } else {
      r := EvidenceIsARead(before, o, host, number);
      forall k | r < k < |events|
        ensures !(events[k].Read? && events[k].device == o && events[k].host == host)
        ensures !(events[k].Chunk? && events[k].origin == o && events[k].host == host && BetweenRuns(events[..k], o))
      {
        if k < |before| {
          assert before[k] == events[k] && before[..k] == events[..k];
        } else {
          assert events[..k] == before;
        }
      }
    }
  }

  /** One read never qualifies two runs: between two observed starts of a pair lies a fresh chunk-zero read. */
  lemma OneReadOneRun(events: seq<Event>, declared: bool, a: Row, b: Row, i: nat, j: nat, i': nat, j': nat)
    requires RowSpans(a, events, declared, i, j) && RowSpans(b, events, declared, i', j') && i < i'
    requires a.origin == b.origin && a.host == b.host && b.start == Observed
    ensures exists r :: i < r < i' && events[r] == Read(b.origin, b.host, b.number, 0)
  {
    var r := EvidenceIsARead(events[..i'], b.origin, b.host, b.number);
    assert events[..i'][r] == events[r];
    assert events[..i'][i] == events[i] && events[..i'][..i] == events[..i];
  }

  function ChunkSum(rows: seq<Row>): nat {
    if rows == [] then 0 else ChunkSum(rows[..|rows| - 1]) + rows[|rows| - 1].chunks
  }

  /** Frames in equal chunks emitted plus chunks pending, origin by origin. */
  lemma {:induction false} ChunksConserved(events: seq<Event>, o: byte, declared: bool)
    requires Pass(events, declared).Ok?
    ensures var st := Pass(events, declared).value;
            |ChunksOf(events, o)|
            == ChunkSum(RowsFrom(st.rows, o)) + if o in st.pending then st.pending[o].chunks else 0
  {
    if events != [] {
      var before, last := events[..|events| - 1], events[|events| - 1];
      ChunksConserved(before, o, declared);
      StepConserves(Pass(before, declared).value, last, o, declared);
    }
  }

  lemma StepConserves(st: State, e: Event, o: byte, declared: bool)
    requires Step(st, e, declared).Ok?
    ensures var after := Step(st, e, declared).value;
            ChunkSum(RowsFrom(after.rows, o)) + (if o in after.pending then after.pending[o].chunks else 0)
            == ChunkSum(RowsFrom(st.rows, o)) + (if o in st.pending then st.pending[o].chunks else 0)
               + if e.Chunk? && e.origin == o then 1 else 0
  {
    hide RowsFrom, ChunkSum;
    var after := Step(st, e, declared).value;
    if e.Chunk? && e.remaining == 0 {
      var row := after.rows[|st.rows|];
      RowsFromSnoc(st.rows, row, o);
      ChunkSumSnoc(RowsFrom(st.rows, o), row);
      assert RowsFrom(st.rows, o) + [] == RowsFrom(st.rows, o);
    }
  }

  lemma ChunkSumSnoc(rows: seq<Row>, row: Row)
    ensures ChunkSum(rows + [row]) == ChunkSum(rows) + row.chunks
  {
    assert (rows + [row])[..|rows|] == rows;
  }
}
