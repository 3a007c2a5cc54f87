/** Recognising batches of inertial samples in a saved log, and accounting for every record beside them. */
module ImuBatch {
  import opened Common

  const MAX_MESSAGES := 4_000_000
  const MAX_SAMPLES := 1_000_000
  const BLOCK := 32
  const STAMP_LIMIT := 0x8000_0000_0000_0000

  /** One decoded record and the bytes it was read from. */
  datatype Record =
    | Other(name: string, start: int, end: int)
    | Header(start: int, end: int, stamp: int, n: int, kind: int, instance: int, mul: int, count: int,
             sampleUs: int, rate: real)
    | Block(start: int, end: int, stamp: int, n: int, seqno: int, x: seq<int>, y: seq<int>, z: seq<int>)

  /** A batch record and its place in the log. */
  datatype Selected = Selected(index: nat, record: Record)

  function SelectedOf(records: seq<Record>): seq<Selected> {
    if records == [] then []
    else
      var last := |records| - 1;
      SelectedOf(records[..last]) + if records[last].Other? then [] else [Selected(last, records[last])]
  }

  // ---------------------------------------------------------------- the grammar

  predicate ValidHeader(r: Record) {
    && r.Header? && 0 <= r.kind <= 1 && 1 <= r.mul <= 65535 && 32 <= r.count <= 65504 && r.count % BLOCK == 0
    && 0 <= r.sampleUs < STAMP_LIMIT && r.sampleUs <= r.stamp && r.rate > 0.0
  }

  predicate Samples16(s: seq<int>) {
    |s| == BLOCK && forall i | 0 <= i < BLOCK :: -32768 <= s[i] <= 32767
  }

  /** A block that can stand `k`th in the batch of this header. */
  predicate ValidBlock(r: Record, header: Record, k: nat)
    requires header.Header?
  {
    r.Block? && r.n == header.n && r.seqno == k && Samples16(r.x) && Samples16(r.y) && Samples16(r.z)
  }

  /** A header and the blocks that may follow it so far, in sequence and within the declared count. */
  ghost predicate IsOpen(batch: seq<Selected>) {
    && batch != [] && ValidHeader(batch[0].record) && BLOCK * (|batch| - 1) <= batch[0].record.count
    && forall k: nat | 1 <= k < |batch| :: ValidBlock(batch[k].record, batch[0].record, k - 1)
  }

  predicate Full(batch: seq<Selected>) {
    batch != [] && batch[0].record.Header? && BLOCK * (|batch| - 1) == batch[0].record.count
  }

  ghost predicate IsBatch(batch: seq<Selected>) {
    IsOpen(batch) && Full(batch)
  }

  ghost predicate AllBatches(parts: seq<seq<Selected>>) {
    forall i | 0 <= i < |parts| :: IsBatch(parts[i])
  }

  /** The batch records are one batch after another. */
  ghost predicate Parsed(selected: seq<Selected>, parts: seq<seq<Selected>>) {
    selected == Flatten(parts) && AllBatches(parts)
  }

  /** Batches that begin at the same record are the same batch: a header fixes its batch's length. */
  lemma PrefixFree(a: seq<Selected>, b: seq<Selected>, s: seq<Selected>)
    requires IsBatch(a) && IsBatch(b) && a <= s && b <= s
    ensures a == b
  {
  }

  /** So there is only one way to read the log: any parse begins with the batches already completed. */
  lemma {:induction false} Aligned(done: seq<seq<Selected>>, tail: seq<Selected>, parts: seq<seq<Selected>>)
    requires AllBatches(done)
    requires Parsed(Flatten(done) + tail, parts)
    ensures |done| <= |parts| && parts[..|done|] == done && Parsed(tail, parts[|done|..])
  {
    hide IsBatch;
    if done == [] {
      assert Flatten(done) + tail == tail && parts[0..] == parts;
    } else {
      var s := Flatten(done) + tail;
      FlattenHead(done);
      BatchesNotEmpty(done, tail, parts);
      FlattenHead(parts);
      assert s == done[0] + (Flatten(done[1..]) + tail);
      BatchNotEmpty(done[0]);
      PrefixFree(done[0], parts[0], s);
      assert Flatten(parts[1..]) == s[|done[0]|..] == Flatten(done[1..]) + tail;
      Aligned(done[1..], tail, parts[1..]);
      assert parts[1..][|done| - 1..] == parts[|done|..];
      assert parts == [parts[0]] + parts[1..];
    }
  }

  lemma BatchesNotEmpty(done: seq<seq<Selected>>, tail: seq<Selected>, parts: seq<seq<Selected>>)
    requires done != [] && AllBatches(done) && Flatten(parts) == Flatten(done) + tail
    ensures parts != []
  {
    FlattenHead(done);
    BatchNotEmpty(done[0]);
  }

  lemma BatchNotEmpty(b: seq<Selected>)
    requires IsBatch(b)
    ensures b != []
  {
  }

  /** Whether a batch record may come next. */
  ghost predicate MayFollow(open: seq<Selected>, r: Record)
    requires open == [] || IsOpen(open)
  {
    if r.Header? then ValidHeader(r) && (open == [] || Full(open))
    else open != [] && !Full(open) && ValidBlock(r, open[0].record, |open| - 1)
  }

  lemma OpenWithin(open: seq<Selected>, batch: seq<Selected>, s: seq<Selected>)
    requires IsOpen(open) && IsBatch(batch) && open <= s && batch <= s
    ensures 1 <= |open| <= |batch| && open == batch[..|open|] && (Full(open) <==> |open| == |batch|)
  {
  }

  /** A record that may not come next spoils every parse. */
  lemma Refused(done: seq<seq<Selected>>, open: seq<Selected>, r: Selected, rest: seq<Selected>,
                parts: seq<seq<Selected>>)
    requires AllBatches(done)
    requires (open == [] && done == []) || IsOpen(open)
    requires Parsed(Flatten(done) + (open + [r] + rest), parts)
    ensures MayFollow(open, r.record)
  {
    hide IsOpen, ValidHeader, ValidBlock, IsBatch, MayFollow;
    var s := open + [r] + rest;
    Aligned(done, s, parts);
    var left := parts[|done|..];
    if open == [] {
      assert s[0] == r;
      FirstFollows(left, s, r);
    } else {
      OpenFollows(left, open, r, rest);
    }
  }

  lemma FirstFollows(parts: seq<seq<Selected>>, s: seq<Selected>, r: Selected)
    requires Parsed(s, parts) && s != [] && s[0] == r
    ensures ValidHeader(r.record) && MayFollow([], r.record)
  {
    hide IsBatch, ValidHeader;
    FlattenHead(parts);
    assert IsBatch(parts[0]);
    BatchStarts(parts[0]);
  }

  lemma OpenFollows(parts: seq<seq<Selected>>, open: seq<Selected>, r: Selected, rest: seq<Selected>)
    requires IsOpen(open) && Parsed(open + [r] + rest, parts)
    ensures MayFollow(open, r.record)
  {
    hide ValidHeader, ValidBlock, IsOpen, IsBatch;
    var s := open + [r] + rest;
    assert parts != [] && IsBatch(parts[0]);
    FlattenHead(parts);
    assert parts[0] <= s;
    BatchStarts(parts[0]);
    OpenWithin(open, parts[0], s);
    if Full(open) {
      assert parts[0] == open;
      assert Flatten(parts[1..]) == s[|open|..] == [r] + rest;
      forall i | 0 <= i < |parts[1..]|
        ensures IsBatch(parts[1..][i])
      {
        assert IsBatch(parts[i + 1]);
      }
      FirstFollows(parts[1..], [r] + rest, r);
    } else {
      assert parts[0][|open|] == s[|open|] == r;
      BatchBlock(parts[0], |open|);
    }
  }

  lemma BatchStarts(b: seq<Selected>)
    requires IsBatch(b)
    ensures b != [] && b[0].record.Header? && ValidHeader(b[0].record)
  {
  }

  lemma BatchBlock(b: seq<Selected>, k: nat)
    requires IsBatch(b) && 1 <= k < |b|
    ensures b[0].record.Header? && ValidBlock(b[k].record, b[0].record, k - 1)
  {
  }

  /** A log that ends inside a batch, or before any, has no parse. */
  lemma Unfinished(done: seq<seq<Selected>>, open: seq<Selected>, parts: seq<seq<Selected>>)
    requires AllBatches(done)
    requires (open == [] && done == []) || IsOpen(open)
    requires Parsed(Flatten(done) + open, parts) && parts != []
    ensures open != [] && Full(open)
  {
    hide IsBatch, ValidBlock, ValidHeader;
    Aligned(done, open, parts);
    FlattenHead(parts);
    if open == [] {
      assert IsBatch(parts[0]);
      BatchStarts(parts[0]);
    } else {
      var left := parts[|done|..];
      FlattenHead(left);
      assert IsBatch(left[0]);
      BatchStarts(left[0]);
      OpenWithin(open, left[0], open);
    }
  }

  // ---------------------------------------------------------------- rows

  datatype Row = Row(stamp: int, firstUs: int, offset: real, sampleIndex: nat, batchNumber: int, headerIndex: nat,
                     sourceIndex: nat, start: int, length: int, seqno: int, arrayIndex: nat, kind: int, instance: int,
                     mul: int, rate: real, raw: (int, int, int), acceleration: Option<Triple>,
                     angularRate: Option<Triple>)

  type Triple = (real, real, real)

  /** The row of sample `k` of a batch: its place, the raw triple, and the triple divided by the multiplier. */
  function SampleRow(batch: seq<Selected>, k: nat): Row
    requires batch != [] && ValidHeader(batch[0].record)
    requires k / BLOCK + 1 < |batch| && ValidBlock(batch[k / BLOCK + 1].record, batch[0].record, k / BLOCK)
  {
    var h, b := batch[0].record, batch[k / BLOCK + 1].record;
    var i := k % BLOCK;
    var m := h.mul as real;
    var scaled := (b.x[i] as real / m, b.y[i] as real / m, b.z[i] as real / m);
    Row(b.stamp, h.sampleUs, k as real / h.rate, k, h.n, batch[0].index, batch[k / BLOCK + 1].index,
        b.start, b.end - b.start, b.seqno, i, h.kind, h.instance, h.mul, h.rate,
        (b.x[i], b.y[i], b.z[i]), if h.kind == 0 then Some(scaled) else None,
        if h.kind == 1 then Some(scaled) else None)
  }

  lemma BlockOfSample(batch: seq<Selected>, k: nat)
    requires IsOpen(batch) && k < BLOCK * (|batch| - 1)
    ensures k / BLOCK + 1 < |batch| && ValidBlock(batch[k / BLOCK + 1].record, batch[0].record, k / BLOCK)
  {
    hide ValidBlock;
    var b := k / BLOCK + 1;
    assert ValidBlock(batch[b].record, batch[0].record, b - 1);
  }

  /** The rows of a batch so far: one for each sample of each block, numbered from zero. */
  ghost function BatchRows(batch: seq<Selected>): (rows: seq<Row>)
    requires IsOpen(batch)
    ensures |rows| == BLOCK * (|batch| - 1)
  {
    seq(BLOCK * (|batch| - 1), k requires 0 <= k < BLOCK * (|batch| - 1) =>
      BlockOfSample(batch, k); SampleRow(batch, k))
  }

  ghost function Rows(parts: seq<seq<Selected>>): seq<Row>
    requires AllBatches(parts)
  {
    if parts == [] then []
    else
      var last := parts[|parts| - 1];
      assert IsBatch(last);
      Rows(parts[..|parts| - 1]) + BatchRows(last)
  }

  /** The samples the headers declare. */
  ghost function Declared(parts: seq<seq<Selected>>): int
    requires AllBatches(parts)
  {
    if parts == [] then 0
    else
      var last := parts[|parts| - 1];
      assert IsBatch(last);
      Declared(parts[..|parts| - 1]) + last[0].record.count
  }

  lemma {:induction false} AsDeclared(parts: seq<seq<Selected>>)
    requires AllBatches(parts)
    ensures |Rows(parts)| == Declared(parts)
  {
    if parts != [] {
      AsDeclared(parts[..|parts| - 1]);
    }
  }

  // ---------------------------------------------------------------- unselected spans

  datatype Span = Span(startRecord: nat, stopRecord: nat, startOffset: int, stopOffset: int)

  /** Spans apart and in order, each a run of unselected records with the bytes it covers; together all of them. */
  ghost predicate SpansExact(spans: seq<Span>, records: seq<Record>, n: nat)
    requires n <= |records|
  {
    && (forall i | 0 <= i < |spans| ::
          && spans[i].startRecord < spans[i].stopRecord <= n
          && spans[i].startOffset == records[spans[i].startRecord].start
          && spans[i].stopOffset == records[spans[i].stopRecord - 1].end)
    && (forall i, j | 0 <= i < j < |spans| :: spans[i].stopRecord < spans[j].startRecord)
    && (forall r: nat | r < n :: records[r].Other? <==> InSpans(spans, r))
  }

  ghost predicate InSpans(spans: seq<Span>, r: nat) {
    exists i | 0 <= i < |spans| :: spans[i].startRecord <= r < spans[i].stopRecord
  }

  lemma SpansSkip(spans: seq<Span>, records: seq<Record>, n: nat)
    requires n < |records| && SpansExact(spans, records, n) && !records[n].Other?
    ensures SpansExact(spans, records, n + 1)
  {
  }

  lemma InOneMore(spans: seq<Span>, s: Span, r: nat)
    ensures InSpans(spans + [s], r) <==> InSpans(spans, r) || s.startRecord <= r < s.stopRecord
  {
    var longer := spans + [s];
    assert longer[|spans|] == s;
    if InSpans(spans, r) {
      var i :| 0 <= i < |spans| && spans[i].startRecord <= r < spans[i].stopRecord;
      assert longer[i] == spans[i];
    }
  }

  /** A record that opens a span of its own. */
  lemma SpansStart(spans: seq<Span>, records: seq<Record>, n: nat)
    requires n < |records| && SpansExact(spans, records, n) && records[n].Other?
    requires spans == [] || spans[|spans| - 1].stopRecord < n
    ensures SpansExact(spans + [Span(n, n + 1, records[n].start, records[n].end)], records, n + 1)
  {
    hide InSpans;
    var s := Span(n, n + 1, records[n].start, records[n].end);
    forall r: nat | r < n + 1
      ensures records[r].Other? <==> InSpans(spans + [s], r)
    {
      InOneMore(spans, s, r);
    }
  }

  /** A record that continues the last span: the last span, taken off, starts again one record longer. */
  lemma SpansExtend(spans: seq<Span>, records: seq<Record>, n: nat)
    requires n < |records| && SpansExact(spans, records, n) && records[n].Other?
    requires spans != [] && spans[|spans| - 1].stopRecord == n
    ensures var last := spans[|spans| - 1];
            SpansExact(spans[..|spans| - 1] + [Span(last.startRecord, n + 1, last.startOffset, records[n].end)],
                       records, n + 1)
  {
    hide InSpans;
    var before, last := spans[..|spans| - 1], spans[|spans| - 1];
    var s := Span(last.startRecord, n + 1, last.startOffset, records[n].end);
    assert spans == before + [last];
    forall r: nat | r < n + 1
      ensures records[r].Other? <==> InSpans(before + [s], r)
    {
      InOneMore(before, s, r);
      InOneMore(before, last, r);
    }
  }

  // ---------------------------------------------------------------- the converter

  /** Records cover the file end to end. */
  ghost predicate Tiled(records: seq<Record>, size: int) {
    && (forall i | 0 <= i < |records| :: records[i].start == EndBefore(records, i) && records[i].end <= size)
    && EndBefore(records, |records|) == size
  }

  function EndBefore(records: seq<Record>, i: nat): int
    requires i <= |records|
  {
    if i == 0 then 0 else records[i - 1].end
  }

  /** Batch records carry clocks that do not run backwards. */
  ghost predicate Clocked(selected: seq<Selected>) {
    && (forall i | 0 <= i < |selected| :: !selected[i].record.Other? && 0 <= selected[i].record.stamp < STAMP_LIMIT)
    && (forall i, j | 0 <= i < j < |selected| :: selected[i].record.stamp <= selected[j].record.stamp)
  }

  /** How many samples the blocks carry. */
  function Samples(selected: seq<Selected>): nat {
    if selected == [] then 0
    else Samples(selected[..|selected| - 1]) + if selected[|selected| - 1].record.Block? then BLOCK else 0
  }

  ghost predicate Recognised(selected: seq<Selected>) {
    exists parts :: parts != [] && Parsed(selected, parts)
  }

  ghost predicate Accepted(records: seq<Record>, size: int) {
    && |records| <= MAX_MESSAGES && Tiled(records, size) && Clocked(SelectedOf(records))
    && Recognised(SelectedOf(records)) && Samples(SelectedOf(records)) <= MAX_SAMPLES
  }

  lemma {:induction false} SelectedGrows(records: seq<Record>, n: nat)
    requires n <= |records|
    ensures SelectedOf(records[..n]) <= SelectedOf(records)
    decreases |records|
  {
    if n < |records| {
      SelectedGrows(records[..|records| - 1], n);
      assert records[..|records| - 1][..n] == records[..n];
    } else {
      assert records[..n] == records;
    }
  }

  lemma {:induction false} SamplesGrow(selected: seq<Selected>, n: nat)
    requires n <= |selected|
    ensures Samples(selected[..n]) <= Samples(selected)
    decreases |selected|
  {
    if n < |selected| {
      SamplesGrow(selected[..|selected| - 1], n);
      assert selected[..|selected| - 1][..n] == selected[..n];
    } else {
      assert selected[..n] == selected;
    }
  }

  lemma SelectedSnoc(records: seq<Record>, n: nat)
    requires n < |records|
    ensures SelectedOf(records[..n + 1])
         == SelectedOf(records[..n]) + (if records[n].Other? then [] else [Selected(n, records[n])])
  {
    assert records[..n + 1][..n] == records[..n];
  }

  lemma SamplesSnoc(selected: seq<Selected>, s: Selected)
    ensures Samples(selected + [s]) == Samples(selected) + if s.record.Block? then BLOCK else 0
  {
    assert (selected + [s])[..|selected|] == selected;
  }

  /** The records read so far as completed batches and the one under way. */
  ghost predicate Progress(selected: seq<Selected>, done: seq<seq<Selected>>, open: seq<Selected>) {
    AllBatches(done) && ((open == [] && done == []) || IsOpen(open)) && selected == Flatten(done) + open
  }

  lemma Regroup(done: seq<Selected>, open: seq<Selected>, r: Selected, rest: seq<Selected>, part: seq<Selected>,
                all: seq<Selected>)
    requires part == done + open + [r] && part <= all && rest == all[|part|..]
    ensures all == done + (open + [r] + rest)
  {
    assert all == part + rest;
  }

  /** A record that may not follow refuses the log. */
  lemma Spoiled(records: seq<Record>, n: nat, done: seq<seq<Selected>>, open: seq<Selected>)
    requires n < |records| && !records[n].Other? && Progress(SelectedOf(records[..n]), done, open)
    requires !MayFollow(open, records[n])
    ensures !Recognised(SelectedOf(records))
  {
    hide MayFollow, IsOpen, IsBatch, AllBatches, SelectedOf, Flatten, Parsed;
    var r := Selected(n, records[n]);
    SelectedSnoc(records, n);
    SelectedGrows(records, n + 1);
    var all := SelectedOf(records);
    var rest := all[|SelectedOf(records[..n + 1])|..];
    Regroup(Flatten(done), open, r, rest, SelectedOf(records[..n + 1]), all);
    forall parts | Parsed(all, parts)
      ensures false
    {
      Refused(done, open, r, rest, parts);
    }
  }

  lemma ProgressBlock(selected: seq<Selected>, done: seq<seq<Selected>>, open: seq<Selected>, r: Selected)
    requires Progress(selected, done, open) && r.record.Block? && MayFollow(open, r.record)
    ensures Progress(selected + [r], done, open + [r]) && IsOpen(open) && IsOpen(open + [r])
  {
    hide ValidBlock, AllBatches;
    var longer := open + [r];
    forall k: nat | 1 <= k < |longer|
      ensures ValidBlock(longer[k].record, longer[0].record, k - 1)
    {
      assert k < |open| ==> longer[k] == open[k];
    }
    assert Flatten(done) + open + [r] == Flatten(done) + longer;
  }

  lemma ProgressHeader(selected: seq<Selected>, done: seq<seq<Selected>>, open: seq<Selected>, r: Selected)
    requires Progress(selected, done, open) && r.record.Header? && MayFollow(open, r.record)
    ensures var done' := if open == [] then done else done + [open];
            Progress(selected + [r], done', [r]) && IsOpen([r]) && (open != [] ==> IsOpen(open) && IsBatch(open))
  {
    hide ValidBlock;
    if open != [] {
      assert (done + [open])[..|done|] == done;
      assert Flatten(done) + open + [r] == Flatten(done + [open]) + [r];
    }
  }

  /** The rows of everything read so far. */
  ghost function RowsSoFar(done: seq<seq<Selected>>, open: seq<Selected>): seq<Row>
    requires AllBatches(done) && (open == [] || IsOpen(open))
  {
    Rows(done) + if open == [] then [] else BatchRows(open)
  }

  lemma RowsNext(done: seq<seq<Selected>>, open: seq<Selected>, h: Selected)
    requires AllBatches(done) && (open == [] || IsBatch(open)) && IsOpen([h])
    ensures var done' := if open == [] then done else done + [open];
            AllBatches(done') && RowsSoFar(done', [h]) == RowsSoFar(done, open)
  {
    hide IsBatch;
    if open != [] {
      assert (done + [open])[..|done|] == done;
    }
  }

  /** One row of a block whose batch had `consumed` samples before it. */
  function BlockRow(header: Selected, block: Selected, consumed: nat, i: nat): Row
    requires ValidHeader(header.record) && i < BLOCK && block.record.Block?
    requires Samples16(block.record.x) && Samples16(block.record.y) && Samples16(block.record.z)
  {
    var h, b := header.record, block.record;
    var m := h.mul as real;
    var scaled := (b.x[i] as real / m, b.y[i] as real / m, b.z[i] as real / m);
    Row(b.stamp, h.sampleUs, (consumed + i) as real / h.rate, consumed + i, h.n, header.index, block.index,
        b.start, b.end - b.start, b.seqno, i, h.kind, h.instance, h.mul, h.rate,
        (b.x[i], b.y[i], b.z[i]), if h.kind == 0 then Some(scaled) else None,
        if h.kind == 1 then Some(scaled) else None)
  }

  lemma LastBlock(batch: seq<Selected>)
    requires |batch| >= 2 && IsOpen(batch)
    ensures ValidHeader(batch[0].record) && ValidBlock(batch[|batch| - 1].record, batch[0].record, |batch| - 2)
  {
    hide ValidBlock;
  }

  lemma RowOfBlock(batch: seq<Selected>, i: nat)
    requires |batch| >= 2 && IsOpen(batch) && i < BLOCK
    requires ValidBlock(batch[|batch| - 1].record, batch[0].record, |batch| - 2)
    ensures BatchRows(batch)[BLOCK * (|batch| - 2) + i]
         == BlockRow(batch[0], batch[|batch| - 1], BLOCK * (|batch| - 2), i)
  {
    var k := BLOCK * (|batch| - 2) + i;
    assert k / BLOCK == |batch| - 2 && k % BLOCK == i;
    BlockOfSample(batch, k);
  }

  /** The thirty-two rows of one more block. */
  method EmitBlock(header: Selected, block: Selected, consumed: nat, rows: seq<Row>, ghost batch: seq<Selected>)
    returns (ok: bool, after: seq<Row>)
    requires |batch| >= 2 && IsOpen(batch) && consumed == BLOCK * (|batch| - 2)
    requires header == batch[0] && block == batch[|batch| - 1] && |rows| <= MAX_SAMPLES
    ensures ok <==> |rows| + BLOCK <= MAX_SAMPLES
    ensures ok ==> after == rows + BatchRows(batch)[consumed..]
  {
    hide IsOpen, ValidHeader, BlockRow;
    LastBlock(batch);
    after := rows;
    ok := true;
    var i: nat := 0;
    while i < BLOCK
      invariant i <= BLOCK && after == rows + BatchRows(batch)[consumed..consumed + i] && |after| <= MAX_SAMPLES
    {
      if |after| >= MAX_SAMPLES {
        return false, after;
      }
      RowOfBlock(batch, i);
      after := after + [BlockRow(header, block, consumed, i)];
      i := i + 1;
    }
  }

  lemma BatchRowsGrow(batch: seq<Selected>)
    requires |batch| >= 2 && IsOpen(batch) && IsOpen(batch[..|batch| - 1])
    ensures BatchRows(batch) == BatchRows(batch[..|batch| - 1]) + BatchRows(batch)[BLOCK * (|batch| - 2)..]
  {
    var before := batch[..|batch| - 1];
    forall k: nat | k < BLOCK * (|before| - 1)
      ensures BatchRows(batch)[k] == BatchRows(before)[k]
    {
      BlockOfSample(before, k);
      assert batch[k / BLOCK + 1] == before[k / BLOCK + 1] && batch[0] == before[0];
    }
  }

  /** What a completed block adds to the rows. */
  lemma RowsGrow(done: seq<seq<Selected>>, open: seq<Selected>, r: Selected)
    requires AllBatches(done) && open != [] && IsOpen(open) && IsOpen(open + [r])
    ensures RowsSoFar(done, open + [r]) == RowsSoFar(done, open) + BatchRows(open + [r])[BLOCK * (|open| - 1)..]
  {
    hide IsOpen, BatchRows;
    var longer := open + [r];
    assert longer[..|longer| - 1] == open;
    BatchRowsGrow(longer);
  }

  function LastStamp(selected: seq<Selected>): int
    requires selected == [] || !selected[|selected| - 1].record.Other?
  {
    if selected == [] then -1 else selected[|selected| - 1].record.stamp
  }

  lemma ClockStep(selected: seq<Selected>, s: Selected)
    requires Clocked(selected) && !s.record.Other?
    ensures Clocked(selected + [s])
       <==> 0 <= s.record.stamp < STAMP_LIMIT && LastStamp(selected) <= s.record.stamp
  {
    var longer := selected + [s];
    assert longer[|selected|] == s;
    if Clocked(longer) && selected != [] {
      assert longer[|selected| - 1].record.stamp <= longer[|selected|].record.stamp;
    }
  }

  /** A clock that is refused stays refused whatever follows. */
  lemma ClockedPrefix(records: seq<Record>, n: nat)
    requires n <= |records| && Clocked(SelectedOf(records))
    ensures Clocked(SelectedOf(records[..n]))
  {
    SelectedGrows(records, n);
    var all, part := SelectedOf(records), SelectedOf(records[..n]);
    assert forall i | 0 <= i < |part| :: part[i] == all[i];
  }

  lemma SamplesPrefix(records: seq<Record>, n: nat)
    requires n <= |records|
    ensures Samples(SelectedOf(records[..n])) <= Samples(SelectedOf(records))
  {
    SelectedGrows(records, n);
    var all, part := SelectedOf(records), SelectedOf(records[..n]);
    assert all[..|part|] == part;
    SamplesGrow(all, |part|);
  }

  ghost predicate TiledUpTo(records: seq<Record>, n: nat, size: int)
    requires n <= |records|
  {
    forall i | 0 <= i < n :: records[i].start == EndBefore(records, i) && records[i].end <= size
  }

  /** The reader's state after `n` records. */
  ghost predicate Reading(records: seq<Record>, n: nat, header: Option<Selected>, consumed: nat, rows: seq<Row>,
                          done: seq<seq<Selected>>, open: seq<Selected>)
    requires n <= |records|
  {
    var selected := SelectedOf(records[..n]);
    && Progress(selected, done, open)
    && (if open == [] then header == None && consumed == 0
        else header == Some(open[0]) && consumed == BLOCK * (|open| - 1))
    && rows == RowsSoFar(done, open) && |rows| == Samples(selected) <= MAX_SAMPLES
  }

  /** A header: it must follow a complete batch, or be the first. */
  method TakeHeader(records: seq<Record>, n: nat, header: Option<Selected>, consumed: nat, rows: seq<Row>,
                    ghost done: seq<seq<Selected>>, ghost open: seq<Selected>)
    returns (ok: bool, next: Option<Selected>, ghost done': seq<seq<Selected>>, ghost open': seq<Selected>)
    requires n < |records| && records[n].Header? && Reading(records, n, header, consumed, rows, done, open)
    ensures ok <==> MayFollow(open, records[n])
    ensures ok ==> Reading(records, n + 1, next, 0, rows, done', open') && open' != []
    ensures ok ==> |done'| == |done| + if open == [] then 0 else 1
    ensures !ok ==> !Recognised(SelectedOf(records))
  {
    hide IsOpen, ValidHeader, ValidBlock, RowsSoFar, Recognised, Samples, Flatten;
    var r := records[n];
    next, done', open' := header, done, open;
    HeaderFacts(open);
    if (header.Some? && consumed != header.value.record.count) || !ValidHeader(r) {
      Spoiled(records, n, done, open);
      return false, next, done', open';
    }
    var s := Selected(n, r);
    SelectedSnoc(records, n);
    ProgressHeader(SelectedOf(records[..n]), done, open, s);
    RowsNext(done, open, s);
    SamplesSnoc(SelectedOf(records[..n]), s);
    next, done', open' := Some(s), if open == [] then done else done + [open], [s];
    ok := true;
  }

  lemma HeaderFacts(open: seq<Selected>)
    ensures open != [] && IsOpen(open) ==> open[0].record.Header?
  {
  }

  /** A block: it must be the next one its header declares. */
  method TakeBlock(records: seq<Record>, n: nat, header: Option<Selected>, consumed: nat, rows: seq<Row>,
                   ghost done: seq<seq<Selected>>, ghost open: seq<Selected>)
    returns (ok: bool, after: seq<Row>, ghost open': seq<Selected>)
    requires n < |records| && records[n].Block? && Reading(records, n, header, consumed, rows, done, open)
    ensures ok <==> MayFollow(open, records[n]) && Samples(SelectedOf(records[..n + 1])) <= MAX_SAMPLES
    ensures ok ==> Reading(records, n + 1, header, consumed + BLOCK, after, done, open') && open != [] && open' != []
    ensures !ok ==> !Recognised(SelectedOf(records)) || Samples(SelectedOf(records)) > MAX_SAMPLES
  {
    hide IsOpen, ValidHeader, RowsSoFar, Recognised, Samples, Flatten, Samples16, BatchRows;
    var r := records[n];
    after, open' := rows, open;
    HeaderFacts(open);
    if header.None? || r.n != header.value.record.n || r.seqno != consumed / BLOCK
       || consumed + BLOCK > header.value.record.count
       || !(Samples16(r.x) && Samples16(r.y) && Samples16(r.z)) {
      CountFacts(open);
      Spoiled(records, n, done, open);
      return false, after, open';
    }
    var s := Selected(n, r);
    SelectedSnoc(records, n);
    ProgressBlock(SelectedOf(records[..n]), done, open, s);
    SamplesSnoc(SelectedOf(records[..n]), s);
    SamplesPrefix(records, n + 1);
    open' := open + [s];
    ok, after := EmitBlock(header.value, s, consumed, rows, open');
    RowsGrow(done, open, s);
  }

  lemma CountFacts(open: seq<Selected>)
    requires open == [] || IsOpen(open)
    ensures open != [] && !Full(open) ==> BLOCK * (|open| - 1) + BLOCK <= open[0].record.count
  {
  }

  /** An unselected record joins the span before it, or starts one. */
  method TakeOther(records: seq<Record>, n: nat, spans: seq<Span>) returns (after: seq<Span>)
    requires n < |records| && records[n].Other? && SpansExact(spans, records, n)
    ensures SpansExact(after, records, n + 1)
  {
    hide InSpans;
    if spans != [] && spans[|spans| - 1].stopRecord == n {
      SpansExtend(spans, records, n);
      var last := spans[|spans| - 1];
      after := spans[..|spans| - 1] + [Span(last.startRecord, n + 1, last.startOffset, records[n].end)];
    } else {
      SpansStart(spans, records, n);
      after := spans + [Span(n, n + 1, records[n].start, records[n].end)];
    }
  }

  /**
    * Read a log: it is accepted exactly when its records cover the file, its clocks do not run backwards and its
    * batch records are one complete batch after another. The rows are then the samples the headers declare,
    * numbered from zero in each batch, and the spans are exactly the unselected records.
    */
  method Convert(records: seq<Record>, size: int)
    returns (ok: bool, rows: seq<Row>, spans: seq<Span>, batches: nat, ghost parts: seq<seq<Selected>>)
    ensures ok <==> Accepted(records, size)
    ensures ok ==> parts != [] && Parsed(SelectedOf(records), parts) && batches == |parts|
                   && rows == Rows(parts) && |rows| == Declared(parts)
    ensures ok ==> SpansExact(spans, records, |records|)
  {
    hide Progress, Reading, Clocked, Recognised, SpansExact, Parsed, Rows, Declared, AllBatches, IsBatch, Samples,
         SelectedOf;
    rows, spans, batches, parts := [], [], 0, [];
    var header: Option<Selected>, consumed: nat := None, 0;
    ghost var done: seq<seq<Selected>>, open: seq<Selected> := [], [];
    var cursor, previous, n: nat := 0, -1, 0;
    Begin(records);
    while n < |records|
      invariant n <= |records| && n <= MAX_MESSAGES
      invariant cursor == EndBefore(records, n)
      invariant TiledUpTo(records, n, size)
      invariant Clocked(SelectedOf(records[..n])) && Stamped(SelectedOf(records[..n]), previous)
      invariant Reading(records, n, header, consumed, rows, done, open)
      invariant batches == |done| + if open == [] then 0 else 1
      invariant SpansExact(spans, records, n)
    {
      var r := records[n];
      if n + 1 > MAX_MESSAGES {
        return false, rows, spans, batches, parts;
      }
      if r.start != cursor || r.end > size {
        return false, rows, spans, batches, parts;
      }
      cursor := r.end;
      if r.Other? {
        spans := TakeOther(records, n, spans);
        SkipRead(records, n, header, consumed, rows, done, open);
        SelectedSnoc(records, n);
        assert SelectedOf(records[..n + 1]) == SelectedOf(records[..n]);
      } else {
        StampStep(records, n, previous);
        if !(0 <= r.stamp < STAMP_LIMIT) || r.stamp < previous {
          return false, rows, spans, batches, parts;
        }
        previous := r.stamp;
        SpansSkip(spans, records, n);
        if r.Header? {
          ok, header, done, open := TakeHeader(records, n, header, consumed, rows, done, open);
          consumed := 0;
          batches := batches + 1;
        } else {
          ok, rows, open := TakeBlock(records, n, header, consumed, rows, done, open);
          consumed := consumed + BLOCK;
        }
        if !ok {
          return false, rows, spans, batches, parts;
        }
      }
      n := n + 1;
    }
    assert records[..n] == records;
    if cursor != size {
      return false, rows, spans, batches, parts;
    }
    ReadFacts(records, header, consumed, rows, done, open);
    if header.None? || consumed != header.value.record.count {
      return false, rows, spans, batches, parts;
    }
    parts := done + [open];
    Finished(records, header, consumed, rows, done, open);
    AsDeclared(parts);
    ok := true;
  }

  /** The last stamp read, or minus one. */
  ghost predicate Stamped(selected: seq<Selected>, previous: int) {
    (selected == [] || !selected[|selected| - 1].record.Other?) && previous == LastStamp(selected)
  }

  lemma Begin(records: seq<Record>)
    ensures Clocked(SelectedOf(records[..0])) && Stamped(SelectedOf(records[..0]), -1)
    ensures Reading(records, 0, None, 0, [], [], [])
    ensures SpansExact([], records, 0)
  {
  }

  lemma SkipRead(records: seq<Record>, n: nat, header: Option<Selected>, consumed: nat, rows: seq<Row>,
                 done: seq<seq<Selected>>, open: seq<Selected>)
    requires n < |records| && records[n].Other? && Reading(records, n, header, consumed, rows, done, open)
    ensures Reading(records, n + 1, header, consumed, rows, done, open)
  {
    SelectedSnoc(records, n);
  }

  lemma StampStep(records: seq<Record>, n: nat, previous: int)
    requires n < |records| && !records[n].Other?
    requires Clocked(SelectedOf(records[..n])) && Stamped(SelectedOf(records[..n]), previous)
    ensures var stamp := records[n].stamp;
            if 0 <= stamp < STAMP_LIMIT && previous <= stamp
            then Clocked(SelectedOf(records[..n + 1])) && Stamped(SelectedOf(records[..n + 1]), stamp)
            else !Clocked(SelectedOf(records))
  {
    hide Clocked;
    var s := Selected(n, records[n]);
    SelectedSnoc(records, n);
    ClockStep(SelectedOf(records[..n]), s);
    if Clocked(SelectedOf(records)) {
      ClockedPrefix(records, n + 1);
    }
  }

  /** At the end the log is recognised exactly when a batch is under way and complete. */
  lemma ReadFacts(records: seq<Record>, header: Option<Selected>, consumed: nat, rows: seq<Row>,
                  done: seq<seq<Selected>>, open: seq<Selected>)
    requires records[..|records|] == records && Reading(records, |records|, header, consumed, rows, done, open)
    ensures header.Some? ==> header.value.record.Header?
    ensures header.None? || consumed != header.value.record.count ==> !Recognised(SelectedOf(records))
    ensures Samples(SelectedOf(records)) <= MAX_SAMPLES
  {
    hide IsBatch, ValidHeader, Samples;
    HeaderFacts(open);
    if header.None? || consumed != header.value.record.count {
      forall parts | parts != [] && Parsed(SelectedOf(records), parts)
        ensures false
      {
        Unfinished(done, open, parts);
      }
    }
  }

  lemma Finished(records: seq<Record>, header: Option<Selected>, consumed: nat, rows: seq<Row>,
                 done: seq<seq<Selected>>, open: seq<Selected>)
    requires records[..|records|] == records && Reading(records, |records|, header, consumed, rows, done, open)
    requires header.Some? && header.value.record.Header? && consumed == header.value.record.count
    ensures var parts := done + [open];
            && Parsed(SelectedOf(records), parts) && Recognised(SelectedOf(records)) && AllBatches(parts)
            && rows == Rows(parts) && open != []
  {
    hide IsOpen, Samples, Rows, Flatten, SelectedOf, BatchRows, AllBatches, IsBatch;
    OpenFull(open);
    AllClosed(done, open);
  }

  lemma OpenFull(open: seq<Selected>)
    ensures IsOpen(open) && open[0].record.Header? && BLOCK * (|open| - 1) == open[0].record.count ==> IsBatch(open)
    ensures IsOpen(open) ==> open != [] && open[0].record.Header?
  {
  }

  lemma AllClosed(done: seq<seq<Selected>>, open: seq<Selected>)
    requires AllBatches(done) && IsBatch(open)
    ensures AllBatches(done + [open]) && Flatten(done + [open]) == Flatten(done) + open
    ensures Rows(done + [open]) == Rows(done) + BatchRows(open)
  {
    hide IsBatch, BatchRows;
    assert (done + [open])[..|done|] == done;
  }
}
