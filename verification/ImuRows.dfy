/** What every sample row of an accepted log says, in terms of the records that its own indices point at. */
module ImuRows {
  import opened Common
  import opened ImuBatch

  /** The selected records are the log's own, each with its place, in order. */
  ghost predicate Placed(selected: seq<Selected>, records: seq<Record>) {
    && (forall i | 0 <= i < |selected| ::
          selected[i].index < |records| && selected[i].record == records[selected[i].index])
    && (forall i, j | 0 <= i < j < |selected| :: selected[i].index < selected[j].index)
    && (forall n | 0 <= n < |records| && !records[n].Other? :: Selected(n, records[n]) in selected)
    && (forall i | 0 <= i < |selected| :: !selected[i].record.Other?)
  }

  lemma {:induction false} SelectedPlaced(records: seq<Record>)
    ensures Placed(SelectedOf(records), records)
  {
    if records != [] {
      SelectedPlaced(records[..|records| - 1]);
    }
  }

  /** The quotient of a raw triple. */
  ghost predicate Quotient(t: Triple, raw: (int, int, int), mul: int) {
    t.0 * mul as real == raw.0 as real && t.1 * mul as real == raw.1 as real && t.2 * mul as real == raw.2 as real
  }

  /**
    * What a row says: its header and its block are the records it names, nothing but blocks of the same batch lies
    * between them, and each of its numbers is theirs. An accelerometer's triple is an acceleration and a gyroscope's
    * an angular rate, never both.
    */
  ghost predicate Describes(r: Row, records: seq<Record>) {
    && r.headerIndex < r.sourceIndex < |records|
    && var h, b, i := records[r.headerIndex], records[r.sourceIndex], r.arrayIndex;
    && h.Header? && b.Block? && (forall n | r.headerIndex < n < r.sourceIndex :: !records[n].Header?)
    && r.batchNumber == h.n == b.n && r.kind == h.kind && r.instance == h.instance && r.mul == h.mul
    && r.rate == h.rate && r.firstUs == h.sampleUs
    && r.stamp == b.stamp && r.start == b.start && r.start + r.length == b.end && r.seqno == b.seqno
    && i < 32 && r.sampleIndex == 32 * r.seqno + i && r.offset * h.rate == r.sampleIndex as real
    && |b.x| == |b.y| == |b.z| == 32 && r.raw == (b.x[i], b.y[i], b.z[i])
    && (h.kind == 0 ==> r.angularRate == None && r.acceleration.Some? && Quotient(r.acceleration.value, r.raw, h.mul))
    && (h.kind == 1 ==> r.acceleration == None && r.angularRate.Some? && Quotient(r.angularRate.value, r.raw, h.mul))
    && (h.kind == 0 || h.kind == 1)
  }

  // ---------------------------------------------------------------- one batch

  /** The batch lies in the selected records from position `from` on. */
  ghost predicate LiesAt(batch: seq<Selected>, selected: seq<Selected>, from: nat) {
    from + |batch| <= |selected| && batch == selected[from..from + |batch|]
  }

  lemma Between(batch: seq<Selected>, selected: seq<Selected>, from: nat, records: seq<Record>, k: nat, n: nat)
    requires Placed(selected, records) && IsOpen(batch) && LiesAt(batch, selected, from)
    requires 1 <= k < |batch| && batch[0].index < n < batch[k].index < |records|
    ensures !records[n].Header?
  {
    if !records[n].Other? {
      var at :| 0 <= at < |selected| && selected[at] == Selected(n, records[n]);
      assert selected[from] == batch[0] && selected[from + k] == batch[k];
      assert from < at < from + k;
      assert selected[at] == batch[at - from];
      assert ValidBlock(batch[at - from].record, batch[0].record, at - from - 1);
    }
  }

  lemma Divided(n: int, m: int)
    requires m > 0
    ensures n as real / m as real * m as real == n as real
  {
  }

  lemma Offset(k: nat, rate: real)
    requires rate > 0.0
    ensures k as real / rate * rate == k as real
  {
  }

  lemma SampleDescribes(batch: seq<Selected>, selected: seq<Selected>, from: nat, records: seq<Record>, k: nat)
    requires Placed(selected, records) && IsOpen(batch) && LiesAt(batch, selected, from)
    requires k < BLOCK * (|batch| - 1)
    ensures k / BLOCK + 1 < |batch| && ValidBlock(batch[k / BLOCK + 1].record, batch[0].record, k / BLOCK)
    ensures Describes(SampleRow(batch, k), records)
  {
    hide Placed, ValidHeader, ValidBlock, LiesAt, Quotient;
    BlockOfSample(batch, k);
    var b := k / BLOCK + 1;
    InPlace(batch, selected, from, records, b);
    forall n | batch[0].index < n < batch[b].index
      ensures !records[n].Header?
    {
      Between(batch, selected, from, records, b, n);
    }
    OwnNumbers(batch, k);
  }

  lemma InPlace(batch: seq<Selected>, selected: seq<Selected>, from: nat, records: seq<Record>, b: nat)
    requires Placed(selected, records) && LiesAt(batch, selected, from) && 1 <= b < |batch|
    ensures batch[0].index < batch[b].index < |records|
    ensures records[batch[0].index] == batch[0].record && records[batch[b].index] == batch[b].record
  {
    assert batch[0] == selected[from] && batch[b] == selected[from + b];
  }

  /** The numbers of a sample row are its header's and its block's. */
  lemma OwnNumbers(batch: seq<Selected>, k: nat)
    requires batch != [] && ValidHeader(batch[0].record)
    requires k / BLOCK + 1 < |batch| && ValidBlock(batch[k / BLOCK + 1].record, batch[0].record, k / BLOCK)
    ensures var r, h, b := SampleRow(batch, k), batch[0].record, batch[k / BLOCK + 1].record;
            && h.Header? && b.Block?
            && r.headerIndex == batch[0].index && r.sourceIndex == batch[k / BLOCK + 1].index
            && r.batchNumber == h.n == b.n && r.kind == h.kind && r.instance == h.instance && r.mul == h.mul
            && r.rate == h.rate && r.firstUs == h.sampleUs
            && r.stamp == b.stamp && r.start == b.start && r.start + r.length == b.end && r.seqno == b.seqno
            && r.arrayIndex < 32 && r.sampleIndex == 32 * r.seqno + r.arrayIndex
            && r.offset * h.rate == r.sampleIndex as real
            && |b.x| == |b.y| == |b.z| == 32
            && r.raw == (b.x[r.arrayIndex], b.y[r.arrayIndex], b.z[r.arrayIndex])
            && (h.kind == 0 ==> r.angularRate == None && r.acceleration.Some?
                                && Quotient(r.acceleration.value, r.raw, h.mul))
            && (h.kind == 1 ==> r.acceleration == None && r.angularRate.Some?
                                && Quotient(r.angularRate.value, r.raw, h.mul))
            && (h.kind == 0 || h.kind == 1)
  {
    var h, b, i := batch[0].record, batch[k / BLOCK + 1].record, k % BLOCK;
    Offset(k, h.rate);
    Divided(b.x[i], h.mul);
    Divided(b.y[i], h.mul);
    Divided(b.z[i], h.mul);
  }

  // ---------------------------------------------------------------- all batches

  /** Where the blocks among the selected records lie, in order. */
  function BlockPlaces(selected: seq<Selected>): seq<nat> {
    if selected == [] then []
    else
      var last := selected[|selected| - 1];
      BlockPlaces(selected[..|selected| - 1]) + if last.record.Block? then [last.index] else []
  }

  lemma {:induction false} PlacesJoin(a: seq<Selected>, b: seq<Selected>)
    ensures BlockPlaces(a + b) == BlockPlaces(a) + BlockPlaces(b)
    decreases |b|
  {
    if b == [] {
      assert a + b == a;
    } else {
      assert (a + b)[..|a + b| - 1] == a + b[..|b| - 1];
      PlacesJoin(a, b[..|b| - 1]);
    }
  }

  lemma {:induction false} PlacesOfBatch(batch: seq<Selected>, n: nat)
    requires IsOpen(batch) && 1 <= n <= |batch|
    ensures BlockPlaces(batch[..n]) == seq(n - 1, k requires 0 <= k < n - 1 => batch[k + 1].index)
    decreases n
  {
    if n == 1 {
      assert batch[..1] == [batch[0]] && batch[..1][..0] == [];
    } else {
      PlacesOfBatch(batch, n - 1);
      assert batch[..n][..n - 1] == batch[..n - 1];
      assert ValidBlock(batch[n - 1].record, batch[0].record, n - 2);
    }
  }

  /** Each row is described by its records, and row `i` is sample `i % 32` of block `i / 32`. */
  ghost predicate RowsDescribe(rows: seq<Row>, records: seq<Record>, places: seq<nat>) {
    && |rows| == 32 * |places|
    && forall i: nat | i < |rows| ::
         && Describes(rows[i], records)
         && i / 32 < |places| && rows[i].sourceIndex == places[i / 32] && rows[i].arrayIndex == i % 32
  }

  lemma BatchDescribes(batch: seq<Selected>, selected: seq<Selected>, from: nat, records: seq<Record>)
    requires Placed(selected, records) && IsOpen(batch) && LiesAt(batch, selected, from)
    ensures RowsDescribe(BatchRows(batch), records, BlockPlaces(batch))
  {
    hide Placed, LiesAt, Describes;
    PlacesOfBatch(batch, |batch|);
    assert batch[..|batch|] == batch;
    var places, rows := BlockPlaces(batch), BatchRows(batch);
    forall i: nat | i < |rows|
      ensures Describes(rows[i], records)
      ensures i / 32 < |places| && rows[i].sourceIndex == places[i / 32] && rows[i].arrayIndex == i % 32
    {
      SampleDescribes(batch, selected, from, records, i);
    }
  }

  lemma DescribeJoin(a: seq<Row>, p: seq<nat>, b: seq<Row>, q: seq<nat>, records: seq<Record>)
    requires RowsDescribe(a, records, p) && RowsDescribe(b, records, q)
    ensures RowsDescribe(a + b, records, p + q)
  {
    hide Describes;
    forall i: nat | |a| <= i < |a + b|
      ensures i / 32 == |p| + (i - |a|) / 32 && i % 32 == (i - |a|) % 32
    {
    }
    assert forall i: nat | |a| <= i < |a + b| :: (a + b)[i] == b[i - |a|];
  }

  /** Every row of a parsed log says what its records say, block by block and sample by sample. */
  lemma {:induction false} RowsExplained(records: seq<Record>, parts: seq<seq<Selected>>, n: nat)
    requires AllBatches(parts) && n <= |parts| && SelectedOf(records) == Flatten(parts)
    ensures AllBatches(parts[..n])
    ensures RowsDescribe(Rows(parts[..n]), records, BlockPlaces(Flatten(parts[..n])))
    decreases n
  {
    hide RowsDescribe, BlockPlaces, IsBatch, Placed, SelectedOf, LiesAt;
    if n == 0 {
      NothingDescribed(records);
    } else {
      RowsExplained(records, parts, n - 1);
      var before, batch := parts[..n - 1], parts[n - 1];
      assert parts[..n][..n - 1] == before && parts[..n] == before + [batch];
      SelectedPlaced(records);
      FlattenAppend(parts[..n], parts[n..]);
      assert parts[..n] + parts[n..] == parts;
      assert Flatten(parts[..n]) == Flatten(before) + batch;
      assert LiesAt(batch, Flatten(parts), |Flatten(before)|) by {
        Lies(batch, Flatten(before), Flatten(parts[n..]));
      }
      assert IsOpen(batch) by { BatchOpen(batch); }
      BatchDescribes(batch, SelectedOf(records), |Flatten(before)|, records);
      PlacesJoin(Flatten(before), batch);
      DescribeJoin(Rows(before), BlockPlaces(Flatten(before)), BatchRows(batch), BlockPlaces(batch), records);
    }
  }

  lemma BatchOpen(batch: seq<Selected>)
    requires IsBatch(batch)
    ensures IsOpen(batch)
  {
  }

  lemma Lies(batch: seq<Selected>, before: seq<Selected>, after: seq<Selected>)
    ensures LiesAt(batch, before + batch + after, |before|)
  {
  }

  lemma NothingDescribed(records: seq<Record>)
    ensures RowsDescribe(Rows([]), records, BlockPlaces(Flatten([])))
  {
  }

  /** The rows of an accepted log are one for each sample of each of its blocks, and all of them say what it says. */
  lemma EveryRowDescribed(records: seq<Record>, parts: seq<seq<Selected>>)
    requires Parsed(SelectedOf(records), parts)
    ensures RowsDescribe(Rows(parts), records, BlockPlaces(SelectedOf(records)))
  {
    hide RowsDescribe, Rows;
    RowsExplained(records, parts, |parts|);
    assert parts[..|parts|] == parts;
  }
}
