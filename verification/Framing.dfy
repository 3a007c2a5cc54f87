/**
  * What the S.Port and MSP stream framers share: complete packets and discarded ranges in stream order, and
  * the collector that either keeps everything or only a window of the packets.
  */
module Framing {
  import opened Common

  const MAX_PACKETS := 65536
  const MAX_DISCARDED_RANGES := 65536
  const MAX_WINDOW_PACKETS := 5_000_000
  const LIMIT := 16 * 1024 * 1024
  const WINDOW_LIMIT := 0x8000_0000

  datatype Reason = Unframed | BeforeDelimiter | AtEnd

  /** A stretch of the input: one complete packet with its unstuffed bytes, or a discarded range. */
  datatype Span = Whole(start: nat, stop: nat, bytes: seq<byte>) | Skipped(start: nat, stop: nat, reason: Reason)

  datatype Window = Window(start: nat, stop: nat)

  datatype FramingError = InputBound | PacketBound | RangeBound | UnsupportedReply | JumboReply | EncapsulatedV2

  datatype Framed = Framed(rows: seq<Span>, discarded: seq<Span>, summary: map<Reason, nat>, records: nat,
                           completeBytes: int, discardedBytes: int)

  /** The spans cover `from` to `to` without gap or overlap, in order. */
  predicate Tiles(spans: seq<Span>, from: nat, to: nat) {
    if spans == [] then from == to
    else
      var last := spans[|spans| - 1];
      last.start < last.stop == to && Tiles(spans[..|spans| - 1], from, last.start)
  }

  function Wholes(spans: seq<Span>): seq<Span> {
    if spans == [] then []
    else
      var last := spans[|spans| - 1];
      Wholes(spans[..|spans| - 1]) + (if last.Whole? then [last] else [])
  }

  function Skips(spans: seq<Span>): seq<Span> {
    if spans == [] then []
    else
      var last := spans[|spans| - 1];
      Skips(spans[..|spans| - 1]) + (if last.Skipped? then [last] else [])
  }

  function Bytes(spans: seq<Span>): int {
    if spans == [] then 0
    else Bytes(spans[..|spans| - 1]) + spans[|spans| - 1].stop - spans[|spans| - 1].start
  }

  /** A range is only recorded when it holds a byte. */
  function Skip(spans: seq<Span>, begin: nat, end: nat, reason: Reason): seq<Span> {
    if begin < end then spans + [Skipped(begin, end, reason)] else spans
  }

  lemma SpansSnoc(spans: seq<Span>, last: Span)
    ensures Wholes(spans + [last]) == if last.Whole? then Wholes(spans) + [last] else Wholes(spans)
    ensures Skips(spans + [last]) == if last.Skipped? then Skips(spans) + [last] else Skips(spans)
    ensures Bytes(spans + [last]) == Bytes(spans) + last.stop - last.start
  {
    assert (spans + [last])[..|spans|] == spans;
  }

  lemma TilesSnoc(spans: seq<Span>, from: nat, last: Span)
    requires Tiles(spans, from, last.start) && last.start < last.stop
    ensures Tiles(spans + [last], from, last.stop)
  {
    assert (spans + [last])[..|spans|] == spans;
  }

  lemma TilesSkip(spans: seq<Span>, from: nat, begin: nat, end: nat, reason: Reason)
    requires Tiles(spans, from, begin) && begin <= end
    ensures Tiles(Skip(spans, begin, end, reason), from, end)
  {
    if begin < end {
      TilesSnoc(spans, from, Skipped(begin, end, reason));
    }
  }

  /** The bytes of these packets. */
  function BytesOf(packets: seq<Span>): (all: seq<seq<byte>>)
    ensures |all| == |packets|
  {
    seq(|packets|, i requires 0 <= i < |packets| => if packets[i].Whole? then packets[i].bytes else [])
  }

  function PacketBytes(spans: seq<Span>): seq<seq<byte>> {
    BytesOf(Wholes(spans))
  }

  lemma NoBytes()
    ensures Bytes(Wholes([])) == Bytes(Skips([])) == 0
  {
  }

  /** Spans that tile a stretch account for every byte of it, as packet or as discarded. */
  lemma {:induction false} TiledBytes(spans: seq<Span>, from: nat, to: nat)
    requires Tiles(spans, from, to)
    ensures from <= to && Bytes(Wholes(spans)) + Bytes(Skips(spans)) == to - from
  {
    hide Wholes, Skips, Bytes;
    if spans == [] {
      NoBytes();
    } else {
      var before, last := spans[..|spans| - 1], spans[|spans| - 1];
      TiledBytes(before, from, last.start);
      assert before + [last] == spans;
      SpansSnoc(before, last);
      SpansSnoc(Wholes(before), last);
      SpansSnoc(Skips(before), last);
    }
  }

  // ---------------------------------------------------------------- what is reported

  function Min(a: nat, b: nat): nat {
    if a < b then a else b
  }

  /** The packets whose index lies in the window. */
  function Selected(packets: seq<Span>, window: Window): seq<Span>
    requires window.start <= window.stop
  {
    packets[Min(window.start, |packets|)..Min(window.stop, |packets|)]
  }

  function AmountOf(summary: map<Reason, nat>, reason: Reason): nat {
    if reason in summary then summary[reason] else 0
  }

  /** The sum of the summary's values. */
  function SummaryBytes(summary: map<Reason, nat>): nat {
    AmountOf(summary, Unframed) + AmountOf(summary, BeforeDelimiter) + AmountOf(summary, AtEnd)
  }

  /** Discarded bytes by reason. */
  function ByReason(ranges: seq<Span>): map<Reason, nat>
    requires AllSkipped(ranges)
  {
    if ranges == [] then map[]
    else
      var earlier, last := ByReason(ranges[..|ranges| - 1]), ranges[|ranges| - 1];
      earlier[last.reason := AmountOf(earlier, last.reason) + last.stop - last.start]
  }

  predicate AllSkipped(ranges: seq<Span>) {
    forall i | 0 <= i < |ranges| :: ranges[i].Skipped? && ranges[i].start <= ranges[i].stop
  }

  lemma ByReasonSnoc(ranges: seq<Span>, last: Span)
    requires AllSkipped(ranges) && last.Skipped? && last.start <= last.stop
    ensures AllSkipped(ranges + [last])
    ensures ByReason(ranges + [last])
            == ByReason(ranges)[last.reason := AmountOf(ByReason(ranges), last.reason) + last.stop - last.start]
  {
    assert (ranges + [last])[..|ranges|] == ranges;
  }

  lemma AddAmount(summary: map<Reason, nat>, reason: Reason, amount: nat)
    ensures SummaryBytes(summary[reason := AmountOf(summary, reason) + amount]) == SummaryBytes(summary) + amount
  {
  }

  lemma {:induction false} ReasonsSum(ranges: seq<Span>)
    requires AllSkipped(ranges)
    ensures SummaryBytes(ByReason(ranges)) == Bytes(ranges)
  {
    if ranges != [] {
      var before, last := ranges[..|ranges| - 1], ranges[|ranges| - 1];
      ReasonsSum(before);
      assert before + [last] == ranges;
      ByReasonSnoc(before, last);
      SpansSnoc(before, last);
      AddAmount(ByReason(before), last.reason, last.stop - last.start);
    }
  }

  /** The ranges discarded for one reason. */
  function OfReason(ranges: seq<Span>, reason: Reason): seq<Span> {
    if ranges == [] then []
    else
      var last := ranges[|ranges| - 1];
      OfReason(ranges[..|ranges| - 1], reason) + (if last.Skipped? && last.reason == reason then [last] else [])
  }

  /** Every reason is given exactly the bytes that were discarded for it. */
  lemma {:induction false} AmountExactly(ranges: seq<Span>, reason: Reason)
    requires AllSkipped(ranges)
    ensures AmountOf(ByReason(ranges), reason) == Bytes(OfReason(ranges, reason))
  {
    if ranges != [] {
      var before, last := ranges[..|ranges| - 1], ranges[|ranges| - 1];
      AmountExactly(before, reason);
      if last.reason == reason {
        assert (OfReason(before, reason) + [last])[..|OfReason(before, reason)|] == OfReason(before, reason);
      } else {
        assert OfReason(ranges, reason) == OfReason(before, reason);
      }
    }
  }

  /** Framing only ever records non-empty stretches. */
  predicate Proper(spans: seq<Span>) {
    forall i | 0 <= i < |spans| :: spans[i].start < spans[i].stop
  }

  lemma {:induction false} SkipsSkipped(spans: seq<Span>)
    requires Proper(spans)
    ensures AllSkipped(Skips(spans))
  {
    hide AllSkipped;
    if spans == [] {
      NothingSkipped();
    } else {
      var before, last := spans[..|spans| - 1], spans[|spans| - 1];
      SkipsSkipped(before);
      assert before + [last] == spans;
      SpansSnoc(before, last);
      if last.Skipped? {
        ByReasonSnoc(Skips(before), last);
      }
    }
  }

  lemma NothingSkipped()
    ensures AllSkipped(Skips([]))
  {
  }

  lemma {:induction false} TiledProper(spans: seq<Span>, from: nat, to: nat)
    requires Tiles(spans, from, to)
    ensures Proper(spans)
  {
    if spans != [] {
      TiledProper(spans[..|spans| - 1], from, spans[|spans| - 1].start);
    }
  }

  lemma SelectedSnoc(packets: seq<Span>, packet: Span, window: Window)
    requires window.start <= window.stop
    ensures Selected(packets + [packet], window)
            == if window.start <= |packets| < window.stop then Selected(packets, window) + [packet]
               else Selected(packets, window)
  {
  }

  function LastOnly(ranges: seq<Span>): seq<Span> {
    if ranges == [] then [] else [ranges[|ranges| - 1]]
  }

  /** The bounds a framing must keep: windowed runs keep no list of ranges. */
  predicate WithinBounds(spans: seq<Span>, window: Option<Window>) {
    && |Wholes(spans)| <= MaxPackets(window)
    && (window.None? ==> |Skips(spans)| <= MAX_DISCARDED_RANGES)
  }

  function MaxPackets(window: Option<Window>): nat {
    if window.Some? then MAX_WINDOW_PACKETS else MAX_PACKETS
  }

  /** The bound that the stretches, taken in stream order, break first. */
  function Broken(spans: seq<Span>, window: Option<Window>): Option<FramingError> {
    if spans == [] then None
    else
      var before, last := spans[..|spans| - 1], spans[|spans| - 1];
      if Broken(before, window).Some? then Broken(before, window)
      else if last.Whole? then if |Wholes(before)| >= MaxPackets(window) then Some(PacketBound) else None
      else if window.None? && |Skips(before)| >= MAX_DISCARDED_RANGES then Some(RangeBound)
      else None
  }

  lemma BrokenSnoc(spans: seq<Span>, last: Span, window: Option<Window>)
    requires Broken(spans, window).None?
    ensures Broken(spans + [last], window)
         == if last.Whole? then if |Wholes(spans)| >= MaxPackets(window) then Some(PacketBound) else None
            else if window.None? && |Skips(spans)| >= MAX_DISCARDED_RANGES then Some(RangeBound) else None
  {
    assert (spans + [last])[..|spans|] == spans;
  }

  /** A bound once broken stays the one reported, whatever follows. */
  lemma {:induction false} BrokenStays(spans: seq<Span>, more: seq<Span>, window: Option<Window>)
    requires spans <= more && Broken(spans, window).Some?
    ensures Broken(more, window) == Broken(spans, window)
    decreases |more|
  {
    if |spans| < |more| {
      BrokenStays(spans, more[..|more| - 1], window);
    } else {
      assert spans == more;
    }
  }

  /** No bound is broken exactly when the totals are within bounds, and the one reported is one that is broken. */
  lemma {:induction false} BrokenExactly(spans: seq<Span>, window: Option<Window>)
    ensures Broken(spans, window).None? <==> WithinBounds(spans, window)
    ensures Broken(spans, window) == Some(PacketBound) ==> |Wholes(spans)| > MaxPackets(window)
    ensures Broken(spans, window) == Some(RangeBound)
            ==> window.None? && |Skips(spans)| > MAX_DISCARDED_RANGES
    ensures Broken(spans, window).Some? ==> Broken(spans, window).value in {PacketBound, RangeBound}
  {
    hide Broken, Wholes, Skips;
    if spans == [] {
      NothingBroken(window);
    } else {
      var before, last := spans[..|spans| - 1], spans[|spans| - 1];
      assert before + [last] == spans;
      BrokenExactly(before, window);
      SpansSnoc(before, last);
      if Broken(before, window).None? {
        BrokenSnoc(before, last, window);
      } else {
        BrokenStays(before, spans, window);
      }
    }
  }

  lemma NothingBroken(window: Option<Window>)
    ensures Broken([], window).None? && Wholes([]) == [] && Skips([]) == []
  {
  }

  class Collector {
    const window: Option<Window>
    var rows: seq<Span>
    var discarded: seq<Span>
    var summary: map<Reason, nat>
    var packetCount: nat
    var completeBytes: int
    /** Everything framed so far, in stream order. */
    ghost var spans: seq<Span>

    ghost predicate Valid()
      reads this
    {
      && (window.Some? ==> window.value.start <= window.value.stop)
      && AllSkipped(Skips(spans))
      && packetCount == |Wholes(spans)| && completeBytes == Bytes(Wholes(spans))
      && (window.None? ==>
            && rows == Wholes(spans) && discarded == Skips(spans)
            && packetCount <= MAX_PACKETS && |discarded| <= MAX_DISCARDED_RANGES)
      && (window.Some? ==>
            && rows == Selected(Wholes(spans), window.value) && discarded == LastOnly(Skips(spans))
            && packetCount <= MAX_WINDOW_PACKETS && summary == ByReason(Skips(spans)))
    }

    constructor (window: Option<Window>)
      requires window.Some? ==> window.value.start <= window.value.stop
      ensures Valid() && spans == [] && this.window == window
    {
      this.window := window;
      rows, discarded, summary, packetCount, completeBytes, spans := [], [], map[], 0, 0, [];
    }

    lemma KeptWithin()
      requires Valid()
      ensures Broken(spans, window).None?
    {
      BrokenExactly(spans, window);
    }

    method Discard(begin: nat, end: nat, reason: Reason) returns (ok: bool)
      requires Valid()
      modifies this
      ensures ok <==> !(begin < end && window.None? && |Skips(old(spans))| >= MAX_DISCARDED_RANGES)
      ensures !ok ==> Broken(Skip(old(spans), begin, end, reason), window) == Some(RangeBound)
      ensures ok ==> Valid() && spans == Skip(old(spans), begin, end, reason)
    {
      hide Selected, Wholes, Skips, Bytes, ByReason, AmountOf, AllSkipped, Broken;
      ok := true;
      KeptWithin();
      if begin < end {
        BrokenSnoc(spans, Skipped(begin, end, reason), window);
        var range := Skipped(begin, end, reason);
        SpansSnoc(spans, range);
        SpansSnoc(Skips(spans), range);
        ByReasonSnoc(Skips(spans), range);
        if window.Some? {
          summary := summary[reason := AmountOf(summary, reason) + end - begin];
          discarded := [range];
        } else {
          if |discarded| >= MAX_DISCARDED_RANGES {
            return false;
          }
          discarded := discarded + [range];
        }
        spans := spans + [range];
      }
    }

    method Complete(start: nat, stop: nat, bytes: seq<byte>) returns (ok: bool)
      requires Valid()
      modifies this
      ensures ok <==> |Wholes(old(spans))| < MaxPackets(window)
      ensures !ok ==> Broken(old(spans) + [Whole(start, stop, bytes)], window) == Some(PacketBound)
      ensures ok ==> Valid() && spans == old(spans) + [Whole(start, stop, bytes)]
    {
      hide Selected, Wholes, Skips, Bytes, ByReason, LastOnly, AllSkipped, Broken;
      var packet := Whole(start, stop, bytes);
      KeptWithin();
      BrokenSnoc(spans, packet, window);
      SpansSnoc(spans, packet);
      SpansSnoc(Wholes(spans), packet);
      if window.Some? {
        SelectedSnoc(Wholes(spans), packet, window.value);
      }
      if packetCount >= (if window.Some? then MAX_WINDOW_PACKETS else MAX_PACKETS) {
        return false;
      }
      if window.None? || window.value.start <= packetCount < window.value.stop {
        rows := rows + [packet];
      }
      packetCount := packetCount + 1;
      completeBytes := completeBytes + stop - start;
      spans := spans + [packet];
      ok := true;
    }

    method Finish() returns (r: Framed)
      requires Valid()
      ensures r == Reported(spans, window)
    {
      if window.Some? {
        ReasonsSum(Skips(spans));
        return Framed(rows, discarded, summary, packetCount, completeBytes, SummaryBytes(summary));
      }
      return Framed(rows, discarded, map[], packetCount, completeBytes, Bytes(discarded));
    }
  }

  /** What a framing reports, once every bound has held. */
  function Reported(spans: seq<Span>, window: Option<Window>): Framed
    requires AllSkipped(Skips(spans))
    requires window.Some? ==> window.value.start <= window.value.stop
  {
    var packets, ranges := Wholes(spans), Skips(spans);
    match window
    case None => Framed(packets, ranges, map[], |packets|, Bytes(packets), Bytes(ranges))
    case Some(w) =>
      Framed(Selected(packets, w), LastOnly(ranges), ByReason(ranges), |packets|, Bytes(packets), Bytes(ranges))
  }

  function InputLimit(window: Option<Window>): nat {
    if window.Some? then WINDOW_LIMIT else LIMIT
  }

  /** The outcome of a framing: the first bound broken, or else the framer's own refusal, or else the report. */
  function Outcome(spans: seq<Span>, refusal: Option<FramingError>, window: Option<Window>): Result<Framed,
                   FramingError>
    requires AllSkipped(Skips(spans))
    requires window.Some? ==> window.value.start <= window.value.stop
  {
    match Broken(spans, window)
    case Some(error) => Err(error)
    case None => if refusal.Some? then Err(refusal.value) else Ok(Reported(spans, window))
  }

  /**
    * A windowed report is the slice of the full one: its rows are the full run's rows with index in the window,
    * both agree on the packet and discarded totals, and those totals are the whole input.
    */
  ghost predicate IsSlice(windowed: Framed, full: Framed, window: Window, length: nat) {
    && window.start <= window.stop <= |full.rows| && windowed.rows == full.rows[window.start..window.stop]
    && windowed.records == full.records && windowed.completeBytes == full.completeBytes
    && windowed.discardedBytes == full.discardedBytes == SummaryBytes(windowed.summary)
    && windowed.discarded == LastOnly(full.discarded)
    && full.completeBytes + full.discardedBytes == length
  }

  lemma WindowIsSlice(spans: seq<Span>, window: Window, length: nat)
    requires Tiles(spans, 0, length) && AllSkipped(Skips(spans)) && window.start <= window.stop <= |Wholes(spans)|
    requires Outcome(spans, None, Some(window)).Ok? && Outcome(spans, None, None).Ok?
    ensures IsSlice(Outcome(spans, None, Some(window)).value, Outcome(spans, None, None).value, window, length)
  {
    TiledBytes(spans, 0, length);
    ReasonsSum(Skips(spans));
  }
}
