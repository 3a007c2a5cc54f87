/** The MSP reply framer: it scans for `$M>` replies, and everything else is discarded or refused. */
module MspFraming {
  import opened Common
  import opened Framing

  const DOLLAR: byte := 36
  const LETTER_M: byte := 77
  const LETTER_X: byte := 88
  const REPLY: byte := 62

  /** The next dollar sign at or after `cursor`, or the end of the data. */
  function Find(data: seq<byte>, cursor: nat): (at: nat)
    requires cursor <= |data|
    ensures cursor <= at <= |data|
    ensures at < |data| ==> data[at] == DOLLAR
    decreases |data| - cursor
  {
    if cursor == |data| || data[cursor] == DOLLAR then cursor else Find(data, cursor + 1)
  }

  /** A frame may start here: the last byte of the data, or a marker of either protocol version. */
  predicate Marked(data: seq<byte>, start: nat)
    requires start < |data|
  {
    start + 1 == |data| || data[start + 1] == LETTER_M || data[start + 1] == LETTER_X
  }

  /** Refuse anything but an ordinary version-one reply, as far as its header is there. */
  function Refusal(data: seq<byte>, start: nat): Option<FramingError>
    requires start + 3 <= |data|
  {
    if data[start + 1] != LETTER_M || data[start + 2] != REPLY then Some(UnsupportedReply)
    else if start + 4 <= |data| && data[start + 3] == 255 then Some(JumboReply)
    else if start + 5 <= |data| && data[start + 4] == 255 then Some(EncapsulatedV2)
    else None
  }

  /** Where the frame that starts here ends; beyond the data when that is not known or not there. */
  function StopOf(data: seq<byte>, start: nat): nat
    requires start < |data|
  {
    if start + 4 <= |data| then start + 6 + data[start + 3] else |data| + 1
  }

  /** The stretches framed so far, how far they reach, and the reason to refuse the frame found there. */
  datatype Scanned = Scanned(spans: seq<Span>, reach: nat, refusal: Option<FramingError>)

  function Scan(data: seq<byte>, cursor: nat, idleStart: nat, spans: seq<Span>): Scanned
    requires idleStart <= cursor <= |data|
    decreases |data| - cursor
  {
    var start := Find(data, cursor);
    if start == |data| then Scanned(Skip(spans, idleStart, |data|, Unframed), |data|, None)
    else if !Marked(data, start) then Scan(data, start + 1, idleStart, spans)
    else
      var before := Skip(spans, idleStart, start, Unframed);
      if |data| - start < 3 then Scanned(Skip(before, start, |data|, AtEnd), |data|, None)
      else if Refusal(data, start).Some? then Scanned(before, start, Refusal(data, start))
      else
        var stop := StopOf(data, start);
        if stop > |data| then Scanned(Skip(before, start, |data|, AtEnd), |data|, None)
        else Scan(data, stop, stop, before + [Whole(start, stop, data[start..stop])])
  }

  function ScanOf(data: seq<byte>): Scanned {
    Scan(data, 0, 0, [])
  }

  // ---------------------------------------------------------------- what a scan holds

  lemma {:induction false} ScanGrows(data: seq<byte>, cursor: nat, idleStart: nat, spans: seq<Span>)
    requires idleStart <= cursor <= |data|
    ensures spans <= Scan(data, cursor, idleStart, spans).spans
    decreases |data| - cursor
  {
    var start := Find(data, cursor);
    if start < |data| {
      if !Marked(data, start) {
        ScanGrows(data, start + 1, idleStart, spans);
      } else if |data| - start >= 3 && Refusal(data, start).None? && StopOf(data, start) <= |data| {
        var stop := StopOf(data, start);
        ScanGrows(data, stop, stop, Skip(spans, idleStart, start, Unframed) + [Whole(start, stop, data[start..stop])]);
      }
    }
  }

  /** An ordinary reply: its marker, a length byte that its size matches, and a code of version one. */
  predicate IsReply(bytes: seq<byte>) {
    && |bytes| >= 6 && bytes[0] == DOLLAR && bytes[1] == LETTER_M && bytes[2] == REPLY
    && bytes[3] != 255 && bytes[4] != 255 && |bytes| - 6 == bytes[3]
  }

  ghost predicate AllReplies(data: seq<byte>, spans: seq<Span>) {
    forall k | 0 <= k < |spans| && spans[k].Whole? ::
      spans[k].start <= spans[k].stop <= |data| && spans[k].bytes == data[spans[k].start..spans[k].stop]
      && IsReply(spans[k].bytes)
  }

  /** The stretches partition what was scanned, and all of the data was unless a marked frame there is refused. */
  ghost predicate Sound(data: seq<byte>, scanned: Scanned) {
    && Tiles(scanned.spans, 0, scanned.reach) && AllReplies(data, scanned.spans)
    && (scanned.refusal.None? ==> scanned.reach == |data|)
    && (scanned.refusal.Some? ==> scanned.reach + 3 <= |data| && Marked(data, scanned.reach)
                                  && data[scanned.reach] == DOLLAR
                                  && scanned.refusal == Refusal(data, scanned.reach))
  }

  lemma RepliesSkip(data: seq<byte>, spans: seq<Span>, begin: nat, end: nat, reason: Reason)
    requires AllReplies(data, spans)
    ensures AllReplies(data, Skip(spans, begin, end, reason))
  {
  }

  lemma RepliesSnoc(data: seq<byte>, spans: seq<Span>, start: nat, stop: nat)
    requires AllReplies(data, spans) && start <= stop <= |data| && IsReply(data[start..stop])
    ensures AllReplies(data, spans + [Whole(start, stop, data[start..stop])])
  {
    hide IsReply;
  }

  lemma {:induction false} ScanSound(data: seq<byte>, cursor: nat, idleStart: nat, spans: seq<Span>)
    requires idleStart <= cursor <= |data|
    requires Tiles(spans, 0, idleStart) && AllReplies(data, spans)
    ensures Sound(data, Scan(data, cursor, idleStart, spans))
    decreases |data| - cursor
  {
    hide Tiles, AllReplies, Skip;
    var start := Find(data, cursor);
    TilesSkip(spans, 0, idleStart, |data|, Unframed);
    RepliesSkip(data, spans, idleStart, |data|, Unframed);
    if start < |data| {
      if !Marked(data, start) {
        ScanSound(data, start + 1, idleStart, spans);
      } else {
        var before := Skip(spans, idleStart, start, Unframed);
        TilesSkip(spans, 0, idleStart, start, Unframed);
        RepliesSkip(data, spans, idleStart, start, Unframed);
        TilesSkip(before, 0, start, |data|, AtEnd);
        RepliesSkip(data, before, start, |data|, AtEnd);
        if |data| - start >= 3 && Refusal(data, start).None? && StopOf(data, start) <= |data| {
          var stop := StopOf(data, start);
          var packet := Whole(start, stop, data[start..stop]);
          ReplyHere(data, start);
          TilesSnoc(before, 0, packet);
          RepliesSnoc(data, before, start, stop);
          ScanSound(data, stop, stop, before + [packet]);
        }
      }
    }
  }

  lemma ReplyHere(data: seq<byte>, start: nat)
    requires start + 3 <= |data| && data[start] == DOLLAR && Refusal(data, start).None?
    requires StopOf(data, start) <= |data|
    ensures IsReply(data[start..StopOf(data, start)])
  {
    var bytes := data[start..StopOf(data, start)];
    assert bytes[0] == data[start] && bytes[1] == data[start + 1] && bytes[2] == data[start + 2];
    assert bytes[3] == data[start + 3] && bytes[4] == data[start + 4];
  }

  /**
    * On every byte string, replies and discarded ranges partition in order all that was scanned; it is the
    * whole input unless the scan stopped at a frame that may not be framed.
    */
  lemma StreamSound(data: seq<byte>)
    ensures Sound(data, ScanOf(data)) && AllSkipped(Skips(ScanOf(data).spans))
    ensures Bytes(Wholes(ScanOf(data).spans)) + Bytes(Skips(ScanOf(data).spans)) == ScanOf(data).reach
  {
    ScanSound(data, 0, 0, []);
    TiledBytes(ScanOf(data).spans, 0, ScanOf(data).reach);
    TiledProper(ScanOf(data).spans, 0, ScanOf(data).reach);
    SkipsSkipped(ScanOf(data).spans);
  }

  // ---------------------------------------------------------------- the converter

  /** The outcome of framing an MSP stream. */
  function MspFramed(data: seq<byte>, window: Option<Window>): Result<Framed, FramingError>
    requires window.Some? ==> window.value.start < window.value.stop
  {
    if |data| > InputLimit(window) then Err(InputBound)
    else
      StreamSound(data);
      Outcome(ScanOf(data).spans, ScanOf(data).refusal, window)
  }

  /** The scanning loop; the report of its packets is read further in `MspDecoding`. */
  method FrameMsp(data: seq<byte>, window: Option<Window>) returns (result: Result<Framed, FramingError>)
    requires window.Some? ==> window.value.start < window.value.stop
    ensures result == MspFramed(data, window)
  {
    hide WithinBounds, Wholes, Skips, Reported, Tiles, Broken;
    StreamSound(data);
    if |data| > InputLimit(window) {
      return Err(InputBound);
    }
    var collector := new Collector(window);
    var cursor, idleStart := 0, 0;
    var ended := false;
    while !ended && cursor < |data|
      invariant 0 <= idleStart <= |data|
      invariant collector.Valid() && collector.window == window && fresh(collector)
      invariant !ended ==> idleStart <= cursor <= |data|
                           && ScanOf(data) == Scan(data, cursor, idleStart, collector.spans)
      invariant ended ==> ScanOf(data) == Scanned(Skip(collector.spans, idleStart, |data|, Unframed), |data|, None)
      decreases !ended, |data| - cursor
    {
      ghost var before := collector.spans;
      var start := Find(data, cursor);
      if start == |data| {
        ended := true;
        continue;
      }
      if !Marked(data, start) {
        cursor := start + 1;
        continue;
      }
      SkipStays(data, cursor, idleStart, before);
      var ok := collector.Discard(idleStart, start, Unframed);
      if !ok {
        BrokenStays(Skip(before, idleStart, start, Unframed), ScanOf(data).spans, window);
        return Err(RangeBound);
      }
      ghost var framed := collector.spans;
      if |data| - start < 3 || (Refusal(data, start).None? && StopOf(data, start) > |data|) {
        ok := collector.Discard(start, |data|, AtEnd);
        if !ok {
          return Err(RangeBound);
        }
        idleStart, ended := |data|, true;
        continue;
      }
      if Refusal(data, start).Some? {
        collector.KeptWithin();
        return Err(Refusal(data, start).value);
      }
      var stop := StopOf(data, start);
      ok := collector.Complete(start, stop, data[start..stop]);
      if !ok {
        ghost var packet := Whole(start, stop, data[start..stop]);
        ScanGrows(data, stop, stop, framed + [packet]);
        BrokenStays(framed + [packet], ScanOf(data).spans, window);
        return Err(PacketBound);
      }
      cursor, idleStart := stop, stop;
    }
    ghost var before := collector.spans;
    var ok := collector.Discard(idleStart, |data|, Unframed);
    if !ok {
      return Err(RangeBound);
    }
    collector.KeptWithin();
    var framed := collector.Finish();
    result := Ok(framed);
  }

  /** The range discarded before a marked frame is part of every later framing. */
  lemma SkipStays(data: seq<byte>, cursor: nat, idleStart: nat, spans: seq<Span>)
    requires idleStart <= cursor <= |data| && Find(data, cursor) < |data| && Marked(data, Find(data, cursor))
    ensures Skip(spans, idleStart, Find(data, cursor), Unframed) <= Scan(data, cursor, idleStart, spans).spans
  {
    var start := Find(data, cursor);
    if |data| - start >= 3 && Refusal(data, start).None? && StopOf(data, start) <= |data| {
      var stop := StopOf(data, start);
      ScanGrows(data, stop, stop, Skip(spans, idleStart, start, Unframed) + [Whole(start, stop, data[start..stop])]);
    }
  }

  // ---------------------------------------------------------------- replies round-trip through any noise

  /** No marker starts inside the noise. */
  predicate Unmarked(noise: seq<byte>) {
    forall i | 0 <= i < |noise| - 1 :: noise[i] == DOLLAR ==> noise[i + 1] != LETTER_M && noise[i + 1] != LETTER_X
  }

  datatype Item = Item(noise: seq<byte>, reply: seq<byte>) {
    predicate Valid() {
      Unmarked(noise) && IsReply(reply)
    }
  }

  function Stream(items: seq<Item>): seq<byte>
    decreases |items|
  {
    if items == [] then [] else items[0].noise + items[0].reply + Stream(items[1..])
  }

  function Replies(items: seq<Item>): seq<seq<byte>> {
    seq(|items|, i requires 0 <= i < |items| => items[i].reply)
  }

  /** A byte that starts no frame is passed over. */
  lemma ScanPasses(data: seq<byte>, cursor: nat, idleStart: nat, spans: seq<Span>)
    requires idleStart <= cursor < |data|
    requires data[cursor] == DOLLAR ==> !Marked(data, cursor)
    ensures Scan(data, cursor, idleStart, spans) == Scan(data, cursor + 1, idleStart, spans)
  {
  }

  lemma {:induction false} ScanNoise(data: seq<byte>, cursor: nat, until: nat, idleStart: nat, spans: seq<Span>)
    requires idleStart <= cursor <= until <= |data|
    requires forall i | cursor <= i < until :: data[i] == DOLLAR ==> !Marked(data, i)
    ensures Scan(data, cursor, idleStart, spans) == Scan(data, until, idleStart, spans)
    decreases until - cursor
  {
    if cursor < until {
      ScanPasses(data, cursor, idleStart, spans);
      ScanNoise(data, cursor + 1, until, idleStart, spans);
    }
  }

  lemma ScanReply(data: seq<byte>, start: nat, stop: nat, idleStart: nat, spans: seq<Span>)
    requires idleStart <= start <= stop <= |data| && IsReply(data[start..stop])
    ensures Scan(data, start, idleStart, spans)
            == Scan(data, stop, stop, Skip(spans, idleStart, start, Unframed) + [Whole(start, stop, data[start..stop])])
  {
    var bytes := data[start..stop];
    assert bytes[0] == data[start] && bytes[1] == data[start + 1] && bytes[2] == data[start + 2];
    assert bytes[3] == data[start + 3] && bytes[4] == data[start + 4];
    assert Find(data, start) == start && StopOf(data, start) == stop;
  }

  /** Nothing is framed in the last byte of the data, nor beyond. */
  lemma ScanLast(data: seq<byte>, cursor: nat, idleStart: nat, spans: seq<Span>)
    requires idleStart <= cursor <= |data| <= cursor + 1
    ensures Scan(data, cursor, idleStart, spans).refusal.None?
    ensures PacketBytes(Scan(data, cursor, idleStart, spans).spans) == PacketBytes(spans)
  {
    hide PacketBytes;
    SkipsNoPacket(spans, idleStart, |data|, Unframed);
    SkipsNoPacket(spans, idleStart, cursor, Unframed);
    SkipsNoPacket(Skip(spans, idleStart, cursor, Unframed), cursor, |data|, AtEnd);
  }

  lemma SkipsNoPacket(spans: seq<Span>, begin: nat, end: nat, reason: Reason)
    ensures PacketBytes(Skip(spans, begin, end, reason)) == PacketBytes(spans)
  {
    SpansSnoc(spans, Skipped(begin, end, reason));
  }

  lemma ScanTrailing(data: seq<byte>, cursor: nat, spans: seq<Span>)
    requires cursor <= |data| && Unmarked(data[cursor..])
    ensures Scan(data, cursor, cursor, spans).refusal.None?
    ensures PacketBytes(Scan(data, cursor, cursor, spans).spans) == PacketBytes(spans)
  {
    hide Scan, PacketBytes;
    var last := if cursor < |data| then |data| - 1 else |data|;
    forall i | cursor <= i < last
      ensures data[i] == DOLLAR ==> !Marked(data, i)
    {
      assert data[cursor..][i - cursor] == data[i] && data[cursor..][i + 1 - cursor] == data[i + 1];
    }
    ScanNoise(data, cursor, last, cursor, spans);
    ScanLast(data, last, cursor, spans);
  }

  lemma {:induction false} ScanStream(data: seq<byte>, cursor: nat, items: seq<Item>, trailing: seq<byte>,
                                      spans: seq<Span>)
    requires cursor <= |data| && data[cursor..] == Stream(items) + trailing
    requires (forall i | 0 <= i < |items| :: items[i].Valid()) && Unmarked(trailing)
    ensures Scan(data, cursor, cursor, spans).refusal.None?
    ensures PacketBytes(Scan(data, cursor, cursor, spans).spans) == PacketBytes(spans) + Replies(items)
    decreases |items|
  {
    hide Scan, PacketBytes, Unmarked, IsReply;
    if items == [] {
      assert data[cursor..] == trailing;
      ScanTrailing(data, cursor, spans);
      assert PacketBytes(spans) + Replies(items) == PacketBytes(spans);
    } else {
      var noise, reply, later := items[0].noise, items[0].reply, Stream(items[1..]) + trailing;
      var start := cursor + |noise|;
      var stop := start + |reply|;
      var rest := data[cursor..];
      assert rest == noise + reply + later;
      assert data[cursor..start] == rest[..|noise|] == noise;
      assert |reply| >= 6 by {
        ReplyLength(reply);
      }
      assert data[start..stop] == rest[|noise|..|noise| + |reply|] == reply;
      assert data[stop..] == rest[|noise| + |reply|..] == later;
      NoiseBefore(data, cursor, start, stop, noise, reply);
      ScanNoise(data, cursor, start, cursor, spans);
      ScanReply(data, start, stop, cursor, spans);
      var after := Skip(spans, cursor, start, Unframed) + [Whole(start, stop, reply)];
      OneMore(spans, cursor, start, stop, reply);
      ScanStream(data, stop, items[1..], trailing, after);
      assert Replies(items) == [reply] + Replies(items[1..]);
    }
  }

  lemma ReplyLength(reply: seq<byte>)
    requires IsReply(reply)
    ensures |reply| >= 6
  {
  }

  lemma OneMore(spans: seq<Span>, cursor: nat, start: nat, stop: nat, reply: seq<byte>)
    ensures PacketBytes(Skip(spans, cursor, start, Unframed) + [Whole(start, stop, reply)])
         == PacketBytes(spans) + [reply]
  {
    hide Wholes, Skips, Bytes;
    SpansSnoc(spans, Skipped(cursor, start, Unframed));
    SpansSnoc(Skip(spans, cursor, start, Unframed), Whole(start, stop, reply));
  }

  lemma NoiseBefore(data: seq<byte>, cursor: nat, start: nat, stop: nat, noise: seq<byte>, reply: seq<byte>)
    requires cursor <= start < stop <= |data| && data[cursor..start] == noise && data[start..stop] == reply
    requires Unmarked(noise) && IsReply(reply)
    ensures forall i | cursor <= i < start :: data[i] == DOLLAR ==> !Marked(data, i)
  {
    assert data[start] == reply[0];
    forall i | cursor <= i < start
      ensures data[i] == DOLLAR ==> !Marked(data, i)
    {
      assert noise[i - cursor] == data[i];
      if i + 1 < start {
        assert noise[i + 1 - cursor] == data[i + 1];
      }
    }
  }

  /** Any list of replies, with marker-free noise around them, is framed as exactly those replies in order. */
  lemma StreamRoundTrip(items: seq<Item>, trailing: seq<byte>)
    requires (forall i | 0 <= i < |items| :: items[i].Valid()) && Unmarked(trailing)
    ensures ScanOf(Stream(items) + trailing).refusal.None?
    ensures PacketBytes(ScanOf(Stream(items) + trailing).spans) == Replies(items)
  {
    var data := Stream(items) + trailing;
    assert data[0..] == data;
    ScanStream(data, 0, items, trailing, []);
    assert PacketBytes([]) + Replies(items) == Replies(items);
  }
}
