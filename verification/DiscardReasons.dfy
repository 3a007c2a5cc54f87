/** Why bytes of a native stream are discarded, and why a marked frame is refused, said of the bytes themselves. */
module DiscardReasons {
  import opened Common
  import opened Framing
  import MspFraming
  import SportFraming

  // ---------------------------------------------------------------- S.Port

  /**
    * What a discarded range holds: bytes outside any frame hold no delimiter, an attempt that another delimiter
    * reset lies between the two, and one that the input cut off reaches its end.
    */
  ghost predicate SportReason(data: seq<byte>, r: Span) {
    && r.Skipped? && r.start < r.stop <= |data|
    && match r.reason
       case Unframed => forall p | r.start <= p < r.stop :: data[p] != 0x7E
       case BeforeDelimiter => data[r.start] == 0x7E && r.stop < |data| && data[r.stop] == 0x7E
       case AtEnd => data[r.start] == 0x7E && r.stop == |data|
  }

  ghost predicate SportReasons(data: seq<byte>, spans: seq<Span>) {
    forall k | 0 <= k < |spans| && spans[k].Skipped? :: spans[k].reason != AtEnd && SportReason(data, spans[k])
  }

  /** Where the receiver stands: after bytes without a delimiter, or after the delimiter of an attempt. */
  ghost predicate Standing(r: SportFraming.Receiver, data: seq<byte>) {
    && SportReasons(data, r.spans)
    && (r.start.None? ==> r.idleStart <= |data| && forall p | r.idleStart <= p < |data| :: data[p] != 0x7E)
    && (r.start.Some? ==> r.start.value < |data| && data[r.start.value] == 0x7E)
  }

  lemma ReasonsStay(data: seq<byte>, b: byte, spans: seq<Span>)
    requires SportReasons(data, spans)
    ensures SportReasons(data + [b], spans)
  {
    forall k | 0 <= k < |spans| && spans[k].Skipped?
      ensures spans[k].reason != AtEnd && SportReason(data + [b], spans[k])
    {
      assert SportReason(data, spans[k]);
    }
  }

  lemma StandsOn(r: SportFraming.Receiver, data: seq<byte>, b: byte)
    requires Standing(r, data)
    ensures Standing(SportFraming.Receive(r, |data|, b), data + [b])
  {
    hide SportReasons, SportFraming.Toggled;
    ReasonsStay(data, b, r.spans);
    var begin := if r.start.None? then r.idleStart else r.start.value;
    var reason := if r.start.None? then Unframed else BeforeDelimiter;
    if b == 0x7E && begin < |data| {
      assert SportReason(data + [b], Skipped(begin, |data|, reason));
      OneMoreReason(data + [b], r.spans, Skipped(begin, |data|, reason));
    }
    OneMorePacket(data + [b], r.spans, Whole(begin, |data| + 1, r.packet + [b]));
    OneMorePacket(data + [b], r.spans, Whole(begin, |data| + 1, r.packet + [SportFraming.Toggled(b)]));
  }

  lemma OneMoreReason(data: seq<byte>, spans: seq<Span>, r: Span)
    requires SportReasons(data, spans) && SportReason(data, r) && r.reason != AtEnd
    ensures SportReasons(data, spans + [r])
  {
  }

  lemma OneMorePacket(data: seq<byte>, spans: seq<Span>, packet: Span)
    requires SportReasons(data, spans) && packet.Whole?
    ensures SportReasons(data, spans + [packet])
  {
  }

  lemma {:induction false} ReceiverStands(data: seq<byte>)
    ensures Standing(SportFraming.Received(data), data)
  {
    hide SportFraming.Receive, Standing;
    if data == [] {
      StandsFirst();
    } else {
      var before, b := data[..|data| - 1], data[|data| - 1];
      ReceiverStands(before);
      StandsOn(SportFraming.Received(before), before, b);
      assert before + [b] == data;
    }
  }

  lemma StandsFirst()
    ensures Standing(SportFraming.Received([]), [])
  {
  }

  /** Every discarded range of an S.Port stream carries the one reason that its bytes give. */
  lemma SportReasonsExactly(data: seq<byte>, k: nat)
    requires k < |SportFraming.SpansOf(data)| && SportFraming.SpansOf(data)[k].Skipped?
    ensures SportReason(data, SportFraming.SpansOf(data)[k])
  {
    hide SportFraming.Received;
    ReceiverStands(data);
    var r := SportFraming.Received(data);
    assert k < |r.spans| ==> SportFraming.SpansOf(data)[k] == r.spans[k];
  }

  // ---------------------------------------------------------------- MSP

  /** A marker that starts a frame: a dollar sign before M or X, or at the very end. */
  predicate MarkerAt(data: seq<byte>, p: nat)
    requires p < |data|
  {
    data[p] == 36 && (p + 1 == |data| || data[p + 1] == 77 || data[p + 1] == 88)
  }

  /** The beginning of a reply, but not all of it; or of a version-two frame, cut before its direction. */
  ghost predicate CutReply(s: seq<byte>) {
    s == [36, 88] || exists reply :: MspFraming.IsReply(reply) && s < reply
  }

  /** What a discarded range holds: bytes without a marker, or the cut-off reply at the end of the input. */
  ghost predicate MspReason(data: seq<byte>, r: Span) {
    && r.Skipped? && r.start < r.stop <= |data|
    && match r.reason
       case Unframed => forall p | r.start <= p < r.stop :: !MarkerAt(data, p)
       case BeforeDelimiter => false
       case AtEnd => MarkerAt(data, r.start) && r.stop == |data| && CutReply(data[r.start..])
  }

  ghost predicate MspReasons(data: seq<byte>, spans: seq<Span>) {
    forall k | 0 <= k < |spans| && spans[k].Skipped? :: MspReason(data, spans[k])
  }

  lemma MspSkip(data: seq<byte>, spans: seq<Span>, begin: nat, end: nat, reason: Reason)
    requires MspReasons(data, spans) && (begin < end ==> MspReason(data, Skipped(begin, end, reason)))
    ensures MspReasons(data, Skip(spans, begin, end, reason))
  {
    hide MspReason;
  }

  lemma NoneMarked(data: seq<byte>, cursor: nat, start: nat)
    requires cursor <= start <= |data| && start == MspFraming.Find(data, cursor)
    ensures forall p | cursor <= p < start :: data[p] != 36
    decreases start - cursor
  {
    if cursor < start {
      NoneMarked(data, cursor + 1, start);
    }
  }

  lemma CutAtEnd(data: seq<byte>, start: nat)
    requires start < |data| && MarkerAt(data, start)
    requires |data| - start < 3
             || (MspFraming.Refusal(data, start).None? && MspFraming.StopOf(data, start) > |data|)
    ensures CutReply(data[start..])
  {
    var s := data[start..];
    if s != [36, 88] {
      var size: byte := if |s| >= 4 then s[3] else 0;
      var shape: seq<byte> := [36, 77, 62, size, 0];
      var reply := if |s| < 5 then shape + Zeros(size + 1) else s + Zeros(size + 6 - |s|);
      assert |reply| == size + 6 && MspFraming.IsReply(reply);
      assert s == reply[..|s|];
    }
  }

  lemma {:induction false} ScanReasons(data: seq<byte>, cursor: nat, idleStart: nat, spans: seq<Span>)
    requires idleStart <= cursor <= |data| && MspReasons(data, spans)
    requires forall p | idleStart <= p < cursor :: !MarkerAt(data, p)
    ensures MspReasons(data, MspFraming.Scan(data, cursor, idleStart, spans).spans)
    decreases |data| - cursor
  {
    hide MspReasons, Skip, CutReply;
    var start := MspFraming.Find(data, cursor);
    NoneMarked(data, cursor, start);
    MspSkip(data, spans, idleStart, start, Unframed);
    if start < |data| {
      if !MspFraming.Marked(data, start) {
        ScanReasons(data, start + 1, idleStart, spans);
      } else {
        var before := Skip(spans, idleStart, start, Unframed);
        if |data| - start < 3
           || (MspFraming.Refusal(data, start).None? && MspFraming.StopOf(data, start) > |data|) {
          CutAtEnd(data, start);
          MspSkip(data, before, start, |data|, AtEnd);
        } else if MspFraming.Refusal(data, start).None? {
          var stop := MspFraming.StopOf(data, start);
          var packet := Whole(start, stop, data[start..stop]);
          MspPacket(data, before, packet);
          ScanReasons(data, stop, stop, before + [packet]);
        }
      }
    }
  }

  lemma MspPacket(data: seq<byte>, spans: seq<Span>, packet: Span)
    requires MspReasons(data, spans) && packet.Whole?
    ensures MspReasons(data, spans + [packet])
  {
    hide MspReason;
  }

  /** Every discarded range of an MSP stream carries the one reason that its bytes give. */
  lemma MspReasonsExactly(data: seq<byte>, k: nat)
    requires k < |MspFraming.ScanOf(data).spans| && MspFraming.ScanOf(data).spans[k].Skipped?
    ensures MspReason(data, MspFraming.ScanOf(data).spans[k])
  {
    ScanReasons(data, 0, 0, []);
  }

  /** A scan stops only at a marked frame, and for what its bytes say. */
  lemma MspRefusedExactly(data: seq<byte>)
    requires MspFraming.ScanOf(data).refusal.Some?
    ensures var scanned := MspFraming.ScanOf(data);
            && scanned.reach + 3 <= |data| && MarkerAt(data, scanned.reach)
            && var s, e := data[scanned.reach..], scanned.refusal.value;
               && (e == UnsupportedReply <==> s[..3] != [36, 77, 62])
               && (e == JumboReply <==> s[..3] == [36, 77, 62] && |s| >= 4 && s[3] == 255)
               && (e == EncapsulatedV2 <==> s[..3] == [36, 77, 62] && |s| >= 5 && s[3] != 255 && s[4] == 255)
  {
    hide MspFraming.ScanOf, Tiles;
    MspFraming.StreamSound(data);
    var s := data[MspFraming.ScanOf(data).reach..];
    assert s[..3] == [s[0], s[1], s[2]];
  }
}
