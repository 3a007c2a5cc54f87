/**
  * The S.Port receive framing: a delimiter, then nine bytes with 0x7D / 0x7E escaped. The first byte after an
  * idle delimiter is literal; after a delimiter that resets an unfinished packet it is unstuffed like the rest.
  */
module SportFraming {
  import opened Common
  import opened Framing

  const DELIMITER: byte := 0x7E
  const ESCAPE: byte := 0x7D
  const PACKET_LEN := 9

  /** Exclusive-or with 0x20. */
  function Toggled(b: byte): byte {
    if b / 32 % 2 == 0 then b + 32 else b - 32
  }

  lemma ToggledTwice(b: byte)
    ensures Toggled(Toggled(b)) == b
  {
  }

  // ---------------------------------------------------------------- the receiver

  datatype Receiver = Receiver(start: Option<nat>, idleStart: nat, packet: seq<byte>, firstLiteral: bool,
                               escaped: bool, spans: seq<Span>)

  const IDLE := Receiver(None, 0, [], false, false, [])

  /** One received byte. */
  function Receive(r: Receiver, offset: nat, b: byte): Receiver {
    if r.start.None? then
      if b == DELIMITER then
        r.(spans := Skip(r.spans, r.idleStart, offset, Unframed), start := Some(offset), firstLiteral := true)
      else r
    else if r.firstLiteral && b != DELIMITER then Completed(r.(packet := r.packet + [b], firstLiteral := false), offset)
    else if r.escaped then Completed(r.(packet := r.packet + [Toggled(b)], escaped := false), offset)
    else if b == DELIMITER then
      r.(spans := Skip(r.spans, r.start.value, offset, BeforeDelimiter), start := Some(offset),
         firstLiteral := false, packet := [])
    else if b == ESCAPE then r.(escaped := true)
    else Completed(r.(packet := r.packet + [b]), offset)
  }

  function Completed(r: Receiver, offset: nat): Receiver
    requires r.start.Some?
  {
    if |r.packet| != PACKET_LEN then r
    else r.(spans := r.spans + [Whole(r.start.value, offset + 1, r.packet)], start := None,
            idleStart := offset + 1, packet := [])
  }

  function Received(data: seq<byte>): Receiver {
    if data == [] then IDLE
    else Receive(Received(data[..|data| - 1]), |data| - 1, data[|data| - 1])
  }

  /** The whole stream: what is left over at its end is discarded. */
  function SpansOf(data: seq<byte>): seq<Span> {
    var r := Received(data);
    match r.start
    case None => Skip(r.spans, r.idleStart, |data|, Unframed)
    case Some(start) => Skip(r.spans, start, |data|, AtEnd)
  }

  lemma ReceivedNext(data: seq<byte>, k: nat)
    requires k < |data|
    ensures Received(data[..k + 1]) == Receive(Received(data[..k]), k, data[k])
  {
    assert data[..k + 1][..k] == data[..k];
  }

  lemma ReceiveGrows(r: Receiver, offset: nat, b: byte)
    ensures r.spans <= Receive(r, offset, b).spans
  {
    hide Toggled;
  }

  lemma SpansEnd(data: seq<byte>)
    ensures Received(data).spans <= SpansOf(data)
  {
    hide Received;
  }

  lemma {:induction false} SpansGrow(data: seq<byte>, k: nat)
    requires k <= |data|
    ensures Received(data[..k]).spans <= SpansOf(data)
    decreases |data| - k
  {
    hide Receive, Received, SpansOf;
    if k == |data| {
      assert data[..k] == data;
      SpansEnd(data);
    } else {
      ReceivedNext(data, k);
      ReceiveGrows(Received(data[..k]), k, data[k]);
      SpansGrow(data, k + 1);
    }
  }

  // ---------------------------------------------------------------- tiling, and what survives a boundary

  ghost predicate Sound(r: Receiver, n: nat) {
    && (r.start.None? ==> Tiles(r.spans, 0, r.idleStart) && r.idleStart <= n)
    && (r.start.Some? ==> Tiles(r.spans, 0, r.start.value) && r.start.value < n)
    && (r.start.None? ==> r.packet == [] && !r.firstLiteral && !r.escaped)
    && (r.start.None? ==> r.spans == [] || r.spans[|r.spans| - 1].Whole?)
    && |r.packet| < PACKET_LEN && !(r.firstLiteral && r.escaped) && (r.firstLiteral ==> r.packet == [])
  }

  lemma ReceiveSound(r: Receiver, offset: nat, b: byte)
    requires Sound(r, offset)
    ensures Sound(Receive(r, offset, b), offset + 1)
  {
    hide Tiles, Toggled;
    if r.start.None? {
      TilesSkip(r.spans, 0, r.idleStart, offset, Unframed);
    } else {
      TilesSkip(r.spans, 0, r.start.value, offset, BeforeDelimiter);
      TilesSnoc(r.spans, 0, Whole(r.start.value, offset + 1, r.packet + [b]));
      TilesSnoc(r.spans, 0, Whole(r.start.value, offset + 1, r.packet + [Toggled(b)]));
    }
  }

  /** Between packets the receiver holds no byte and no flag, and its spans tile what it has framed. */
  lemma {:induction false} ReceivedSound(data: seq<byte>)
    ensures Sound(Received(data), |data|)
  {
    if data != [] {
      ReceivedSound(data[..|data| - 1]);
      ReceiveSound(Received(data[..|data| - 1]), |data| - 1, data[|data| - 1]);
    }
  }

  lemma ReceivedNothing(data: seq<byte>)
    ensures Received(data[..0]) == IDLE
  {
  }

  lemma ReceivedAll(data: seq<byte>, read: seq<byte>)
    requires |read| == |data| && read == data[..|data|]
    ensures var r := Received(read);
            SpansOf(data) == Skip(r.spans, if r.start.None? then r.idleStart else r.start.value, |data|,
                                  if r.start.None? then Unframed else AtEnd)
  {
    assert read == data;
  }

  lemma ReceivedStart(data: seq<byte>)
    ensures Received(data).start.Some? ==> Received(data).start.value < |data|
  {
    ReceivedSound(data);
  }

  /** On every byte string, complete packets and discarded ranges partition the input in order. */
  lemma StreamTiled(data: seq<byte>)
    ensures Tiles(SpansOf(data), 0, |data|)
    ensures Bytes(Wholes(SpansOf(data))) + Bytes(Skips(SpansOf(data))) == |data|
  {
    ReceivedSound(data);
    var r := Received(data);
    TilesSkip(r.spans, 0, if r.start.None? then r.idleStart else r.start.value, |data|,
              if r.start.None? then Unframed else AtEnd);
    TiledBytes(SpansOf(data), 0, |data|);
  }

  // ---------------------------------------------------------------- the converter

  /** The outcome of framing an S.Port stream. */
  function SportFramed(data: seq<byte>, window: Option<Window>): Result<Framed, FramingError>
    requires window.Some? ==> window.value.start < window.value.stop
  {
    if |data| > InputLimit(window) then Err(InputBound)
    else
      SkipsOfStream(data);
      Outcome(SpansOf(data), None, window)
  }

  lemma SkipsOfStream(data: seq<byte>)
    ensures AllSkipped(Skips(SpansOf(data)))
  {
    StreamTiled(data);
    TiledProper(SpansOf(data), 0, |data|);
    SkipsSkipped(SpansOf(data));
  }

  /** The byte loop; the report of its packets is read further in `SportDecoding`. */
  method FrameSport(data: seq<byte>, window: Option<Window>) returns (result: Result<Framed, FramingError>)
    requires window.Some? ==> window.value.start < window.value.stop
    ensures result == SportFramed(data, window)
  {
    hide Wholes, Skips, Received, SpansOf, Reported, Tiles, Broken, AllSkipped, Toggled;
    ReceivedNothing(data);
    SkipsOfStream(data);
    if |data| > InputLimit(window) {
      return Err(InputBound);
    }
    var collector := new Collector(window);
    var start: Option<nat> := None;
    var idleStart := 0;
    var packet: seq<byte> := [];
    var firstLiteral, escaped := false, false;
    var offset := 0;
    while offset < |data|
      invariant 0 <= offset <= |data| && |packet| < PACKET_LEN
      invariant collector.Valid() && collector.window == window && fresh(collector)
      invariant Received(data[..offset]) == Receiver(start, idleStart, packet, firstLiteral, escaped, collector.spans)
    {
      var b := data[offset];
      ghost var before := collector.spans;
      ghost var next := Receive(Receiver(start, idleStart, packet, firstLiteral, escaped, before), offset, b);
      ReceivedNext(data, offset);
      ReceivedStart(data[..offset]);
      SpansGrow(data, offset + 1);
      assert Received(data[..offset + 1]) == next;
      offset := offset + 1;
      if start.None? {
        if b == DELIMITER {
          var ok := collector.Discard(idleStart, offset - 1, Unframed);
          if !ok {
            BrokenStays(Skip(before, idleStart, offset - 1, Unframed), SpansOf(data), window);
            return Err(RangeBound);
          }
          start, firstLiteral := Some(offset - 1), true;
        }
        continue;
      }
      if firstLiteral && b != DELIMITER {
        packet, firstLiteral := packet + [b], false;
      } else if escaped {
        packet, escaped := packet + [Toggled(b)], false;
      } else if b == DELIMITER {
        var ok := collector.Discard(start.value, offset - 1, BeforeDelimiter);
        if !ok {
          BrokenStays(Skip(before, start.value, offset - 1, BeforeDelimiter), SpansOf(data), window);
          return Err(RangeBound);
        }
        start, firstLiteral := Some(offset - 1), false;
        packet := [];
      } else if b == ESCAPE {
        escaped := true;
      } else {
        packet := packet + [b];
      }
      if |packet| != PACKET_LEN {
        continue;
      }
      assert next.spans == before + [Whole(start.value, offset, packet)];
      var ok := collector.Complete(start.value, offset, packet);
      if !ok {
        BrokenStays(before + [Whole(start.value, offset, packet)], SpansOf(data), window);
        return Err(PacketBound);
      }
      start, idleStart := None, offset;
      packet := [];
    }
    ReceivedAll(data, data[..offset]);
    ghost var before := collector.spans;
    var ok := collector.Discard(if start.None? then idleStart else start.value, |data|,
                                if start.None? then Unframed else AtEnd);
    if !ok {
      BrokenStays(Skip(before, if start.None? then idleStart else start.value, |data|,
                   if start.None? then Unframed else AtEnd), SpansOf(data), window);
      return Err(RangeBound);
    }
    collector.KeptWithin();
    var framed := collector.Finish();
    result := Ok(framed);
  }
}
