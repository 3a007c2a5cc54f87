/** What the S.Port receiver decodes: every packet is the unstuffing of its wire bytes, and stuffing round-trips. */
module SportStuffing {
  import opened Common
  import opened Framing
  import opened SportFraming
  import CrcRegisters

  // ---------------------------------------------------------------- byte stuffing

  function Stuff(p: seq<byte>): seq<byte> {
    if p == [] then []
    else (if p[0] == DELIMITER || p[0] == ESCAPE then [ESCAPE, Toggled(p[0])] else [p[0]]) + Stuff(p[1..])
  }

  /** After an idle delimiter the first byte is sent as it is. */
  function StuffLiteral(p: seq<byte>): seq<byte> {
    if p == [] then [] else [p[0]] + Stuff(p[1..])
  }

  function Unstuff(wire: seq<byte>): Option<seq<byte>>
    decreases |wire|
  {
    if wire == [] then Some([])
    else if wire[0] == DELIMITER then None
    else if wire[0] == ESCAPE then
      if |wire| == 1 then None else Prefixed(Toggled(wire[1]), Unstuff(wire[2..]))
    else Prefixed(wire[0], Unstuff(wire[1..]))
  }

  function Prefixed(b: byte, rest: Option<seq<byte>>): Option<seq<byte>> {
    match rest
    case None => None
    case Some(bytes) => Some([b] + bytes)
  }

  /** Unstuffing undoes stuffing. */
  lemma {:induction false} StuffRoundTrip(p: seq<byte>)
    ensures Unstuff(Stuff(p)) == Some(p)
  {
    hide Toggled;
    if p != [] {
      StuffRoundTrip(p[1..]);
      var wire := Stuff(p);
      if p[0] == DELIMITER || p[0] == ESCAPE {
        assert wire[2..] == Stuff(p[1..]);
        ToggledTwice(p[0]);
      } else {
        assert wire[1..] == Stuff(p[1..]);
      }
      assert [p[0]] + p[1..] == p;
    }
  }

  lemma FifthPlace(low: nat, fifth: nat, high: nat)
    requires low < 32 && fifth < 2 && high < 4
    ensures Toggled(low + 32 * (fifth + 2 * high)) == low + 32 * (1 - fifth + 2 * high)
  {
    assert (low + 32 * (fifth + 2 * high)) / 32 == fifth + 2 * high;
  }

  lemma LowBits(b0: bool, b1: bool, b2: bool, b3: bool, b4: bool) returns (low: nat)
    ensures low < 32 && forall b5, b6, b7 ::
              CrcRegisters.Weigh(b0, b1, b2, b3, b4, b5, b6, b7)
              == low + (if b5 then 32 else 0) + (if b6 then 64 else 0) + (if b7 then 128 else 0)
  {
    low := CrcRegisters.Weigh(b0, b1, b2, b3, b4, false, false, false);
  }

  lemma FifthOf(b0: bool, b1: bool, b2: bool, b3: bool, b4: bool, b5: bool, b6: bool, b7: bool)
    ensures CrcRegisters.Weigh(b0, b1, b2, b3, b4, !b5, b6, b7)
         == Toggled(CrcRegisters.Weigh(b0, b1, b2, b3, b4, b5, b6, b7))
  {
    hide Toggled, CrcRegisters.Weigh;
    var low := LowBits(b0, b1, b2, b3, b4);
    FifthPlace(low, if b5 then 1 else 0, (if b6 then 1 else 0) + (if b7 then 2 else 0));
  }

  lemma FlippedBits(x: bv8)
    ensures var y := x ^ 0x20;
            && (y & 1 == x & 1) && (y & 2 == x & 2) && (y & 4 == x & 4) && (y & 8 == x & 8) && (y & 16 == x & 16)
            && (y & 32 == 0 <==> x & 32 != 0) && (y & 64 == x & 64) && (y & 128 == x & 128)
  {
  }

  /** An escaped byte is sent with bit five inverted, as exclusive-or with 0x20 does. */
  lemma ToggledIsXor(b: byte)
    ensures CrcRegisters.BitsOf(Toggled(b)) == CrcRegisters.BitsOf(b) ^ 0x20
  {
    hide CrcRegisters.BitsOf, Toggled, CrcRegisters.Weigh;
    var x := CrcRegisters.BitsOf(b);
    CrcRegisters.ValueOfBits(b);
    CrcRegisters.ValueOfBits(Toggled(b));
    FlippedBits(x);
    FifthOf(x & 1 != 0, x & 2 != 0, x & 4 != 0, x & 8 != 0, x & 16 != 0, x & 32 != 0, x & 64 != 0, x & 128 != 0);
    assert CrcRegisters.ValueOf(x ^ 0x20) == Toggled(b);
    if CrcRegisters.BitsOf(Toggled(b)) != x ^ 0x20 {
      CrcRegisters.ValueInjective(CrcRegisters.BitsOf(Toggled(b)), x ^ 0x20);
    }
  }

  /** The two reserved bytes on the wire: 7E is sent as 7D 5E and 7D as 7D 5D, and only so. */
  lemma ReservedBytes()
    ensures Stuff([0x7E]) == [0x7D, 0x5E] && Stuff([0x7D]) == [0x7D, 0x5D]
    ensures Unstuff([0x7D, 0x5E]) == Some([0x7E]) && Unstuff([0x7D, 0x5D]) == Some([0x7D])
    ensures Unstuff([0x7E]) == None && Unstuff([0x7D]) == None
    ensures forall b: byte :: b != 0x7E && b != 0x7D ==> Stuff([b]) == [b] && Unstuff([b]) == Some([b])
  {
    StuffRoundTrip([0x7E]);
    StuffRoundTrip([0x7D]);
    NothingStuffed();
    assert forall b: byte :: [b][1..] == [] && [b] + [] == [b];
    assert Stuff([0x7E]) == [0x7D, 0x5E] && Stuff([0x7D]) == [0x7D, 0x5D];
    forall b: byte | b != 0x7E && b != 0x7D
      ensures Stuff([b]) == [b] && Unstuff([b]) == Some([b])
    {
      UnstuffOne(b);
    }
  }

  lemma {:induction false} UnstuffAppend(wire: seq<byte>, p: seq<byte>, more: seq<byte>, q: seq<byte>)
    requires Unstuff(wire) == Some(p) && Unstuff(more) == Some(q)
    ensures Unstuff(wire + more) == Some(p + q)
    decreases |wire|
  {
    var whole := wire + more;
    if wire == [] {
      assert whole == more && p + q == q;
    } else {
      var used := if wire[0] == ESCAPE then 2 else 1;
      assert whole[used..] == wire[used..] + more;
      assert whole[0] == wire[0] && (used == 2 ==> whole[1] == wire[1]);
      var rest := Unstuff(wire[used..]).value;
      UnstuffAppend(wire[used..], rest, more, q);
      assert p + q == [p[0]] + (rest + q);
    }
  }

  lemma UnstuffOne(b: byte)
    ensures b != DELIMITER && b != ESCAPE ==> Unstuff([b]) == Some([b])
    ensures Unstuff([ESCAPE, b]) == Some([Toggled(b)])
  {
    assert [b][1..] == [] && [ESCAPE, b][2..] == [];
    assert Unstuff([]) == Some([]) && [b] + [] == [b] && [Toggled(b)] + [] == [Toggled(b)];
    assert Unstuff([ESCAPE, b]) == Prefixed(Toggled(b), Unstuff([ESCAPE, b][2..]));
  }

  // ---------------------------------------------------------------- every packet is its wire bytes, unstuffed

  /** The delimiter that follows these spans came after idle, not after an unfinished packet. */
  predicate AfterIdle(spans: seq<Span>) {
    spans == [] || spans[|spans| - 1].Whole? || spans[|spans| - 1].reason != BeforeDelimiter
  }

  /** `p` is what `body`, the bytes after a delimiter, decode to. */
  predicate Decodes(body: seq<byte>, literal: bool, p: seq<byte>) {
    if literal then body != [] && p != [] && body[0] != DELIMITER && p[0] == body[0]
                    && Unstuff(body[1..]) == Some(p[1..])
    else Unstuff(body) == Some(p)
  }

  /** A packet is nine bytes, and decodes from a delimiter and what follows it up to the packet's end. */
  ghost predicate Faithful(data: seq<byte>, before: seq<Span>, packet: Span) {
    && packet.Whole? && packet.start < packet.stop <= |data| && data[packet.start] == DELIMITER
    && |packet.bytes| == PACKET_LEN
    && Decodes(data[packet.start + 1..packet.stop], AfterIdle(before), packet.bytes)
  }

  ghost predicate AllFaithful(data: seq<byte>, spans: seq<Span>) {
    forall k | 0 <= k < |spans| && spans[k].Whole? :: Faithful(data, spans[..k], spans[k])
  }

  /** The packet in progress decodes from its body so far, but for an escape still waiting for its byte. */
  predicate Waiting(body: seq<byte>, escaped: bool, p: seq<byte>) {
    if escaped then body != [] && body[|body| - 1] == ESCAPE && Unstuff(body[..|body| - 1]) == Some(p)
    else Unstuff(body) == Some(p)
  }

  ghost predicate InProgress(r: Receiver, data: seq<byte>) {
    r.start.Some? ==>
      && r.start.value < |data| && data[r.start.value] == DELIMITER
      && var body := data[r.start.value + 1..];
      && (AfterIdle(r.spans) ==> (r.firstLiteral <==> body == []))
      && (AfterIdle(r.spans) && body != [] ==>
            r.packet != [] && body[0] != DELIMITER && r.packet[0] == body[0]
            && Waiting(body[1..], r.escaped, r.packet[1..]))
      && (!AfterIdle(r.spans) ==> !r.firstLiteral && Waiting(body, r.escaped, r.packet))
  }

  lemma WaitingByte(body: seq<byte>, escaped: bool, p: seq<byte>, b: byte)
    requires Waiting(body, escaped, p)
    ensures escaped ==> Waiting(body + [b], false, p + [Toggled(b)])
    ensures !escaped && b == ESCAPE ==> Waiting(body + [b], true, p)
    ensures !escaped && b != ESCAPE && b != DELIMITER ==> Waiting(body + [b], false, p + [b])
  {
    UnstuffOne(b);
    if escaped {
      UnstuffAppend(body[..|body| - 1], p, [ESCAPE, b], [Toggled(b)]);
      assert body[..|body| - 1] + [ESCAPE, b] == body + [b];
    } else if b == ESCAPE {
      assert (body + [b])[..|body|] == body;
    } else if b != DELIMITER {
      UnstuffAppend(body, p, [b], [b]);
    }
  }

  /** One byte of a packet in progress: it goes on, resets at a delimiter, or completes a faithful packet. */
  lemma ByteKeepsProgress(r: Receiver, data: seq<byte>, b: byte)
    requires Sound(r, |data|) && InProgress(r, data) && r.start.Some?
    ensures InProgress(Receive(r, |data|, b), data + [b])
    ensures var after := Receive(r, |data|, b).spans;
            after == r.spans
            || (after == r.spans + [Skipped(r.start.value, |data|, BeforeDelimiter)])
            || (|after| == |r.spans| + 1 && after[..|r.spans|] == r.spans
                && Faithful(data + [b], r.spans, after[|r.spans|]))
  {
    hide InProgress, Faithful, Completed;
    if r.firstLiteral && b != DELIMITER {
      LiteralByte(r, data, b);
      Completes(r.(packet := r.packet + [b], firstLiteral := false), data + [b], |data|);
    } else if r.escaped {
      EscapedByte(r, data, b);
      Completes(r.(packet := r.packet + [Toggled(b)], escaped := false), data + [b], |data|);
    } else if b == DELIMITER {
      ResetByte(r, data, b);
    } else if b == ESCAPE {
      EscapeByte(r, data, b);
    } else {
      PlainByte(r, data, b);
      Completes(r.(packet := r.packet + [b]), data + [b], |data|);
    }
  }

  /** A full packet is faithful; a shorter one stays in progress. */
  lemma Completes(next: Receiver, longer: seq<byte>, offset: nat)
    requires InProgress(next, longer) && next.start.Some? && offset + 1 == |longer|
    requires |next.packet| > 0 && !next.escaped && !next.firstLiteral
    ensures InProgress(Completed(next, offset), longer)
    ensures var after := Completed(next, offset).spans;
            after == next.spans
            || (|after| == |next.spans| + 1 && after[..|next.spans|] == next.spans
                && Faithful(longer, next.spans, after[|next.spans|]))
  {
    hide Unstuff, Waiting, Decodes;
    var body := longer[next.start.value + 1..];
    assert longer[next.start.value + 1..offset + 1] == body;
    if AfterIdle(next.spans) && body != [] {
      DecodesWhole(body, true, next.packet);
    } else {
      DecodesWhole(body, false, next.packet);
    }
  }

  lemma BodyGrows(data: seq<byte>, b: byte, s: nat)
    requires s < |data|
    ensures (data + [b])[s + 1..] == data[s + 1..] + [b] && (data + [b])[s] == data[s]
  {
  }

  lemma LiteralByte(r: Receiver, data: seq<byte>, b: byte)
    requires Sound(r, |data|) && InProgress(r, data) && r.start.Some? && r.firstLiteral && b != DELIMITER
    ensures InProgress(r.(packet := r.packet + [b], firstLiteral := false), data + [b])
  {
    hide Unstuff, Waiting;
    BodyGrows(data, b, r.start.value);
    FirstByte(data[r.start.value + 1..], b);
    assert r.packet == [];
  }

  lemma EscapedByte(r: Receiver, data: seq<byte>, b: byte)
    requires Sound(r, |data|) && InProgress(r, data) && r.start.Some? && !r.firstLiteral && r.escaped
    ensures InProgress(r.(packet := r.packet + [Toggled(b)], escaped := false), data + [b])
  {
    Grows(r, data, b, [Toggled(b)], false);
  }

  lemma EscapeByte(r: Receiver, data: seq<byte>, b: byte)
    requires Sound(r, |data|) && InProgress(r, data) && r.start.Some? && !r.firstLiteral && !r.escaped && b == ESCAPE
    ensures InProgress(r.(escaped := true), data + [b])
  {
    Grows(r, data, b, [], true);
    assert r.packet + [] == r.packet;
  }

  lemma PlainByte(r: Receiver, data: seq<byte>, b: byte)
    requires Sound(r, |data|) && InProgress(r, data) && r.start.Some? && !r.firstLiteral && !r.escaped
    requires b != ESCAPE && b != DELIMITER
    ensures InProgress(r.(packet := r.packet + [b]), data + [b])
  {
    Grows(r, data, b, [b], false);
  }

  lemma Grows(r: Receiver, data: seq<byte>, b: byte, added: seq<byte>, escaped: bool)
    requires InProgress(r, data) && r.start.Some? && !r.firstLiteral
    requires added == if r.escaped then [Toggled(b)] else if b == ESCAPE then [] else [b]
    requires escaped == (!r.escaped && b == ESCAPE) && (r.escaped || b != DELIMITER)
    ensures InProgress(r.(packet := r.packet + added, escaped := escaped), data + [b])
  {
    hide Unstuff, Waiting;
    var body := data[r.start.value + 1..];
    BodyGrows(data, b, r.start.value);
    if AfterIdle(r.spans) {
      WaitingByte(body[1..], r.escaped, r.packet[1..], b);
      assert (body + [b])[1..] == body[1..] + [b];
      assert (r.packet + added)[1..] == r.packet[1..] + added;
      assert r.packet[1..] + [] == r.packet[1..];
    } else {
      WaitingByte(body, r.escaped, r.packet, b);
      assert r.packet + [] == r.packet;
    }
  }

  lemma ResetByte(r: Receiver, data: seq<byte>, b: byte)
    requires Sound(r, |data|) && r.start.Some? && !r.escaped && b == DELIMITER
    ensures Receive(r, |data|, b).spans == r.spans + [Skipped(r.start.value, |data|, BeforeDelimiter)]
    ensures InProgress(Receive(r, |data|, b), data + [b])
  {
    assert (data + [b])[|data| + 1..] == [] && (data + [b])[|data|] == b;
    NothingYet();
  }

  lemma FirstByte(body: seq<byte>, b: byte)
    requires body == []
    ensures Waiting((body + [b])[1..], false, ([] + [b])[1..])
  {
    assert (body + [b])[1..] == [] && ([] + [b])[1..] == [];
  }

  lemma NothingYet()
    ensures Waiting([], false, [])
  {
  }

  lemma DecodesWhole(body: seq<byte>, literal: bool, p: seq<byte>)
    ensures literal && body != [] && p != [] && body[0] != DELIMITER && p[0] == body[0]
            && Waiting(body[1..], false, p[1..])
            ==> Decodes(body, true, p)
    ensures Waiting(body, false, p) ==> Decodes(body, false, p)
  {
  }

  /** On every byte string, every complete packet is the unstuffing of its own wire bytes. */
  lemma {:induction false} PacketsFaithful(data: seq<byte>)
    ensures InProgress(Received(data), data) && AllFaithful(data, Received(data).spans)
  {
    hide InProgress, Faithful, Sound;
    if data == [] {
      IdleInProgress();
    } else {
      var before, b := data[..|data| - 1], data[|data| - 1];
      var r := Received(before);
      assert before + [b] == data;
      PacketsFaithful(before);
      ReceivedSound(before);
      StaysFaithful(before, b, r.spans);
      if r.start.None? {
        IdleByte(r, before, b);
      } else {
        ByteKeepsProgress(r, before, b);
      }
      FaithfulSnoc(data, r.spans, Received(data).spans);
    }
  }

  lemma IdleInProgress()
    ensures InProgress(IDLE, [])
  {
  }

  lemma IdleByte(r: Receiver, data: seq<byte>, b: byte)
    requires Sound(r, |data|) && r.start.None?
    ensures InProgress(Receive(r, |data|, b), data + [b])
    ensures var after := Receive(r, |data|, b).spans;
            after == r.spans || (r.idleStart < |data| && after == r.spans + [Skipped(r.idleStart, |data|, Unframed)])
  {
    assert (data + [b])[|data| + 1..] == [] && (data + [b])[|data|] == b;
    NothingYet();
  }

  lemma StaysFaithful(data: seq<byte>, b: byte, spans: seq<Span>)
    requires AllFaithful(data, spans)
    ensures AllFaithful(data + [b], spans)
  {
    forall k | 0 <= k < |spans| && spans[k].Whole?
      ensures Faithful(data + [b], spans[..k], spans[k])
    {
      assert Faithful(data, spans[..k], spans[k]);
      assert (data + [b])[spans[k].start + 1..spans[k].stop] == data[spans[k].start + 1..spans[k].stop];
    }
  }

  lemma FaithfulSnoc(data: seq<byte>, spans: seq<Span>, after: seq<Span>)
    requires AllFaithful(data, spans)
    requires after == spans
             || (|after| == |spans| + 1 && after[..|spans|] == spans
                 && (after[|spans|].Skipped? || Faithful(data, spans, after[|spans|])))
    ensures AllFaithful(data, after)
  {
    forall k | 0 <= k < |after| && after[k].Whole?
      ensures Faithful(data, after[..k], after[k])
    {
      if k < |spans| {
        assert after[..k] == spans[..k] && after[k] == spans[k];
      }
    }
  }

  /** Every complete packet of a stream is the unstuffing of its wire bytes. */
  lemma StreamFaithful(data: seq<byte>)
    ensures AllFaithful(data, SpansOf(data))
  {
    hide Faithful;
    PacketsFaithful(data);
    FaithfulSnoc(data, Received(data).spans, SpansOf(data));
  }

  // ---------------------------------------------------------------- stuffed streams decode to their packets

  /** Receiving further bytes from a given state. */
  function Feed(r: Receiver, offset: nat, bytes: seq<byte>): Receiver
    decreases |bytes|
  {
    if bytes == [] then r else Feed(Receive(r, offset, bytes[0]), offset + 1, bytes[1..])
  }

  lemma {:induction false} FeedAppend(r: Receiver, offset: nat, a: seq<byte>, b: seq<byte>)
    ensures Feed(r, offset, a + b) == Feed(Feed(r, offset, a), offset + |a|, b)
    decreases |a|
  {
    hide Receive;
    if a == [] {
      assert a + b == b;
    } else {
      assert (a + b)[1..] == a[1..] + b;
      FeedAppend(Receive(r, offset, a[0]), offset + 1, a[1..], b);
    }
  }

  lemma {:induction false} ReceivedIsFeed(data: seq<byte>)
    ensures Received(data) == Feed(IDLE, 0, data)
  {
    hide Receive;
    if data != [] {
      var before, b := data[..|data| - 1], data[|data| - 1];
      ReceivedIsFeed(before);
      FeedAppend(IDLE, 0, before, [b]);
      assert before + [b] == data && [b][1..] == [];
      var r := Feed(IDLE, 0, before);
      assert Feed(r, |before|, [b]) == Feed(Receive(r, |before|, b), |before| + 1, [b][1..]);
    }
  }

  predicate Idle(r: Receiver) {
    r.start.None? && r.packet == [] && !r.firstLiteral && !r.escaped
  }

  /** After a delimiter that reset a packet, or after a literal first byte. */
  predicate Unstuffing(r: Receiver, packet: seq<byte>) {
    r.start.Some? && r.packet == packet && !r.firstLiteral && !r.escaped
  }

  predicate DelimiterFree(noise: seq<byte>) {
    forall i | 0 <= i < |noise| :: noise[i] != DELIMITER
  }

  lemma {:induction false} FeedNoise(r: Receiver, offset: nat, noise: seq<byte>)
    requires Idle(r) && DelimiterFree(noise)
    ensures Feed(r, offset, noise) == r
    decreases |noise|
  {
    if noise != [] {
      FeedNoise(r, offset + 1, noise[1..]);
    }
  }

  /** Stuffed bytes extend the packet, and complete it as soon as it has nine. */
  lemma {:induction false} FeedStuffed(r: Receiver, offset: nat, p: seq<byte>)
    requires Unstuffing(r, r.packet) && |r.packet| + |p| <= PACKET_LEN && |r.packet| < PACKET_LEN
    ensures |r.packet| + |p| < PACKET_LEN ==> Feed(r, offset, Stuff(p)) == r.(packet := r.packet + p)
    ensures |r.packet| + |p| == PACKET_LEN
            ==> var stop := offset + |Stuff(p)|;
                Feed(r, offset, Stuff(p))
                == r.(spans := r.spans + [Whole(r.start.value, stop, r.packet + p)], start := None,
                      idleStart := stop, packet := [])
    decreases |p|
  {
    hide Stuff;
    if p == [] {
      assert Stuff(p) == [] by {
        NothingStuffed();
      }
      assert r.packet + p == r.packet;
    } else {
      var used := if p[0] == DELIMITER || p[0] == ESCAPE then 2 else 1;
      var next := Completed(r.(packet := r.packet + [p[0]]), offset + used - 1);
      FeedHead(r, offset, p, used, next);
      assert r.packet + [p[0]] + p[1..] == r.packet + p;
      if |r.packet| + 1 < PACKET_LEN {
        FeedStuffed(next, offset + used, p[1..]);
      } else {
        NothingStuffed();
        assert p == [p[0]];
        assert p[1..] == [] && Feed(next, offset + used, []) == next;
      }
    }
  }

  lemma NothingStuffed()
    ensures Stuff([]) == []
  {
  }

  lemma FeedHead(r: Receiver, offset: nat, p: seq<byte>, used: nat, next: Receiver)
    requires Unstuffing(r, r.packet) && |r.packet| < PACKET_LEN && p != []
    requires used == if p[0] == DELIMITER || p[0] == ESCAPE then 2 else 1
    requires next == Completed(r.(packet := r.packet + [p[0]]), offset + used - 1)
    ensures Feed(r, offset, Stuff(p)) == Feed(next, offset + used, Stuff(p[1..]))
    ensures |Stuff(p)| == used + |Stuff(p[1..])|
  {
    hide Feed, Completed;
    assert Stuff(p)[used..] == Stuff(p[1..]);
    FeedByte(r, offset, p[0], Stuff(p), used, next);
  }

  lemma FeedByte(r: Receiver, offset: nat, b: byte, wire: seq<byte>, used: nat, next: Receiver)
    requires Unstuffing(r, r.packet) && |r.packet| < PACKET_LEN
    requires used == (if b == DELIMITER || b == ESCAPE then 2 else 1) && |wire| >= used
    requires used == 2 ==> wire[0] == ESCAPE && wire[1] == Toggled(b)
    requires used == 1 ==> wire[0] == b
    requires next == Completed(r.(packet := r.packet + [b]), offset + used - 1)
    ensures Feed(r, offset, wire) == Feed(next, offset + used, wire[used..])
  {
    if used == 2 {
      ToggledTwice(b);
      assert wire[1..][1..] == wire[2..] && wire[1..][0] == wire[1];
      var mid := Receive(r, offset, wire[0]);
      assert Feed(r, offset, wire) == Feed(mid, offset + 1, wire[1..]);
      assert Receive(mid, offset + 1, wire[1]) == next;
    }
  }

  /** The literal first byte, then stuffed ones. */
  lemma FeedLiteral(r: Receiver, offset: nat, p: seq<byte>)
    requires r.start.Some? && r.packet == [] && r.firstLiteral && !r.escaped
    requires |p| <= PACKET_LEN && (p != [] ==> p[0] != DELIMITER)
    ensures p == [] ==> Feed(r, offset, StuffLiteral(p)) == r
    ensures 0 < |p| < PACKET_LEN ==> Unstuffing(Feed(r, offset, StuffLiteral(p)), p)
                                     && Feed(r, offset, StuffLiteral(p)).spans == r.spans
    ensures |p| == PACKET_LEN ==> var after := Feed(r, offset, StuffLiteral(p));
                                  Idle(after) && |after.spans| == |r.spans| + 1
                                  && after.spans[..|r.spans|] == r.spans && after.spans[|r.spans|].Whole?
                                  && after.spans[|r.spans|].bytes == p
  {
    if p != [] {
      var wire := StuffLiteral(p);
      assert wire[1..] == Stuff(p[1..]);
      var next := Receive(r, offset, p[0]);
      assert next == r.(packet := [p[0]], firstLiteral := false);
      assert Feed(r, offset, wire) == Feed(next, offset + 1, wire[1..]);
      FeedStuffed(next, offset + 1, p[1..]);
      assert [p[0]] + p[1..] == p;
    }
  }

  /** What precedes a packet: noise, then attempts that another delimiter cuts off. */
  datatype Item = Item(noise: seq<byte>, aborted: seq<seq<byte>>, packet: seq<byte>) {
    predicate Valid() {
      && DelimiterFree(noise) && |packet| == PACKET_LEN
      && (forall i | 0 <= i < |aborted| :: |aborted[i]| < PACKET_LEN)
      // Only a byte that follows an idle delimiter is literal, so only there a delimiter cannot be sent.
      && (var first := if aborted == [] then packet else aborted[0]; first != [] ==> first[0] != DELIMITER)
    }

    function Wire(): seq<byte> {
      noise + (if aborted == [] then [DELIMITER] + StuffLiteral(packet)
               else [DELIMITER] + StuffLiteral(aborted[0]) + Restarts(aborted[1..]) + [DELIMITER] + Stuff(packet))
    }
  }

  /** Attempts after a reset are stuffed from their first byte. */
  function Restarts(aborted: seq<seq<byte>>): seq<byte> {
    if aborted == [] then [] else [DELIMITER] + Stuff(aborted[0]) + Restarts(aborted[1..])
  }

  function Stream(items: seq<Item>): seq<byte> {
    if items == [] then [] else Stream(items[..|items| - 1]) + items[|items| - 1].Wire()
  }

  function Packets(items: seq<Item>): seq<seq<byte>> {
    seq(|items|, i requires 0 <= i < |items| => items[i].packet)
  }

  /** A delimiter in the middle of a packet discards it and starts over. */
  lemma FeedReset(r: Receiver, offset: nat)
    requires r.start.Some? && !r.escaped
    ensures Unstuffing(Feed(r, offset, [DELIMITER]), [])
    ensures Wholes(Feed(r, offset, [DELIMITER]).spans) == Wholes(r.spans)
  {
    var after := Receive(r, offset, DELIMITER);
    assert [DELIMITER][1..] == [];
    assert Feed(r, offset, [DELIMITER]) == Feed(after, offset + 1, [DELIMITER][1..]);
    SpansSnoc(r.spans, Skipped(r.start.value, offset, BeforeDelimiter));
  }

  lemma {:induction false} FeedRestarts(r: Receiver, offset: nat, aborted: seq<seq<byte>>)
    requires r.start.Some? && !r.escaped
    requires forall i | 0 <= i < |aborted| :: |aborted[i]| < PACKET_LEN
    ensures var after := Feed(r, offset, Restarts(aborted));
            after.start.Some? && !after.escaped && Wholes(after.spans) == Wholes(r.spans)
    decreases |aborted|
  {
    hide Receive, Stuff, Wholes;
    if aborted != [] {
      var head, body, tail := [DELIMITER], Stuff(aborted[0]), Restarts(aborted[1..]);
      FeedReset(r, offset);
      var r1 := Feed(r, offset, head);
      FeedStuffed(r1, offset + 1, aborted[0]);
      var r2 := Feed(r1, offset + 1, body);
      FeedAppend(r, offset, head, body);
      FeedAppend(r, offset, head + body, tail);
      FeedRestarts(r2, offset + |head + body|, aborted[1..]);
    }
  }

  /** One item from idle: its packet, and nothing else, is completed, and the receiver is idle again. */
  lemma FeedItem(r: Receiver, offset: nat, item: Item)
    requires Idle(r) && item.Valid()
    ensures var after := Feed(r, offset, item.Wire());
            Idle(after) && PacketBytes(after.spans) == PacketBytes(r.spans) + [item.packet]
  {
    hide Stuff, StuffLiteral, Feed, Receive, Wholes, PacketBytes;
    var noise, head := item.noise, [DELIMITER];
    FeedNoise(r, offset, noise);
    FeedAppend(r, offset, noise, head);
    FeedStart(r, offset + |noise|);
    var at := offset + |noise| + 1;
    var r1 := Feed(r, offset, noise + head);
    if item.aborted == [] {
      var body := StuffLiteral(item.packet);
      FeedAppend(r, offset, noise + head, body);
      assert item.Wire() == noise + head + body;
      FeedLiteral(r1, at, item.packet);
      OneMorePacket(r1.spans, Feed(r1, at, body).spans, item.packet);
    } else {
      var first, restarts, last := StuffLiteral(item.aborted[0]), Restarts(item.aborted[1..]), Stuff(item.packet);
      FeedLiteral(r1, at, item.aborted[0]);
      var r2 := Feed(r1, at, first);
      FeedRestarts(r2, at + |first|, item.aborted[1..]);
      var r3 := Feed(r2, at + |first|, restarts);
      FeedReset(r3, at + |first| + |restarts|);
      var r4 := Feed(r3, at + |first| + |restarts|, head);
      FeedStuffed(r4, at + |first| + |restarts| + 1, item.packet);
      FeedAppend(r, offset, noise + head, first);
      FeedAppend(r, offset, noise + head + first, restarts);
      FeedAppend(r, offset, noise + head + first + restarts, head);
      FeedAppend(r, offset, noise + head + first + restarts + head, last);
      assert item.Wire() == noise + head + first + restarts + head + last;
      SamePackets(r1.spans, r4.spans);
      assert [] + item.packet == item.packet;
      OneMorePacket(r4.spans, Feed(r, offset, item.Wire()).spans, item.packet);
    }
  }

  lemma FeedStart(r: Receiver, offset: nat)
    requires Idle(r)
    ensures var after := Feed(r, offset, [DELIMITER]);
            after.start.Some? && after.packet == [] && after.firstLiteral && !after.escaped
            && PacketBytes(after.spans) == PacketBytes(r.spans)
  {
    var after := Receive(r, offset, DELIMITER);
    assert [DELIMITER][1..] == [];
    assert Feed(r, offset, [DELIMITER]) == Feed(after, offset + 1, [DELIMITER][1..]);
    SpansSnoc(r.spans, Skipped(r.idleStart, offset, Unframed));
  }

  lemma SamePackets(spans: seq<Span>, after: seq<Span>)
    requires Wholes(spans) == Wholes(after)
    ensures PacketBytes(spans) == PacketBytes(after)
  {
  }

  lemma OneMorePacket(spans: seq<Span>, after: seq<Span>, p: seq<byte>)
    requires |after| == |spans| + 1 && after[..|spans|] == spans
    requires after[|spans|].Whole? && after[|spans|].bytes == p
    ensures PacketBytes(after) == PacketBytes(spans) + [p]
  {
    assert spans + [after[|spans|]] == after;
    SpansSnoc(spans, after[|spans|]);
  }

  lemma {:induction false} FeedItems(items: seq<Item>)
    requires forall i | 0 <= i < |items| :: items[i].Valid()
    ensures var after := Feed(IDLE, 0, Stream(items));
            Idle(after) && PacketBytes(after.spans) == Packets(items)
  {
    hide Feed, Item.Wire, PacketBytes;
    if items == [] {
      NothingFed();
    } else {
      var before, item := items[..|items| - 1], items[|items| - 1];
      FeedItems(before);
      FeedAppend(IDLE, 0, Stream(before), item.Wire());
      FeedItem(Feed(IDLE, 0, Stream(before)), |Stream(before)|, item);
      assert Packets(items) == Packets(before) + [item.packet];
    }
  }

  lemma NothingFed()
    ensures Feed(IDLE, 0, []) == IDLE && PacketBytes(IDLE.spans) == []
  {
  }

  /**
    * Stuffing round-trips: any list of nine-byte packets, with delimiter-free noise between them and any
    * unfinished attempts that a further delimiter cuts off, decodes to exactly those packets in order.
    */
  lemma StreamRoundTrip(items: seq<Item>, trailing: seq<byte>)
    requires forall i | 0 <= i < |items| :: items[i].Valid()
    requires DelimiterFree(trailing)
    ensures PacketBytes(SpansOf(Stream(items) + trailing)) == Packets(items)
  {
    hide Feed, PacketBytes, Stream, Packets, SpansOf, Item.Valid, DelimiterFree;
    var data := Stream(items) + trailing;
    FeedItems(items);
    var r := Feed(IDLE, 0, Stream(items));
    FeedAppend(IDLE, 0, Stream(items), trailing);
    FeedNoise(r, |Stream(items)|, trailing);
    ReceivedIsFeed(data);
    EndsIdle(data);
  }

  /** A stream that ends idle has exactly the packets completed so far. */
  lemma EndsIdle(data: seq<byte>)
    requires Idle(Received(data))
    ensures PacketBytes(SpansOf(data)) == PacketBytes(Received(data).spans)
  {
    var r := Received(data);
    SpansSnoc(r.spans, Skipped(r.idleStart, |data|, Unframed));
    SamePackets(r.spans, SpansOf(data));
  }
}
