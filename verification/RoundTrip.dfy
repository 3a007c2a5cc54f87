/**
  * The encoder's side of reassembly. A vehicle cuts a ULog into chunks and sends each one once or more in a
  * row; a recorder interleaves the resulting frames with anything else it hears. Whatever the cut, the
  * repeats, the starting number, the truncation of trailing zeros and the interleaving, the pass gives back
  * exactly the original bytes.
  */
module RoundTrip {
  import opened Common
  import opened Tlog
  import opened Assembler
  import opened Reassembly
  import opened Reconstruction
  import Ulog

  /** A LOGGING_DATA or LOGGING_DATA_ACKED message before truncation; `tail` is what follows the data. */
  datatype Logging = Logging(msgid: nat, sequence: nat, targetSystem: byte, targetComponent: byte,
                             firstMessageOffset: byte, data: seq<byte>, tail: seq<byte>) {
    predicate Valid() {
      && IsLogging(msgid) && sequence < SEQUENCE_MODULO
      && |data| + |tail| == LOGGING_DATA_LEN
      && (firstMessageOffset == NO_MESSAGE_START || firstMessageOffset <= |data|)
    }

    function Payload(): (p: seq<byte>)
      requires Valid()
      ensures |p| == LOGGING_PAYLOAD_LEN
    {
      [sequence % 256, sequence / 256, targetSystem, targetComponent, |data|, firstMessageOffset] + data + tail
    }
  }

  datatype Envelope = Envelope(stamp: seq<byte>, compat: byte, mavlinkSequence: byte, signature: seq<byte>) {
    predicate Valid() {
      |stamp| == 8 && (|signature| == 0 || |signature| == 13)
    }
  }

  /** What a recorder may capture: a frame of another message, or one logging message from some sender. */
  datatype Item =
    | Noise(frame: Frame)
    | Sent(message: Logging, sender: Sender, envelope: Envelope, kept: nat)
  {
    predicate Valid() {
      match this
      case Noise(frame) => frame.Valid() && !IsLogging(frame.msgid)
      case Sent(m, _, e, kept) =>
        // The sender may drop any of the payload's trailing zeros, and nothing else.
        m.Valid() && e.Valid() && kept <= LOGGING_PAYLOAD_LEN
        && m.Payload()[kept..] == Zeros(LOGGING_PAYLOAD_LEN - kept)
    }

    function Unsealed(): (f: Frame)
      requires Valid() && Sent?
      ensures f.Valid() && f.Frame2?
    {
      Frame2(envelope.stamp, envelope.compat, envelope.mavlinkSequence, sender.sysid, sender.compid,
             message.msgid, message.Payload()[..kept], 0, envelope.signature)
    }

    function Framed(): (f: Frame)
      requires Valid()
      ensures f.Valid()
    {
      if Noise? then frame
      else
        var f := Unsealed();
        f.(crc := FrameCrc(message.msgid, f.CrcInput()))
    }
  }

  /** A fragment carries a message. */
  predicate Carries(f: Fragment, m: Logging) {
    f.sequence == m.sequence < SEQUENCE_MODULO && f.data == m.data && f.length == |m.data|
    && f.firstMessageOffset == m.firstMessageOffset && f.msgid == m.msgid
  }

  lemma PaddingRestores(payload: seq<byte>, kept: nat)
    requires |payload| == LOGGING_PAYLOAD_LEN && kept <= LOGGING_PAYLOAD_LEN
    requires payload[kept..] == Zeros(LOGGING_PAYLOAD_LEN - kept)
    ensures Padded(payload[..kept]) == payload
  {
    assert payload == payload[..kept] + payload[kept..];
  }

  /** What is read of a sent message: every field of the message, its sender and its envelope, nothing else. */
  function FragmentFrom(item: Item, offset: nat): (f: Fragment)
    requires item.Valid() && item.Sent?
    ensures Carries(f, item.message)
  {
    var m, e := item.message, item.envelope;
    Fragment(offset, BigEndian(e.stamp), m.msgid, 2, e.mavlinkSequence, e.signature != [], item.sender,
             m.targetSystem, m.targetComponent, m.sequence, |m.data|, m.firstMessageOffset, m.data)
  }

  /** A sent message is read back, whatever was truncated and wherever its frame lies. */
  lemma SentIsRead(item: Item, offset: nat)
    requires item.Valid() && item.Sent?
    ensures Logs(item.Framed()) && SenderOf(item.Framed()) == item.sender
    ensures Reading(item.Framed(), offset) == Ok(FragmentFrom(item, offset))
  {
    hide FrameCrc, Padded;
    var m, f := item.message, item.Framed();
    var record := f.AsRecord(offset);
    assert f.CrcInput() == item.Unsealed().CrcInput();
    PaddingRestores(m.Payload(), item.kept);
    PayloadFields(item, record);
  }

  lemma PayloadFields(item: Item, record: Record)
    requires item.Valid() && item.Sent? && record == item.Framed().AsRecord(record.tlogOffset)
    ensures FieldsOf(record, item.message.Payload()) == Ok(FragmentFrom(item, record.tlogOffset))
  {
    hide FrameCrc;
    var m := item.message;
    var p := m.Payload();
    assert p[0] == m.sequence % 256 && p[1] == m.sequence / 256 && p[2] == m.targetSystem;
    assert p[3] == m.targetComponent && p[4] == |m.data| && p[5] == m.firstMessageOffset;
    assert p[6..6 + |m.data|] == m.data;
  }

  /** Conversely, every logging frame that can be read is a sent message's frame. */
  lemma ReadWasSent(f: Frame) returns (item: Item)
    requires f.Valid() && Logs(f) && Reading(f, 0).Ok?
    ensures item.Valid() && item.Sent? && item.Framed() == f
  {
    hide FrameCrc, Padded;
    var padded, read := Padded(f.payload), Reading(f, 0).value;
    var m := Logging(f.msgid, read.sequence, padded[2], padded[3], padded[5], read.data, padded[6 + read.length..]);
    assert m.Payload() == padded;
    item := Sent(m, SenderOf(f), Envelope(f.stamp, f.compat, f.sequence, f.signature), |f.payload|);
    PaddedParts(f.payload);
    assert item.Unsealed().CrcInput() == f.CrcInput();
  }

  lemma PaddedParts(payload: seq<byte>)
    requires |payload| <= LOGGING_PAYLOAD_LEN
    ensures Padded(payload)[..|payload|] == payload
    ensures Padded(payload)[|payload|..] == Zeros(LOGGING_PAYLOAD_LEN - |payload|)
  {
  }

  ghost predicate AllItems(items: seq<Item>) {
    forall i | 0 <= i < |items| :: items[i].Valid()
  }

  function Frames(items: seq<Item>): (frames: seq<Frame>)
    requires AllItems(items)
    ensures AllValid(frames) && |frames| == |items|
  {
    seq(|items|, i requires 0 <= i < |items| => items[i].Framed())
  }

  /** The messages of one sender, in recording order. */
  function Mine(items: seq<Item>, sender: Sender): seq<Logging> {
    if items == [] then []
    else
      var last := items[|items| - 1];
      Mine(items[..|items| - 1], sender) + (if last.Sent? && last.sender == sender then [last.message] else [])
  }

  /** The messages send each chunk once or more in a row, numbered from `first` modulo 65536. */
  ghost predicate Transmits(messages: seq<Logging>, chunks: seq<seq<byte>>, first: nat) {
    if messages == [] then chunks == []
    else
      var before, last := messages[..|messages| - 1], messages[|messages| - 1];
      && chunks != []
      && last.data == chunks[|chunks| - 1]
      && last.sequence == (first + |chunks| - 1) % SEQUENCE_MODULO
      && (Transmits(before, chunks, first) || Transmits(before, chunks[..|chunks| - 1], first))
  }

  ghost predicate AllCarry(frs: seq<Fragment>, messages: seq<Logging>) {
    |frs| == |messages| && forall i | 0 <= i < |frs| :: Carries(frs[i], messages[i])
  }

  /** What one captured item adds to a sender's fragments. */
  lemma ItemAdds(item: Item, sender: Sender, offset: nat)
    requires item.Valid()
    ensures Logs(item.Framed()) ==> Reading(item.Framed(), 0).Ok?
    ensures var added := Added(item.Framed(), sender, offset);
            if item.Sent? && item.sender == sender then |added| == 1 && Carries(added[0], item.message) else added == []
  {
    hide FragmentOf, FrameCrc, Carries, Reading;
    if item.Sent? {
      SentIsRead(item, offset);
      SentIsRead(item, 0);
    }
  }

  lemma CarrySnoc(frs: seq<Fragment>, messages: seq<Logging>, f: Fragment, m: Logging)
    requires AllCarry(frs, messages) && Carries(f, m)
    ensures AllCarry(frs + [f], messages + [m])
  {
    hide Carries;
  }

  lemma ItemsSnoc(items: seq<Item>, sender: Sender)
    requires AllItems(items) && items != []
    ensures var before, last := items[..|items| - 1], items[|items| - 1];
            && AllItems(before) && last.Valid()
            && Frames(items) == Frames(before) + [last.Framed()] && AllValid(Frames(before) + [last.Framed()])
            && Mine(items, sender)
               == if last.Sent? && last.sender == sender then Mine(before, sender) + [last.message]
                  else Mine(before, sender)
  {
    hide Item.Framed, Item.Valid, Frame.Valid;
  }

  lemma NothingMine(sender: Sender)
    ensures AllRead(Frames([])) && AllCarry(Fragments(Frames([]), sender), Mine([], sender))
  {
  }

  lemma {:induction false} MineIsRead(items: seq<Item>, sender: Sender)
    requires AllItems(items)
    ensures AllRead(Frames(items))
    ensures AllCarry(Fragments(Frames(items), sender), Mine(items, sender))
  {
    hide *;
    if items == [] {
      NothingMine(sender);
    } else {
      ItemsSnoc(items, sender);
      var before, last := items[..|items| - 1], items[|items| - 1];
      var frames, frame := Frames(before), last.Framed();
      MineIsRead(before, sender);
      assert Frames(items)[..|Frames(items)| - 1] == frames;
      AllReadSnoc(frames, frame);
      FragmentsSnoc(Frames(items), sender);
      ItemAdds(last, sender, |EncodeAll(frames)|);
      var added := Added(frame, sender, |EncodeAll(frames)|);
      if last.Sent? && last.sender == sender {
        assert added == [added[0]];
        CarrySnoc(Fragments(frames, sender), Mine(before, sender), added[0], last.message);
      } else {
        assert Fragments(frames, sender) + [] == Fragments(frames, sender);
      }
    }
  }

  /** Fragments that carry a transmission follow one another and join to the transmitted chunks. */
  lemma {:induction false} TransmissionJoins(frs: seq<Fragment>, messages: seq<Logging>, chunks: seq<seq<byte>>,
                                             first: nat)
    requires AllCarry(frs, messages) && Transmits(messages, chunks, first)
    requires messages != [] ==> messages[0].firstMessageOffset == 0
    ensures InSequence(frs) && Joined(frs) == Flatten(chunks)
  {
    hide Joined, InSequence;
    if messages == [] {
      assert frs == [] && chunks == [];
      JoinsNone();
    } else {
      var before, last := messages[..|messages| - 1], messages[|messages| - 1];
      var frs0, f := frs[..|frs| - 1], frs[|frs| - 1];
      assert frs0 + [f] == frs && Carries(f, last);
      assert AllCarry(frs0, before) by {
        assert forall i | 0 <= i < |frs0| :: frs0[i] == frs[i] && before[i] == messages[i];
      }
      if before == [] {
        TransmitsOne(messages, chunks, first);
        JoinsOne(frs, f);
      } else if Transmits(before, chunks, first) {
        TransmissionJoins(frs0, before, chunks, first);
        var p := before[|before| - 1];
        assert p.data == chunks[|chunks| - 1] && p.sequence == (first + |chunks| - 1) % SEQUENCE_MODULO;
        assert Carries(frs0[|frs0| - 1], p);
        JoinsMore(frs0, f);
      } else {
        var fewer := chunks[..|chunks| - 1];
        TransmissionJoins(frs0, before, fewer, first);
        var p := before[|before| - 1];
        assert Carries(frs0[|frs0| - 1], p);
        NextNumber(first, |fewer|, p.sequence, last.sequence);
        JoinsMore(frs0, f);
      }
    }
  }

  lemma JoinsNone()
    ensures InSequence([]) && Joined([]) == Flatten([])
  {
  }

  lemma JoinsOne(frs: seq<Fragment>, f: Fragment)
    requires frs == [f] && f.firstMessageOffset == 0 && f.sequence < SEQUENCE_MODULO
    ensures InSequence(frs) && Joined(frs) == Flatten([f.data])
  {
    assert [] + [f] == frs;
    JoinedSnoc([], f);
    assert Flatten([f.data]) == Flatten([]) + f.data;
    assert Joined([]) == [];
  }

  lemma JoinsMore(frs0: seq<Fragment>, f: Fragment)
    requires InSequence(frs0) && frs0 != [] && f.sequence < SEQUENCE_MODULO
    requires Follows(frs0[|frs0| - 1], f)
    ensures InSequence(frs0 + [f])
    ensures Joined(frs0 + [f])
            == if f.sequence == frs0[|frs0| - 1].sequence then Joined(frs0) else Joined(frs0) + f.data
  {
    hide Joined, NewOnes, InSequence, Follows;
    InSequenceSnoc(frs0, f);
    JoinedSnoc(frs0, f);
    assert (frs0 + [f])[|frs0| - 1] == frs0[|frs0| - 1];
  }

  lemma TransmitsOne(messages: seq<Logging>, chunks: seq<seq<byte>>, first: nat)
    requires |messages| == 1 && Transmits(messages, chunks, first)
    ensures chunks == [messages[0].data]
  {
    assert messages[..0] == [];
  }

  lemma NextNumber(first: nat, k: nat, p: nat, q: nat)
    requires k > 0 && p == (first + k - 1) % SEQUENCE_MODULO && q == (first + k) % SEQUENCE_MODULO
    ensures q == (p + 1) % SEQUENCE_MODULO && q != p
  {
  }

  lemma {:induction false} OnlySender(items: seq<Item>, sender: Sender)
    requires AllItems(items)
    requires forall i | 0 <= i < |items| :: items[i].Sent? ==> items[i].sender == sender
    ensures FirstSender(Frames(items)) == if Mine(items, sender) == [] then None else Some(sender)
  {
    hide FragmentOf, FrameCrc;
    if items != [] {
      var before, last := items[..|items| - 1], items[|items| - 1];
      OnlySender(before, sender);
      assert Frames(items)[..|before|] == Frames(before);
      if last.Sent? {
        SentIsRead(last, 0);
      }
    }
  }

  lemma OneSenderHolds(items: seq<Item>, sender: Sender, source: Option<Sender>)
    requires AllItems(items) && Mine(items, sender) != []
    requires source == Some(sender)
             || (source.None? && forall i | 0 <= i < |items| :: items[i].Sent? ==> items[i].sender == sender)
    ensures OneSender(Frames(items), source) && Chosen(Frames(items), source) == Some(sender)
  {
    hide FragmentOf, FrameCrc;
    if source.None? {
      OnlySender(items, sender);
      forall i | 0 <= i < |items|
        ensures Logs(Frames(items)[i]) ==> SenderOf(Frames(items)[i]) == sender
      {
        if items[i].Sent? {
          SentIsRead(items[i], 0);
        }
      }
    }
  }

  /**
    * The round trip. `items` is any capture in which `sender` transmits a ULog cut into `chunks`: every
    * other captured frame is a well-formed frame of another message or, when the caller names the sender,
    * another sender's logging frame. The pass returns the ULog byte for byte.
    */
  lemma CaptureRoundTrip(items: seq<Item>, source: Option<Sender>, sender: Sender, chunks: seq<seq<byte>>,
                         first: nat, ms: seq<Ulog.Message>)
    requires AllItems(items) && Mine(items, sender) != []
    requires source == Some(sender)
             || (source.None? && forall i | 0 <= i < |items| :: items[i].Sent? ==> items[i].sender == sender)
    requires Transmits(Mine(items, sender), chunks, first)
    requires Mine(items, sender)[0].firstMessageOffset == 0
    requires Ulog.IsUlog(Flatten(chunks), ms)
    requires |items| <= MAX_RECORDS && |EncodeAll(Frames(items))| <= MAX_INPUT_BYTES
    requires |Mine(items, sender)| <= MAX_FRAGMENTS && |Flatten(chunks)| <= MAX_ULOG_BYTES
    ensures Assembled(EncodeAll(Frames(items)), source).Ok?
    ensures Assembled(EncodeAll(Frames(items)), source).value.ulog == Flatten(chunks)
  {
    hide FragmentOf, FrameCrc, Assembled, InSequence, Joined, Transmits, AllRead, OneSender, Item.Framed, Item.Valid,
         EncodeAll, Fragments, Mine, Picked, Chosen, Flatten, Ulog.IsUlog, Frame.Encode, Frame.Valid;
    var frames := Frames(items);
    MineIsRead(items, sender);
    OneSenderHolds(items, sender, source);
    var frs := Fragments(frames, sender);
    PickedIs(frames, source, sender);
    TransmissionJoins(frs, Mine(items, sender), chunks, first);
    assert Reconstructs(EncodeAll(frames), frames, source);
    ReturnedAssembly(EncodeAll(frames), frames, source);
  }
}
