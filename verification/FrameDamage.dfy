/**
  * What becomes of a capture when one of its frames is damaged within one byte, or two adjacent ones, that the
  * frame's CRC covers. A damaged frame that still claims to log is always refused. The covered bytes include the
  * message id, and damage that turns it into another message's hides the frame instead: the capture is then one
  * fragment short, and whether that is noticed depends on the fragments beside it.
  */
module FrameDamage {
  import opened Common
  import opened Tlog
  import opened Assembler
  import opened Reassembly
  import opened Reconstruction
  import opened FragmentLoss
  import opened RoundTrip
  import Crc
  import CrcRegisters
  import LoggingCrc
  import Ulog

  /** Equal-length byte strings that differ within one byte, or within two adjacent bytes. */
  ghost predicate InBurst(p: seq<byte>, q: seq<byte>) {
    exists before: seq<byte>, x: seq<byte>, y: seq<byte>, after: seq<byte> ::
      |x| == |y| <= 2 && x != y && p == before + x + after && q == before + y + after
  }

  /** A readable logging frame and what became of it: its CRC is intact, its covered bytes are not. */
  ghost predicate Damaged(f: Frame, g: Frame) {
    f.Valid() && g.Valid() && Logs(f) && Reading(f, 0).Ok? && g.crc == f.crc && InBurst(f.CrcInput(), g.CrcInput())
  }

  // ---------------------------------------------------------------- a frame that still logs

  lemma BurstChangesCrc(msgid: nat, p: seq<byte>, q: seq<byte>)
    requires InBurst(p, q)
    ensures FrameCrc(msgid, p) != FrameCrc(msgid, q)
  {
    var before: seq<byte>, x: seq<byte>, y: seq<byte>, after: seq<byte> :|
      |x| == |y| <= 2 && x != y && p == before + x + after && q == before + y + after;
    var extra := [LoggingCrcExtra(msgid)];
    Crc.BurstDetected(before, x, y, after, 0xFFFF);
    var good, bad := Crc.Crc16(p, 0xFFFF), Crc.Crc16(q, 0xFFFF);
    Crc.Step16KeepsApart();
    Crc.AbsorbKeepsApart(CrcRegisters.Step16, extra, good, bad);
    if FrameCrc(msgid, p) == FrameCrc(msgid, q) {
      CrcRegisters.WordOfInjective(Crc.Crc16(extra, good), Crc.Crc16(extra, bad));
    }
  }

  /** A burst that reaches position `k` reaches no further than its neighbours. */
  lemma BurstNear(p: seq<byte>, q: seq<byte>, k: nat)
    requires InBurst(p, q) && k < |p| && |p| == |q| && p[k] != q[k]
    ensures forall j | 0 <= j < |p| && (j + 1 < k || j > k + 1) :: p[j] == q[j]
  {
    var before: seq<byte>, x: seq<byte>, y: seq<byte>, after: seq<byte> :|
      |x| == |y| <= 2 && x != y && p == before + x + after && q == before + y + after;
    assert |before| <= k < |before| + |x|;
  }

  lemma LoggingHeader(f: Frame)
    requires f.Valid() && Logs(f)
    ensures f.Frame2? && 9 <= |f.CrcInput()| <= 264
    ensures f.CrcInput()[6] == (if f.msgid == LOGGING_DATA then 10 else 11) && f.CrcInput()[7] == 1
  {
    assert f.CrcInput()[6] == f.Header()[6] && f.CrcInput()[7] == f.Header()[7];
  }

  /** Damage that turns one logging message's identifier into the other's shows in the CRC as well. */
  lemma SwapChangesCrc(f: Frame, g: Frame)
    requires f.Valid() && g.Valid() && Logs(f) && Logs(g) && f.msgid != g.msgid && InBurst(f.CrcInput(), g.CrcInput())
    ensures FrameCrc(f.msgid, f.CrcInput()) != FrameCrc(g.msgid, g.CrcInput())
  {
    hide FrameCrc, InBurst, Frame.CrcInput;
    var p, q := f.CrcInput(), g.CrcInput();
    LoggingHeader(f);
    LoggingHeader(g);
    SameLength(p, q);
    BurstNear(p, q, 6);
    var before, after := p[..5], p[7..];
    assert p == before + [p[5], p[6]] + after;
    assert q[7..] == after && q[..5] == before;
    assert q == before + [q[5], q[6]] + after;
    LoggingCrc.NeverMistaken(before, p[5], q[5], p[6], q[6], after, f.msgid, g.msgid);
  }

  lemma SameLength(p: seq<byte>, q: seq<byte>)
    requires InBurst(p, q)
    ensures |p| == |q|
  {
  }

  /** A damaged frame that still claims to be a logging frame, either kind, is refused wherever it lies. */
  lemma DamagedFrameRefused(f: Frame, g: Frame, offset: nat)
    requires Damaged(f, g) && Logs(g)
    ensures Reading(g, offset) == Err(CrcMismatch)
  {
    hide FieldsOf, FrameCrc, Padded, InBurst, Frame.CrcInput;
    if f.msgid == g.msgid {
      BurstChangesCrc(f.msgid, f.CrcInput(), g.CrcInput());
    } else {
      SwapChangesCrc(f, g);
    }
  }

  /** The pass notices the damage itself exactly when the frame still logs; otherwise the frame is unrelated. */
  lemma DamageNoticed(st: State, f: Frame, g: Frame, offset: nat, source: Option<Sender>)
    requires Damaged(f, g)
    ensures Take(st, g.AsRecord(offset), source)
         == if Logs(g) then Err(CrcMismatch)
            else Ok(st.(records := st.records + 1, unrelated := Listed(st.unrelated, g.msgid, offset)))
  {
    hide FragmentOf, InBurst, Collect;
    if Logs(g) {
      DamagedFrameRefused(f, g, offset);
    }
  }

  /** A capture that holds a damaged frame that still logs is refused as a whole. */
  lemma DamagedCaptureRefused(frames: seq<Frame>, i: nat, f: Frame, source: Option<Sender>)
    requires AllValid(frames) && i < |frames| && Damaged(f, frames[i]) && Logs(frames[i])
    ensures Assembled(EncodeAll(frames), source).Err?
  {
    hide Assembled, EncodeAll, Reading, Logs, Damaged, Frame.Valid;
    DamagedFrameRefused(f, frames[i], 0);
    UnreadRefused(frames, i, source);
  }

  lemma UnreadRefused(frames: seq<Frame>, i: nat, source: Option<Sender>)
    requires AllValid(frames) && i < |frames| && Logs(frames[i]) && Reading(frames[i], 0).Err?
    ensures Assembled(EncodeAll(frames), source).Err?
  {
    hide FragmentOf, Assembled, EncodeAll, Reading, OneSender, Acceptable, Picked;
    if |EncodeAll(frames)| > MAX_INPUT_BYTES {
      TooLargeRefused(EncodeAll(frames), source);
    } else {
      AssembledFrames(frames, source);
    }
  }

  lemma TooLargeRefused(data: seq<byte>, source: Option<Sender>)
    requires |data| > MAX_INPUT_BYTES
    ensures Assembled(data, source).Err?
  {
  }

  // ---------------------------------------------------------------- a frame that is hidden

  /** The frame as it reads when the middle byte of its message id loses its only bit. */
  function Hidden(f: Frame): (g: Frame)
    requires f.Valid() && Logs(f)
    ensures g.Valid() && !Logs(g) && |g.Encode()| == |f.Encode()|
  {
    f.(msgid := f.msgid - 256)
  }

  /** Every logging frame that is sent can be hidden by damage to a single covered byte. */
  lemma SentCanBeHidden(item: Item)
    requires item.Valid() && item.Sent?
    ensures Logs(item.Framed()) && Damaged(item.Framed(), Hidden(item.Framed()))
  {
    hide FrameCrc, FragmentOf, Item.Framed;
    SentIsRead(item, 0);
    HiddenInBurst(item.Framed());
  }

  lemma HiddenHeader(f: Frame)
    requires f.Valid() && Logs(f)
    ensures |f.Header()| == 9 && f.Header()[7] == 1 && Hidden(f).Header() == f.Header()[7 := 0]
  {
  }

  lemma HiddenInBurst(f: Frame)
    requires f.Valid() && Logs(f)
    ensures InBurst(f.CrcInput(), Hidden(f).CrcInput())
  {
    hide Frame.Header;
    var h, p, q := f.Header(), f.CrcInput(), Hidden(f).CrcInput();
    var x: seq<byte>, y: seq<byte> := [1], [0];
    HiddenHeader(f);
    assert h == h[..7] + x + h[8..] && h[7 := 0] == h[..7] + y + h[8..];
    var after := h[8..] + f.payload;
    assert p == h[..7] + x + after && q == h[..7] + y + after;
  }

  lemma {:induction false} ExtentKept(frames: seq<Frame>, i: nat, g: Frame)
    requires AllValid(frames) && i < |frames| && g.Valid() && |g.Encode()| == |frames[i].Encode()|
    ensures AllValid(frames[i := g]) && |EncodeAll(frames[i := g])| == |EncodeAll(frames)|
    decreases |frames|
  {
    hide Frame.Encode, Frame.Valid;
    if i > 0 {
      assert frames[i := g][1..] == frames[1..][i - 1 := g];
      ExtentKept(frames[1..], i - 1, g);
    } else {
      assert frames[0 := g][1..] == frames[1..];
    }
  }

  /** How many of the sender's fragments come before frame `i`. */
  function Rank(frames: seq<Frame>, i: nat, sender: Sender): nat
    requires AllValid(frames) && i < |frames|
  {
    |Fragments(frames[..i], sender)|
  }

  lemma WithoutLonger<T>(s: seq<T>, added: seq<T>, n: nat)
    requires n < |s|
    ensures Without(s + added, n) == Without(s, n) + added
  {
  }

  lemma WithoutLast<T>(s: seq<T>, x: T)
    ensures Without(s + [x], |s|) == s
  {
  }

  /** Hiding a sender's frame takes out exactly its fragment. */
  lemma {:induction false} FragmentsWithout(frames: seq<Frame>, i: nat, g: Frame)
    requires AllValid(frames) && i < |frames| && g.Valid() && |g.Encode()| == |frames[i].Encode()|
    requires Logs(frames[i]) && !Logs(g) && AllRead(frames)
    ensures AllValid(frames[i := g])
    ensures var sender := SenderOf(frames[i]);
            var frs, n := Fragments(frames, sender), Rank(frames, i, sender);
            n < |frs| && Fragments(frames[i := g], sender) == Without(frs, n)
  {
    hide FragmentOf, Frame.Encode, Frame.Valid, Frame.AsRecord, Fragments, EncodeAll, Without, Reading;
    var sender, after := SenderOf(frames[i]), frames[i := g];
    var before, last := frames[..|frames| - 1], frames[|frames| - 1];
    assert frames == before + [last];
    AllReadSnoc(before, last);
    FragmentsSnoc(frames, sender);
    FragmentsSnoc(after, sender);
    if i == |before| {
      assert after[..i] == before && frames[..i] == before;
      ReadingAnywhere(last, |EncodeAll(before)|);
      WithoutLast(Fragments(before, sender), Reading(last, |EncodeAll(before)|).value);
    } else {
      FragmentsWithout(before, i, g);
      ExtentKept(before, i, g);
      assert after[..|before|] == before[i := g] && before[..i] == frames[..i];
      WithoutLonger(Fragments(before, sender), Added(last, sender, |EncodeAll(before)|), Rank(frames, i, sender));
    }
  }

  lemma {:induction false} FirstOfOne(frames: seq<Frame>, sender: Sender)
    requires forall k | 0 <= k < |frames| :: Logs(frames[k]) ==> SenderOf(frames[k]) == sender
    ensures FirstSender(frames).Some? ==> FirstSender(frames).value == sender
  {
    if frames != [] {
      FirstOfOne(frames[..|frames| - 1], sender);
    }
  }

  /** Frame `i` carries a fragment of the stream that is rebuilt. */
  ghost predicate Carried(frames: seq<Frame>, i: nat, source: Option<Sender>) {
    i < |frames| && Logs(frames[i]) && Chosen(frames, source) == Some(SenderOf(frames[i]))
  }

  /** Hiding such a frame leaves the rest of the stream to be rebuilt, and nothing else changes. */
  lemma HiddenLeaves(frames: seq<Frame>, i: nat, g: Frame, source: Option<Sender>)
    requires AllValid(frames) && AllRead(frames) && OneSender(frames, source) && Carried(frames, i, source)
    requires g.Valid() && !Logs(g) && |g.Encode()| == |frames[i].Encode()|
    ensures AllValid(frames[i := g])
    ensures AllRead(frames[i := g]) && OneSender(frames[i := g], source)
    ensures var n := Rank(frames, i, SenderOf(frames[i]));
            n < |Picked(frames, source)| && Picked(frames[i := g], source) == Without(Picked(frames, source), n)
  {
    hide FragmentOf, Frame.Encode, Frame.Valid, Fragments;
    var sender, after := SenderOf(frames[i]), frames[i := g];
    FragmentsWithout(frames, i, g);
    if source.None? {
      FirstOfOne(after, sender);
      if FirstSender(after).None? {
        NoSenderNoLogs(after);
        NoLogsNoFragments(after, sender);
      }
    }
  }

  /** Whether hiding the frame leaves a capture that is accepted, in terms of the undamaged one. */
  ghost predicate StillAccepted(frs: seq<Fragment>, n: nat)
    requires n < |frs|
  {
    |frs| > 1 && Unnoticed(frs, n) && exists ms :: Ulog.IsUlog(Joined(Without(frs, n)), ms)
  }

  /**
    * An accepted capture with one of its frames hidden is still accepted exactly when that loss passes the sequence
    * check and what is left is a whole ULog, and then that is what it returns.
    */
  lemma HiddenCapture(frames: seq<Frame>, i: nat, g: Frame, source: Option<Sender>)
    requires AllValid(frames) && Reconstructs(EncodeAll(frames), frames, source) && Carried(frames, i, source)
    requires g.Valid() && !Logs(g) && |g.Encode()| == |frames[i].Encode()|
    ensures AllValid(frames[i := g]) && Rank(frames, i, SenderOf(frames[i])) < |Picked(frames, source)|
    ensures var frs, n := Picked(frames, source), Rank(frames, i, SenderOf(frames[i]));
            var outcome := Assembled(EncodeAll(frames[i := g]), source);
            && (outcome.Ok? <==> StillAccepted(frs, n))
            && (outcome.Ok? ==> outcome.value.ulog == Joined(Without(frs, n)))
  {
    hide FragmentOf, Assembled, InSequence, Joined, AllRead, OneSender, Picked, Without, Unnoticed, Keeps, Repeated,
         Frame.Encode, Frame.Valid, EncodeAll, Rank;
    var after, frs, n := frames[i := g], Picked(frames, source), Rank(frames, i, SenderOf(frames[i]));
    HiddenLeaves(frames, i, g, source);
    ExtentKept(frames, i, g);
    LossUnnoticedExactly(frs, n);
    WithoutShorter(frs, n);
    AssembledFrames(after, source);
    if Reconstructs(EncodeAll(after), after, source) {
      ReturnedAssembly(EncodeAll(after), after, source);
    }
  }

  lemma WithoutShorter(frs: seq<Fragment>, n: nat)
    requires n < |frs| && InSequence(frs)
    ensures |Without(frs, n)| == |frs| - 1
    ensures Unnoticed(frs, n) ==> |Joined(Without(frs, n))| <= |Joined(frs)|
  {
    hide Joined, InSequence;
    LossKeeps(frs, n);
  }

  /**
    * Damage inside a capture is noticed or harmless: hiding any fragment but the first and the last leaves a capture
    * that is accepted exactly when a repetition beside it carries the same bytes, and the ULog is then the one sent.
    */
  lemma InnerDamageHarmless(frames: seq<Frame>, i: nat, g: Frame, source: Option<Sender>)
    requires AllValid(frames) && Reconstructs(EncodeAll(frames), frames, source) && Carried(frames, i, source)
    requires g.Valid() && !Logs(g) && |g.Encode()| == |frames[i].Encode()|
    requires 0 < Rank(frames, i, SenderOf(frames[i])) < |Picked(frames, source)| - 1
    ensures AllValid(frames[i := g])
    ensures var outcome := Assembled(EncodeAll(frames[i := g]), source);
            && (outcome.Ok? <==> Repeated(Picked(frames, source), Rank(frames, i, SenderOf(frames[i]))))
            && (outcome.Ok? ==> Assembled(EncodeAll(frames), source).Ok?
                                && outcome.value.ulog == Assembled(EncodeAll(frames), source).value.ulog)
  {
    hide FragmentOf, Assembled, InSequence, Joined, AllRead, OneSender, Picked, Without, Repeated, Frame.Encode,
         Frame.Valid, EncodeAll, Rank;
    HiddenCapture(frames, i, g, source);
    LossKeeps(Picked(frames, source), Rank(frames, i, SenderOf(frames[i])));
    ReturnedAssembly(EncodeAll(frames), frames, source);
  }

  lemma {:induction false} OthersKept(frames: seq<Frame>, i: nat, g: Frame, sender: Sender)
    requires AllValid(frames) && i < |frames| && g.Valid() && |g.Encode()| == |frames[i].Encode()|
    requires !Logs(g) && (Logs(frames[i]) ==> SenderOf(frames[i]) != sender)
    ensures AllValid(frames[i := g]) && Fragments(frames[i := g], sender) == Fragments(frames, sender)
  {
    hide FragmentOf, Frame.Encode, Frame.Valid, Frame.AsRecord, Fragments, EncodeAll, Reading;
    var before, after := frames[..|frames| - 1], frames[i := g];
    FragmentsSnoc(frames, sender);
    FragmentsSnoc(after, sender);
    if i == |before| {
      assert after[..i] == before;
    } else {
      OthersKept(before, i, g, sender);
      ExtentKept(before, i, g);
      assert after[..|before|] == before[i := g];
    }
  }

  /** Hiding a frame of a stream that is not rebuilt changes nothing of what is. */
  lemma OtherDamageHarmless(frames: seq<Frame>, i: nat, g: Frame, source: Option<Sender>)
    requires AllValid(frames) && Reconstructs(EncodeAll(frames), frames, source) && i < |frames|
    requires Logs(frames[i]) && !Carried(frames, i, source)
    requires g.Valid() && !Logs(g) && |g.Encode()| == |frames[i].Encode()|
    ensures AllValid(frames[i := g]) && Assembled(EncodeAll(frames), source).Ok?
    ensures Assembled(EncodeAll(frames[i := g]), source).Ok?
    ensures Assembled(EncodeAll(frames[i := g]), source).value.ulog == Assembled(EncodeAll(frames), source).value.ulog
  {
    hide FragmentOf, Assembled, Joined, Acceptable, Fragments, Frame.Encode, Frame.Valid, EncodeAll;
    ExtentKept(frames, i, g);
    OthersKept(frames, i, g, Chosen(frames, source).value);
    ReturnedAssembly(EncodeAll(frames), frames, source);
    ReturnedAssembly(EncodeAll(frames[i := g]), frames[i := g], source);
  }

  /**
    * What damage to a frame of the stream does to an accepted capture, when it leaves the frame's extent: the capture
    * is still accepted exactly when the frame no longer logs and its loss leaves an acceptable stream.
    */
  lemma DamageOutcome(frames: seq<Frame>, i: nat, g: Frame, source: Option<Sender>)
    requires AllValid(frames) && Reconstructs(EncodeAll(frames), frames, source) && Carried(frames, i, source)
    requires Damaged(frames[i], g) && |g.Encode()| == |frames[i].Encode()|
    ensures AllValid(frames[i := g]) && Rank(frames, i, SenderOf(frames[i])) < |Picked(frames, source)|
    ensures var frs, n := Picked(frames, source), Rank(frames, i, SenderOf(frames[i]));
            Assembled(EncodeAll(frames[i := g]), source).Ok? <==> !Logs(g) && StillAccepted(frs, n)
  {
    hide FragmentOf, Assembled, Damaged, Picked, StillAccepted, Reading, Frame.Encode, Frame.Valid, EncodeAll, Rank,
         Reconstructs;
    TheirFrames(frames, i, g);
    if Logs(g) {
      ExtentKept(frames, i, g);
      DamagedCaptureRefused(frames[i := g], i, frames[i], source);
      RankWithin(frames, i, source);
    } else {
      HiddenCapture(frames, i, g, source);
    }
  }

  lemma TheirFrames(frames: seq<Frame>, i: nat, g: Frame)
    requires i < |frames| && Damaged(frames[i], g)
    ensures g.Valid()
  {
  }

  lemma RankWithin(frames: seq<Frame>, i: nat, source: Option<Sender>)
    requires AllValid(frames) && Reconstructs(EncodeAll(frames), frames, source) && Carried(frames, i, source)
    ensures Rank(frames, i, SenderOf(frames[i])) < |Picked(frames, source)|
  {
    hide FragmentOf, Frame.Encode, Fragments, Acceptable;
    FragmentsWithout(frames, i, Hidden(frames[i]));
  }

  // ---------------------------------------------------------------- an accepted capture that lost its end

  const SENDER := Sender(1, 1)
  const ENVELOPE := Envelope(Zeros(8), 0, 0, [])

  /** One chunk of a two-chunk ULog: the header alone, or one message. */
  function Chunk(k: nat): seq<byte> {
    if k == 0 then Ulog.ULOG_MAGIC + Zeros(8) else Ulog.Message(68, [7]).Encode()
  }

  function ChunkItem(k: nat): Item
    requires k < 2
  {
    var data := Chunk(k);
    Sent(Logging(LOGGING_DATA, k, 0, 0, 0, data, Zeros(LOGGING_DATA_LEN - |data|)), SENDER, ENVELOPE,
         LOGGING_PAYLOAD_LEN)
  }

  lemma ChunksSent()
    ensures var items := [ChunkItem(0), ChunkItem(1)];
            && AllItems(items) && Mine(items, SENDER) == [items[0].message, items[1].message]
            && Transmits(Mine(items, SENDER), [Chunk(0), Chunk(1)], 0)
  {
    var items := [ChunkItem(0), ChunkItem(1)];
    var m, n := items[0].message, items[1].message;
    assert items[..1] == [items[0]] && items[..0] == [] && [items[0]][..0] == [];
    assert [m, n][..1] == [m] && [m][..0] == [] && [Chunk(0), Chunk(1)][..1] == [Chunk(0)];
    assert Transmits([], [], 0);
    assert [Chunk(0)][..0] == [];
    assert Transmits([m], [Chunk(0)], 0);
  }

  lemma ChunksAreUlog()
    ensures Ulog.IsUlog(Flatten([Chunk(0), Chunk(1)]), [Ulog.Message(68, [7])]) && Ulog.IsUlog(Chunk(0), [])
    ensures Flatten([Chunk(0), Chunk(1)]) == Chunk(0) + Chunk(1)
  {
    var ms := [Ulog.Message(68, [7])];
    assert ms[1..] == [];
    assert Ulog.EncodeMessages(ms) == Chunk(1);
    assert [Chunk(0), Chunk(1)][..1] == [Chunk(0)] && [Chunk(0)][..0] == [];
    assert Flatten([Chunk(0)]) == Chunk(0);
    assert (Chunk(0) + Chunk(1))[..8] == Ulog.ULOG_MAGIC && (Chunk(0) + Chunk(1))[16..] == Chunk(1);
    assert Chunk(0)[..8] == Ulog.ULOG_MAGIC && Chunk(0)[16..] == [];
  }

  /** The two frames as sent: the capture returns the whole ULog. */
  lemma WholeCapture() returns (frames: seq<Frame>)
    ensures frames == [ChunkItem(0).Framed(), ChunkItem(1).Framed()] && AllValid(frames)
    ensures Reconstructs(EncodeAll(frames), frames, None)
    ensures Assembled(EncodeAll(frames), None).Ok?
    ensures Assembled(EncodeAll(frames), None).value.ulog == Chunk(0) + Chunk(1)
  {
    hide FragmentOf, FrameCrc, Assembled, Item.Framed, Item.Valid, Mine, Transmits, Frame.Encode, Frame.Valid, Chunk,
         Reconstructs, ChunkItem, Ulog.IsUlog, Flatten;
    var items := [ChunkItem(0), ChunkItem(1)];
    ChunksSent();
    ChunksAreUlog();
    ItemsFit();
    frames := Frames(items);
    TwoFrames(frames);
    CaptureRoundTrip(items, None, SENDER, [Chunk(0), Chunk(1)], 0, [Ulog.Message(68, [7])]);
    AssembledFrames(frames, None);
  }

  lemma ItemsFit()
    ensures |Flatten([Chunk(0), Chunk(1)])| == 20 && Chunk(1) != []
    ensures ChunkItem(0).Sent? && ChunkItem(0).sender == SENDER && ChunkItem(0).message.firstMessageOffset == 0
    ensures ChunkItem(1).Sent? && ChunkItem(1).sender == SENDER
  {
    ChunksAreUlog();
  }

  lemma TwoFrames(frames: seq<Frame>)
    requires |frames| == 2 && AllValid(frames)
    ensures |EncodeAll(frames)| <= MAX_INPUT_BYTES
  {
    hide Frame.Encode, Frame.Valid;
    FrameLengthBound(frames[0]);
    FrameLengthBound(frames[1]);
    assert frames[1..] == [frames[1]] && frames[1..][1..] == [];
    assert EncodeAll(frames[1..]) == frames[1].Encode() + EncodeAll(frames[1..][1..]);
  }

  lemma TheirFragments(frames: seq<Frame>)
    requires AllValid(frames) && frames == [ChunkItem(0).Framed(), ChunkItem(1).Framed()]
    ensures |Fragments(frames, SENDER)| == 2 && Rank(frames, 1, SENDER) == 1
    ensures Joined(Without(Fragments(frames, SENDER), 1)) == Chunk(0)
  {
    hide FragmentOf, FrameCrc, Item.Framed, Item.Valid, Frame.Encode, Frame.Valid, Fragments, Chunk, Joined, Mine;
    var items := [ChunkItem(0), ChunkItem(1)];
    ChunksSent();
    MineIsRead(items, SENDER);
    assert Frames(items) == frames;
    MineIsRead(items[..1], SENDER);
    assert Frames(items[..1]) == frames[..1];
    OneMine();
    var frs := Fragments(frames, SENDER);
    assert Without(frs, 1) == [frs[0]];
    JoinedOne(frs[0]);
  }

  lemma OneMine()
    ensures |Mine([ChunkItem(0), ChunkItem(1)][..1], SENDER)| == 1
  {
    var items := [ChunkItem(0), ChunkItem(1)];
    assert items[..1] == [items[0]] && [items[0]][..0] == [];
  }

  lemma TheyCarry(frames: seq<Frame>)
    requires AllValid(frames) && frames == [ChunkItem(0).Framed(), ChunkItem(1).Framed()]
    requires Logs(frames[0]) && SenderOf(frames[0]) == SENDER && Logs(frames[1]) && SenderOf(frames[1]) == SENDER
    ensures Carried(frames, 1, None) && Picked(frames, None) == Fragments(frames, SENDER)
  {
    hide Fragments, Item.Framed, ChunkItem, Logs, SenderOf;
    assert frames[..1] == [frames[0]] && frames[..1][..0] == [];
    assert FirstSender(frames[..1]) == Some(SENDER);
  }

  lemma LastUnnoticed(frs: seq<Fragment>)
    requires |frs| == 2
    ensures Unnoticed(frs, 1)
  {
  }

  lemma Longer(a: seq<byte>, b: seq<byte>)
    requires b != []
    ensures a < a + b
  {
  }

  /**
    * A capture that is accepted although damage hid its last frame: a header and one message are sent, and the header
    * alone is returned as the whole ULog.
    */
  lemma ShorterUlogAccepted() returns (frames: seq<Frame>, g: Frame)
    ensures |frames| == 2 && AllValid(frames) && Damaged(frames[1], g) && AllValid(frames[1 := g])
    ensures var sent, received := Assembled(EncodeAll(frames), None), Assembled(EncodeAll(frames[1 := g]), None);
            sent.Ok? && received.Ok? && received.value.ulog < sent.value.ulog
  {
    hide FragmentOf, FrameCrc, Assembled, Item.Framed, Item.Valid, Frame.Encode, Frame.Valid, Chunk, Joined, Damaged,
         Fragments, Reconstructs, EncodeAll, Rank, Without, Ulog.IsUlog, ChunkItem;
    frames := WholeCapture();
    ItemsFit();
    ChunksSent();
    SentCanBeHidden(ChunkItem(1));
    g := Hidden(frames[1]);
    SentIsRead(ChunkItem(0), 0);
    SentIsRead(ChunkItem(1), 0);
    TheirFragments(frames);
    TheyCarry(frames);
    HiddenCapture(frames, 1, g, None);
    LastUnnoticed(Fragments(frames, SENDER));
    ChunksAreUlog();
    Longer(Chunk(0), Chunk(1));
  }
}
