/**
  * What follows the framing of a native stream: every kept packet goes to the selected reader, whose refusal is
  * the capture's; then a run without a window must have read something, and a window must lie within the packets.
  */
module NativeCapture {
  import opened Common
  import opened Framing

  datatype ReadError =
    | PacketLength | ChecksumMismatch | NegativeVoltage
    | ReplyHeader | AttitudeLength | AttitudeRange | DisplayOperation

  datatype NativeError = Misframed(framing: FramingError) | Unreadable(reading: ReadError)
                       | NothingSelected | WindowBeyondPackets

  /** The framing report, and what each kept packet says; a packet of another meaning says nothing. */
  datatype Native<+R> = Native(framed: Framed, readings: seq<Option<R>>)

  type Reader<!R> = seq<byte> -> Result<Option<R>, ReadError>

  /** The readings of the packets in order, or the first refusal. */
  function ReadAll<R>(read: Reader<R>, packets: seq<seq<byte>>): Result<seq<Option<R>>, ReadError> {
    if packets == [] then Ok([])
    else
      var earlier :- ReadAll(read, packets[..|packets| - 1]);
      var last :- read(packets[|packets| - 1]);
      Ok(earlier + [last])
  }

  predicate AnySelected<R>(readings: seq<Option<R>>) {
    exists i | 0 <= i < |readings| :: readings[i].Some?
  }

  /** The outcome of a native capture, from that of its framing. */
  function Converted<R>(framed: Result<Framed, FramingError>, read: Reader<R>, window: Option<Window>)
    : Result<Native<R>, NativeError>
  {
    match framed
    case Err(error) => Err(Misframed(error))
    case Ok(report) =>
      match ReadAll(read, BytesOf(report.rows))
      case Err(error) => Err(Unreadable(error))
      case Ok(readings) => Checked(report, readings, window)
  }

  /** The two checks that follow the reading. */
  function Checked<R>(report: Framed, readings: seq<Option<R>>, window: Option<Window>)
    : Result<Native<R>, NativeError>
  {
    if window.None? && !AnySelected(readings) then Err(NothingSelected)
    else if window.Some? && window.value.stop > report.records then Err(WindowBeyondPackets)
    else Ok(Native(report, readings))
  }

  lemma ReadSnoc<R>(read: Reader<R>, packets: seq<seq<byte>>, k: nat)
    requires k < |packets|
    ensures ReadAll(read, packets[..k + 1])
         == match ReadAll(read, packets[..k])
            case Err(error) => Err(error)
            case Ok(earlier) =>
              match read(packets[k])
              case Err(error) => Err(error)
              case Ok(last) => Ok(earlier + [last])
  {
    assert packets[..k + 1][..k] == packets[..k];
  }

  /** A refusal stands whatever packets follow. */
  lemma {:induction false} RefusalStands<R>(read: Reader<R>, packets: seq<seq<byte>>, k: nat)
    requires k <= |packets| && ReadAll(read, packets[..k]).Err?
    ensures ReadAll(read, packets) == ReadAll(read, packets[..k])
    decreases |packets|
  {
    if k < |packets| {
      var shorter := packets[..|packets| - 1];
      assert shorter[..k] == packets[..k];
      RefusalStands(read, shorter, k);
    } else {
      assert packets[..k] == packets;
    }
  }

  /** All packets are read exactly when each one can be, and each reading is that packet's own. */
  lemma {:induction false} ReadExactly<R>(read: Reader<R>, packets: seq<seq<byte>>)
    ensures ReadAll(read, packets).Ok? <==> forall i | 0 <= i < |packets| :: read(packets[i]).Ok?
    ensures ReadAll(read, packets).Ok? ==>
              && |ReadAll(read, packets).value| == |packets|
              && forall i | 0 <= i < |packets| :: read(packets[i]) == Ok(ReadAll(read, packets).value[i])
  {
    if packets != [] {
      ReadExactly(read, packets[..|packets| - 1]);
    }
  }

  /**
    * A capture is accepted exactly when its framing is, every kept packet can be read, some packet is selected or
    * a window is given, and the window lies within the packets.
    */
  lemma ConvertedExactly<R>(framed: Result<Framed, FramingError>, read: Reader<R>, window: Option<Window>)
    ensures Converted(framed, read, window).Ok?
       <==> && framed.Ok?
            && (var kept := BytesOf(framed.value.rows);
                && (forall i | 0 <= i < |kept| :: read(kept[i]).Ok?)
                && (window.None? ==> exists i | 0 <= i < |kept| :: read(kept[i]).Ok? && read(kept[i]).value.Some?))
            && (window.Some? ==> window.value.stop <= framed.value.records)
    ensures Converted(framed, read, window).Ok? ==>
              var native := Converted(framed, read, window).value;
              && native.framed == framed.value && |native.readings| == |framed.value.rows|
              && forall i | 0 <= i < |native.readings| ::
                   read(BytesOf(framed.value.rows)[i]) == Ok(native.readings[i])
  {
    if framed.Ok? {
      var kept := BytesOf(framed.value.rows);
      ReadExactly(read, kept);
      if ReadAll(read, kept).Ok? {
        var readings := ReadAll(read, kept).value;
        assert forall i | 0 <= i < |kept| :: read(kept[i]).value == readings[i];
      }
    }
  }

  /** The first packet that cannot be read, and why. */
  ghost predicate FirstUnreadable<R(!new)>(read: Reader<R>, packets: seq<seq<byte>>, k: nat, error: ReadError) {
    && k < |packets| && (forall i | 0 <= i < k :: read(packets[i]).Ok?)
    && read(packets[k]) == Err(error)
  }

  lemma {:induction false} UnreadableExactly<R(!new)>(read: Reader<R>, packets: seq<seq<byte>>, error: ReadError)
    ensures ReadAll(read, packets) == Err(error) <==> exists k: nat :: FirstUnreadable(read, packets, k, error)
  {
    if packets != [] {
      var before := packets[..|packets| - 1];
      UnreadableExactly(read, before, error);
      ReadExactly(read, before);
      forall k: nat | k < |before|
        ensures FirstUnreadable(read, before, k, error) <==> FirstUnreadable(read, packets, k, error)
      {
      }
      if ReadAll(read, before).Ok? && read(packets[|before|]) == Err(error) {
        assert FirstUnreadable(read, packets, |before|, error);
      }
    }
  }

  /** A capture is refused for its framing, its first unreadable packet, an empty selection or its window, and why. */
  lemma RefusedExactly<R(!new)>(framed: Result<Framed, FramingError>, read: Reader<R>, window: Option<Window>,
                                error: NativeError)
    ensures Converted(framed, read, window) == Err(error)
       <==> match error
            case Misframed(why) => framed == Err(why)
            case Unreadable(why) =>
              framed.Ok? && exists k: nat :: FirstUnreadable(read, BytesOf(framed.value.rows), k, why)
            case NothingSelected =>
              && framed.Ok? && window.None?
              && forall i | 0 <= i < |framed.value.rows| :: read(BytesOf(framed.value.rows)[i]) == Ok(None)
            case WindowBeyondPackets =>
              && framed.Ok? && window.Some? && window.value.stop > framed.value.records
              && forall i | 0 <= i < |framed.value.rows| :: read(BytesOf(framed.value.rows)[i]).Ok?
  {
    hide FirstUnreadable;
    if framed.Ok? {
      var kept := BytesOf(framed.value.rows);
      ReadExactly(read, kept);
      if error.Unreadable? {
        UnreadableExactly(read, kept, error.reading);
      }
      if ReadAll(read, kept).Ok? {
        var readings := ReadAll(read, kept).value;
        assert forall i | 0 <= i < |kept| :: read(kept[i]) == Ok(readings[i]);
      }
    }
  }

  lemma BytesOfSlice(packets: seq<Span>, start: nat, stop: nat)
    requires start <= stop <= |packets|
    ensures BytesOf(packets[start..stop]) == BytesOf(packets)[start..stop]
  {
  }

  lemma SelectedBytes(packets: seq<Span>, window: Window)
    requires window.start <= window.stop
    ensures var from, to := Min(window.start, |packets|), Min(window.stop, |packets|);
            BytesOf(Selected(packets, window)) == BytesOf(packets)[from..to]
  {
    BytesOfSlice(packets, Min(window.start, |packets|), Min(window.stop, |packets|));
  }

  /** What is read of a stretch of packets is that stretch of what is read of all. */
  lemma ReadSlice<R>(read: Reader<R>, packets: seq<seq<byte>>, from: nat, to: nat)
    requires from <= to <= |packets| && ReadAll(read, packets).Ok?
    ensures ReadAll(read, packets[from..to]).Ok?
    ensures |ReadAll(read, packets).value| == |packets|
    ensures ReadAll(read, packets[from..to]).value == ReadAll(read, packets).value[from..to]
  {
    hide ReadAll;
    var part := packets[from..to];
    ReadExactly(read, packets);
    assert forall i | 0 <= i < |part| :: part[i] == packets[from + i];
    ReadExactly(read, part);
  }

  lemma WindowUnbroken(spans: seq<Span>, window: Window)
    requires Broken(spans, None).None?
    ensures Broken(spans, Some(window)).None?
  {
    BrokenExactly(spans, None);
    BrokenExactly(spans, Some(window));
  }

  /**
    * What a window of an accepted capture gives: it is accepted exactly when it lies within the packets, and then
    * its report and its readings are the slices of the whole capture's.
    */
  ghost predicate IsWindow<R>(windowed: Result<Native<R>, NativeError>, full: Native<R>, window: Window,
                                    length: nat) {
    && window.start < window.stop && |full.readings| == full.framed.records
    && (windowed.Ok? <==> window.stop <= full.framed.records)
    && (windowed.Err? ==> windowed.error == WindowBeyondPackets)
    && (windowed.Ok? ==> IsSlice(windowed.value.framed, full.framed, window, length)
                         && windowed.value.readings == full.readings[window.start..window.stop])
  }

  lemma WindowedReadings<R>(spans: seq<Span>, read: Reader<R>, window: Window, length: nat)
    requires Tiles(spans, 0, length) && AllSkipped(Skips(spans)) && window.start < window.stop
    requires Converted(Outcome(spans, None, None), read, None).Ok?
    ensures IsWindow(Converted(Outcome(spans, None, Some(window)), read, Some(window)),
                     Converted(Outcome(spans, None, None), read, None).value, window, length)
  {
    hide ReadAll, Broken, Wholes, Skips, IsSlice, Selected, BytesOf, Tiles;
    var packets := Wholes(spans);
    WindowUnbroken(spans, window);
    SelectedBytes(packets, window);
    ReadSlice(read, BytesOf(packets), Min(window.start, |packets|), Min(window.stop, |packets|));
    if window.stop <= |packets| {
      WindowIsSlice(spans, window, length);
    }
  }
}
