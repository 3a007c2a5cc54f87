/** The walk over a reconstructed ULog's message headers. */
module Ulog {
  import opened Common
  import opened Tlog

  const ULOG_MAGIC: seq<byte> := [0x55, 0x4C, 0x6F, 0x67, 0x01, 0x12, 0x35, 0x01]
  const ULOG_HEADER_LEN := 16

  /** One ULog message: its kind and its body, whose length the header carries in 16 bits. */
  datatype Message = Message(kind: byte, body: seq<byte>) {
    predicate Valid() {
      |body| < 65536
    }

    function Encode(): seq<byte>
      requires Valid()
    {
      [|body| % 256, |body| / 256, kind] + body
    }
  }

  ghost predicate AllMessages(ms: seq<Message>) {
    forall m <- ms :: m.Valid()
  }

  function EncodeMessages(ms: seq<Message>): seq<byte>
    requires AllMessages(ms)
    decreases |ms|
  {
    if ms == [] then [] else ms[0].Encode() + EncodeMessages(ms[1..])
  }

  function Kinds(ms: seq<Message>): seq<byte> {
    seq(|ms|, i requires 0 <= i < |ms| => ms[i].kind)
  }

  predicate HasHeader(data: seq<byte>) {
    |data| >= ULOG_HEADER_LEN && data[..8] == ULOG_MAGIC
  }

  /** A ULog file: the sixteen-byte header, then complete messages and nothing else. */
  ghost predicate IsUlog(data: seq<byte>, ms: seq<Message>) {
    HasHeader(data) && AllMessages(ms) && data[ULOG_HEADER_LEN..] == EncodeMessages(ms)
  }

  function Bump(counts: map<byte, nat>, kind: byte): map<byte, nat> {
    counts[kind := (if kind in counts then counts[kind] else 0) + 1]
  }

  /** The messages left to count, and the counts so far. */
  function Walk(rest: seq<byte>, counts: map<byte, nat>): Result<map<byte, nat>, Refusal>
    decreases |rest|
  {
    if rest == [] then Ok(counts)
    else if |rest| < 3 then Err(TruncatedUlogMessage)
    else
      var size := Word16(rest[0], rest[1]);
      if |rest| - 3 < size then Err(TruncatedUlogMessage)
      else Walk(rest[3 + size..], Bump(counts, rest[2]))
  }

  function CountsOf(data: seq<byte>): Result<map<byte, nat>, Refusal> {
    if HasHeader(data) then Walk(data[ULOG_HEADER_LEN..], map[]) else Err(NoUlogHeader)
  }

  method MessageCounts(data: seq<byte>) returns (r: Result<map<byte, nat>, Refusal>)
    ensures r == CountsOf(data)
  {
    if |data| < ULOG_HEADER_LEN || data[..8] != ULOG_MAGIC {
      return Err(NoUlogHeader);
    }
    var counts := map[];
    var offset := ULOG_HEADER_LEN;
    while offset < |data|
      invariant ULOG_HEADER_LEN <= offset <= |data|
      invariant Walk(data[offset..], counts) == CountsOf(data)
    {
      if |data| - offset < 3 {
        return Err(TruncatedUlogMessage);
      }
      var size := Word16(data[offset], data[offset + 1]);
      var kind := data[offset + 2];
      if |data| - offset - 3 < size {
        return Err(TruncatedUlogMessage);
      }
      assert data[offset..][3 + size..] == data[offset + 3 + size..];
      counts := counts[kind := (if kind in counts then counts[kind] else 0) + 1];
      offset := offset + 3 + size;
    }
    return Ok(counts);
  }

  /** `counts` says how often each kind occurs, and holds no other key. */
  ghost predicate Tallies(counts: map<byte, nat>, kinds: seq<byte>) {
    && (forall k :: k in counts <==> k in kinds)
    && (forall k <- counts :: counts[k] == multiset(kinds)[k])
  }

  lemma WalkOne(m: Message, after: seq<byte>, counts: map<byte, nat>)
    requires m.Valid()
    ensures Walk(m.Encode() + after, counts) == Walk(after, Bump(counts, m.kind))
  {
    var rest := m.Encode() + after;
    assert rest[0] == |m.body| % 256 && rest[1] == |m.body| / 256 && rest[2] == m.kind;
    assert rest[3 + |m.body|..] == after;
  }

  function BumpAll(counts: map<byte, nat>, kinds: seq<byte>): map<byte, nat>
    decreases |kinds|
  {
    if kinds == [] then counts else BumpAll(Bump(counts, kinds[0]), kinds[1..])
  }

  /** Complete messages are walked to the end, each one counted by its kind. */
  lemma {:induction false} WalkAccepts(ms: seq<Message>, counts: map<byte, nat>)
    requires AllMessages(ms)
    ensures Walk(EncodeMessages(ms), counts) == Ok(BumpAll(counts, Kinds(ms)))
    decreases |ms|
  {
    if ms != [] {
      WalkOne(ms[0], EncodeMessages(ms[1..]), counts);
      WalkAccepts(ms[1..], Bump(counts, ms[0].kind));
      assert Kinds(ms)[1..] == Kinds(ms[1..]);
    }
  }

  lemma {:induction false} BumpAllTallies(counts: map<byte, nat>, done: seq<byte>, kinds: seq<byte>)
    requires Tallies(counts, done)
    ensures Tallies(BumpAll(counts, kinds), done + kinds)
    decreases |kinds|
  {
    if kinds == [] {
      assert done + kinds == done;
    } else {
      TallyOne(counts, done, kinds[0]);
      BumpAllTallies(Bump(counts, kinds[0]), done + [kinds[0]], kinds[1..]);
      assert done + [kinds[0]] + kinds[1..] == done + kinds;
    }
  }

  lemma TallyOne(counts: map<byte, nat>, done: seq<byte>, kind: byte)
    requires Tallies(counts, done)
    ensures Tallies(Bump(counts, kind), done + [kind])
  {
    var after := done + [kind];
    forall k
      ensures k in Bump(counts, kind) <==> k in after
      ensures k in Bump(counts, kind) ==> Bump(counts, kind)[k] == multiset(after)[k]
    {
      assert k in after <==> k in done || k == kind;
      assert multiset(after)[k] == multiset(done)[k] + if k == kind then 1 else 0;
      assert k !in done ==> multiset(done)[k] == 0;
    }
  }

  lemma MessageBytes(rest: seq<byte>, m: Message)
    requires m.Valid() && |rest| >= 3 + |m.body| && Word16(rest[0], rest[1]) == |m.body|
    requires rest[2] == m.kind && rest[3..3 + |m.body|] == m.body
    ensures rest == m.Encode() + rest[3 + |m.body|..]
  {
    assert rest == rest[..3] + rest[3..3 + |m.body|] + rest[3 + |m.body|..];
  }

  /** Whatever the walk accepts is a sequence of complete messages. */
  lemma {:induction false} WalkSound(rest: seq<byte>, counts: map<byte, nat>) returns (ms: seq<Message>)
    requires Walk(rest, counts).Ok?
    ensures AllMessages(ms) && rest == EncodeMessages(ms)
    decreases |rest|
  {
    if rest == [] {
      ms := [];
    } else {
      var size := Word16(rest[0], rest[1]);
      var m := Message(rest[2], rest[3..3 + size]);
      var later := WalkSound(rest[3 + size..], Bump(counts, rest[2]));
      ms := [m] + later;
      MessageBytes(rest, m);
      assert ms[1..] == later;
    }
  }

  /** The walk accepts exactly the files that are a header and complete messages. */
  lemma CountsOfUlog(data: seq<byte>)
    ensures CountsOf(data).Ok? <==> exists ms :: IsUlog(data, ms)
    ensures forall ms :: IsUlog(data, ms) ==> CountsOf(data).Ok? && Tallies(CountsOf(data).value, Kinds(ms))
  {
    forall ms | IsUlog(data, ms)
      ensures CountsOf(data).Ok? && Tallies(CountsOf(data).value, Kinds(ms))
    {
      WalkAccepts(ms, map[]);
      BumpAllTallies(map[], [], Kinds(ms));
      assert [] + Kinds(ms) == Kinds(ms);
    }
    if CountsOf(data).Ok? {
      var ms := WalkSound(data[ULOG_HEADER_LEN..], map[]);
      assert IsUlog(data, ms);
    }
  }
}
