/**
  * The payload of one reassembled CRSF parameter entry. `ReadEntry` reads it by its declared type; `Encode`
  * writes it. `EntryExactly` says the two are inverse, so every payload byte is accounted for: consumed by
  * the declared type, or retained as the remainder.
  */
module CrsfEntry {
  import opened Common

  const HIDDEN_BIT := 128
  const FLOAT_TYPE := 8
  const SELECTION_TYPE := 9
  const STRING_TYPE := 10
  const FOLDER_TYPE := 11
  const INFO_TYPE := 12
  const COMMAND_TYPE := 13

  datatype EntryError = Unterminated | ShortPayload

  /** The fields each declared type carries after its parent folder and type byte. */
  datatype Body =
    | Unread                      // unknown, deprecated or out-of-range type: no field is read
    | Float(name: seq<byte>, value: int, low: int, high: int, default: int, decimals: byte, step: int,
            unit: Option<seq<byte>>)
    | Selection(name: seq<byte>, options: seq<byte>, index: byte, first: byte, last: byte, initial: byte,
                unit: Option<seq<byte>>, choice: Option<seq<byte>>)
    | Text(name: seq<byte>, text: seq<byte>, maxLength: Option<byte>)
    | Info(name: seq<byte>, text: seq<byte>)
    | Named(name: seq<byte>)      // folder or command: only the name is read

  datatype Entry = Entry(parent: byte, kind: byte, hidden: bool, body: Body, consumed: nat, remainder: seq<byte>)

  /** The types whose payload is read at all. */
  predicate Readable(kind: nat) {
    8 <= kind <= 13
  }

  // ---------------------------------------------------------------- the label of a selection

  const SEPARATOR: byte := 59

  function Split(options: seq<byte>): (choices: seq<seq<byte>>)
    ensures |choices| > 0
    decreases |options|
  {
    if options == [] then [[]]
    else
      var later := Split(options[1..]);
      if options[0] == SEPARATOR then [[]] + later else [[options[0]] + later[0]] + later[1..]
  }

  function Join(choices: seq<seq<byte>>): seq<byte>
    requires |choices| > 0
    decreases |choices|
  {
    if |choices| == 1 then choices[0] else choices[0] + [SEPARATOR] + Join(choices[1..])
  }

  /** The label comes only from this entry's own list; an index beyond the list has none. */
  function LabelOf(options: seq<byte>, index: byte): Option<seq<byte>> {
    var choices := if options == [] then [] else Split(options);
    if index < |choices| then Some(choices[index]) else None
  }

  // ---------------------------------------------------------------- readers

  /** A reader returns what it read and the bytes after it, or refuses. */
  type Read<T> = Result<(T, seq<byte>), EntryError>

  /** One null-terminated string. */
  function ReadString(rest: seq<byte>): Read<seq<byte>>
    decreases |rest|
  {
    if rest == [] then Err(Unterminated)
    else if rest[0] == 0 then Ok(([], rest[1..]))
    else
      var (text, after) :- ReadString(rest[1..]);
      Ok(([rest[0]] + text, after))
  }

  function Signed32(a: byte, b: byte, c: byte, d: byte): int {
    var n := 0x100_0000 * a + 0x1_0000 * b + 256 * c + d;
    if n >= 0x8000_0000 then n - 0x1_0000_0000 else n
  }

  /** Big endian and signed, as every 32-bit field of the payload is. */
  function ReadSigned32(rest: seq<byte>): Read<int> {
    if |rest| < 4 then Err(ShortPayload) else Ok((Signed32(rest[0], rest[1], rest[2], rest[3]), rest[4..]))
  }

  function ReadByte(rest: seq<byte>): Read<byte> {
    if |rest| < 1 then Err(ShortPayload) else Ok((rest[0], rest[1..]))
  }

  /** A unit is optional: an exhausted payload has none. */
  function ReadUnit(rest: seq<byte>): Read<Option<seq<byte>>> {
    if rest == [] then Ok((None, []))
    else
      var (unit, after) :- ReadString(rest);
      Ok((Some(unit), after))
  }

  function ReadBody(kind: nat, rest: seq<byte>): Read<Body>
    requires Readable(kind)
  {
    var (name, r0) :- ReadString(rest);
    if kind == FLOAT_TYPE then
      var (value, r1) :- ReadSigned32(r0);
      var (low, r2) :- ReadSigned32(r1);
      var (high, r3) :- ReadSigned32(r2);
      var (default, r4) :- ReadSigned32(r3);
      var (decimals, r5) :- ReadByte(r4);
      var (step, r6) :- ReadSigned32(r5);
      var (unit, r7) :- ReadUnit(r6);
      Ok((Float(name, value, low, high, default, decimals, step, unit), r7))
    else if kind == SELECTION_TYPE then
      var (options, r1) :- ReadString(r0);
      var (index, r2) :- ReadByte(r1);
      var (first, r3) :- ReadByte(r2);
      var (last, r4) :- ReadByte(r3);
      var (initial, r5) :- ReadByte(r4);
      var (unit, r6) :- ReadUnit(r5);
      Ok((Selection(name, options, index, first, last, initial, unit, LabelOf(options, index)), r6))
    else if kind == STRING_TYPE then
      var (text, r1) :- ReadString(r0);
      if r1 == [] then Ok((Text(name, text, None), [])) else Ok((Text(name, text, Some(r1[0])), r1[1..]))
    else if kind == INFO_TYPE then
      var (text, r1) :- ReadString(r0);
      Ok((Info(name, text), r1))
    else
      Ok((Named(name), r0))
  }

  function ReadEntry(payload: seq<byte>): Result<Entry, EntryError> {
    if |payload| < 2 then Err(ShortPayload)
    else
      var kind: byte := payload[1] % HIDDEN_BIT;
      var hidden := payload[1] >= HIDDEN_BIT;
      if !Readable(kind) then Ok(Entry(payload[0], kind, hidden, Unread, 2, payload[2..]))
      else
        var (body, rest) :- ReadBody(kind, payload[2..]);
        Ok(Entry(payload[0], kind, hidden, body, if |rest| <= |payload| then |payload| - |rest| else 0, rest))
  }

  // ---------------------------------------------------------------- writers

  predicate Plain(s: seq<byte>) {
    forall i | 0 <= i < |s| :: s[i] != 0
  }

  predicate Fits32(n: int) {
    -0x8000_0000 <= n < 0x8000_0000
  }

  function Write32(n: int): (s: seq<byte>)
    requires Fits32(n)
    ensures |s| == 4
  {
    var m := if n < 0 then n + 0x1_0000_0000 else n;
    [m / 0x100_0000, m / 0x1_0000 % 256, m / 256 % 256, m % 256]
  }

  function WriteUnit(unit: Option<seq<byte>>): seq<byte> {
    match unit
    case None => []
    case Some(u) => u + [0]
  }

  predicate ValidBody(kind: nat, body: Body) {
    match body
    case Unread => !Readable(kind)
    case Float(name, value, low, high, default, _, step, unit) =>
      kind == FLOAT_TYPE && Plain(name) && Fits32(value) && Fits32(low) && Fits32(high) && Fits32(default)
      && Fits32(step) && (unit.Some? ==> Plain(unit.value))
    case Selection(name, options, index, _, _, _, unit, choice) =>
      kind == SELECTION_TYPE && Plain(name) && Plain(options) && (unit.Some? ==> Plain(unit.value))
      && choice == LabelOf(options, index)
    case Text(name, text, _) => kind == STRING_TYPE && Plain(name) && Plain(text)
    case Info(name, text) => kind == INFO_TYPE && Plain(name) && Plain(text)
    case Named(name) => (kind == FOLDER_TYPE || kind == COMMAND_TYPE) && Plain(name)
  }

  /** The body lacks a trailing optional field, which is only possible when nothing follows it. */
  predicate EndsPayload(body: Body) {
    match body
    case Float(_, _, _, _, _, _, _, unit) => unit.None?
    case Selection(_, _, _, _, _, _, unit, _) => unit.None?
    case Text(_, _, maxLength) => maxLength.None?
    case _ => false
  }

  function WriteBody(kind: nat, body: Body): seq<byte>
    requires ValidBody(kind, body)
  {
    match body
    case Unread => []
    case Float(name, value, low, high, default, decimals, step, unit) =>
      name + [0] + (Write32(value) + (Write32(low) + (Write32(high) + (Write32(default)
      + ([decimals] + (Write32(step) + WriteUnit(unit)))))))
    case Selection(name, options, index, first, last, initial, unit, _) =>
      name + [0] + (options + [0] + ([index] + ([first] + ([last] + ([initial] + WriteUnit(unit))))))
    case Text(name, text, maxLength) =>
      name + [0] + (text + [0] + (if maxLength.Some? then [maxLength.value] else []))
    case Info(name, text) => name + [0] + (text + [0])
    case Named(name) => name + [0]
  }

  predicate ValidEntry(e: Entry) {
    && e.kind < HIDDEN_BIT && ValidBody(e.kind, e.body)
    && e.consumed == 2 + |WriteBody(e.kind, e.body)|
    && (EndsPayload(e.body) ==> e.remainder == [])
  }

  function Encode(e: Entry): seq<byte>
    requires ValidEntry(e)
  {
    [e.parent, if e.hidden then e.kind + HIDDEN_BIT else e.kind] + (WriteBody(e.kind, e.body) + e.remainder)
  }

  // ---------------------------------------------------------------- reading and writing are inverse

  lemma {:induction false} StringWritten(s: seq<byte>, after: seq<byte>)
    requires Plain(s)
    ensures ReadString(s + [0] + after) == Ok((s, after))
    decreases |s|
  {
    var rest := s + [0] + after;
    if s == [] {
      assert rest[1..] == after;
    } else {
      assert rest[1..] == s[1..] + [0] + after;
      StringWritten(s[1..], after);
      assert [s[0]] + s[1..] == s;
    }
  }

  lemma {:induction false} StringRead(rest: seq<byte>)
    requires ReadString(rest).Ok?
    ensures var (s, after) := ReadString(rest).value; Plain(s) && rest == s + [0] + after
    decreases |rest|
  {
    if rest[0] != 0 {
      StringRead(rest[1..]);
      var (s, after) := ReadString(rest[1..]).value;
      assert rest == [rest[0]] + rest[1..];
    }
  }

  lemma SignedWritten(n: int, after: seq<byte>)
    requires Fits32(n)
    ensures ReadSigned32(Write32(n) + after) == Ok((n, after))
  {
    var rest := Write32(n) + after;
    assert rest[..4] == Write32(n) && forall i | 0 <= i < 4 :: rest[i] == Write32(n)[i];
    assert rest[4..] == after;
    WordDigits(if n < 0 then n + 0x1_0000_0000 else n);
  }

  lemma WordDigits(m: nat)
    requires m < 0x1_0000_0000
    ensures 0x100_0000 * (m / 0x100_0000) + 0x1_0000 * (m / 0x1_0000 % 256) + 256 * (m / 256 % 256) + m % 256 == m
  {
    var h1 := m / 256;
    var h2 := h1 / 256;
    assert m / 0x1_0000 == h2;
    assert m / 0x100_0000 == h2 / 256;
  }

  lemma SignedRead(rest: seq<byte>)
    requires ReadSigned32(rest).Ok?
    ensures var (n, after) := ReadSigned32(rest).value; Fits32(n) && rest == Write32(n) + after
  {
    DigitsWord(rest[0], rest[1], rest[2], rest[3]);
  }

  lemma DigitsWord(a: byte, b: byte, c: byte, d: byte)
    ensures Fits32(Signed32(a, b, c, d)) && Write32(Signed32(a, b, c, d)) == [a, b, c, d]
  {
    var m: nat := 0x100_0000 * a + 0x1_0000 * b + 256 * c + d;
    assert m / 256 == 0x1_0000 * a + 256 * b + c;
    assert m / 0x1_0000 == 256 * a + b;
    assert m / 0x100_0000 == a;
  }

  lemma UnitWritten(unit: Option<seq<byte>>, after: seq<byte>)
    requires (unit.Some? ==> Plain(unit.value)) && (unit.None? ==> after == [])
    ensures ReadUnit(WriteUnit(unit) + after) == Ok((unit, after))
  {
    if unit.Some? {
      StringWritten(unit.value, after);
    }
  }

  lemma UnitRead(rest: seq<byte>)
    requires ReadUnit(rest).Ok?
    ensures var (unit, after) := ReadUnit(rest).value;
            (unit.Some? ==> Plain(unit.value)) && (unit.None? ==> after == []) && rest == WriteUnit(unit) + after
  {
    if rest != [] {
      StringRead(rest);
    }
  }

  /** A written body, whatever may follow it, is read back exactly. */
  lemma BodyWritten(kind: nat, body: Body, after: seq<byte>)
    requires Readable(kind) && ValidBody(kind, body) && (EndsPayload(body) ==> after == [])
    ensures ReadBody(kind, WriteBody(kind, body) + after) == Ok((body, after))
  {
    hide LabelOf, ReadString, ReadSigned32, Write32, ReadUnit, WriteUnit;
    match body
    case Float(_, _, _, _, _, _, _, _) => FloatWritten(body, after);
    case Selection(_, _, _, _, _, _, _, _) => SelectionWritten(body, after);
    case Text(name, text, maxLength) =>
      var r1 := (if maxLength.Some? then [maxLength.value] else []) + after;
      assert WriteBody(kind, body) + after == name + [0] + (text + [0] + r1);
      StringWritten(name, text + [0] + r1);
      StringWritten(text, r1);
      assert maxLength.Some? ==> r1[1..] == after;
    case Info(name, text) =>
      assert WriteBody(kind, body) + after == name + [0] + (text + [0] + after);
      StringWritten(name, text + [0] + after);
      StringWritten(text, after);
    case Named(name) =>
      StringWritten(name, after);
  }

  lemma FloatWritten(body: Body, after: seq<byte>)
    requires body.Float? && ValidBody(FLOAT_TYPE, body) && (EndsPayload(body) ==> after == [])
    ensures ReadBody(FLOAT_TYPE, WriteBody(FLOAT_TYPE, body) + after) == Ok((body, after))
  {
    hide ReadString, ReadSigned32, Write32, ReadUnit, WriteUnit;
    var r6 := WriteUnit(body.unit) + after;
    var r5 := Write32(body.step) + r6;
    var r4 := [body.decimals] + r5;
    var r3 := Write32(body.default) + r4;
    var r2 := Write32(body.high) + r3;
    var r1 := Write32(body.low) + r2;
    var r0 := Write32(body.value) + r1;
    assert WriteBody(FLOAT_TYPE, body) + after == body.name + [0] + r0;
    StringWritten(body.name, r0);
    SignedWritten(body.value, r1);
    SignedWritten(body.low, r2);
    SignedWritten(body.high, r3);
    SignedWritten(body.default, r4);
    assert r4[1..] == r5;
    SignedWritten(body.step, r6);
    UnitWritten(body.unit, after);
  }

  lemma SelectionWritten(body: Body, after: seq<byte>)
    requires body.Selection? && ValidBody(SELECTION_TYPE, body) && (EndsPayload(body) ==> after == [])
    ensures ReadBody(SELECTION_TYPE, WriteBody(SELECTION_TYPE, body) + after) == Ok((body, after))
  {
    hide LabelOf, ReadString, ReadUnit, WriteUnit;
    var r5 := WriteUnit(body.unit) + after;
    var r4 := [body.initial] + r5;
    var r3 := [body.last] + r4;
    var r2 := [body.first] + r3;
    var r1 := [body.index] + r2;
    var r0 := body.options + [0] + r1;
    assert WriteBody(SELECTION_TYPE, body) + after == body.name + [0] + r0;
    StringWritten(body.name, r0);
    StringWritten(body.options, r1);
    assert r1[1..] == r2 && r2[1..] == r3 && r3[1..] == r4 && r4[1..] == r5;
    UnitWritten(body.unit, after);
  }

  /** A body that can be read is a written body. */
  lemma BodyRead(kind: nat, rest: seq<byte>)
    requires Readable(kind) && ReadBody(kind, rest).Ok?
    ensures var (body, after) := ReadBody(kind, rest).value;
            ValidBody(kind, body) && (EndsPayload(body) ==> after == []) && rest == WriteBody(kind, body) + after
  {
    hide LabelOf, ReadString, ReadSigned32, Write32, ReadUnit, WriteUnit;
    var (name, r0) := ReadString(rest).value;
    StringRead(rest);
    if kind == FLOAT_TYPE {
      FloatRead(rest, name, r0);
    } else if kind == SELECTION_TYPE {
      SelectionRead(rest, name, r0);
    } else if kind == STRING_TYPE {
      StringRead(r0);
      var (text, r1) := ReadString(r0).value;
      assert r1 != [] ==> r1 == [r1[0]] + r1[1..];
    } else if kind == INFO_TYPE {
      StringRead(r0);
    }
  }

  lemma FloatRead(rest: seq<byte>, name: seq<byte>, r0: seq<byte>)
    requires ReadBody(FLOAT_TYPE, rest).Ok? && ReadString(rest) == Ok((name, r0))
    requires Plain(name) && rest == name + [0] + r0
    ensures var (body, after) := ReadBody(FLOAT_TYPE, rest).value;
            ValidBody(FLOAT_TYPE, body) && (EndsPayload(body) ==> after == [])
            && rest == WriteBody(FLOAT_TYPE, body) + after
  {
    hide ReadString, ReadSigned32, Write32, ReadUnit, WriteUnit;
    var (value, r1) := ReadSigned32(r0).value;
    var (low, r2) := ReadSigned32(r1).value;
    var (high, r3) := ReadSigned32(r2).value;
    var (default, r4) := ReadSigned32(r3).value;
    var (decimals, r5) := ReadByte(r4).value;
    var (step, r6) := ReadSigned32(r5).value;
    var (unit, r7) := ReadUnit(r6).value;
    SignedRead(r0);
    SignedRead(r1);
    SignedRead(r2);
    SignedRead(r3);
    assert r4 == [decimals] + r5;
    SignedRead(r5);
    UnitRead(r6);
  }

  lemma SelectionParts(name: seq<byte>, options: seq<byte>, index: byte, first: byte, last: byte, initial: byte,
                       unit: Option<seq<byte>>, after: seq<byte>)
    requires ValidBody(SELECTION_TYPE,
                       Selection(name, options, index, first, last, initial, unit, LabelOf(options, index)))
    ensures WriteBody(SELECTION_TYPE,
                      Selection(name, options, index, first, last, initial, unit, LabelOf(options, index))) + after
         == name + [0]
            + (options + [0] + ([index] + ([first] + ([last] + ([initial] + (WriteUnit(unit) + after))))))
  {
    hide LabelOf, WriteUnit;
  }

  lemma SelectionRead(rest: seq<byte>, name: seq<byte>, r0: seq<byte>)
    requires ReadBody(SELECTION_TYPE, rest).Ok? && ReadString(rest) == Ok((name, r0))
    requires Plain(name) && rest == name + [0] + r0
    ensures var (body, after) := ReadBody(SELECTION_TYPE, rest).value;
            ValidBody(SELECTION_TYPE, body) && (EndsPayload(body) ==> after == [])
            && rest == WriteBody(SELECTION_TYPE, body) + after
  {
    hide LabelOf, ReadString, ReadUnit, WriteUnit;
    StringRead(r0);
    var (options, r1) := ReadString(r0).value;
    BytesRead(r1);
    var (index, r2) := ReadByte(r1).value;
    var (first, r3) := ReadByte(r2).value;
    var (last, r4) := ReadByte(r3).value;
    var (initial, r5) := ReadByte(r4).value;
    BytesRead(r2);
    BytesRead(r3);
    BytesRead(r4);
    UnitRead(r5);
    SelectionParts(name, options, index, first, last, initial, ReadUnit(r5).value.0, ReadUnit(r5).value.1);
    hide WriteBody;
  }

  lemma BytesRead(rest: seq<byte>)
    ensures ReadByte(rest).Ok? ==> rest == [ReadByte(rest).value.0] + ReadByte(rest).value.1
  {
  }

  /** The payloads that are read as entry `e` are exactly the one that `e` writes: no byte is lost or invented. */
  lemma EntryExactly(payload: seq<byte>, e: Entry)
    ensures ReadEntry(payload) == Ok(e) <==> ValidEntry(e) && payload == Encode(e)
  {
    hide ReadBody, WriteBody;
    if ReadEntry(payload) == Ok(e) {
      assert payload == payload[..2] + payload[2..];
      if Readable(e.kind) {
        BodyRead(e.kind, payload[2..]);
        assert payload[2..] == WriteBody(e.kind, e.body) + e.remainder;
      } else {
        NothingWritten(e.kind);
      }
      assert payload[..2] == [e.parent, if e.hidden then e.kind + HIDDEN_BIT else e.kind];
    }
    if ValidEntry(e) && payload == Encode(e) {
      EntryWritten(e);
    }
  }

  lemma EntryWritten(e: Entry)
    requires ValidEntry(e)
    ensures ReadEntry(Encode(e)) == Ok(e)
  {
    hide ReadBody, WriteBody;
    var payload := Encode(e);
    var written := WriteBody(e.kind, e.body) + e.remainder;
    assert payload[0] == e.parent && payload[1] == if e.hidden then e.kind + HIDDEN_BIT else e.kind;
    assert payload[2..] == written;
    assert payload[1] % HIDDEN_BIT == e.kind && (payload[1] >= HIDDEN_BIT <==> e.hidden);
    if Readable(e.kind) {
      BodyWritten(e.kind, e.body, e.remainder);
      assert |payload| - |e.remainder| == e.consumed;
    } else {
      NothingWritten(e.kind);
      assert written == e.remainder;
    }
  }

  lemma NothingWritten(kind: nat)
    requires !Readable(kind)
    ensures forall body | ValidBody(kind, body) :: body == Unread && WriteBody(kind, body) == []
    ensures ValidBody(kind, Unread)
  {
  }

  /** What the declared type consumed and what is left over are the whole payload. */
  lemma EveryByteAccounted(payload: seq<byte>)
    requires ReadEntry(payload).Ok?
    ensures var e := ReadEntry(payload).value;
            2 <= e.consumed && e.consumed + |e.remainder| == |payload| && payload[e.consumed..] == e.remainder
  {
    var e := ReadEntry(payload).value;
    EntryExactly(payload, e);
  }

  // ---------------------------------------------------------------- what the label means

  /** The choices are the separator-free pieces whose joining is the reported list. */
  lemma {:induction false} SplitJoins(options: seq<byte>)
    ensures Join(Split(options)) == options
    ensures forall i | 0 <= i < |Split(options)| :: SEPARATOR !in Split(options)[i]
    decreases |options|
  {
    if options != [] {
      var later := Split(options[1..]);
      SplitJoins(options[1..]);
      assert options == [options[0]] + options[1..];
      if options[0] == SEPARATOR {
        assert ([[]] + later)[1..] == later;
      } else {
        var first := [options[0]] + later[0];
        assert ([first] + later[1..])[1..] == later[1..];
      }
    }
  }

  ghost predicate Pieces(choices: seq<seq<byte>>) {
    |choices| > 0 && forall i | 0 <= i < |choices| :: SEPARATOR !in choices[i]
  }

  lemma {:induction false} SplitPiece(piece: seq<byte>, rest: seq<byte>)
    requires SEPARATOR !in piece
    ensures Split(piece + [SEPARATOR] + rest) == [piece] + Split(rest)
  {
    var s := piece + [SEPARATOR] + rest;
    if piece == [] {
      assert s[1..] == rest;
    } else {
      assert s[1..] == piece[1..] + [SEPARATOR] + rest;
      SplitPiece(piece[1..], rest);
      assert [piece[0]] + piece[1..] == piece;
      assert ([piece[1..]] + Split(rest))[1..] == Split(rest);
    }
  }

  lemma {:induction false} SplitWhole(piece: seq<byte>)
    requires SEPARATOR !in piece
    ensures Split(piece) == [piece]
  {
    if piece != [] {
      SplitWhole(piece[1..]);
      assert [piece[0]] + piece[1..] == piece;
    }
  }

  /** There is only one way to cut a list into separator-free pieces. */
  lemma {:induction false} SplitOnce(choices: seq<seq<byte>>)
    requires Pieces(choices)
    ensures Split(Join(choices)) == choices
  {
    hide Split;
    if |choices| == 1 {
      SplitWhole(choices[0]);
    } else {
      SplitOnce(choices[1..]);
      SplitPiece(choices[0], Join(choices[1..]));
    }
  }

  /**
    * The label of a selection is the choice its index reaches in the reported list, cut at its separators; an
    * empty list has no choice, and an index the list does not reach has no label.
    */
  lemma LabelExactly(payload: seq<byte>, choice: seq<byte>)
    requires ReadEntry(payload).Ok? && ReadEntry(payload).value.body.Selection?
    ensures var body := ReadEntry(payload).value.body;
            body.choice == Some(choice)
            <==> body.options != []
                 && exists choices :: Pieces(choices) && Join(choices) == body.options
                                      && body.index < |choices| && choices[body.index] == choice
  {
    hide ReadEntry, Split, Join, Plain;
    var body := ReadEntry(payload).value.body;
    EntryExactly(payload, ReadEntry(payload).value);
    SplitJoins(body.options);
    if body.choice == Some(choice) {
      assert Pieces(Split(body.options));
    }
    forall choices | Pieces(choices) && Join(choices) == body.options
      ensures choices == Split(body.options)
    {
      SplitOnce(choices);
    }
  }
}
