/**
  * A saved text that may be the producer's boot-after-watchdog statement, cut to fifty bytes. The decoder reads
  * the fields that lie wholly before the cut; the theorems say what a text the producer printed can yield.
  */
module Watchdog {
  import opened Common
  import opened WatchdogText

  const PREFIX := "WDG:"

  /** One MSG record: its text, one byte a character, its chunk sequence, and whether it declares the caller format. */
  datatype Message = Message(text: string, sequence: Option<nat>, declared: bool)

  datatype Disposition =
    | NonzeroChunk | LongUndeclared | Short | NotPrefixed | Malformed | NothingWhole | IncompleteDeclared
    | PrefixDecoded | AllDecoded

  datatype Outcome = Outcome(disposition: Disposition, fields: seq<Field>, unrecoverable: seq<string>) {
    predicate Qualified() {
      disposition.PrefixDecoded? || disposition.AllDecoded?
    }
  }

  function NamesFrom(i: nat): (names: seq<string>)
    requires i <= FIELDS
    ensures |names| == FIELDS - i
    decreases FIELDS - i
  {
    if i == FIELDS then [] else [Tokens()[i].name] + NamesFrom(i + 1)
  }

  predicate StartsWith(word: string, name: string) {
    name <= word
  }

  /** What follows the token's name. */
  function Body(word: string, name: string): string
    requires StartsWith(word, name)
  {
    word[|name|..]
  }

  datatype Reading = Reading(fields: seq<Field>, malformed: bool)

  /** What the tokens from the `i`th on read from the words. */
  function Scan(words: seq<string>, truncated: bool, i: nat): (r: Reading)
    requires i <= FIELDS
    ensures |r.fields| <= FIELDS - i
    decreases FIELDS - i
  {
    if i == FIELDS || i + 1 >= |words| then Reading([], false)
    else if !StartsWith(words[i + 1], Tokens()[i].name) then Reading([], true)
    else if truncated && i + 1 == |words| - 1 then Reading([], false)
    else
      match ReadBody(Tokens()[i].kind, Body(words[i + 1], Tokens()[i].name))
      case None => Reading([], true)
      case Some(f) =>
        var others := Scan(words, truncated, i + 1);
        Reading([f] + others.fields, others.malformed)
  }

  function Decoded(msg: Message): Outcome {
    if msg.sequence.Some? && msg.sequence.value != 0 then Outcome(NonzeroChunk, [], [])
    else if |msg.text| > CUT && !msg.declared then Outcome(LongUndeclared, [], [])
    else if |msg.text| < CUT then Outcome(Short, [], [])
    else
      var words := Split(msg.text);
      if words[0] != PREFIX then Outcome(NotPrefixed, [], [])
      else
        var r := Scan(words, |msg.text| == CUT, 0);
        if r.malformed then Outcome(Malformed, [], [])
        else if r.fields == [] then Outcome(NothingWhole, [], NamesFrom(0))
        else if |msg.text| > CUT && (|r.fields| < FIELDS || |words| != FIELDS + 1)
             then Outcome(IncompleteDeclared, [], [])
        else Outcome(if |r.fields| < FIELDS then PrefixDecoded else AllDecoded, r.fields, NamesFrom(|r.fields|))
  }

  /** How one token adds to what the later ones read. */
  lemma ScanStep(words: seq<string>, truncated: bool, i: nat, read: seq<Field>, all: Reading)
    requires i < FIELDS && all == Reading(read + Scan(words, truncated, i).fields, Scan(words, truncated, i).malformed)
    ensures i + 1 >= |words| ==> all == Reading(read, false)
    ensures i + 1 < |words| && !StartsWith(words[i + 1], Tokens()[i].name) ==> all == Reading(read, true)
    ensures i + 1 < |words| && StartsWith(words[i + 1], Tokens()[i].name) && truncated && i + 1 == |words| - 1 ==>
              all == Reading(read, false)
    ensures i + 1 < |words| && StartsWith(words[i + 1], Tokens()[i].name) && !(truncated && i + 1 == |words| - 1) ==>
              var f := ReadBody(Tokens()[i].kind, Body(words[i + 1], Tokens()[i].name));
              && (f.None? ==> all == Reading(read, true))
              && (f.Some? ==> all == Reading(read + [f.value] + Scan(words, truncated, i + 1).fields,
                                             Scan(words, truncated, i + 1).malformed))
  {
    hide ReadBody, Tokens, StartsWith, Body;
  }

  /** The decoder's loop over the tokens. */
  method ReadTokens(words: seq<string>, truncated: bool)
    returns (row: seq<Field>, unrecoverable: seq<string>, position: nat, malformed: bool)
    ensures Reading(row, malformed) == Scan(words, truncated, 0)
    ensures |row| <= FIELDS && unrecoverable == NamesFrom(|row|) && position == |row| + 1
  {
    hide ReadBody, Tokens, NamesFrom, StartsWith, Scan, Body;
    row, unrecoverable, position, malformed := [], [], 1, false;
    var index: nat := 0;
    while index < FIELDS
      invariant index <= FIELDS && position == index + 1 && |row| == index
      invariant !malformed && unrecoverable == []
      invariant Scan(words, truncated, 0)
             == Reading(row + Scan(words, truncated, index).fields, Scan(words, truncated, index).malformed)
    {
      ScanStep(words, truncated, index, row, Scan(words, truncated, 0));
      var token := Tokens()[index];
      if position >= |words| {
        unrecoverable := NamesFrom(index);
        return;
      }
      var word := words[position];
      if !StartsWith(word, token.name) {
        malformed, unrecoverable := true, NamesFrom(index);
        return;
      }
      if truncated && position == |words| - 1 {
        unrecoverable := NamesFrom(index);
        return;
      }
      var field := ReadBody(token.kind, Body(word, token.name));
      if field.None? {
        malformed, unrecoverable := true, NamesFrom(index);
        return;
      }
      row := row + [field.value];
      position, index := position + 1, index + 1;
    }
    NothingMore(words, truncated);
  }

  lemma NothingMore(words: seq<string>, truncated: bool)
    ensures NamesFrom(FIELDS) == [] && Scan(words, truncated, FIELDS) == Reading([], false)
  {
  }

  method Decode(msg: Message) returns (outcome: Outcome)
    ensures outcome == Decoded(msg)
  {
    hide Scan, Split, NamesFrom;
    if msg.sequence.Some? && msg.sequence.value != 0 {
      return Outcome(NonzeroChunk, [], []);
    }
    var truncated, complete := |msg.text| == CUT, false;
    if |msg.text| > CUT {
      if !msg.declared {
        return Outcome(LongUndeclared, [], []);
      }
      complete := true;
    } else if |msg.text| < CUT {
      return Outcome(Short, [], []);
    }
    var words := Split(msg.text);
    if words[0] != PREFIX {
      return Outcome(NotPrefixed, [], []);
    }
    var row, unrecoverable, position, malformed := ReadTokens(words, truncated);
    if malformed {
      return Outcome(Malformed, [], []);
    }
    if row == [] {
      return Outcome(NothingWhole, [], unrecoverable);
    }
    if complete && (unrecoverable != [] || position != |words|) {
      return Outcome(IncompleteDeclared, [], []);
    }
    outcome := Outcome(if unrecoverable != [] then PrefixDecoded else AllDecoded, row, unrecoverable);
  }

  // ---------------------------------------------------------------- what qualifies at all

  /** Each field read is the reading of its own word, behind its own token. */
  lemma {:induction false} ScanReads(words: seq<string>, truncated: bool, i: nat, k: nat)
    requires i <= FIELDS && k < |Scan(words, truncated, i).fields|
    ensures i + k + 1 < |words| - (if truncated then 1 else 0) && i + k < FIELDS
    ensures StartsWith(words[i + k + 1], Tokens()[i + k].name)
    ensures ReadBody(Tokens()[i + k].kind, Body(words[i + k + 1], Tokens()[i + k].name))
         == Some(Scan(words, truncated, i).fields[k])
    decreases k
  {
    hide ReadBody, Tokens;
    if k > 0 {
      ScanReads(words, truncated, i + 1, k - 1);
    }
  }

  lemma ReadInDomain(kind: Kind, body: string)
    ensures ReadBody(kind, body).Some? ==> InDomain(kind, ReadBody(kind, body).value)
  {
  }

  /** The `k`th field is the value of its own word, behind its own token and within its conversion's domain. */
  predicate FieldRead(words: seq<string>, f: Field, k: nat) {
    && k < FIELDS && k + 1 < |words| && StartsWith(words[k + 1], Tokens()[k].name)
    && ReadBody(Tokens()[k].kind, Body(words[k + 1], Tokens()[k].name)) == Some(f)
    && InDomain(Tokens()[k].kind, f)
  }

  /**
    * Any text that qualifies accounts for all thirteen fields, and each decoded one is the value of its own word
    * within the domain of its conversion. A text longer than the cut qualifies only complete, with nothing after.
    */
  lemma QualifiedSound(msg: Message)
    requires Decoded(msg).Qualified()
    ensures var o, words := Decoded(msg), Split(msg.text);
            && |o.fields| >= 1 && |o.fields| + |o.unrecoverable| == FIELDS && words[0] == PREFIX
            && o.unrecoverable == NamesFrom(|o.fields|)
            && (forall k: nat | k < |o.fields| :: FieldRead(words, o.fields[k], k))
            && (|msg.text| > CUT ==> msg.declared && o.disposition == AllDecoded && |words| == FIELDS + 1)
  {
    hide ReadBody, Split, NamesFrom, Tokens, Scan, InDomain, StartsWith;
    var o, words := Decoded(msg), Split(msg.text);
    assert o.fields == Scan(words, |msg.text| == CUT, 0).fields;
    forall k: nat | k < |o.fields|
      ensures FieldRead(words, o.fields[k], k)
    {
      ScanReads(words, |msg.text| == CUT, 0, k);
      ReadInDomain(Tokens()[k].kind, Body(words[k + 1], Tokens()[k].name));
    }
  }

  // ---------------------------------------------------------------- what the producer prints

  /** Thirteen values the producer's conversions can be given. */
  predicate Printable(v: seq<Field>) {
    |v| == FIELDS && forall i | 0 <= i < FIELDS :: InDomain(Tokens()[i].kind, v[i])
  }

  function Words(v: seq<Field>): (words: seq<string>)
    requires Printable(v)
    ensures |words| == FIELDS + 1
  {
    [PREFIX] + seq(FIELDS, i requires 0 <= i < FIELDS => Tokens()[i].name + Print(Tokens()[i].kind, v[i]))
  }

  function ProducerText(v: seq<Field>): string
    requires Printable(v)
  {
    Join(Words(v))
  }

  /** The least offset at which each word can start. */
  const LEAST: seq<nat> := [0, 5, 8, 12, 16, 20, 24, 29, 34, 41, 45, 49, 53, 58]

  lemma WordOf(v: seq<Field>, i: nat)
    requires Printable(v) && i < FIELDS
    ensures Words(v)[i + 1] == Tokens()[i].name + Print(Tokens()[i].kind, v[i])
    ensures i < 12 ==> ' ' !in Words(v)[i + 1] && |Tokens()[i].name| + 1 <= |Words(v)[i + 1]| <= |Tokens()[i].name| + 11
    ensures StartsWith(Words(v)[i + 1], Tokens()[i].name)
    ensures ReadBody(Tokens()[i].kind, Body(Words(v)[i + 1], Tokens()[i].name)) == Some(v[i])
  {
    hide ReadBody, Print, Tokens;
    PrintedIsRead(Tokens()[i].kind, v[i]);
    NumbersFirst(i, v[i]);
    var name, printed := Tokens()[i].name, Print(Tokens()[i].kind, v[i]);
    assert (name + printed)[|name|..] == printed;
  }

  lemma NumbersFirst(i: nat, f: Field)
    requires i < FIELDS && InDomain(Tokens()[i].kind, f)
    ensures i < 12 ==> f.Number? && ' ' !in Tokens()[i].name
  {
  }

  lemma {:induction false} LeastOffset(v: seq<Field>, k: nat)
    requires Printable(v) && k <= 13
    ensures Offset(Words(v), k) >= LEAST[k]
  {
    hide Print, Words, Tokens;
    if k == 1 {
      assert Offset(Words(v), 0) == 0;
      FirstWord(v);
    } else if k > 1 {
      LeastOffset(v, k - 1);
      WordOf(v, k - 2);
      LeastStep(k - 2);
    }
  }

  lemma FirstWord(v: seq<Field>)
    requires Printable(v)
    ensures Words(v)[0] == PREFIX && |PREFIX| == 4
  {
  }

  lemma LeastStep(i: nat)
    requires i < 12
    ensures LEAST[i + 2] == LEAST[i + 1] + |Tokens()[i].name| + 2
  {
  }

  lemma TokenWords(v: seq<Field>)
    requires Printable(v)
    ensures Spaceless(Words(v)[..13])
  {
    hide Tokens, Print, Words;
    forall i | 0 <= i < 13
      ensures ' ' !in Words(v)[..13][i]
    {
      FirstWord(v);
      if i > 0 {
        WordOf(v, i - 1);
      }
    }
  }

  lemma {:induction false} OffsetPrefix(words: seq<string>, n: nat, k: nat)
    requires k <= n <= |words|
    ensures Offset(words[..n], k) == Offset(words, k)
  {
    if k > 0 {
      OffsetPrefix(words, n, k - 1);
    }
  }

  lemma {:induction false} JoinLength(words: seq<string>)
    requires words != []
    ensures |Join(words)| + 1 == Offset(words, |words|)
  {
    hide Offset, Join;
    if |words| == 1 {
      OneWord(words);
    } else {
      var others := words[1..];
      JoinLength(others);
      OffsetTail(words, |words|);
      JoinedLength(words);
    }
  }

  lemma OneWord(words: seq<string>)
    requires |words| == 1
    ensures |Join(words)| + 1 == Offset(words, 1)
  {
    assert Offset(words, 0) == 0;
  }

  lemma JoinedLength(words: seq<string>)
    requires |words| >= 2
    ensures |Join(words)| == |words[0]| + 1 + |Join(words[1..])|
  {
  }

  lemma {:induction false} JoinPrefix(words: seq<string>, n: nat)
    requires 1 <= n <= |words|
    ensures Join(words[..n]) <= Join(words)
  {
    if n == 1 {
      assert words[..1] == [words[0]];
    } else {
      JoinPrefix(words[1..], n - 1);
      assert words[..n][1..] == words[1..][..n - 1];
    }
  }

  /** No printed text fits inside the cut, so every native record is a cut one. */
  lemma TextLong(v: seq<Field>)
    requires Printable(v)
    ensures |ProducerText(v)| > CUT && |Join(Words(v)[..13])| > CUT
    ensures ProducerText(v)[..CUT] == Join(Words(v)[..13])[..CUT]
  {
    hide Words, Offset;
    LeastOffset(v, 13);
    OffsetPrefix(Words(v), 13, 13);
    JoinLength(Words(v)[..13]);
    JoinPrefix(Words(v), 13);
  }

  /** What a saved log retains of a printed text. */
  function CutText(v: seq<Field>): (text: string)
    requires Printable(v)
    ensures |text| == CUT
  {
    TextLong(v);
    ProducerText(v)[..CUT]
  }

  /** Where the cut falls: after at least the first token, and before the error mask could be read. */
  lemma CutFalls(v: seq<Field>) returns (k: nat, m: nat)
    requires Printable(v)
    ensures 2 <= k <= 11 && m <= |Words(v)[k]| && (k == 11 ==> m <= 1) && Offset(Words(v), k) + m == CUT
    ensures Split(CutText(v)) == Words(v)[..k] + [Words(v)[k][..m]]
  {
    hide Words, Split, Join, Offset, Spaceless;
    TextLong(v);
    TokenWords(v);
    var words := Words(v)[..13];
    k, m := CutSplits(words, CUT);
    OffsetPrefix(Words(v), 13, k);
    LeastOffset(v, k);
    FirstOffsets(v);
    assert words[k] == Words(v)[k] && words[..k] == Words(v)[..k];
  }

  lemma FirstOffsets(v: seq<Field>)
    requires Printable(v)
    ensures Offset(Words(v), 0) == 0 && Offset(Words(v), 1) == 5 && |Words(v)[0]| == 4 && |Words(v)[1]| <= 12
  {
    hide Words;
    FirstWord(v);
    WordOf(v, 0);
    assert Offset(Words(v), 1) == Offset(Words(v), 0) + 5;
  }

  /** Scanning words that were printed, the last of them cut: every whole word is read back, the cut one is not. */
  lemma {:induction false} ScanPrinted(v: seq<Field>, words: seq<string>, k: nat, m: nat, i: nat)
    requires Printable(v) && 1 <= k <= FIELDS && i < k && m <= |Words(v)[k]|
    requires words == Words(v)[..k] + [Words(v)[k][..m]]
    ensures Scan(words, true, i) == Reading(v[i..k - 1], m < |Tokens()[k - 1].name|)
    decreases k - i
  {
    hide Tokens, Words, ReadBody, Print, InDomain;
    WordOf(v, i);
    if i == k - 1 {
      assert words[i + 1] == Words(v)[k][..m];
      CutName(Tokens()[i].name, Words(v)[k], m);
    } else {
      assert words[i + 1] == Words(v)[i + 1];
      ScanPrinted(v, words, k, m, i + 1);
      assert v[i..k - 1] == [v[i]] + v[i + 1..k - 1];
    }
  }

  lemma CutName(name: string, word: string, m: nat)
    requires name <= word && m <= |word|
    ensures StartsWith(word[..m], name) <==> m >= |name|
  {
  }

  /** The last word of the text still shows the whole name of the token it belongs to. */
  predicate LastNameWhole(text: string) {
    var words := Split(text);
    2 <= |words| <= FIELDS + 1 && StartsWith(words[|words| - 1], Tokens()[|words| - 2].name)
  }

  /**
    * A printed text cut to fifty bytes qualifies exactly when the cut leaves the name of the last token whole.
    * It then reports a prefix of the thirteen fields with exactly the values printed: at least the scheduler task,
    * never the last MAVLink command or anything after it. A cut inside a name makes the whole text malformed.
    */
  lemma CutDecodedExactly(v: seq<Field>, msg: Message)
    requires Printable(v) && msg.text == CutText(v) && (msg.sequence.Some? ==> msg.sequence.value == 0)
    ensures var o := Decoded(msg);
            && (o.Qualified() <==> LastNameWhole(msg.text))
            && (o.Qualified() ==>
                  && 1 <= |o.fields| <= 9 && o.fields == v[..|o.fields|]
                  && o.disposition == PrefixDecoded && |o.fields| + |o.unrecoverable| == FIELDS)
            && (!o.Qualified() ==> o == Outcome(Malformed, [], []))
  {
    hide Words, Split, CutText, Scan, NamesFrom, InDomain, Tokens;
    var k, m := CutFalls(v);
    var words := Split(msg.text);
    ScanPrinted(v, words, k, m, 0);
    FirstWord(v);
    WordOf(v, k - 1);
    CutName(Tokens()[k - 1].name, Words(v)[k], m);
    assert words[0] == Words(v)[0];
    assert words[|words| - 1] == Words(v)[k][..m];
    NameLength(k - 1);
  }

  lemma NameLength(i: nat)
    requires i < FIELDS
    ensures |Tokens()[i].name| >= 1 && |Tokens()[10].name| == 2
  {
  }

  /** Every value zero and no thread name: a text the producer can print, whose cut falls inside a token's name. */
  function Zero(): (v: seq<Field>)
    ensures Printable(v)
  {
    seq(FIELDS, i => if i == FIELDS - 1 then Text("") else Number(0))
  }

  lemma {:induction false} ZeroOffset(k: nat)
    requires k <= 12
    ensures Offset(Words(Zero()), k) == LEAST[k]
  {
    if k == 1 {
      assert Offset(Words(Zero()), 0) == 0;
    } else if k > 1 {
      ZeroOffset(k - 1);
      LeastStep(k - 2);
      assert Words(Zero())[k - 1] == Tokens()[k - 2].name + "0";
    }
  }

  /** So not every printed text qualifies. */
  lemma ZeroMalformed(msg: Message)
    requires msg.text == CutText(Zero()) && (msg.sequence.Some? ==> msg.sequence.value == 0)
    ensures Decoded(msg) == Outcome(Malformed, [], [])
  {
    hide Words, Split, CutText, Scan, NamesFrom, InDomain, Tokens, Zero, Offset;
    var v := Zero();
    var k, m := CutFalls(v);
    ZeroOffset(k);
    ZeroOffset(11);
    if k < 11 {
      NextOffset(Words(v), k);
      ZeroOffset(k + 1);
    }
    CutDecodedExactly(v, msg);
    var words := Split(msg.text);
    assert words[|words| - 1] == Words(v)[k][..m];
    NameLength(10);
  }

  lemma NextOffset(words: seq<string>, k: nat)
    requires k < |words|
    ensures Offset(words, k + 1) == Offset(words, k) + |words[k]| + 1
  {
  }

  // ---------------------------------------------------------------- texts kept whole

  lemma {:induction false} ScanWhole(v: seq<Field>, i: nat)
    requires Printable(v) && i <= FIELDS
    ensures Scan(Words(v), false, i) == Reading(v[i..], false)
    decreases FIELDS - i
  {
    hide Tokens, Words, ReadBody, Print, InDomain;
    if i < FIELDS {
      WordOf(v, i);
      ScanWhole(v, i + 1);
      assert v[i..] == [v[i]] + v[i + 1..];
    }
  }

  lemma {:induction false} SplitAtLast(words: seq<string>)
    requires words != [] && Spaceless(words[..|words| - 1])
    ensures Split(Join(words)) == words[..|words| - 1] + Split(words[|words| - 1])
  {
    hide Split, Join, Spaceless;
    if |words| == 1 {
      OneWordJoined(words);
    } else {
      var others, init := words[1..], words[..|words| - 1];
      InitParts(words);
      SpacelessTail(init);
      SplitAtLast(others);
      JoinMore(words);
      SplitWord(words[0], Join(others));
    }
  }

  lemma InitParts(words: seq<string>)
    requires |words| >= 2
    ensures words[1..][..|words| - 2] == words[..|words| - 1][1..]
    ensures words[..|words| - 1] == [words[0]] + words[1..][..|words| - 2]
  {
  }

  lemma OneWordJoined(words: seq<string>)
    requires |words| == 1
    ensures Join(words) == words[0] && words[..0] == []
  {
  }

  lemma JoinMore(words: seq<string>)
    requires |words| >= 2
    ensures Join(words) == words[0] + " " + Join(words[1..])
  {
  }

  lemma {:induction false} SplitCount(w: string)
    ensures |Split(w)| >= 2 <==> ' ' in w
  {
    if w != "" {
      SplitCount(w[1..]);
      assert w == [w[0]] + w[1..];
    }
  }

  lemma LastWord(v: seq<Field>)
    requires Printable(v)
    ensures v[FIELDS - 1].Text? && Words(v)[FIELDS] == "TN:" + v[FIELDS - 1].s
    ensures ' ' in Words(v)[FIELDS] <==> ' ' in v[FIELDS - 1].s
  {
    assert Tokens()[FIELDS - 1] == Token("TN:", Name);
  }

  /** A declared whole text qualifies, with all thirteen values, exactly when the thread name holds no space. */
  lemma WholeDecodedExactly(v: seq<Field>, msg: Message)
    requires Printable(v) && msg.text == ProducerText(v) && msg.declared
    requires msg.sequence.Some? ==> msg.sequence.value == 0
    ensures v[FIELDS - 1].Text?
    ensures Decoded(msg).Qualified() <==> ' ' !in v[FIELDS - 1].s
    ensures Decoded(msg).Qualified() ==> Decoded(msg) == Outcome(AllDecoded, v, [])
  {
    hide Words, Split, Scan, InDomain, Tokens, Join, StartsWith, ReadBody, FieldRead;
    TextLong(v);
    TokenWords(v);
    LastWord(v);
    var words := Words(v);
    SplitAtLast(words);
    SplitCount(words[FIELDS]);
    if ' ' in v[FIELDS - 1].s {
      if Decoded(msg).Qualified() {
        QualifiedSound(msg);
      }
    } else {
      SplitOne(words[FIELDS]);
      assert words[..FIELDS] + [words[FIELDS]] == words;
      FirstWord(v);
      ScanWhole(v, 0);
      assert v[0..] == v;
    }
  }
}
