/** The pinned format as it is written, and which of the nine dispositions a saved text gets. */
module WatchdogOutcomes {
  import opened Common
  import opened Numerals
  import opened WatchdogText
  import opened Watchdog

  // ---------------------------------------------------------------- the format

  /** A number in decimal, and one in lower-case hexadecimal. */
  function Decimal(f: Field): string
    requires f.Number?
  {
    if f.n < 0 then "-" + Digits(-f.n, 10) else Digits(f.n, 10)
  }

  function Hexadecimal(f: Field): string
    requires f.Number? && f.n >= 0
  {
    Digits(f.n, 16)
  }

  /** Thirteen values of the format's conversions: signed, unsigned, and a thread name of four characters at most. */
  ghost predicate Values(v: seq<Field>) {
    && |v| == 13
    && v[0].Number? && -0x8000_0000 <= v[0].n < 0x8000_0000
    && (forall i | 1 <= i < 12 :: v[i].Number? && 0 <= v[i].n < 0x1_0000_0000)
    && v[12].Text? && |v[12].s| <= 4
  }

  lemma ValuesExactly(v: seq<Field>)
    ensures Values(v) <==> Printable(v)
  {
  }

  lemma JoinFour(a: string, b: string, c: string, d: string, others: seq<string>)
    requires others != []
    ensures Join([a, b, c, d] + others) == a + " " + b + " " + c + " " + d + " " + Join(others)
  {
    hide Join;
    JoinOne(a, [b, c, d] + others);
    JoinOne(b, [c, d] + others);
    JoinOne(c, [d] + others);
    JoinOne(d, others);
    assert [a] + ([b, c, d] + others) == [a, b, c, d] + others;
    assert [b] + ([c, d] + others) == [b, c, d] + others;
    assert [c] + ([d] + others) == [c, d] + others;
  }

  lemma JoinOne(a: string, others: seq<string>)
    requires others != []
    ensures Join([a] + others) == a + " " + Join(others)
  {
    assert ([a] + others)[1..] == others;
  }

  /** The text of thirteen values, written out as the producer's own format string has it. */
  lemma FormatExactly(v: seq<Field>)
    requires Values(v)
    ensures Printable(v)
    ensures ProducerText(v)
         == "WDG:" + " " + ("T" + Decimal(v[0])) + " " + ("SL" + Decimal(v[1])) + " " + ("FL" + Decimal(v[2])) + " "
            + (("FT" + Decimal(v[3])) + " " + ("FA" + Hexadecimal(v[4])) + " " + ("FTP" + Decimal(v[5])) + " "
               + ("FLR" + Hexadecimal(v[6])) + " "
               + (("FICSR" + Decimal(v[7])) + " " + ("MM" + Decimal(v[8])) + " " + ("MC" + Decimal(v[9])) + " "
                  + ("IE" + Decimal(v[10])) + " " + (("IEC" + Decimal(v[11])) + " " + ("TN:" + v[12].s))))
  {
    hide Join, Digits, Decimal, Hexadecimal, Words;
    ValuesExactly(v);
    var w := Words(v);
    WordsWritten(v);
    assert w == [w[0], w[1], w[2], w[3]] + ([w[4], w[5], w[6], w[7]] + ([w[8], w[9], w[10], w[11]] + [w[12], w[13]]));
    JoinFour(w[0], w[1], w[2], w[3], [w[4], w[5], w[6], w[7]] + ([w[8], w[9], w[10], w[11]] + [w[12], w[13]]));
    JoinFour(w[4], w[5], w[6], w[7], [w[8], w[9], w[10], w[11]] + [w[12], w[13]]);
    JoinFour(w[8], w[9], w[10], w[11], [w[12], w[13]]);
    JoinTwo(w[12], w[13]);
  }

  lemma JoinTwo(a: string, b: string)
    ensures Join([a, b]) == a + " " + b
  {
    assert [a, b][1..] == [b];
  }

  lemma WordsWritten(v: seq<Field>)
    requires Values(v) && Printable(v)
    ensures var w := Words(v);
            && w[0] == "WDG:" && w[1] == "T" + Decimal(v[0]) && w[2] == "SL" + Decimal(v[1])
            && w[3] == "FL" + Decimal(v[2]) && w[4] == "FT" + Decimal(v[3]) && w[5] == "FA" + Hexadecimal(v[4])
            && w[6] == "FTP" + Decimal(v[5]) && w[7] == "FLR" + Hexadecimal(v[6]) && w[8] == "FICSR" + Decimal(v[7])
            && w[9] == "MM" + Decimal(v[8]) && w[10] == "MC" + Decimal(v[9]) && w[11] == "IE" + Decimal(v[10])
            && w[12] == "IEC" + Decimal(v[11]) && w[13] == "TN:" + v[12].s
  {
    hide Digits;
  }

  /** Numerals are the usual ones. */
  lemma NumeralsWritten()
    ensures Digits(1970, 10) == "1970" && Digits(0xBEEF, 16) == "beef" && Digits(0, 10) == "0" && Digits(0, 16) == "0"
  {
    assert Digits(1, 10) == "1" && Digits(19, 10) == "19" && Digits(197, 10) == "197";
    assert Digits(0xB, 16) == "b" && Digits(0xBE, 16) == "be" && Digits(0xBEE, 16) == "bee";
  }

  // ---------------------------------------------------------------- the dispositions

  /** The words after the first that are whole. */
  function WholeWords(words: seq<string>, truncated: bool): int {
    |words| - 1 - if truncated then 1 else 0
  }

  /** The word of token `k` can be read: it is whole, begins with the token's name, and its rest converts. */
  predicate Reads(words: seq<string>, truncated: bool, k: nat) {
    && k < FIELDS && k < WholeWords(words, truncated) && StartsWith(words[k + 1], Tokens()[k].name)
    && ReadBody(Tokens()[k].kind, Body(words[k + 1], Tokens()[k].name)).Some?
  }

  /** The word of token `n` is none that the producer can have written there. */
  predicate Breaks(words: seq<string>, truncated: bool, n: nat) {
    && n < FIELDS && n + 1 < |words|
    && (!StartsWith(words[n + 1], Tokens()[n].name)
        || (n < WholeWords(words, truncated)
            && ReadBody(Tokens()[n].kind, Body(words[n + 1], Tokens()[n].name)) == None))
  }

  /** Exactly the first `n` words can be read. */
  predicate ReadsExactly(words: seq<string>, truncated: bool, n: nat) {
    (forall k: nat | k < n :: Reads(words, truncated, k)) && !Reads(words, truncated, n)
  }

  lemma {:induction false} ScanExactly(words: seq<string>, truncated: bool, i: nat, n: nat)
    requires i <= n && (forall k: nat | i <= k < n :: Reads(words, truncated, k)) && !Reads(words, truncated, n)
    requires i <= FIELDS
    ensures |Scan(words, truncated, i).fields| == n - i
    ensures Scan(words, truncated, i).malformed <==> Breaks(words, truncated, n)
    decreases n - i
  {
    hide ReadBody, Tokens, StartsWith, Body;
    if i < n {
      assert Reads(words, truncated, i);
      ScanExactly(words, truncated, i + 1, n);
    }
  }

  lemma FirstUnread(words: seq<string>, truncated: bool) returns (n: nat)
    ensures n <= FIELDS && ReadsExactly(words, truncated, n)
  {
    hide Reads;
    assert !Reads(words, truncated, FIELDS) by { NoMore(words, truncated); }
    n := 0;
    while Reads(words, truncated, n) && n < FIELDS
      invariant n <= FIELDS && forall k: nat | k < n :: Reads(words, truncated, k)
      decreases FIELDS - n
    {
      n := n + 1;
    }
  }

  lemma NoMore(words: seq<string>, truncated: bool)
    ensures !Reads(words, truncated, FIELDS)
  {
  }

  /** The text begins with the producer's prefix as a word of its own. */
  predicate Prefixed(text: string) {
    |text| >= 4 && text[..4] == "WDG:" && (|text| == 4 || text[4] == ' ')
  }

  lemma PrefixedExactly(text: string)
    ensures Split(text)[0] == "WDG:" <==> Prefixed(text)
  {
    if |text| >= 4 {
      var a, b, c, d := text[1..], text[2..], text[3..], text[4..];
      assert a[1..] == b && b[1..] == c && c[1..] == d;
      assert Split(text)[0] == (if text[0] == ' ' then "" else [text[0]] + Split(a)[0]);
      assert Split(a)[0] == (if a[0] == ' ' then "" else [a[0]] + Split(b)[0]);
      assert Split(b)[0] == (if b[0] == ' ' then "" else [b[0]] + Split(c)[0]);
      assert Split(c)[0] == (if c[0] == ' ' then "" else [c[0]] + Split(d)[0]);
      assert Split(d)[0] == "" <==> d == "" || d[0] == ' ';
      FourLetters(text, Split(d)[0]);
    } else {
      FirstShort(text);
    }
  }

  lemma FirstShort(text: string)
    ensures |Split(text)[0]| <= |text|
  {
  }

  lemma FourLetters(text: string, after: string)
    requires |text| >= 4
    ensures [text[0]] + ([text[1]] + ([text[2]] + ([text[3]] + after))) == "WDG:"
       <==> text[..4] == "WDG:" && after == ""
  {
    var whole := [text[0]] + ([text[1]] + ([text[2]] + ([text[3]] + after)));
    assert whole == text[..4] + after;
    if whole == "WDG:" {
      assert |after| == 0 && text[..4] == whole;
    }
    if text[..4] == "WDG:" && after == "" {
      assert whole == text[..4];
    }
  }

  /** A first chunk, or one that does not say. */
  predicate FirstChunk(msg: Message) {
    msg.sequence == None || msg.sequence == Some(0)
  }

  /** A text of the producer's cut, or a longer one that is declared. */
  predicate Considered(msg: Message) {
    FirstChunk(msg) && (|msg.text| == 50 || (|msg.text| > 50 && msg.declared))
  }

  /** The disposition of every text, where exactly its first `n` words can be read. */
  lemma DispositionExactly(msg: Message, n: nat)
    requires ReadsExactly(Split(msg.text), |msg.text| == 50, n)
    ensures n <= FIELDS
    ensures var o, words := Decoded(msg), Split(msg.text);
            var shaped := Considered(msg) && Prefixed(msg.text);
            var sound := shaped && !Breaks(words, |msg.text| == 50, n);
            && (o.disposition == NonzeroChunk <==> !FirstChunk(msg))
            && (o.disposition == LongUndeclared <==> FirstChunk(msg) && |msg.text| > 50 && !msg.declared)
            && (o.disposition == Short <==> FirstChunk(msg) && |msg.text| < 50)
            && (o.disposition == NotPrefixed <==> Considered(msg) && !Prefixed(msg.text))
            && (o.disposition == Malformed <==> shaped && Breaks(words, |msg.text| == 50, n))
            && (o.disposition == NothingWhole <==> sound && n == 0)
            && (o.disposition == IncompleteDeclared
                <==> sound && n > 0 && |msg.text| > 50 && (n < 13 || |words| != 14))
            && (o.disposition == PrefixDecoded <==> sound && 0 < n < 13 && |msg.text| == 50)
            && (o.disposition == AllDecoded <==> sound && n == 13 && (|msg.text| > 50 ==> |words| == 14))
            && (o.Qualified() ==> |o.fields| == n)
            && (!o.Qualified() ==> o.fields == [])
            && o.unrecoverable == (if o.Qualified() || o.disposition == NothingWhole then NamesFrom(n) else [])
  {
    hide Scan, Split, Tokens, ReadBody, NamesFrom, Breaks, Prefixed;
    var words, truncated := Split(msg.text), |msg.text| == 50;
    ScanExactly(words, truncated, 0, n);
    PrefixedExactly(msg.text);
    ReadsFew(words, truncated, n);
  }

  lemma ReadsFew(words: seq<string>, truncated: bool, n: nat)
    requires ReadsExactly(words, truncated, n)
    ensures n <= FIELDS
  {
    NoMore(words, truncated);
  }

  /** The names reported as unrecoverable are the format's own, from the first that could not be read. */
  lemma {:induction false} NamesExactly(i: nat, k: nat)
    requires i <= FIELDS && k < FIELDS - i
    ensures NamesFrom(i)[k] == Tokens()[i + k].name
    decreases k
  {
    hide Tokens;
    if k > 0 {
      NamesExactly(i + 1, k - 1);
    }
  }
}
