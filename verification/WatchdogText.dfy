/** The watchdog statustext: how a value is printed, how a word is read back, and how a text splits into words. */
module WatchdogText {
  import opened Common
  import opened Numerals

  // ---------------------------------------------------------------- tokens

  datatype Kind = Signed | Unsigned | Hex | Name

  datatype Token = Token(name: string, kind: Kind)

  /** The pinned format, token by token. */
  function Tokens(): (tokens: seq<Token>)
    ensures |tokens| == FIELDS
  {
    [Token("T", Signed), Token("SL", Unsigned), Token("FL", Unsigned), Token("FT", Unsigned), Token("FA", Hex),
     Token("FTP", Unsigned), Token("FLR", Hex), Token("FICSR", Unsigned), Token("MM", Unsigned),
     Token("MC", Unsigned), Token("IE", Unsigned), Token("IEC", Unsigned), Token("TN:", Name)]
  }

  const FIELDS := 13
  const CUT := 50
  const NAME_BYTES := 4

  datatype Field = Number(n: int) | Text(s: string)

  /** What the producer's conversion can be given. */
  predicate InDomain(kind: Kind, f: Field) {
    match kind
    case Signed => f.Number? && -0x8000_0000 <= f.n < 0x8000_0000
    case Unsigned | Hex => f.Number? && 0 <= f.n < 0x1_0000_0000
    case Name => f.Text? && |f.s| <= NAME_BYTES
  }

  function Base(kind: Kind): Radix {
    if kind.Hex? then 16 else 10
  }

  function Print(kind: Kind, f: Field): string
    requires InDomain(kind, f)
  {
    if f.Text? then f.s
    else if f.n < 0 then "-" + Digits(-f.n, 10)
    else Digits(f.n, Base(kind))
  }

  /** The lexeme and domain checks of one conversion, and the value read. */
  function ReadBody(kind: Kind, body: string): (r: Option<Field>)
    ensures r.Some? ==> InDomain(kind, r.value)
  {
    if kind.Name? then
      if |body| > NAME_BYTES then None else Some(Text(body))
    else
      var negative := kind.Signed? && body != "" && body[0] == '-';
      var digits := if negative then body[1..] else body;
      if 1 <= |digits| <= (if kind.Hex? then 8 else 10) && AllDigits(digits, Base(kind)) then
        var n: int := if negative then 0 - Value(digits, Base(kind)) as int else Value(digits, Base(kind));
        if InDomain(kind, Number(n)) then Some(Number(n)) else None
      else None
  }

  lemma Widths()
    ensures Power(10, 10) == 10_000_000_000 && Power(16, 8) == 0x1_0000_0000
  {
    assert Power(10, 4) == 10_000 && Power(16, 4) == 0x1_0000;
    assert Power(10, 7) == 10_000_000;
    assert Power(16, 6) == 0x100_0000;
  }

  lemma NumberRead(n: nat, base: Radix, width: nat)
    requires width >= 1 && n < Power(base, width)
    ensures 1 <= |Digits(n, base)| <= width && AllDigits(Digits(n, base), base) && Value(Digits(n, base), base) == n
    ensures Digits(n, base)[0] != '-' && ' ' !in Digits(n, base)
  {
    DigitsRead(n, base);
    DigitsShort(n, base, width);
    assert IsDigit(Digits(n, base)[0], base);
    assert !IsDigit(' ', base);
  }

  /** What a conversion prints is read back as the value printed. */
  lemma PrintedIsRead(kind: Kind, f: Field)
    requires InDomain(kind, f)
    ensures ReadBody(kind, Print(kind, f)) == Some(f)
    ensures f.Number? ==> ' ' !in Print(kind, f) && 1 <= |Print(kind, f)| <= 11
  {
    hide Digits, Value, AllDigits, Power, IsDigit;
    if f.Number? {
      Widths();
      if f.n < 0 {
        NumberRead(-f.n, 10, 10);
        assert ("-" + Digits(-f.n, 10))[1..] == Digits(-f.n, 10);
      } else {
        NumberRead(f.n, Base(kind), if kind.Hex? then 8 else 10);
      }
    }
  }

  /** The digits a conversion can write: decimal ones, or lower-case hexadecimal ones. */
  predicate Lexeme(digits: string, hex: bool) {
    && 1 <= |digits| <= (if hex then 8 else 10)
    && forall i | 0 <= i < |digits| :: '0' <= digits[i] <= '9' || (hex && 'a' <= digits[i] <= 'f')
  }

  /** A number is read of exactly the lexemes whose value is in the domain; only a signed one may be negative. */
  ghost predicate NumberOf(kind: Kind, body: string, n: int) {
    if kind.Signed? && body != "" && body[0] == '-' then
      Lexeme(body[1..], false) && AllDigits(body[1..], 10) && n == -(Value(body[1..], 10) as int) >= -0x8000_0000
    else
      && Lexeme(body, kind.Hex?) && AllDigits(body, Base(kind)) && n == Value(body, Base(kind))
      && n < if kind.Signed? then 0x8000_0000 else 0x1_0000_0000
  }

  /** What is read of a token's body: a name of four characters at most, or a number. */
  lemma BodyExactly(kind: Kind, body: string, f: Field)
    ensures ReadBody(kind, body) == Some(f)
       <==> match f
            case Text(s) => kind.Name? && s == body && |body| <= 4
            case Number(n) => !kind.Name? && NumberOf(kind, body, n)
  {
    hide Value, Lexeme;
    LexemesAreDigits(body, Base(kind));
    if body != "" {
      LexemesAreDigits(body[1..], Base(kind));
    }
  }

  lemma LexemesAreDigits(digits: string, base: Radix)
    ensures Lexeme(digits, base == 16) <==> 1 <= |digits| <= (if base == 16 then 8 else 10) && AllDigits(digits, base)
  {
    if AllDigits(digits, base) {
      assert forall i | 0 <= i < |digits| :: IsDigit(digits[i], base);
    }
  }

  // ---------------------------------------------------------------- words

  /** Splitting at every space, as `str.split(" ")` does. */
  function Split(s: string): (words: seq<string>)
    ensures |words| >= 1
  {
    if s == "" then [""]
    else
      var others := Split(s[1..]);
      if s[0] == ' ' then [""] + others else [[s[0]] + others[0]] + others[1..]
  }

  function Join(words: seq<string>): string {
    if words == [] then ""
    else if |words| == 1 then words[0]
    else words[0] + " " + Join(words[1..])
  }

  lemma {:induction false} SplitWord(w: string, rest: string)
    requires ' ' !in w
    ensures Split(w + " " + rest) == [w] + Split(rest)
  {
    var s := w + " " + rest;
    if w == "" {
      assert s[1..] == rest;
    } else {
      assert s[1..] == w[1..] + " " + rest;
      SplitWord(w[1..], rest);
      assert [w[0]] + w[1..] == w;
      assert ([w[1..]] + Split(rest))[1..] == Split(rest);
    }
  }

  lemma {:induction false} SplitOne(w: string)
    requires ' ' !in w
    ensures Split(w) == [w]
  {
    if w != "" {
      SplitOne(w[1..]);
      assert [w[0]] + w[1..] == w;
    }
  }

  ghost predicate Spaceless(words: seq<string>) {
    forall i | 0 <= i < |words| :: ' ' !in words[i]
  }

  /** Where word `k` starts in the joined text. */
  function Offset(words: seq<string>, k: nat): nat
    requires k <= |words|
  {
    if k == 0 then 0 else Offset(words, k - 1) + |words[k - 1]| + 1
  }

  lemma {:induction false} OffsetTail(words: seq<string>, k: nat)
    requires 1 <= k <= |words|
    ensures Offset(words, k) == |words[0]| + 1 + Offset(words[1..], k - 1)
  {
    if k > 1 {
      OffsetTail(words, k - 1);
    }
  }

  lemma CutAfter(first: string, t: string, n: nat)
    requires |first| < n <= |first| + 1 + |t|
    ensures (first + " " + t)[..n] == first + " " + t[..n - |first| - 1]
  {
  }

  lemma OneMoreWord(first: string, words: seq<string>, k: nat)
    requires k <= |words|
    ensures ([first] + words)[..k + 1] == [first] + words[..k]
  {
  }

  lemma JoinHead(words: seq<string>, n: nat)
    requires words != [] && n <= |words[0]|
    ensures n <= |Join(words)| && Join(words)[..n] == words[0][..n]
  {
  }

  lemma JoinStep(words: seq<string>)
    requires words != [] && |words[0]| < |Join(words)|
    ensures |words| >= 2 && Join(words) == words[0] + " " + Join(words[1..])
  {
  }

  lemma SpacelessTail(words: seq<string>)
    requires words != [] && Spaceless(words)
    ensures Spaceless(words[1..]) && ' ' !in words[0]
  {
  }

  lemma SplitPart(w: string, n: nat)
    requires n <= |w| && ' ' !in w
    ensures Split(w[..n]) == [w[..n]]
  {
    SplitOne(w[..n]);
  }

  /**
    * A joined text cut short splits into the words that lie wholly before the cut and what is left of the next
    * one, which is empty when the cut falls right after a space.
    */
  lemma {:induction false} CutSplits(words: seq<string>, n: nat) returns (k: nat, m: nat)
    requires words != [] && Spaceless(words) && n <= |Join(words)|
    ensures k < |words| && m <= |words[k]| && Offset(words, k) + m == n
    ensures Split(Join(words)[..n]) == words[..k] + [words[k][..m]]
  {
    hide Split, Join, Spaceless, Offset;
    var first := words[0];
    SpacelessTail(words);
    if n <= |first| {
      k, m := 0, n;
      JoinHead(words, n);
      SplitPart(first, n);
      NoOffset(words);
    } else {
      var others := words[1..];
      JoinStep(words);
      CutAfter(first, Join(others), n);
      k, m := CutSplits(others, n - |first| - 1);
      SplitWord(first, Join(others)[..n - |first| - 1]);
      OffsetTail(words, k + 1);
      OneMoreWord(first, others, k);
      assert words == [first] + others;
      k := k + 1;
    }
  }

  lemma NoOffset(words: seq<string>)
    ensures Offset(words, 0) == 0 && words[..0] == []
  {
  }
}
