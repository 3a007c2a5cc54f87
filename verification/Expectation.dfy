/** Did a declared progress number advance between two saved reports of the same subject? */
module Expectation {
  import opened Common
  import opened Numerals

  /** The declared identity columns of one saved row. */
  type Subject = seq<string>

  datatype Saved = Saved(moment: nat, subject: Subject, value: string)

  datatype Disposition =
    | NotReported | FirstReported | PreviousNotReported | Advanced | Unchanged | Decreased

  datatype Row = Row(moment: nat, subject: Subject, value: string, disposition: Disposition,
                     previous: Option<(int, nat)>, elapsed: Option<int>, delta: Option<int>)

  /** A progress value: an optional minus sign and at most eighteen digits. */
  function ProgressNumber(value: string): Option<int> {
    var negative := value != "" && value[0] == '-';
    var digits := if negative then value[1..] else value;
    if 1 <= |digits| <= 18 && AllDigits(digits, 10) then
      var n: int := Value(digits, 10);
      Some(if negative then -n else n)
    else None
  }

  /** A saved row the comparison does not refuse. */
  predicate Readable(s: Saved) {
    (forall i | 0 <= i < |s.subject| :: s.subject[i] != "") && (s.value == "" || ProgressNumber(s.value).Some?)
  }

  ghost predicate AllReadable(saved: seq<Saved>) {
    forall i | 0 <= i < |saved| :: Readable(saved[i])
  }

  /** What the last row of a subject left behind. */
  datatype State = Unseen | Blank | Reported(number: int, moment: nat)

  function StateOf(s: Saved): State
    requires Readable(s)
  {
    if s.value == "" then Blank else Reported(ProgressNumber(s.value).value, s.moment)
  }

  /** The state of one subject after these rows. */
  ghost function Last(saved: seq<Saved>, subject: Subject): State
    requires AllReadable(saved)
  {
    if saved == [] then Unseen
    else
      var last := saved[|saved| - 1];
      if last.subject == subject then StateOf(last) else Last(saved[..|saved| - 1], subject)
  }

  /** The comparison row of one saved row, given what its subject reported before. */
  function Compare(s: Saved, seen: State): Row
    requires Readable(s)
  {
    if s.value == "" then Row(s.moment, s.subject, "", NotReported, None, None, None)
    else
      var number := ProgressNumber(s.value).value;
      match seen
      case Unseen => Row(s.moment, s.subject, s.value, FirstReported, None, None, None)
      case Blank => Row(s.moment, s.subject, s.value, PreviousNotReported, None, None, None)
      case Reported(before, moment) =>
        var delta := number - before;
        Row(s.moment, s.subject, s.value, if delta > 0 then Advanced else if delta == 0 then Unchanged else Decreased,
            Some((before, moment)), Some(s.moment - moment), Some(delta))
  }

  /** The comparison rows of a saved file. */
  ghost function Compared(saved: seq<Saved>): (rows: seq<Row>)
    requires AllReadable(saved)
    ensures |rows| == |saved|
  {
    if saved == [] then []
    else
      var before, last := saved[..|saved| - 1], saved[|saved| - 1];
      Compared(before) + [Compare(last, Last(before, last.subject))]
  }

  function Count(rows: seq<Row>, d: Disposition): nat {
    if rows == [] then 0 else Count(rows[..|rows| - 1], d) + if rows[|rows| - 1].disposition == d then 1 else 0
  }

  lemma {:induction false} CountsSum(rows: seq<Row>)
    ensures Count(rows, NotReported) + Count(rows, FirstReported) + Count(rows, PreviousNotReported)
          + Count(rows, Advanced) + Count(rows, Unchanged) + Count(rows, Decreased) == |rows|
  {
    if rows != [] {
      CountsSum(rows[..|rows| - 1]);
    }
  }

  lemma CountSnoc(rows: seq<Row>, row: Row)
    ensures forall d :: Count(rows + [row], d) == Count(rows, d) + if row.disposition == d then 1 else 0
  {
    assert (rows + [row])[..|rows|] == rows;
  }

  /** The report's six disposition counters. */
  datatype Report = Report(notReported: nat, first: nat, afterBlank: nat, advanced: nat, same: nat, decreased: nat) {
    function Add(d: Disposition): Report {
      match d
      case NotReported => this.(notReported := notReported + 1)
      case FirstReported => this.(first := first + 1)
      case PreviousNotReported => this.(afterBlank := afterBlank + 1)
      case Advanced => this.(advanced := advanced + 1)
      case Unchanged => this.(same := same + 1)
      case Decreased => this.(decreased := decreased + 1)
    }

    function Total(): nat {
      notReported + first + afterBlank + advanced + same + decreased
    }
  }

  function ReportOf(rows: seq<Row>): Report {
    Report(Count(rows, NotReported), Count(rows, FirstReported), Count(rows, PreviousNotReported),
           Count(rows, Advanced), Count(rows, Unchanged), Count(rows, Decreased))
  }

  /** The map holds the state of every subject seen, and no other. */
  ghost predicate Holds(last: map<Subject, State>, saved: seq<Saved>)
    requires AllReadable(saved)
  {
    && (forall subject: Subject :: (if subject in last then last[subject] else Unseen) == Last(saved, subject))
  }

  /**
    * Compare every saved row with what its own subject reported last. The file is refused exactly when some row
    * lacks an identity component or carries a value that is not a progress number.
    */
  method Advance(saved: seq<Saved>) returns (ok: bool, rows: seq<Row>, report: Report)
    ensures ok <==> AllReadable(saved)
    ensures ok ==> rows == Compared(saved) && report.Total() == |saved|
    ensures ok ==> && report.notReported == Count(rows, NotReported) && report.first == Count(rows, FirstReported)
                   && report.afterBlank == Count(rows, PreviousNotReported)
                   && report.advanced == Count(rows, Advanced) && report.same == Count(rows, Unchanged)
                   && report.decreased == Count(rows, Decreased)
  {
    hide Readable, Compare, Count, StateOf;
    var last: map<Subject, State> := map[];
    rows, report := [], Report(0, 0, 0, 0, 0, 0);
    NothingCounted();
    var n := 0;
    while n < |saved|
      invariant 0 <= n <= |saved| && AllReadable(saved[..n]) && Holds(last, saved[..n])
      invariant rows == Compared(saved[..n]) && report == ReportOf(rows)
    {
      var s := saved[n];
      if !Readable(s) {
        return false, rows, report;
      }
      var seen := if s.subject in last then last[s.subject] else Unseen;
      var row := Compare(s, seen);
      assert saved[..n + 1][..n] == saved[..n];
      assert saved[..n + 1] == saved[..n] + [s];
      CountSnoc(rows, row);
      rows, report := rows + [row], report.Add(row.disposition);
      last := last[s.subject := StateOf(s)];
      n := n + 1;
    }
    assert saved[..n] == saved;
    CountsSum(rows);
    ok := true;
  }

  lemma NothingCounted()
    ensures ReportOf([]) == Report(0, 0, 0, 0, 0, 0)
  {
  }

  // ---------------------------------------------------------------- subjects apart

  function Own(saved: seq<Saved>, subject: Subject): seq<Saved> {
    if saved == [] then []
    else Own(saved[..|saved| - 1], subject) + if saved[|saved| - 1].subject == subject then [saved[|saved| - 1]] else []
  }

  function OwnRows(rows: seq<Row>, subject: Subject): seq<Row> {
    if rows == [] then []
    else OwnRows(rows[..|rows| - 1], subject) + if rows[|rows| - 1].subject == subject then [rows[|rows| - 1]] else []
  }

  lemma {:induction false} OwnReadable(saved: seq<Saved>, subject: Subject)
    requires AllReadable(saved)
    ensures AllReadable(Own(saved, subject)) && forall s <- Own(saved, subject) :: s.subject == subject
  {
    hide Readable;
    if saved != [] {
      OwnReadable(saved[..|saved| - 1], subject);
    }
  }

  lemma {:induction false} OwnLast(saved: seq<Saved>, subject: Subject)
    requires AllReadable(saved) && AllReadable(Own(saved, subject))
    ensures Last(Own(saved, subject), subject) == Last(saved, subject)
  {
    hide Readable, StateOf;
    if saved != [] {
      var before, last := saved[..|saved| - 1], saved[|saved| - 1];
      OwnReadable(before, subject);
      OwnLast(before, subject);
      if last.subject == subject {
        assert Own(saved, subject) == Own(before, subject) + [last];
      } else {
        assert Own(saved, subject) == Own(before, subject);
      }
    }
  }

  lemma ComparedSnoc(saved: seq<Saved>, s: Saved)
    requires AllReadable(saved) && Readable(s)
    ensures AllReadable(saved + [s])
    ensures Compared(saved + [s]) == Compared(saved) + [Compare(s, Last(saved, s.subject))]
  {
    hide Readable, Compare, Last;
    assert (saved + [s])[..|saved|] == saved;
  }

  lemma OwnSnoc(saved: seq<Saved>, s: Saved, subject: Subject)
    ensures Own(saved + [s], subject) == if s.subject == subject then Own(saved, subject) + [s] else Own(saved, subject)
  {
    assert (saved + [s])[..|saved|] == saved;
  }

  lemma OwnRowsSnoc(rows: seq<Row>, row: Row, subject: Subject)
    ensures OwnRows(rows + [row], subject)
         == if row.subject == subject then OwnRows(rows, subject) + [row] else OwnRows(rows, subject)
  {
    assert (rows + [row])[..|rows|] == rows;
  }

  /** A subject's comparison rows are those of its own saved rows alone. */
  lemma {:induction false} SubjectsIndependent(saved: seq<Saved>, subject: Subject)
    requires AllReadable(saved)
    ensures AllReadable(Own(saved, subject))
    ensures OwnRows(Compared(saved), subject) == Compared(Own(saved, subject))
  {
    hide Readable, Last, Compared, Own, OwnRows;
    OwnReadable(saved, subject);
    if saved == [] {
      Empty(subject);
    } else {
      var before, last := saved[..|saved| - 1], saved[|saved| - 1];
      assert saved == before + [last];
      SubjectsIndependent(before, subject);
      ComparedSnoc(before, last);
      OwnSnoc(before, last, subject);
      OwnRowsSnoc(Compared(before), Compare(last, Last(before, last.subject)), subject);
      if last.subject == subject {
        OwnLast(before, subject);
        ComparedSnoc(Own(before, subject), last);
      }
    }
  }

  lemma Empty(subject: Subject)
    ensures OwnRows(Compared([]), subject) == Compared(Own([], subject))
  {
  }

  // ---------------------------------------------------------------- chains

  /** One subject's rows: each is compared with the row just before it. */
  lemma {:induction false} NeighbourCompared(saved: seq<Saved>, subject: Subject, i: nat)
    requires AllReadable(saved) && (forall s <- saved :: s.subject == subject) && i < |saved|
    ensures Compared(saved)[i] == Compare(saved[i], if i == 0 then Unseen else StateOf(saved[i - 1]))
    decreases |saved|
  {
    hide Readable, StateOf, Compare;
    var before, last := saved[..|saved| - 1], saved[|saved| - 1];
    assert last in saved;
    if i < |before| {
      NeighbourCompared(before, subject, i);
    } else if i > 0 {
      assert before[|before| - 1] in saved;
    }
  }

  function DeltaSum(rows: seq<Row>): int {
    if rows == [] then 0
    else DeltaSum(rows[..|rows| - 1])
         + if rows[|rows| - 1].delta.Some? then rows[|rows| - 1].delta.value else 0
  }

  /** Within an unbroken chain of one subject the deltas add up to the last number less the first. */
  lemma {:induction false} ChainTelescopes(saved: seq<Saved>, subject: Subject, i: nat, j: nat)
    requires AllReadable(saved) && (forall s <- saved :: s.subject == subject) && i <= j < |saved|
    requires forall k | i <= k <= j :: saved[k].value != ""
    ensures Readable(saved[i]) && Readable(saved[j])
    ensures DeltaSum(Compared(saved)[i + 1..j + 1])
         == ProgressNumber(saved[j].value).value - ProgressNumber(saved[i].value).value
    ensures forall k | i < k <= j :: Compared(saved)[k].delta.Some?
    decreases j
  {
    hide ProgressNumber, Compared;
    if i < j {
      ChainTelescopes(saved, subject, i, j - 1);
      NeighbourCompared(saved, subject, j);
      var rows := Compared(saved);
      assert rows[i + 1..j + 1][..j - i - 1] == rows[i + 1..j];
    }
  }

  /** A blank breaks the chain: its own row and the next one carry no delta. */
  lemma BlankBreaks(saved: seq<Saved>, subject: Subject, i: nat)
    requires AllReadable(saved) && (forall s <- saved :: s.subject == subject) && i < |saved|
    ensures Compared(saved)[i].disposition == NotReported <==> saved[i].value == ""
    ensures Compared(saved)[i].delta.Some? <==> i > 0 && saved[i - 1].value != "" && saved[i].value != ""
    ensures Compared(saved)[i].disposition == PreviousNotReported
       <==> i > 0 && saved[i - 1].value == "" && saved[i].value != ""
    ensures Compared(saved)[i].disposition == FirstReported <==> i == 0 && saved[i].value != ""
  {
    hide ProgressNumber, Compared;
    NeighbourCompared(saved, subject, i);
  }

  /**
    * What a row says after the report before it: its own report, and between two numbers the previous one, the time
    * between them, the difference and its direction.
    */
  ghost predicate Compares(row: Row, s: Saved, previous: Option<Saved>)
    requires Readable(s) && (previous.Some? ==> Readable(previous.value))
  {
    && row.moment == s.moment && row.subject == s.subject && row.value == s.value
    && if previous.Some? && previous.value.value != "" && s.value != "" then
         var p := previous.value;
         var before, now := ProgressNumber(p.value).value, ProgressNumber(s.value).value;
         && row.previous == Some((before, p.moment)) && row.elapsed == Some(s.moment - p.moment)
         && row.delta == Some(now - before)
         && row.disposition == (if now > before then Advanced else if now == before then Unchanged else Decreased)
       else row.previous == None && row.elapsed == None && row.delta == None
            && row.disposition !in {Advanced, Unchanged, Decreased}
  }

  lemma CompareSays(s: Saved, previous: Option<Saved>)
    requires Readable(s) && (previous.Some? ==> Readable(previous.value))
    ensures Compares(Compare(s, if previous.Some? then StateOf(previous.value) else Unseen), s, previous)
  {
    hide ProgressNumber;
  }

  /** Each row of one subject compares its report with the one just before it. */
  lemma ComparedExactly(saved: seq<Saved>, subject: Subject, i: nat)
    requires AllReadable(saved) && (forall s <- saved :: s.subject == subject) && i < |saved|
    ensures i > 0 ==> Readable(saved[i - 1])
    ensures Compares(Compared(saved)[i], saved[i], if i > 0 then Some(saved[i - 1]) else None)
  {
    hide ProgressNumber, Compared, Compare, Compares, Readable;
    NeighbourCompared(saved, subject, i);
    CompareSays(saved[i], if i > 0 then Some(saved[i - 1]) else None);
  }

  /** At most eighteen decimal digits. */
  predicate Decimal(digits: string) {
    1 <= |digits| <= 18 && forall i | 0 <= i < |digits| :: '0' <= digits[i] <= '9'
  }

  lemma DecimalExactly(digits: string)
    ensures Decimal(digits) <==> 1 <= |digits| <= 18 && AllDigits(digits, 10)
  {
    if AllDigits(digits, 10) {
      assert forall i | 0 <= i < |digits| :: IsDigit(digits[i], 10);
    }
  }

  /** A value is a number exactly when it is at most eighteen decimal digits, with at most one sign before them. */
  lemma NumberExactly(value: string)
    ensures ProgressNumber(value).Some?
       <==> Decimal(value) || (value != "" && value[0] == '-' && Decimal(value[1..]))
  {
    hide Decimal, AllDigits, Value;
    DecimalExactly(value);
    if value != "" && value[0] == '-' {
      DecimalExactly(value[1..]);
      SignNoDigit(value);
    }
  }

  lemma SignNoDigit(value: string)
    requires value != "" && value[0] == '-'
    ensures !Decimal(value)
  {
  }

  /** A progress number as it is printed. */
  function Printed(n: int): string {
    if n < 0 then "-" + Digits(-n, 10) else Digits(n, 10)
  }

  lemma EighteenDigits()
    ensures Power(10, 18) == 1_000_000_000_000_000_000
  {
    assert Power(10, 6) == 1_000_000;
    assert Power(10, 12) == 1_000_000_000_000;
  }

  /** Every number of at most eighteen digits is read back as itself. */
  lemma PrintedIsRead(n: int)
    requires -1_000_000_000_000_000_000 < n < 1_000_000_000_000_000_000
    ensures ProgressNumber(Printed(n)) == Some(n)
  {
    hide Digits, Value;
    var size: nat := if n < 0 then -n else n;
    EighteenDigits();
    DigitsRead(size, 10);
    DigitsShort(size, 10, 18);
    assert n < 0 ==> Printed(n)[1..] == Digits(size, 10);
    FirstDigit(size);
  }

  lemma FirstDigit(n: nat)
    ensures Digits(n, 10)[0] != '-'
  {
    DigitsRead(n, 10);
    assert IsDigit(Digits(n, 10)[0], 10);
  }
}
