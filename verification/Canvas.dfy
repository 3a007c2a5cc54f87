/**
  * The reported DisplayPort canvas: a sparse map of written cells and one flag, against a dense grid in which
  * every cell is unknown, cleared or showing a glyph.
  */
module Canvas {
  import opened Common

  const MAX_RECORDS := 100000
  const MAX_FRAMES := 4096
  const MAX_ROWS := 250000
  const DISPLAY_PORT := 182

  /** One saved MSP reply with its checksum already verified: its type and its payload. */
  datatype Record = Record(messageType: byte, payload: seq<byte>, time: nat)

  datatype Event =
    | Nothing
    | Invalidate
    | Clear
    | Write(row: nat, column: nat, glyphs: seq<byte>, bank: nat, blink: bool)
    | Draw

  /** What one record means to the canvas, or nothing when the operation decoder refuses it. */
  function Read(r: Record): Option<Event> {
    if r.messageType != DISPLAY_PORT then Some(Nothing)
    else if r.payload == [] then None
    else if r.payload[0] > 4 then Some(Invalidate)
    else if r.payload[0] == 3 then ReadWrite(r.payload)
    else if |r.payload| != 1 then None
    else match r.payload[0] as int
         case 0 => Some(Nothing)
         case 1 => Some(Invalidate)
         case 2 => Some(Clear)
         case _ => Some(Draw)
  }

  /** A write names a row, a column and attributes (a font bank and a blink bit), then up to thirty glyphs. */
  function ReadWrite(payload: seq<byte>): Option<Event> {
    if 4 <= |payload| <= 34 && payload[3] < 128 && payload[3] % 64 < 4 && 0 !in payload[4..]
    then Some(Write(payload[1], payload[2], payload[4..], payload[3] % 4, payload[3] >= 64))
    else None
  }

  /** How an operation is written: its code, and for a write the place, the attribute byte and the glyphs. */
  ghost predicate Encodes(payload: seq<byte>, e: Event) {
    match e
    case Nothing => payload == [0]
    case Invalidate => payload == [1] || (payload != [] && payload[0] > 4)
    case Clear => payload == [2]
    case Draw => payload == [4]
    case Write(row, column, glyphs, bank, blink) =>
      && row < 256 && column < 256 && bank < 4 && |glyphs| <= 30 && 0 !in glyphs
      && payload == [3, row, column, bank + if blink then 64 else 0] + glyphs
  }

  /** A record of another type is no operation; any other is read as exactly the operation written in it. */
  lemma OperationExactly(r: Record, e: Event)
    ensures Read(r) == Some(e) <==> if r.messageType != 182 then e == Nothing else Encodes(r.payload, e)
  {
    if r.payload != [] && r.payload[0] == 3 && ReadWrite(r.payload).Some? {
      var p := r.payload;
      assert p == [p[0], p[1], p[2], p[3]] + p[4..];
    }
    if e.Write? && Encodes(r.payload, e) {
      assert r.payload[4..] == e.glyphs;
    }
    assert |r.payload| == 1 ==> r.payload == [r.payload[0]];
  }

  /** A payload that is no operation: empty, a known code with more or less than its own shape, or a bad write. */
  predicate Malformed(payload: seq<byte>) {
    || payload == []
    || (payload[0] in {0, 1, 2, 4} && |payload| > 1)
    || (payload[0] == 3 && (|payload| < 4 || |payload| > 34 || payload[3] >= 128 || payload[3] % 64 >= 4
                            || exists i | 4 <= i < |payload| :: payload[i] == 0))
  }

  lemma MalformedExactly(r: Record)
    ensures Read(r) == None <==> r.messageType == 182 && Malformed(r.payload)
  {
    if |r.payload| > 4 {
      assert forall i | 4 <= i < |r.payload| :: r.payload[i] == r.payload[4..][i - 4];
      assert 0 in r.payload[4..] <==> exists i | 4 <= i < |r.payload| :: r.payload[i] == 0;
    }
  }

  datatype Glyph = Glyph(byte: byte, bank: nat, blink: bool, index: nat, time: nat)

  datatype Cell = Unknown | Cleared | Shown(glyph: Glyph)

  type Place = (nat, nat)

  datatype Item = Item(row: nat, column: nat, glyph: Glyph)

  /** One drawn frame: its summary row and its glyph rows. */
  datatype Frame = Frame(frameIndex: nat, drawIndex: nat, time: nat, known: int, cleared: int, unknown: int,
                         lastClear: Option<nat>, lastInvalid: Option<nat>, cells: seq<Item>)

  // ---------------------------------------------------------------- the dense grid

  ghost predicate Readable(records: seq<Record>) {
    forall i | 0 <= i < |records| :: Read(records[i]).Some?
  }

  function EventAt(records: seq<Record>, i: nat): Event
    requires i < |records| && Read(records[i]).Some?
  {
    Read(records[i]).value
  }

  predicate Covers(e: Event, r: nat, c: nat) {
    e.Write? && e.row == r && e.column <= c < e.column + |e.glyphs|
  }

  function Written(e: Event, c: nat, index: nat, time: nat): Glyph
    requires e.Write? && e.column <= c < e.column + |e.glyphs|
  {
    Glyph(e.glyphs[c - e.column], e.bank, e.blink, index, time)
  }

  /** What cell (r, c) holds after the first `n` records. */
  ghost function CellAt(records: seq<Record>, n: nat, r: nat, c: nat): Cell
    requires Readable(records) && n <= |records|
  {
    if n == 0 then Unknown
    else
      var e := EventAt(records, n - 1);
      if e.Invalidate? then Unknown
      else if e.Clear? then Cleared
      else if Covers(e, r, c) then Shown(Written(e, c, n - 1, records[n - 1].time))
      else CellAt(records, n - 1, r, c)
  }

  type Grid = seq<seq<Cell>>

  /** The grid after the first `n` records. */
  ghost function Picture(records: seq<Record>, n: nat, rows: nat, columns: nat): Grid
    requires Readable(records) && n <= |records|
  {
    seq(rows, r requires 0 <= r < rows => seq(columns, c requires 0 <= c < columns => CellAt(records, n, r, c)))
  }

  /** The glyph cells of the first `columns` cells of one row, from left to right. */
  function ShownInRow(cells: seq<Cell>, row: nat): seq<Item> {
    if cells == [] then []
    else
      var c := |cells| - 1;
      ShownInRow(cells[..c], row) + if cells[c].Shown? then [Item(row, c, cells[c].glyph)] else []
  }

  /** The glyph cells of a grid, row after row. */
  function ShownIn(grid: Grid): seq<Item> {
    if grid == [] then []
    else ShownIn(grid[..|grid| - 1]) + ShownInRow(grid[|grid| - 1], |grid| - 1)
  }

  function CountRow(cells: seq<Cell>, cell: Cell): nat {
    if cells == [] then 0
    else CountRow(cells[..|cells| - 1], cell) + if cells[|cells| - 1] == cell then 1 else 0
  }

  /** How many cells of a grid are exactly this one. */
  function Count(grid: Grid, cell: Cell): nat {
    if grid == [] then 0
    else Count(grid[..|grid| - 1], cell) + CountRow(grid[|grid| - 1], cell)
  }

  function LastClear(records: seq<Record>, n: nat): Option<nat>
    requires n <= |records|
  {
    if n == 0 then None
    else if Read(records[n - 1]) == Some(Clear) then Some(n - 1)
    else LastClear(records, n - 1)
  }

  function LastInvalid(records: seq<Record>, n: nat): Option<nat>
    requires n <= |records|
  {
    if n == 0 then None
    else if Read(records[n - 1]) == Some(Invalidate) then Some(n - 1)
    else LastInvalid(records, n - 1)
  }

  /** The frame a draw at record `n` must report: the dense grid just before it. */
  ghost function FrameAt(records: seq<Record>, n: nat, rows: nat, columns: nat, frameIndex: nat): Frame
    requires Readable(records) && n < |records|
  {
    var grid := Picture(records, n, rows, columns);
    Frame(frameIndex, n, records[n].time, |ShownIn(grid)|, Count(grid, Cleared), Count(grid, Unknown),
          LastClear(records, n), LastInvalid(records, n), ShownIn(grid))
  }

  /** One frame for every draw. */
  ghost function Frames(records: seq<Record>, n: nat, rows: nat, columns: nat): seq<Frame>
    requires Readable(records) && n <= |records|
  {
    if n == 0 then []
    else
      var before := Frames(records, n - 1, rows, columns);
      if EventAt(records, n - 1).Draw? then before + [FrameAt(records, n - 1, rows, columns, |before|)] else before
  }

  function RowCount(frames: seq<Frame>): nat {
    if frames == [] then 0 else RowCount(frames[..|frames| - 1]) + 1 + |frames[|frames| - 1].cells|
  }

  predicate WriteFits(e: Event, rows: int, columns: int) {
    e.Write? ==> e.row < rows && e.column < columns && e.column + |e.glyphs| <= columns
  }

  predicate GeometryAllowed(rows: int, columns: int) {
    1 <= rows <= 256 && 1 <= columns <= 256 && rows * columns <= 4096
  }

  // ---------------------------------------------------------------- what the grid means

  /** The last record before `n` that decides this cell. */
  ghost predicate Decides(records: seq<Record>, n: nat, r: nat, c: nat, i: nat)
    requires Readable(records) && n <= |records|
  {
    && i < n && Touches(EventAt(records, i), r, c)
    && forall j: nat | i < j < n :: !Touches(EventAt(records, j), r, c)
  }

  predicate Touches(e: Event, r: nat, c: nat) {
    e.Invalidate? || e.Clear? || Covers(e, r, c)
  }

  /**
    * A cell shows exactly the last write that covers it, if no clear or invalidation came later; it is cleared
    * exactly when the last thing to touch it was a clear; and it is unknown otherwise.
    */
  lemma {:induction false} CellHistory(records: seq<Record>, n: nat, r: nat, c: nat)
    requires Readable(records) && n <= |records|
    ensures forall g :: CellAt(records, n, r, c) == Shown(g)
              <==> exists i: nat :: Decides(records, n, r, c, i) && Covers(EventAt(records, i), r, c)
                                    && g == Written(EventAt(records, i), c, i, records[i].time)
    ensures CellAt(records, n, r, c) == Cleared
       <==> exists i: nat :: Decides(records, n, r, c, i) && EventAt(records, i).Clear?
    ensures CellAt(records, n, r, c) == Unknown
       <==> forall i: nat :: Decides(records, n, r, c, i) ==> EventAt(records, i).Invalidate?
  {
    hide Read;
    if n > 0 {
      var e := EventAt(records, n - 1);
      if Touches(e, r, c) {
        assert Decides(records, n, r, c, n - 1);
        DecidesOnce(records, n, r, c, n - 1);
      } else {
        CellHistory(records, n - 1, r, c);
        forall i: nat
          ensures Decides(records, n, r, c, i) <==> Decides(records, n - 1, r, c, i)
        {
        }
      }
    }
  }

  lemma DecidesOnce(records: seq<Record>, n: nat, r: nat, c: nat, i: nat)
    requires Readable(records) && n <= |records| && Decides(records, n, r, c, i)
    ensures forall j: nat | Decides(records, n, r, c, j) :: j == i
  {
  }

  /** Every cell of a grid of glyphs, cleared and unknown cells is counted once. */
  lemma {:induction false} CountsAddUp(grid: Grid, columns: nat)
    requires forall row <- grid :: |row| == columns
    ensures |ShownIn(grid)| + Count(grid, Cleared) + Count(grid, Unknown) == |grid| * columns
  {
    hide ShownInRow, CountRow;
    if grid != [] {
      var last := |grid| - 1;
      assert grid[last] in grid;
      CountsAddUp(grid[..last], columns);
      RowAddsUp(grid[last], last);
      OneMoreRow(last, columns);
    }
  }

  lemma OneMoreRow(rows: nat, columns: nat)
    ensures (rows + 1) * columns == rows * columns + columns
  {
  }

  lemma {:induction false} RowAddsUp(cells: seq<Cell>, row: nat)
    ensures |ShownInRow(cells, row)| + CountRow(cells, Cleared) + CountRow(cells, Unknown) == |cells|
  {
    if cells != [] {
      RowAddsUp(cells[..|cells| - 1], row);
    }
  }

  // ---------------------------------------------------------------- the sparse form

  type Sparse = map<Place, Glyph>

  function Look(written: Sparse, cleared: bool, r: nat, c: nat): Cell {
    if (r, c) in written then Shown(written[(r, c)]) else if cleared then Cleared else Unknown
  }

  /** The dense grid a sparse map and flag stand for. */
  function GridOf(written: Sparse, cleared: bool, rows: nat, columns: nat): (grid: Grid)
    ensures |grid| == rows && forall row <- grid :: |row| == columns
  {
    seq(rows, r requires 0 <= r < rows => seq(columns, c requires 0 <= c < columns => Look(written, cleared, r, c)))
  }

  predicate Inside(written: Sparse, rows: nat, columns: nat) {
    forall p <- written :: p.0 < rows && p.1 < columns
  }

  /** The map and flag agree with the history of every cell. */
  ghost predicate Refines(written: Sparse, cleared: bool, records: seq<Record>, n: nat, rows: nat, columns: nat)
    requires Readable(records) && n <= |records|
  {
    && Inside(written, rows, columns)
    && forall r: nat, c: nat | r < rows && c < columns :: Look(written, cleared, r, c) == CellAt(records, n, r, c)
  }

  lemma SamePicture(written: Sparse, cleared: bool, records: seq<Record>, n: nat, rows: nat, columns: nat)
    requires Readable(records) && n <= |records| && Refines(written, cleared, records, n, rows, columns)
    ensures GridOf(written, cleared, rows, columns) == Picture(records, n, rows, columns)
  {
    hide CellAt, Look, Inside;
    var grid, picture := GridOf(written, cleared, rows, columns), Picture(records, n, rows, columns);
    forall r | 0 <= r < rows
      ensures grid[r] == picture[r]
    {
      assert forall c | 0 <= c < columns :: grid[r][c] == picture[r][c];
    }
  }

  // ---------------------------------------------------------------- counting the map

  /** As many glyph cells as written places. */
  lemma KnownIsSize(written: Sparse, cleared: bool, rows: nat, columns: nat)
    requires Inside(written, rows, columns)
    ensures |ShownIn(GridOf(written, cleared, rows, columns))| == |written|
  {
    ShownIsSize(written, cleared, rows, columns);
    assert written.Keys == RowsBefore(written, rows);
    assert |written| == |written.Keys|;
  }

  function RowsBefore(written: Sparse, rows: nat): set<Place> {
    set p <- written | p.0 < rows
  }

  function CellsBefore(written: Sparse, row: nat, columns: nat): set<Place> {
    set p <- written | p.0 == row && p.1 < columns
  }

  lemma {:induction false} ShownIsSize(written: Sparse, cleared: bool, rows: nat, columns: nat)
    requires forall p <- written :: p.1 < columns
    ensures |ShownIn(GridOf(written, cleared, rows, columns))| == |RowsBefore(written, rows)|
  {
    var grid := GridOf(written, cleared, rows, columns);
    if rows > 0 {
      var last := rows - 1;
      ShownIsSize(written, cleared, last, columns);
      assert grid[..last] == GridOf(written, cleared, last, columns);
      RowIsSize(written, cleared, last, columns);
      assert RowsBefore(written, rows) == RowsBefore(written, last) + CellsBefore(written, last, columns);
    }
  }

  function RowOf(written: Sparse, cleared: bool, row: nat, columns: nat): seq<Cell> {
    seq(columns, c requires 0 <= c < columns => Look(written, cleared, row, c))
  }

  lemma {:induction false} RowIsSize(written: Sparse, cleared: bool, row: nat, columns: nat)
    ensures |ShownInRow(RowOf(written, cleared, row, columns), row)| == |CellsBefore(written, row, columns)|
  {
    if columns > 0 {
      var last := columns - 1;
      RowIsSize(written, cleared, row, last);
      assert RowOf(written, cleared, row, columns)[..last] == RowOf(written, cleared, row, last);
      var added: set<Place> := if (row, last) in written then {(row, last)} else {};
      assert CellsBefore(written, row, columns) == CellsBefore(written, row, last) + added;
    }
  }

  /** Unwritten cells all share the flag's state. */
  lemma {:induction false} NoOthers(grid: Grid, absent: Cell)
    requires !absent.Shown? && forall r, c | 0 <= r < |grid| && 0 <= c < |grid[r]| :: grid[r][c] != absent
    ensures Count(grid, absent) == 0
  {
    if grid != [] {
      var last := grid[|grid| - 1];
      NoOthersInRow(last, absent);
      NoOthers(grid[..|grid| - 1], absent);
    }
  }

  lemma {:induction false} NoOthersInRow(cells: seq<Cell>, absent: Cell)
    requires forall c | 0 <= c < |cells| :: cells[c] != absent
    ensures CountRow(cells, absent) == 0
  {
    if cells != [] {
      NoOthersInRow(cells[..|cells| - 1], absent);
    }
  }

  /** The counts the converter computes from the map's size are those of the dense grid. */
  lemma CountsFromSize(written: Sparse, cleared: bool, rows: nat, columns: nat)
    requires Inside(written, rows, columns)
    ensures var grid := GridOf(written, cleared, rows, columns);
            && |ShownIn(grid)| == |written|
            && Count(grid, Cleared) == (if cleared then rows * columns - |written| else 0)
            && Count(grid, Unknown) == (if cleared then 0 else rows * columns - |written|)
  {
    var grid := GridOf(written, cleared, rows, columns);
    KnownIsSize(written, cleared, rows, columns);
    CountsAddUp(grid, columns);
    NoOthers(grid, if cleared then Unknown else Cleared);
  }

  // ---------------------------------------------------------------- the emitted order

  predicate Before(a: Item, b: Item) {
    a.row < b.row || (a.row == b.row && a.column < b.column)
  }

  ghost predicate Sorted(items: seq<Item>) {
    forall i, j | 0 <= i < j < |items| :: Before(items[i], items[j])
  }

  /** The items in row-major order, as sorting the map's items gives them. */
  function SortedItems(written: Sparse, rows: nat, columns: nat): seq<Item> {
    ShownIn(GridOf(written, false, rows, columns))
  }

  lemma {:induction false} RowSorted(cells: seq<Cell>, row: nat)
    ensures Sorted(ShownInRow(cells, row))
    ensures forall it :: it in ShownInRow(cells, row) <==> InRow(cells, row, it)
  {
    if cells != [] {
      var c := |cells| - 1;
      var before, last := cells[..c], cells[c];
      RowSorted(before, row);
      var items := ShownInRow(before, row);
      var added := if last.Shown? then [Item(row, c, last.glyph)] else [];
      assert ShownInRow(cells, row) == items + added;
      SortedAppend(items, added, row, c);
      forall it
        ensures it in items + added <==> InRow(cells, row, it)
      {
        assert it in items <==> InRow(before, row, it);
        InOneMore(before, last, row, it);
        assert cells == before + [last];
      }
    }
  }

  /** An item is a glyph cell of this row. */
  predicate InRow(cells: seq<Cell>, row: nat, it: Item) {
    it.row == row && it.column < |cells| && cells[it.column] == Shown(it.glyph)
  }

  lemma InOneMore(cells: seq<Cell>, last: Cell, row: nat, it: Item)
    ensures InRow(cells + [last], row, it)
       <==> InRow(cells, row, it) || (last.Shown? && it == Item(row, |cells|, last.glyph))
  {
  }

  lemma SortedAppend(items: seq<Item>, added: seq<Item>, row: nat, column: nat)
    requires Sorted(items) && forall it <- items :: it.row == row && it.column < column
    requires |added| <= 1 && forall it <- added :: it.row == row && it.column == column
    ensures Sorted(items + added)
  {
    var more := items + added;
    forall i, j | 0 <= i < j < |more|
      ensures Before(more[i], more[j])
    {
      assert more[i] == items[i] && items[i] in items;
      assert j < |items| ==> more[j] == items[j];
      assert j >= |items| ==> more[j] in added;
    }
  }

  /** A grid's listing is in strict row-major order and lists exactly its glyph cells. */
  lemma {:induction false} ListedExactly(grid: Grid)
    ensures Sorted(ShownIn(grid))
    ensures forall it :: it in ShownIn(grid)
              <==> it.row < |grid| && it.column < |grid[it.row]| && grid[it.row][it.column] == Shown(it.glyph)
  {
    hide ShownInRow;
    if grid != [] {
      var last := |grid| - 1;
      ListedExactly(grid[..last]);
      RowSorted(grid[last], last);
      assert forall it <- ShownIn(grid[..last]) :: it.row < last;
      assert forall it <- ShownInRow(grid[last], last) :: it.row == last;
    }
  }

  /** Strictly sorted lists of the same items are equal, so the listing is the sorted list of the map's items. */
  lemma {:induction false} SortedOnce(a: seq<Item>, b: seq<Item>)
    requires Sorted(a) && Sorted(b) && forall it :: it in a <==> it in b
    ensures a == b
  {
    assert a != [] ==> a[0] in b;
    assert b != [] ==> b[0] in a;
    if a != [] {
      assert a[0] == b[0];
      forall it
        ensures it in a[1..] <==> it in b[1..]
      {
        assert it in a[1..] <==> it in a && it != a[0];
        assert it in b[1..] <==> it in b && it != b[0];
      }
      SortedOnce(a[1..], b[1..]);
    }
  }

  lemma ItemsOfMap(written: Sparse, rows: nat, columns: nat, items: seq<Item>)
    requires Inside(written, rows, columns) && Sorted(items)
    requires forall it :: it in items <==> (it.row, it.column) in written && written[(it.row, it.column)] == it.glyph
    ensures items == SortedItems(written, rows, columns)
  {
    ListedExactly(GridOf(written, false, rows, columns));
    SortedOnce(items, SortedItems(written, rows, columns));
  }

  // ---------------------------------------------------------------- what a frame reports

  /** The glyph that the write at record `i` put into column `c`. */
  ghost predicate PutBy(g: Glyph, records: seq<Record>, i: nat, c: nat)
    requires Readable(records) && i < |records|
  {
    var e := EventAt(records, i);
    && e.Write? && e.column <= c < e.column + |e.glyphs|
    && g.byte == e.glyphs[c - e.column] && g.bank == e.bank && g.blink == e.blink
    && g.index == i && g.time == records[i].time
  }

  /** The last record before `n` that is this event. */
  ghost predicate LastOf(last: Option<nat>, records: seq<Record>, n: nat, e: Event)
    requires Readable(records) && n <= |records|
  {
    match last
    case None => forall j: nat | j < n :: EventAt(records, j) != e
    case Some(i) => i < n && EventAt(records, i) == e && forall j: nat | i < j < n :: EventAt(records, j) != e
  }

  function Draws(records: seq<Record>, n: nat): nat
    requires n <= |records|
  {
    if n == 0 then 0 else Draws(records, n - 1) + if Read(records[n - 1]) == Some(Draw) then 1 else 0
  }

  /**
    * What the `k`th frame reports: the draw it belongs to, the last clear and invalidation before it, every cell
    * counted once, and in row-major order exactly the glyphs whose writing nothing later has touched.
    */
  ghost predicate Reports(f: Frame, records: seq<Record>, rows: nat, columns: nat, k: nat)
    requires Readable(records)
  {
    && f.frameIndex == k && f.drawIndex < |records| && EventAt(records, f.drawIndex).Draw?
    && Draws(records, f.drawIndex) == k && f.time == records[f.drawIndex].time
    && LastOf(f.lastClear, records, f.drawIndex, Clear) && LastOf(f.lastInvalid, records, f.drawIndex, Invalidate)
    && f.known == |f.cells| && f.known + f.cleared + f.unknown == rows * columns
    && (f.cleared == 0 || f.unknown == 0) && Sorted(f.cells)
    && forall it: Item ::
         it in f.cells <==> && it.row < rows && it.column < columns
                            && exists i: nat :: Decides(records, f.drawIndex, it.row, it.column, i)
                                                && PutBy(it.glyph, records, i, it.column)
  }

  lemma {:induction false} LastFound(records: seq<Record>, n: nat)
    requires Readable(records) && n <= |records|
    ensures LastOf(LastClear(records, n), records, n, Clear)
    ensures LastOf(LastInvalid(records, n), records, n, Invalidate)
  {
    hide Read;
    if n > 0 {
      LastFound(records, n - 1);
    }
  }

  /** Once cleared, no cell is unknown, and otherwise none is cleared. */
  lemma {:induction false} ClearedTogether(records: seq<Record>, n: nat) returns (absent: Cell)
    requires Readable(records) && n <= |records|
    ensures absent == Cleared || absent == Unknown
    ensures forall r: nat, c: nat :: CellAt(records, n, r, c) != absent
  {
    hide Read;
    if n == 0 {
      absent := Cleared;
    } else {
      var e := EventAt(records, n - 1);
      absent := ClearedTogether(records, n - 1);
      absent := if e.Invalidate? then Cleared else if e.Clear? then Unknown else absent;
      forall r: nat, c: nat
        ensures CellAt(records, n, r, c) != absent
      {
        var earlier := CellAt(records, n - 1, r, c);
      }
    }
  }

  lemma FrameReports(records: seq<Record>, n: nat, rows: nat, columns: nat)
    requires Readable(records) && n < |records| && EventAt(records, n).Draw?
    ensures Reports(FrameAt(records, n, rows, columns, Draws(records, n)), records, rows, columns, Draws(records, n))
  {
    hide Read, ShownIn, Count, Sorted, LastClear, LastInvalid, CellAt;
    var grid := Picture(records, n, rows, columns);
    LastFound(records, n);
    ListedExactly(grid);
    CountsAddUp(grid, columns);
    var absent := ClearedTogether(records, n);
    NoOthers(grid, absent);
    forall it: Item
      ensures it in ShownIn(grid)
         <==> && it.row < rows && it.column < columns
              && exists i: nat :: Decides(records, n, it.row, it.column, i) && PutBy(it.glyph, records, i, it.column)
    {
      GlyphShown(records, n, it);
    }
  }

  lemma GlyphShown(records: seq<Record>, n: nat, it: Item)
    requires Readable(records) && n <= |records|
    ensures CellAt(records, n, it.row, it.column) == Shown(it.glyph)
       <==> exists i: nat :: Decides(records, n, it.row, it.column, i) && PutBy(it.glyph, records, i, it.column)
  {
    hide Read, CellAt;
    CellHistory(records, n, it.row, it.column);
    forall i: nat | Decides(records, n, it.row, it.column, i)
      ensures PutBy(it.glyph, records, i, it.column)
         <==> Covers(EventAt(records, i), it.row, it.column)
              && it.glyph == Written(EventAt(records, i), it.column, i, records[i].time)
    {
    }
  }

  /** The frames of a capture are one for each draw, in order, and each reports what the records before it say. */
  lemma {:induction false} FramesReport(records: seq<Record>, n: nat, rows: nat, columns: nat, k: nat)
    requires Readable(records) && n <= |records|
    ensures |Frames(records, n, rows, columns)| == Draws(records, n)
    ensures k < Draws(records, n) ==> Reports(Frames(records, n, rows, columns)[k], records, rows, columns, k)
  {
    hide Read, FrameAt, Reports;
    if n > 0 {
      FramesReport(records, n - 1, rows, columns, k);
      if EventAt(records, n - 1).Draw? {
        FrameReports(records, n - 1, rows, columns);
      }
    }
  }

  // ---------------------------------------------------------------- the converter

  /** Everything the converter demands of a capture. */
  ghost predicate Accepted(records: seq<Record>, rows: int, columns: int) {
    && GeometryAllowed(rows, columns) && |records| <= MAX_RECORDS && Readable(records)
    && (forall i: nat | i < |records| :: WriteFits(EventAt(records, i), rows, columns))
    && 1 <= |Frames(records, |records|, rows, columns)| <= MAX_FRAMES
    && RowCount(Frames(records, |records|, rows, columns)) <= MAX_ROWS
  }

  method CheckReadable(records: seq<Record>) returns (ok: bool)
    ensures ok <==> Readable(records)
  {
    ok := forall i | 0 <= i < |records| :: Read(records[i]).Some?;
  }

  /** Write a run of glyphs into the map, one place after another. */
  method Put(written: Sparse, e: Event, index: nat, time: nat) returns (after: Sparse)
    requires e.Write?
    ensures forall r: nat, c: nat :: (r, c) in after <==> (r, c) in written || Covers(e, r, c)
    ensures forall p: Place | p in after
              :: after[p] == if Covers(e, p.0, p.1) then Written(e, p.1, index, time) else written[p]
  {
    after := written;
    var offset: nat := 0;
    while offset < |e.glyphs|
      invariant offset <= |e.glyphs|
      invariant forall r: nat, c: nat :: (r, c) in after
                  <==> (r, c) in written || (r == e.row && e.column <= c < e.column + offset)
      invariant forall p: Place | p in after :: after[p] == if p.0 == e.row && e.column <= p.1 < e.column + offset
                                                 then Written(e, p.1, index, time) else written[p]
    {
      var place: nat := e.column + offset;
      after := after[(e.row, place) := Glyph(e.glyphs[offset], e.bank, e.blink, index, time)];
      offset := offset + 1;
    }
  }

  /** One step keeps the map and flag in agreement with the grid. */
  lemma StepRefines(written: Sparse, cleared: bool, after: Sparse, flag: bool, records: seq<Record>, n: nat,
                    rows: nat, columns: nat)
    requires Readable(records) && n < |records| && Refines(written, cleared, records, n, rows, columns)
    requires WriteFits(EventAt(records, n), rows, columns)
    requires var e := EventAt(records, n);
             if e.Invalidate? then after == map[] && !flag
             else if e.Clear? then after == map[] && flag
             else if e.Write? then
               && flag == cleared
               && (forall r: nat, c: nat :: (r, c) in after <==> (r, c) in written || Covers(e, r, c))
               && forall p: Place | p in after
                     :: after[p] == if Covers(e, p.0, p.1) then Written(e, p.1, n, records[n].time) else written[p]
             else after == written && flag == cleared
    ensures Refines(after, flag, records, n + 1, rows, columns)
  {
    hide Read;
    var e := EventAt(records, n);
    forall r: nat, c: nat | r < rows && c < columns
      ensures Look(after, flag, r, c) == CellAt(records, n + 1, r, c)
    {
      assert Look(written, cleared, r, c) == CellAt(records, n, r, c);
    }
    forall p <- after
      ensures p.0 < rows && p.1 < columns
    {
      assert (e.Write? && Covers(e, p.0, p.1)) || p in written;
    }
  }

  /** The frame reported from the map and flag is the dense grid's. */
  lemma FrameFromMap(written: Sparse, cleared: bool, records: seq<Record>, n: nat, rows: nat, columns: nat,
                     frameIndex: nat)
    requires Readable(records) && n < |records| && Refines(written, cleared, records, n, rows, columns)
    ensures Frame(frameIndex, n, records[n].time, |written|, if cleared then rows * columns - |written| else 0,
                  if cleared then 0 else rows * columns - |written|,
                  LastClear(records, n), LastInvalid(records, n), SortedItems(written, rows, columns))
         == FrameAt(records, n, rows, columns, frameIndex)
    ensures |SortedItems(written, rows, columns)| == |written|
  {
    hide Look, CellAt, Readable, ShownInRow, Count, ShownIn;
    SamePicture(written, cleared, records, n, rows, columns);
    CountsFromSize(written, cleared, rows, columns);
    SameItems(written, cleared, rows, columns);
  }

  lemma SameItems(written: Sparse, cleared: bool, rows: nat, columns: nat)
    ensures SortedItems(written, rows, columns) == ShownIn(GridOf(written, cleared, rows, columns))
  {
    var a, b := GridOf(written, false, rows, columns), GridOf(written, cleared, rows, columns);
    ListedExactly(a);
    ListedExactly(b);
    SortedOnce(ShownIn(a), ShownIn(b));
  }

  lemma {:induction false} FramesGrow(records: seq<Record>, n: nat, m: nat, rows: nat, columns: nat)
    requires Readable(records) && n <= m <= |records|
    ensures Frames(records, n, rows, columns) <= Frames(records, m, rows, columns)
    ensures RowCount(Frames(records, n, rows, columns)) <= RowCount(Frames(records, m, rows, columns))
    decreases m
  {
    hide FrameAt, Read;
    if n < m {
      FramesGrow(records, n, m - 1, rows, columns);
      var before, after := Frames(records, m - 1, rows, columns), Frames(records, m, rows, columns);
      if EventAt(records, m - 1).Draw? {
        assert after[..|after| - 1] == before;
      }
    }
  }

  /**
    * Convert a capture: it is accepted exactly as `Accepted` says, and every frame reported is the dense grid's
    * own, counted and listed in row-major order.
    */
  method Convert(records: seq<Record>, rows: int, columns: int) returns (ok: bool, frames: seq<Frame>)
    ensures ok <==> Accepted(records, rows, columns)
    ensures ok ==> frames == Frames(records, |records|, rows, columns)
  {
    hide Read, FrameAt, Refines, SortedItems, RowCount, Readable;
    frames := [];
    if !GeometryAllowed(rows, columns) || |records| > MAX_RECORDS {
      return false, frames;
    }
    ok := CheckReadable(records);
    if !ok {
      return;
    }
    ok, frames := Play(records, rows, columns);
    ok := ok && frames != [];
  }

  method Play(records: seq<Record>, rows: nat, columns: nat) returns (ok: bool, frames: seq<Frame>)
    requires Readable(records)
    ensures ok <==> (forall i: nat | i < |records| :: WriteFits(EventAt(records, i), rows, columns))
                    && |Frames(records, |records|, rows, columns)| <= MAX_FRAMES
                    && RowCount(Frames(records, |records|, rows, columns)) <= MAX_ROWS
    ensures ok ==> frames == Frames(records, |records|, rows, columns)
  {
    hide Read, FrameAt, Refines, SortedItems, RowCount;
    var written: Sparse := map[];
    var cleared := false;
    var lastClear: Option<nat>, lastInvalid: Option<nat> := None, None;
    var rowCount: nat := 0;
    frames := [];
    var index: nat := 0;
    NothingYet(records, rows, columns);
    while index < |records|
      invariant index <= |records|
      invariant Refines(written, cleared, records, index, rows, columns)
      invariant lastClear == LastClear(records, index) && lastInvalid == LastInvalid(records, index)
      invariant frames == Frames(records, index, rows, columns) && rowCount == RowCount(frames)
      invariant |frames| <= MAX_FRAMES && rowCount <= MAX_ROWS
      invariant forall i: nat | i < index :: WriteFits(EventAt(records, i), rows, columns)
    {
      var e := EventAt(records, index);
      ghost var before, was := written, cleared;
      FramesGrow(records, index + 1, |records|, rows, columns);
      match e {
        case Nothing =>
        case Invalidate =>
          written, cleared, lastInvalid := map[], false, Some(index);
        case Clear =>
          written, cleared, lastClear := map[], true, Some(index);
        case Write(_, _, _, _, _) =>
          if !WriteFits(e, rows, columns) {
            return false, frames;
          }
          written := Put(written, e, index, records[index].time);
        case Draw =>
          FrameFromMap(written, cleared, records, index, rows, columns, |frames|);
          var count := |written|;
          var cells := SortedItems(written, rows, columns);
          var frame := Frame(|frames|, index, records[index].time, count, if cleared then rows * columns - count else 0,
                             if cleared then 0 else rows * columns - count, lastClear, lastInvalid, cells);
          OneMoreFrame(frames, frame);
          if |frames| >= MAX_FRAMES || rowCount + 1 + |cells| > MAX_ROWS {
            return false, frames;
          }
          frames, rowCount := frames + [frame], rowCount + 1 + |cells|;
      }
      StepRefines(before, was, written, cleared, records, index, rows, columns);
      index := index + 1;
    }
    ok := true;
  }

  lemma NothingYet(records: seq<Record>, rows: nat, columns: nat)
    requires Readable(records)
    ensures Refines(map[], false, records, 0, rows, columns) && RowCount([]) == 0
  {
  }

  lemma OneMoreFrame(frames: seq<Frame>, frame: Frame)
    ensures RowCount(frames + [frame]) == RowCount(frames) + 1 + |frame.cells|
  {
    assert (frames + [frame])[..|frames|] == frames;
  }
}
