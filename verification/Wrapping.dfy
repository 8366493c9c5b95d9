/** Word wrapping: the rows of a line, and how the cursor and the rows on screen find each other. */
module Wrapping {
  import opened Basics

  datatype Segment = Segment(end: nat, next: nat)

  /** The last space in `line` after `start` and not after `i`, or `start` if there is none. */
  function LastSpace(line: string, start: nat, i: nat): (j: nat)
    requires start <= i < |line|
    ensures start <= j <= i && (j > start ==> line[j] == ' ')
    decreases i
  {
    if i == start || line[i] == ' ' then i else LastSpace(line, start, i - 1)
  }

  lemma {:induction false} LastSpaceIsLast(line: string, start: nat, i: nat, k: nat)
    requires start <= i < |line|
    ensures LastSpace(line, start, i) < k <= i ==> line[k] != ' '
    decreases i
  {
    if i > start && line[i] != ' ' { LastSpaceIsLast(line, start, i - 1, k); }
  }

  /** Where the row that begins at `start` ends, and where the next one begins. */
  function Wrap(line: string, start: nat, width: nat): (s: Segment)
    requires width > 0
  {
    var limit := start + width;
    if limit >= |line| then Segment(|line|, |line| + 1)
    else
      var space := LastSpace(line, start, limit);
      if space > start then Segment(space, space + 1) else Segment(limit, limit)
  }

  /** A row fits the width and makes progress; between two rows at most one space is dropped. The rest of the line is
      one row if it fits; otherwise the row is cut at the last space that fits, which is dropped, or at the width. */
  lemma WrapIsGreedy(line: string, start: nat, width: nat)
    requires width > 0 && start <= |line|
    ensures var s := Wrap(line, start, width);
            && start <= s.end <= start + width && s.end <= |line| && start < s.next <= |line| + 1
            && (s.next == s.end || s.next == s.end + 1)
            && (s.next == s.end + 1 ==> s.end == |line| || line[s.end] == ' ')
            && (s.next == s.end ==> s.end == start + width)
            && (s.end < |line| ==>
                  start < s.end && forall k :: s.end < k <= start + width ==> k < |line| && line[k] != ' ')
            && (s.end == |line| <==> |line| <= start + width)
            && (s.next == s.end ==> forall k :: start < k <= start + width ==> k < |line| && line[k] != ' ')
  {
    if start + width < |line| {
      forall k | LastSpace(line, start, start + width) < k <= start + width ensures line[k] != ' ' {
        LastSpaceIsLast(line, start, start + width, k);
      }
    }
  }

  method WrapSegment(line: string, start: nat, width: nat) returns (end: nat, next: nat)
    requires width > 0
    ensures Segment(end, next) == Wrap(line, start, width)
  {
    if |line| == 0 || start >= |line| { return |line|, |line| + 1; }
    var limit := start + width;
    if limit >= |line| { return |line|, |line| + 1; }
    var i := limit;
    while i > start
      invariant start <= i <= limit && LastSpace(line, start, i) == LastSpace(line, start, limit)
    {
      if line[i] == ' ' { return i, i + 1; }
      i := i - 1;
    }
    return limit, limit;
  }

  // ---- the rows of a line -------------------------------------------------------------

  /** The starts of the rows of a line, from the row at `start` on. */
  function Rows(line: string, start: nat, width: nat): (rows: seq<nat>)
    requires width > 0 && start <= |line|
    ensures |rows| > 0
    decreases |line| - start
  {
    WrapIsGreedy(line, start, width);
    var s := Wrap(line, start, width);
    [start] + if s.next > |line| then [] else Rows(line, s.next, width)
  }

  function RowCount(line: string, width: nat): (n: nat)
    requires width > 0
    ensures n > 0
  {
    |Rows(line, 0, width)|
  }

  function RowLength(line: string, start: nat, width: nat): (n: nat)
    requires width > 0 && start <= |line|
  {
    WrapIsGreedy(line, start, width);
    Wrap(line, start, width).end - start
  }

  /** The rows from `start` on, with the dropped spaces put back. */
  function Rejoined(line: string, start: nat, width: nat): string
    requires width > 0 && start <= |line|
    decreases |line| - start
  {
    WrapIsGreedy(line, start, width);
    var s := Wrap(line, start, width);
    line[start..s.end] +
    if s.next > |line| then []
    else (if s.next > s.end then " " else "") + Rejoined(line, s.next, width)
  }

  /** Wrapping loses nothing but the single spaces at which it breaks. */
  lemma {:induction false} RowsRejoin(line: string, start: nat, width: nat)
    requires width > 0 && start <= |line|
    ensures Rejoined(line, start, width) == line[start..]
    decreases |line| - start
  {
    WrapIsGreedy(line, start, width);
    var s := Wrap(line, start, width);
    if s.next <= |line| {
      RowsRejoin(line, s.next, width);
      assert line[start..] == line[start..s.end] + line[s.end..s.next] + line[s.next..];
    }
  }

  method VisualRowsForLine(line: string, width: nat) returns (rows: nat)
    requires width > 0
    ensures rows == RowCount(line, width)
  {
    if |line| == 0 { return 1; }
    rows := 0;
    var start := 0;
    while start <= |line|
      invariant start <= |line| && rows + |Rows(line, start, width)| == RowCount(line, width)
      decreases |line| - start
    {
      WrapIsGreedy(line, start, width);
      var end, next := WrapSegment(line, start, width);
      rows := rows + 1;
      if next > |line| { break; }
      start := next;
    }
  }

  // ---- positions in a line -------------------------------------------------------------------

  /** A place on screen: rows down, and columns across. */
  datatype Place = Place(row: nat, x: nat)

  /** How far across a row from `start` to `end` a column is shown. */
  function AcrossRow(start: nat, end: nat, col: nat, width: nat): nat
    requires start <= end && start <= col && width > 0
  {
    var x := if col > end then end - start else col - start;
    if x >= width then width - 1 else x
  }

  /** The row a column of the line is shown on, counted from the row at `start`, and its place in the row. */
  function PlaceInLine(line: string, start: nat, width: nat, col: nat): Place
    requires width > 0 && start <= |line| && start <= col
    decreases |line| - start
  {
    WrapIsGreedy(line, start, width);
    var s := Wrap(line, start, width);
    if col < s.next || s.next > |line| then
      Place(0, AcrossRow(start, s.end, col, width))
    else
      var p := PlaceInLine(line, s.next, width, col);
      Place(p.row + 1, p.x)
  }

  /** The column of the line at a place: row `k` from the row at `start`, at `x` or at the end of a shorter row. */
  function ColumnAt(line: string, start: nat, width: nat, k: nat, x: nat): (col: nat)
    requires width > 0 && start <= |line| && k < |Rows(line, start, width)|
    decreases k
  {
    var row := Rows(line, start, width)[k];
    RowsInLine(line, start, width, k);
    row + Min(x, RowLength(line, row, width))
  }

  lemma {:induction false} RowsInLine(line: string, start: nat, width: nat, k: nat)
    requires width > 0 && start <= |line| && k < |Rows(line, start, width)|
    ensures start <= Rows(line, start, width)[k] <= |line|
    decreases k
  {
    WrapIsGreedy(line, start, width);
    if k > 0 { RowsInLine(line, Wrap(line, start, width).next, width, k - 1); }
  }

  /** Placing the cursor on a row of the line and asking for its place gives that row, and that column unless the row
      is shorter. */
  lemma {:induction false} ColumnIsThere(line: string, start: nat, width: nat, k: nat, x: nat)
    requires 0 < width && x < width && start <= |line| && k < |Rows(line, start, width)|
    ensures var col := ColumnAt(line, start, width, k, x);
            && start <= col <= |line|
            && PlaceInLine(line, start, width, col)
               == Place(k, Min(x, RowLength(line, Rows(line, start, width)[k], width)))
    decreases k
  {
    hide Wrap, LastSpace;
    WrapIsGreedy(line, start, width);
    if k > 0 { ColumnIsThere(line, Wrap(line, start, width).next, width, k - 1, x); }
  }

  /** Column `col` is just past the last cell of a full row: the last row, or one that drops the space there. */
  ghost predicate PastFullRow(rows: seq<nat>, width: nat, col: nat) {
    exists k :: 0 <= k < |rows| && rows[k] + width == col && (k + 1 == |rows| || rows[k + 1] == col + 1)
  }

  lemma PastFirstRow(rows: seq<nat>, width: nat, col: nat)
    requires |rows| > 0 && rows[0] + width == col && (|rows| == 1 || rows[1] == col + 1)
    ensures PastFullRow(rows, width, col)
  {
  }

  lemma NotPastRows(rows: seq<nat>, width: nat, col: nat)
    requires |rows| > 0 && col < rows[0] + width && forall k :: 0 < k < |rows| ==> col < rows[k]
    ensures !PastFullRow(rows, width, col)
  {
  }

  lemma PastLaterRow(first: nat, rows: seq<nat>, width: nat, col: nat)
    requires |rows| > 0 && rows[0] <= col
    ensures PastFullRow([first] + rows, width, col) <==> PastFullRow(rows, width, col)
  {
    var all := [first] + rows;
    if PastFullRow(rows, width, col) {
      var k :| 0 <= k < |rows| && rows[k] + width == col && (k + 1 == |rows| || rows[k + 1] == col + 1);
      assert all[k + 1] + width == col && (k + 2 == |all| || all[k + 2] == col + 1);
    }
    if PastFullRow(all, width, col) {
      var k :| 0 <= k < |all| && all[k] + width == col && (k + 1 == |all| || all[k + 1] == col + 1);
      assert all[1] == rows[0];
      assert k > 0 && rows[k - 1] + width == col && (k == |rows| || rows[k] == col + 1);
    }
  }

  /** Asking for the place of a column and placing the cursor there gives the column back, unless it is just past the
      last cell of a full row. */
  lemma {:induction false} PlaceIsThere(line: string, start: nat, width: nat, col: nat)
    requires 0 < width && start <= col <= |line|
    ensures var p := PlaceInLine(line, start, width, col);
            && p.row < |Rows(line, start, width)| && p.x < width
            && (ColumnAt(line, start, width, p.row, p.x) == col <==> !PastFullRow(Rows(line, start, width), width, col))
    decreases |line| - start
  {
    hide Wrap, LastSpace, PastFullRow;
    WrapIsGreedy(line, start, width);
    var s := Wrap(line, start, width);
    var rows := Rows(line, start, width);
    if s.next > |line| {
      if col == start + width { PastFirstRow(rows, width, col); } else { NotPastRows(rows, width, col); }
    } else {
      var later := Rows(line, s.next, width);
      assert rows == [start] + later && later[0] == s.next;
      if col >= s.next {
        PastLaterRow(start, later, width, col);
        PlaceIsThere(line, s.next, width, col);
      } else if col == start + width {
        PastFirstRow(rows, width, col);
      } else {
        forall k | 0 < k < |rows| ensures col < rows[k] { RowsInLine(line, s.next, width, k - 1); }
        NotPastRows(rows, width, col);
      }
    }
  }

  // ---- positions in a document ------------------------------------------------------------------

  /** The number of rows of all lines. */
  function DocRows(lines: seq<string>, width: nat): nat
    requires width > 0
  {
    if lines == [] then 0 else RowCount(lines[0], width) + DocRows(lines[1..], width)
  }

  datatype Cursor = Cursor(line: nat, col: nat)

  predicate CursorIn(lines: seq<string>, c: Cursor) {
    c.line < |lines| && c.col <= |lines[c.line]|
  }

  function PlaceOf(lines: seq<string>, width: nat, c: Cursor): Place
    requires width > 0 && c.line < |lines|
  {
    var p := PlaceInLine(lines[c.line], 0, width, c.col);
    Place(DocRows(lines[..c.line], width) + p.row, p.x)
  }

  /** The cursor on row `v` of the document, which must have such a row. */
  function CursorAt(lines: seq<string>, width: nat, v: nat, x: nat): Cursor
    requires width > 0 && v < DocRows(lines, width)
  {
    var n := RowCount(lines[0], width);
    if v < n then Cursor(0, ColumnAt(lines[0], 0, width, v, x))
    else
      var c := CursorAt(lines[1..], width, v - n, x);
      Cursor(c.line + 1, c.col)
  }

  /** The length of row `v` of the document. */
  function DocRowLength(lines: seq<string>, width: nat, v: nat): nat
    requires width > 0 && v < DocRows(lines, width)
  {
    var n := RowCount(lines[0], width);
    if v < n then
      RowsInLine(lines[0], 0, width, v);
      RowLength(lines[0], Rows(lines[0], 0, width)[v], width)
    else DocRowLength(lines[1..], width, v - n)
  }

  lemma PlaceOfTail(lines: seq<string>, width: nat, c: Cursor)
    requires width > 0 && c.line + 1 < |lines|
    ensures var p := PlaceOf(lines[1..], width, c);
            PlaceOf(lines, width, Cursor(c.line + 1, c.col)) == Place(RowCount(lines[0], width) + p.row, p.x)
  {
    assert lines[..c.line + 1][1..] == lines[1..][..c.line];
  }

  /** Placing the cursor at any row of the document and any column on screen, then asking where it is, gives that row
      and that column, or the end of a shorter row. */
  lemma {:induction false} CursorIsThere(lines: seq<string>, width: nat, v: nat, x: nat)
    requires 0 < width && x < width && v < DocRows(lines, width)
    ensures var c := CursorAt(lines, width, v, x);
            CursorIn(lines, c) && PlaceOf(lines, width, c) == Place(v, Min(x, DocRowLength(lines, width, v)))
  {
    var n := RowCount(lines[0], width);
    if v < n {
      ColumnIsThere(lines[0], 0, width, v, x);
    } else {
      CursorIsThere(lines[1..], width, v - n, x);
      PlaceOfTail(lines, width, CursorAt(lines[1..], width, v - n, x));
    }
  }

  /** The cursor is always on a row of the document; placing it where it is shown moves it exactly if it stood just past
      the last cell of a full row. */
  lemma {:induction false} PlaceIsInside(lines: seq<string>, width: nat, c: Cursor)
    requires 0 < width && CursorIn(lines, c)
    ensures var p := PlaceOf(lines, width, c);
            && p.row < DocRows(lines, width) && p.x < width
            && (CursorAt(lines, width, p.row, p.x) == c <==> !PastFullRow(Rows(lines[c.line], 0, width), width, c.col))
    decreases c.line
  {
    hide PastFullRow, ColumnAt;
    if c.line == 0 {
      PlaceIsThere(lines[0], 0, width, c.col);
      assert lines[..0] == [];
    } else {
      PlaceIsInside(lines[1..], width, Cursor(c.line - 1, c.col));
      PlaceOfTail(lines, width, Cursor(c.line - 1, c.col));
    }
  }

  // ---- reading order ---------------------------------------------------------------------

  /** One place comes no later than another: on an earlier row, or no further across the same one. */
  predicate NoLater(p: Place, q: Place) {
    p.row < q.row || (p.row == q.row && p.x <= q.x)
  }

  lemma {:induction false} LineIsInOrder(line: string, start: nat, width: nat, col: nat, col': nat)
    requires width > 0 && start <= |line| && start <= col <= col'
    ensures NoLater(PlaceInLine(line, start, width, col), PlaceInLine(line, start, width, col'))
    decreases |line| - start
  {
    hide Wrap;
    WrapIsGreedy(line, start, width);
    var s := Wrap(line, start, width);
    if col >= s.next && s.next <= |line| { LineIsInOrder(line, s.next, width, col, col'); }
  }

  lemma {:induction false} DocRowsGrow(lines: seq<string>, width: nat, i: nat, j: nat)
    requires width > 0 && i < j <= |lines|
    ensures DocRows(lines[..i], width) + RowCount(lines[i], width) <= DocRows(lines[..j], width)
  {
    hide RowCount;
    assert lines[..j][0] == lines[0] && lines[..j][1..] == lines[1..][..j - 1];
    if i > 0 {
      assert lines[..i][0] == lines[0] && lines[..i][1..] == lines[1..][..i - 1];
      DocRowsGrow(lines[1..], width, i - 1, j - 1);
    }
  }

  /** The text is shown in reading order, from the top left of the screen: a cursor further on in the document is never
      shown before one that is not so far. */
  lemma PlacesAreInOrder(lines: seq<string>, width: nat, c: Cursor, c': Cursor)
    requires width > 0 && CursorIn(lines, c) && CursorIn(lines, c')
    requires c.line < c'.line || (c.line == c'.line && c.col <= c'.col)
    ensures NoLater(PlaceOf(lines, width, c), PlaceOf(lines, width, c'))
    ensures PlaceOf(lines, width, Cursor(0, 0)) == Place(0, 0)
  {
    hide PlaceInLine, Rows, DocRows, PastFullRow, ColumnAt;
    if c.line == c'.line {
      LineIsInOrder(lines[c.line], 0, width, c.col, c'.col);
    } else {
      PlaceIsThere(lines[c.line], 0, width, c.col);
      DocRowsGrow(lines, width, c.line, c'.line);
    }
    TopLeft(lines, width);
  }

  lemma TopLeft(lines: seq<string>, width: nat)
    requires width > 0 && lines != []
    ensures PlaceOf(lines, width, Cursor(0, 0)) == Place(0, 0)
  {
    assert lines[..0] == [];
    WrapIsGreedy(lines[0], 0, width);
  }

  /** The cursor at the end of a full last row is shown in its last cell, and placing it there moves it back by one. */
  lemma PlacedPastFullRow()
    ensures var c := Cursor(0, 4);
            var p := PlaceOf(["abcd"], 4, c);
            p == Place(0, 3) && CursorAt(["abcd"], 4, p.row, p.x) == Cursor(0, 3)
  {
  }
}
