/** The word processor: fixed line buffers and a cursor, changed in place. */
module Editor {
  import opened Wrapping
  import opened Document
  import opened Memory

  const NUL: char := '\0'

  // ---- line buffers --------------------------------------------------------------------------

  /** A line buffer holds `s` and its terminator; what follows is left over. */
  predicate IsText(row: seq<char>, s: string) {
    |s| < |row| == LINE_CAP && row[..|s|] == s && row[|s|] == NUL && NUL !in s
  }

  /** `strlen`. */
  function StrLen(row: seq<char>): (n: nat)
    ensures n <= |row|
  {
    if row == [] || row[0] == NUL then 0 else 1 + StrLen(row[1..])
  }

  lemma {:induction false} StrLenSkips(row: seq<char>, n: nat)
    requires n < |row| && row[n] == NUL && NUL !in row[..n]
    ensures StrLen(row) == n
  {
    if n > 0 {
      assert row[0] in row[..n];
      assert row[1..][..n - 1] == row[..n][1..];
      StrLenSkips(row[1..], n - 1);
    }
  }

  lemma StrLenIs(row: seq<char>, s: string)
    requires IsText(row, s)
    ensures StrLen(row) == |s|
  {
    StrLenSkips(row, |s|);
  }

  /** Overwrite the buffer with `s` from index `at` on. */
  function Put(row: seq<char>, at: nat, s: string): (r: seq<char>)
    requires at + |s| <= |row|
    ensures |r| == |row|
  {
    row[..at] + s + row[at + |s|..]
  }

  /** `strlcpy` of `s` to index `at`: as much as fits in `size`, and a terminator. */
  function CopiedIn(row: seq<char>, at: nat, s: string, size: nat): (r: seq<char>)
    requires 0 < size && at + size <= |row|
    ensures |r| == |row|
  {
    Put(row, at, (if |s| < size then s else s[..size - 1]) + [NUL])
  }

  lemma OpenedText(row: seq<char>, t: string, col: nat, s: string)
    requires IsText(row, t) && col <= |t| && |t| + |s| < LINE_CAP && NUL !in s
    ensures IsText(Put(Moved(row, col + |s|, col, |t| - col + 1), col, s), t[..col] + s + t[col..])
  {
    var u := t[..col] + s + t[col..];
    var r := Put(Moved(row, col + |s|, col, |t| - col + 1), col, s);
    assert row[..|t| + 1] == t + [NUL];
    assert row[col..|t| + 1] == t[col..] + [NUL];
    assert r[..|u| + 1] == u + [NUL];
    assert r[..|u|] == r[..|u| + 1][..|u|];
  }

  lemma ClosedText(row: seq<char>, t: string, col: nat)
    requires IsText(row, t) && col < |t|
    ensures IsText(Moved(row, col, col + 1, |t| - col), Cut(t, col))
  {
    var u, r := Cut(t, col), Moved(row, col, col + 1, |t| - col);
    assert row[..|t| + 1] == t + [NUL];
    assert row[col + 1..|t| + 1] == t[col + 1..] + [NUL];
    assert r[..|u| + 1] == u + [NUL];
    assert r[..|u|] == r[..|u| + 1][..|u|];
  }

  lemma CopiedText(row: seq<char>, t: string, s: string)
    requires |row| == LINE_CAP && |t| + |s| + 1 <= LINE_CAP && row[..|t|] == t && NUL !in t && NUL !in s
    ensures IsText(CopiedIn(row, |t|, s, LINE_CAP - |t|), t + s)
  {
    var r := CopiedIn(row, |t|, s, LINE_CAP - |t|);
    assert r[..|t| + |s|] == t + s;
  }

  lemma CutText(row: seq<char>, t: string, col: nat)
    requires IsText(row, t) && col <= |t|
    ensures IsText(row[col := NUL], t[..col])
  {
    assert row[col := NUL][..col] == t[..col];
  }

  lemma GoodHasNoNul(s: string)
    requires GoodLine(s)
    ensures NUL !in s
  {
  }

  /** The first buffers hold the lines, in order. */
  ghost predicate Holds(rows: seq<seq<char>>, lines: seq<string>) {
    && |lines| <= |rows| == MAX_LINES
    && (forall i :: 0 <= i < |rows| ==> |rows[i]| == LINE_CAP)
    && (forall i :: 0 <= i < |lines| ==> IsText(rows[i], lines[i]))
  }

  lemma HeldText(rows: seq<seq<char>>, lines: seq<string>, i: nat)
    requires Holds(rows, lines) && i < |lines|
    ensures |rows| == MAX_LINES && IsText(rows[i], lines[i]) && StrLen(rows[i]) == |lines[i]|
  {
    StrLenIs(rows[i], lines[i]);
  }

  lemma HoldsUpdate(rows: seq<seq<char>>, lines: seq<string>, i: nat, row: seq<char>, t: string)
    requires Holds(rows, lines) && i < |lines| && IsText(row, t)
    ensures Holds(rows[i := row], lines[i := t])
  {
  }

  /** The rows with row `i` doubled and the last of the first `n` pushed out to index `n`. */
  lemma HoldsOpened(rows: seq<seq<char>>, after: seq<seq<char>>, lines: seq<string>, i: nat, a: string, b: string)
    requires Holds(rows, lines) && i < |lines| < MAX_LINES && |after| == MAX_LINES
    requires IsText(after[i], a) && IsText(after[i + 1], b)
    requires forall j :: 0 <= j < i ==> after[j] == rows[j]
    requires forall j :: i + 1 < j <= |lines| ==> after[j] == rows[j - 1]
    requires forall j :: |lines| < j < MAX_LINES ==> after[j] == rows[j]
    ensures Holds(after, lines[..i] + [a, b] + lines[i + 1..])
  {
  }

  lemma HoldsClosed(rows: seq<seq<char>>, after: seq<seq<char>>, lines: seq<string>, i: nat)
    requires Holds(rows, lines) && i + 1 < |lines| && |after| == MAX_LINES
    requires IsText(after[i], lines[i] + lines[i + 1])
    requires forall j :: 0 <= j < i ==> after[j] == rows[j]
    requires forall j :: i < j < |lines| - 1 ==> after[j] == rows[j + 1]
    requires forall j :: |lines| - 1 <= j < MAX_LINES ==> after[j] == rows[j]
    ensures Holds(after, Merged(lines, i))
  {
  }

  /** Copy rows `at + 1` to `n - 1` one down, from the last one on. */
  method ShiftDown(rows: array<seq<char>>, at: nat, n: nat)
    requires at < n < rows.Length
    modifies rows
    ensures forall j :: 0 <= j <= at + 1 ==> rows[j] == old(rows[j])
    ensures forall j :: at + 1 < j <= n ==> rows[j] == old(rows[j - 1])
    ensures forall j :: n < j < rows.Length ==> rows[j] == old(rows[j])
  {
    var i := n;
    while i > at + 1
      invariant at + 1 <= i <= n
      invariant forall j :: 0 <= j <= i ==> rows[j] == old(rows[j])
      invariant forall j :: i < j <= n ==> rows[j] == old(rows[j - 1])
      invariant forall j :: n < j < rows.Length ==> rows[j] == old(rows[j])
    {
      rows[i] := rows[i - 1];
      i := i - 1;
    }
  }

  /** Copy rows `at + 1` to `n - 1` one up. */
  method ShiftUp(rows: array<seq<char>>, at: nat, n: nat)
    requires at < n <= rows.Length
    modifies rows
    ensures forall j :: 0 <= j < at ==> rows[j] == old(rows[j])
    ensures forall j :: at <= j < n - 1 ==> rows[j] == old(rows[j + 1])
    ensures forall j :: n - 1 <= j < rows.Length ==> rows[j] == old(rows[j])
  {
    var i := at;
    while i + 1 < n
      invariant at <= i < n
      invariant forall j :: 0 <= j < at ==> rows[j] == old(rows[j])
      invariant forall j :: at <= j < i ==> rows[j] == old(rows[j + 1])
      invariant forall j :: i <= j < rows.Length ==> rows[j] == old(rows[j])
    {
      rows[i] := rows[i + 1];
      i := i + 1;
    }
  }

  // ---- the editor ---------------------------------------------------------------------------------

  class Editor {
    const width: nat
    const rows: array<seq<char>>
    var lineCount: nat
    var cursorLine: nat
    var cursorCol: nat
    var dirty: bool
    var hasPreferred: bool
    var preferred: nat
    ghost var lines: seq<string>

    ghost predicate Valid() reads this, rows {
      && 0 < width && preferred < width
      && rows.Length == MAX_LINES && lineCount == |lines|
      && Holds(rows[..], lines)
      && Good(Doc(lines, cursorLine, cursorCol))
    }

    /** The document that the buffers stand for. */
    ghost function Document(): Doc reads this {
      Doc(lines, cursorLine, cursorCol)
    }

    /** A fresh editor, its buffers all zero. */
    constructor (width: nat)
      requires width > 0
      ensures Valid() && fresh(rows) && Document() == Doc([""], 0, 0) && !dirty && !hasPreferred && this.width == width
    {
      this.width := width;
      rows := new seq<char>[MAX_LINES](_ => seq(LINE_CAP, _ => NUL));
      lineCount, cursorLine, cursorCol, dirty, hasPreferred, preferred := 1, 0, 0, false, false, 0;
      lines := [""];
    }

    method LineText(i: nat) returns (t: string)
      requires Valid() && i < lineCount
      ensures t == lines[i]
    {
      HeldText(rows[..], lines, i);
      t := rows[i][..StrLen(rows[i])];
    }

    /** Type a character. */
    method InsertChar(ch: char)
      requires Valid() && Printable(ch)
      modifies this, rows
      ensures Valid() && Document() == Insert(old(Document()), [ch])
      ensures !hasPreferred && dirty == (old(dirty) || lines != old(lines))
    {
      hide Holds, GoodLine, Insert, IsText, StrLen, Moved, Put;
      hasPreferred := false;
      ghost var d, was, t := Document(), rows[..], lines[cursorLine];
      HeldText(was, lines, cursorLine);
      var row := rows[cursorLine];
      var len := StrLen(row);
      InsertIs(d, [ch]);
      if len + 1 >= LINE_CAP { return; }
      OpenedText(row, t, cursorCol, [ch]);
      row := Moved(row, cursorCol + 1, cursorCol, len - cursorCol + 1);
      row := Put(row, cursorCol, [ch]);
      ReplaceRow(cursorLine, row, t[..cursorCol] + [ch] + t[cursorCol..], cursorCol + 1);
      dirty := true;
    }

    /** Put a row back with a new text. */
    method ReplaceRow(i: nat, row: seq<char>, ghost t: string, col: nat)
      requires Valid() && i < lineCount && IsText(row, t) && GoodLine(t) && i == cursorLine && col <= |t|
      modifies rows, this`lines, this`cursorCol
      ensures Valid() && Document() == Doc(old(lines)[i := t], i, col)
    {
      HoldsUpdate(rows[..], lines, i, row, t);
      ghost var was := rows[..];
      rows[i] := row;
      lines := lines[i := t];
      cursorCol := col;
      assert rows[..] == was[i := row];
    }

    /** Type an indent. */
    method InsertIndent()
      requires Valid()
      modifies this, rows
      ensures Valid() && Document() == Insert(old(Document()), INDENT)
      ensures !hasPreferred && dirty == (old(dirty) || lines != old(lines))
    {
      hide Holds, GoodLine, Insert, IsText, StrLen, Moved, Put;
      hasPreferred := false;
      ghost var d, was, t := Document(), rows[..], lines[cursorLine];
      HeldText(was, lines, cursorLine);
      var row := rows[cursorLine];
      var len := StrLen(row);
      InsertIs(d, INDENT);
      if len + |INDENT| >= LINE_CAP { return; }
      OpenedText(row, t, cursorCol, INDENT);
      row := Moved(row, cursorCol + |INDENT|, cursorCol, len - cursorCol + 1);
      row := Put(row, cursorCol, INDENT);
      ReplaceRow(cursorLine, row, t[..cursorCol] + INDENT + t[cursorCol..], cursorCol + |INDENT|);
      dirty := true;
    }

    /** Break the line at the cursor. */
    method SplitLine()
      requires Valid()
      modifies this, rows
      ensures Valid() && Document() == Split(old(Document()))
      ensures !hasPreferred && dirty == (old(dirty) || lines != old(lines))
    {
      hide Holds, GoodLine, IsText;
      hasPreferred := false;
      if lineCount >= MAX_LINES { return; }
      ghost var d, was, t := Document(), rows[..], lines[cursorLine];
      HeldText(was, lines, cursorLine);
      SplitKeepsGood(d);
      SplitRow();
      lines := Split(d).lines;
      lineCount := lineCount + 1;
      cursorLine := cursorLine + 1;
      cursorCol := 0;
      dirty := true;
    }

    method SplitRow()
      requires Valid() && lineCount < MAX_LINES
      modifies rows
      ensures Holds(rows[..], Split(Document()).lines)
    {
      ghost var was, t := rows[..], lines[cursorLine];
      HeldText(was, lines, cursorLine);
      GoodHasNoNul(t);
      ShiftDown(rows, cursorLine, lineCount);
      var row := rows[cursorLine];
      var tail := row[cursorCol..StrLen(row)];
      CopiedText(rows[cursorLine + 1], "", tail);
      CutText(row, t, cursorCol);
      rows[cursorLine + 1] := CopiedIn(rows[cursorLine + 1], 0, tail, LINE_CAP);
      rows[cursorLine] := row[cursorCol := NUL];
      HoldsOpened(was, rows[..], lines, cursorLine, t[..cursorCol], t[cursorCol..]);
    }

    /** Put the next line at the end of line `i` in the buffers. */
    method MergeRows(i: nat)
      requires Valid() && Mergeable(lines, i)
      modifies rows
      ensures Holds(rows[..], Merged(lines, i))
    {
      ghost var was := rows[..];
      HeldText(was, lines, i);
      HeldText(was, lines, i + 1);
      GoodHasNoNul(lines[i]);
      GoodHasNoNul(lines[i + 1]);
      var len := StrLen(rows[i]);
      var next := rows[i + 1][..StrLen(rows[i + 1])];
      CopiedText(rows[i], lines[i], next);
      rows[i] := CopiedIn(rows[i], len, next, LINE_CAP - len);
      ShiftUp(rows, i + 1, lineCount);
      HoldsClosed(was, rows[..], lines, i);
    }

    /** Erase the character before the cursor, or the line break. */
    method Erase()
      requires Valid()
      modifies this, rows
      ensures Valid() && Document() == Backspace(old(Document()))
      ensures !hasPreferred && dirty == (old(dirty) || lines != old(lines))
    {
      hide Holds, GoodLine, IsText, StrLen;
      hasPreferred := false;
      ghost var d, was, t := Document(), rows[..], lines[cursorLine];
      HeldText(was, lines, cursorLine);
      if cursorCol > 0 {
        RemoveChar(cursorCol - 1);
        dirty := true;
        return;
      }
      if cursorLine == 0 { return; }
      HeldText(was, lines, cursorLine - 1);
      var prevLen, curLen := StrLen(rows[cursorLine - 1]), StrLen(rows[cursorLine]);
      if prevLen + curLen + 1 >= LINE_CAP { return; }
      EraseBreak(prevLen);
    }

    method EraseBreak(prevLen: nat)
      requires Valid() && cursorCol == 0 < cursorLine && Mergeable(lines, cursorLine - 1)
      requires prevLen == |lines[cursorLine - 1]| && !hasPreferred
      modifies this, rows
      ensures Valid() && Document() == Backspace(old(Document())) && !hasPreferred && dirty && lines != old(lines)
    {
      hide Holds, GoodLine, IsText;
      BackspaceKeepsGood(Document());
      MergeRows(cursorLine - 1);
      lines := Merged(lines, cursorLine - 1);
      lineCount := lineCount - 1;
      cursorLine := cursorLine - 1;
      cursorCol := prevLen;
      dirty := true;
    }

    /** Take the character at column `col` out of the line of the cursor, and leave the cursor there. */
    method RemoveChar(col: nat)
      requires Valid() && col < |lines[cursorLine]|
      modifies rows, this`lines, this`cursorCol
      ensures Valid()
      ensures Document() == Doc(old(lines)[cursorLine := Cut(old(lines)[cursorLine], col)], old(cursorLine), col)
      ensures lines != old(lines)
    {
      hide Holds, GoodLine, IsText;
      ghost var t := lines[cursorLine];
      HeldText(rows[..], lines, cursorLine);
      CutIsGood(t, col);
      ClosedText(rows[cursorLine], t, col);
      var row := rows[cursorLine];
      ReplaceRow(cursorLine, Moved(row, col, col + 1, StrLen(row) - col), Cut(t, col), col);
      assert |lines[cursorLine]| != |t|;
    }

    /** Delete the character at the cursor, or the line break. */
    method Delete()
      requires Valid()
      modifies this, rows
      ensures Valid() && Document() == DeleteForward(old(Document()))
      ensures !hasPreferred && dirty == (old(dirty) || lines != old(lines))
    {
      hide Holds, GoodLine, IsText;
      hasPreferred := false;
      ghost var d, was := Document(), rows[..];
      HeldText(was, lines, cursorLine);
      DeleteKeepsGood(d);
      var len := StrLen(rows[cursorLine]);
      if cursorCol < len {
        RemoveChar(cursorCol);
        dirty := true;
        return;
      }
      if cursorLine + 1 >= lineCount { return; }
      HeldText(was, lines, cursorLine + 1);
      var nextLen := StrLen(rows[cursorLine + 1]);
      if len + nextLen + 1 >= LINE_CAP { return; }
      MergeRows(cursorLine);
      lines := Merged(lines, cursorLine);
      lineCount := lineCount - 1;
      dirty := true;
    }

    // ---- moving -----------------------------------------------------------------------------

    method MoveCursorLeft()
      requires Valid()
      modifies this`hasPreferred, this`cursorLine, this`cursorCol
      ensures Valid() && Document() == Left(old(Document())) && !hasPreferred
    {
      hasPreferred := false;
      if cursorCol > 0 {
        cursorCol := cursorCol - 1;
      } else if cursorLine > 0 {
        cursorLine := cursorLine - 1;
        HeldText(rows[..], lines, cursorLine);
        cursorCol := StrLen(rows[cursorLine]);
      }
    }

    method MoveCursorRight()
      requires Valid()
      modifies this`hasPreferred, this`cursorLine, this`cursorCol
      ensures Valid() && Document() == Right(old(Document())) && !hasPreferred
    {
      hasPreferred := false;
      HeldText(rows[..], lines, cursorLine);
      var len := StrLen(rows[cursorLine]);
      if cursorCol < len {
        cursorCol := cursorCol + 1;
      } else if cursorLine + 1 < lineCount {
        cursorLine := cursorLine + 1;
        cursorCol := 0;
      }
    }

    method MoveCursorHome(document: bool)
      requires Valid()
      modifies this`hasPreferred, this`cursorLine, this`cursorCol
      ensures Valid() && Document() == Home(old(Document()), document) && !hasPreferred
    {
      hasPreferred := false;
      if document { cursorLine := 0; }
      cursorCol := 0;
    }

    method MoveCursorEnd(document: bool)
      requires Valid()
      modifies this`hasPreferred, this`cursorLine, this`cursorCol
      ensures Valid() && Document() == End(old(Document()), document) && !hasPreferred
    {
      hasPreferred := false;
      if document { cursorLine := lineCount - 1; }
      HeldText(rows[..], lines, cursorLine);
      cursorCol := StrLen(rows[cursorLine]);
    }

    /** Where the cursor is on screen. */
    method CursorVisualPosition() returns (visual: nat, x: nat)
      requires Valid()
      ensures Place(visual, x) == PlaceOnScreen(Document(), width)
    {
      visual := 0;
      var line := 0;
      while line < cursorLine
        invariant line <= cursorLine && visual == DocRows(lines[..line], width)
      {
        var text := LineText(line);
        var n := VisualRowsForLine(text, width);
        DocRowsAppend(lines, line, width);
        visual := visual + n;
        line := line + 1;
      }
      var text := LineText(cursorLine);
      ghost var base, there := visual, PlaceInLine(text, 0, width, cursorCol);
      var start := 0;
      while true
        invariant start <= |text| && start <= cursorCol && base <= visual
        invariant var p := PlaceInLine(text, start, width, cursorCol);
                  Place(visual - base + p.row, p.x) == there
        decreases |text| - start
      {
        WrapIsGreedy(text, start, width);
        var end, next := WrapSegment(text, start, width);
        if cursorCol >= start && (cursorCol < next || next > |text|) {
          x := AcrossRow(start, end, cursorCol, width);
          return;
        }
        visual := visual + 1;
        if next > |text| { return; }
        start := next;
      }
    }

    method VisualRowCount() returns (n: nat)
      requires Valid()
      ensures n == DocRows(lines, width)
    {
      n := 0;
      var line := 0;
      while line < lineCount
        invariant line <= lineCount && n == DocRows(lines[..line], width)
      {
        var text := LineText(line);
        var more := VisualRowsForLine(text, width);
        DocRowsAppend(lines, line, width);
        n := n + more;
        line := line + 1;
      }
      assert lines[..line] == lines;
    }

    /** Put the cursor on row `target`, if there is one. */
    method SetCursorFromVisualPosition(target: nat, x: nat) returns (found: bool)
      requires Valid() && x < width
      modifies this`cursorLine, this`cursorCol
      ensures Valid() && found == (target < DocRows(lines, width))
      ensures found ==> Cursor(cursorLine, cursorCol) == CursorAt(lines, width, target, x)
      ensures !found ==> Document() == old(Document())
    {
      hide Holds, GoodLine, Rows, ColumnAt;
      var visual: nat, line: nat := 0, 0;
      while line < lineCount
        invariant line <= lineCount && visual <= target && Document() == old(Document())
        invariant visual + DocRows(lines[line..], width) == DocRows(lines, width)
        invariant target < DocRows(lines, width) ==>
                    var c := CursorAt(lines[line..], width, target - visual, x);
                    Cursor(line + c.line, c.col) == CursorAt(lines, width, target, x)
      {
        var text := LineText(line);
        assert lines[line..][1..] == lines[line + 1..];
        var here, col, after := SeekRow(text, visual, target, x);
        if here {
          CursorIsThere(lines, width, target, x);
          cursorLine, cursorCol := line, col;
          return true;
        }
        visual := after;
        line := line + 1;
      }
      return false;
    }

    /** Look for row `target` among the rows of a line, the first of which is row `visual`. */
    method SeekRow(text: string, visual: nat, target: nat, x: nat) returns (here: bool, col: nat, after: nat)
      requires 0 < width && visual <= target
      ensures here == (target - visual < RowCount(text, width))
      ensures here ==> col == ColumnAt(text, 0, width, target - visual, x)
      ensures !here ==> after == visual + RowCount(text, width)
    {
      var start, row := 0, visual;
      while true
        invariant start <= |text| && visual <= row <= target
        invariant row - visual + |Rows(text, start, width)| == RowCount(text, width)
        invariant target - visual < RowCount(text, width) ==>
                    ColumnAt(text, start, width, target - row, x) == ColumnAt(text, 0, width, target - visual, x)
        decreases |text| - start
      {
        WrapIsGreedy(text, start, width);
        var end, next := WrapSegment(text, start, width);
        if row == target {
          var rowLength := if end >= start then end - start else 0;
          return true, start + (if x < rowLength then x else rowLength), row;
        }
        row := row + 1;
        if next > |text| { return false, 0, row; }
        start := next;
      }
    }

    /** Move up or down by rows on screen, keeping to the column wanted. */
    method MoveCursorVertical(up: bool, distance: nat)
      requires Valid()
      modifies this`cursorLine, this`cursorCol, this`hasPreferred, this`preferred
      ensures Valid() && hasPreferred
      ensures preferred == if old(hasPreferred) then old(preferred) else PlaceOnScreen(old(Document()), width).x
      ensures Document() == Vertical(old(Document()), width, up, distance, preferred)
    {
      hide Holds, GoodLine, PlaceOf, DocRows, CursorAt;
      PlaceIsInside(lines, width, Cursor(cursorLine, cursorCol));
      var current, x := CursorVisualPosition();
      if !hasPreferred {
        preferred := x;
        hasPreferred := true;
      }
      var target := current;
      if up {
        target := if distance < current then current - distance else 0;
      } else {
        var n := VisualRowCount();
        if n != 0 {
          var last := n - 1;
          target := if distance < last - current then current + distance else last;
        }
      }
      MovesTo(Document(), width, up, distance, preferred, target);
      var _ := SetCursorFromVisualPosition(target, preferred);
    }

    // ---- files --------------------------------------------------------------------------------

    /** Save; `texts` and `feeds` say which writes of a line and of a line feed succeed. */
    method SaveDocument(created: bool, texts: nat -> bool, feeds: nat -> bool) returns (ok: bool, file: string)
      requires Valid()
      modifies this`dirty
      ensures ok == (created && forall i :: 0 <= i < lineCount && lines[i] != "" ==> texts(i))
      ensures ok ==> file == Written(lines, 0, feeds) && !dirty
      ensures !ok ==> dirty == old(dirty)
    {
      hide Holds, GoodLine, Written;
      file := "";
      if !created { return false, file; }
      var i := 0;
      while i < lineCount
        invariant i <= lineCount && dirty == old(dirty)
        invariant forall j :: 0 <= j < i && lines[j] != "" ==> texts(j)
        invariant file + Written(lines[i..], i, feeds) == Written(lines, 0, feeds)
      {
        WrittenStep(lines, i, feeds);
        var text := LineText(i);
        if |text| != 0 && !texts(i) { return false, file; }
        ghost var before, rest := file, Written(lines[i + 1..], i + 1, feeds);
        file := file + text;
        if i + 1 < lineCount && feeds(i) { file := file + "\n"; }
        assert file == before + (text + if i + 1 < lineCount && feeds(i) then "\n" else "");
        assert file + rest == before + (text + (if i + 1 < lineCount && feeds(i) then "\n" else "") + rest);
        i := i + 1;
      }
      WrittenNone(i, feeds);
      assert lines[i..] == [] && file + "" == file;
      dirty := false;
      return true, file;
    }

    /** Load a file into a fresh editor, from reads that end at the first empty one. */
    method LoadDocument(chunks: seq<string>)
      requires Valid() && Document() == Doc([""], 0, 0)
      modifies this`lineCount, this`lines, rows
      ensures Valid() && Document() == Doc(Load([""], Joined(chunks)), 0, 0)
    {
      var line, col, i := 0, 0, 0;
      while i < |chunks| && chunks[i] != ""
        invariant i <= |chunks| && Valid() && line == lineCount - 1 && col == |lines[line]|
        invariant Document() == Doc(lines, 0, 0)
        invariant Load(lines, Joined(chunks[i..])) == Load([""], Joined(chunks))
      {
        LoadConcat(lines, chunks[i], Joined(chunks[i + 1..]));
        assert chunks[i..][1..] == chunks[i + 1..];
        line, col := LoadChunk(chunks[i], line, col);
        i := i + 1;
      }
    }

    method LoadChunk(chunk: string, line0: nat, col0: nat) returns (line: nat, col: nat)
      requires Valid() && line0 == lineCount - 1 && col0 == |lines[line0]|
      requires cursorLine == 0 && cursorCol == 0
      modifies this`lineCount, this`lines, rows
      ensures Valid() && lines == Load(old(lines), chunk) && line == lineCount - 1 && col == |lines[line]|
    {
      line, col := line0, col0;
      var i := 0;
      while i < |chunk|
        invariant i <= |chunk| && Valid() && line == lineCount - 1 && col == |lines[line]|
        invariant Load(lines, chunk[i..]) == Load(old(lines), chunk)
      {
        assert chunk[i..][1..] == chunk[i + 1..];
        line, col := LoadOne(chunk[i], line, col);
        i := i + 1;
      }
    }

    method LoadOne(ch: char, line0: nat, col0: nat) returns (line: nat, col: nat)
      requires Valid() && line0 == lineCount - 1 && col0 == |lines[line0]|
      requires cursorLine == 0 && cursorCol == 0
      modifies this`lineCount, this`lines, rows
      ensures Valid() && lines == LoadByte(old(lines), ch) && line == lineCount - 1 && col == |lines[line]|
    {
      line, col := line0, col0;
      HeldText(rows[..], lines, line);
      LoadByteIsGood(lines, ch);
      if ch == '\r' { return; }
      if ch == '\n' {
        rows[line] := rows[line][col := NUL];
        if line + 1 < MAX_LINES {
          line := line + 1;
          lineCount := lineCount + 1;
          col := 0;
          rows[line] := rows[line][0 := NUL];
          lines := lines + [""];
        }
        return;
      }
      if ' ' <= ch <= '~' && col + 1 < LINE_CAP {
        rows[line] := rows[line][col := ch][col + 1 := NUL];
        lines := lines[line := lines[line] + [ch]];
        col := col + 1;
      }
    }
  }

  lemma DocRowsAppend(lines: seq<string>, i: nat, width: nat)
    requires width > 0 && i < |lines|
    ensures DocRows(lines[..i + 1], width) == DocRows(lines[..i], width) + RowCount(lines[i], width)
  {
    assert lines[..i + 1] == lines[..i] + [lines[i]];
    DocRowsConcat(lines[..i], [lines[i]], width);
  }

  lemma {:induction false} DocRowsConcat(a: seq<string>, b: seq<string>, width: nat)
    requires width > 0
    ensures DocRows(a + b, width) == DocRows(a, width) + DocRows(b, width)
  {
    if a == [] {
      assert a + b == b;
    } else {
      assert (a + b)[1..] == a[1..] + b;
      DocRowsConcat(a[1..], b, width);
    }
  }

  /** What the reads up to the first empty one give. */
  function Joined(chunks: seq<string>): string {
    if chunks == [] || chunks[0] == "" then "" else chunks[0] + Joined(chunks[1..])
  }

  lemma MovesTo(d: Doc, width: nat, up: bool, distance: nat, x: nat, v: nat)
    requires Good(d) && x < width && v == TargetRow(d, width, up, distance)
    ensures v < DocRows(d.lines, width)
    ensures Vertical(d, width, up, distance, x)
            == d.(line := CursorAt(d.lines, width, v, x).line, col := CursorAt(d.lines, width, v, x).col)
  {
    VerticalLands(d, width, up, distance, x);
  }

  lemma WrittenNone(i: nat, feeds: nat -> bool)
    ensures Written([], i, feeds) == ""
  {
  }

  lemma WrittenStep(lines: seq<string>, i: nat, feeds: nat -> bool)
    requires i < |lines|
    ensures Written(lines[i..], i, feeds)
            == lines[i] + (if i + 1 < |lines| && feeds(i) then "\n" else "") + Written(lines[i + 1..], i + 1, feeds)
  {
    assert lines[i..][1..] == lines[i + 1..];
  }

  lemma InsertIs(d: Doc, s: string)
    requires Good(d) && forall ch :: ch in s ==> Printable(ch)
    ensures var t := d.lines[d.line];
            if |t| + |s| >= LINE_CAP then Insert(d, s) == d
            else GoodLine(t[..d.col] + s + t[d.col..]) && (s != "" ==> Insert(d, s).lines != d.lines)
                 && Insert(d, s) == Doc(d.lines[d.line := t[..d.col] + s + t[d.col..]], d.line, d.col + |s|)
  {
    InsertKeepsGood(d, s);
    var u := Insert(d, s).lines;
    assert u[d.line] in u;
    assert |u[d.line]| != |d.lines[d.line]| ==> u != d.lines;
  }
}
