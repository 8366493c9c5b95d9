/** The document of the word processor as a list of lines with a cursor: its editing operations and its file form. */
module Document {
  import opened Basics
  import opened Wrapping

  const MAX_LINES := 256
  const LINE_CAP := 192
  const INDENT: string := "    "

  datatype Doc = Doc(lines: seq<string>, line: nat, col: nat)

  predicate Printable(ch: char) {
    ' ' <= ch <= '~'
  }

  /** A line leaves room for its terminator. */
  predicate GoodLine(s: string) {
    |s| < LINE_CAP && forall ch :: ch in s ==> Printable(ch)
  }

  predicate Good(d: Doc) {
    && 1 <= |d.lines| <= MAX_LINES
    && (forall s :: s in d.lines ==> GoodLine(s))
    && d.line < |d.lines| && d.col <= |d.lines[d.line]|
  }

  // ---- editing -----------------------------------------------------------------------------

  /** Type `s` at the cursor, if the line has room. */
  function Insert(d: Doc, s: string): Doc
    requires Good(d)
  {
    var t := d.lines[d.line];
    if |t| + |s| >= LINE_CAP then d
    else Doc(d.lines[d.line := t[..d.col] + s + t[d.col..]], d.line, d.col + |s|)
  }

  /** Break the line at the cursor, if there is room for one more. */
  function Split(d: Doc): Doc
    requires Good(d)
  {
    var t := d.lines[d.line];
    if |d.lines| >= MAX_LINES then d
    else Doc(d.lines[..d.line] + [t[..d.col], t[d.col..]] + d.lines[d.line + 1..], d.line + 1, 0)
  }

  /** The lines with line `i + 1` put at the end of line `i`. */
  function Merged(lines: seq<string>, i: nat): seq<string>
    requires i + 1 < |lines|
  {
    lines[..i] + [lines[i] + lines[i + 1]] + lines[i + 2..]
  }

  predicate Mergeable(lines: seq<string>, i: nat) {
    i + 1 < |lines| && |lines[i]| + |lines[i + 1]| + 1 < LINE_CAP
  }

  /** The line without the character at column `c`. */
  function Cut(t: string, c: nat): string
    requires c < |t|
  {
    t[..c] + t[c + 1..]
  }

  function Backspace(d: Doc): Doc
    requires Good(d)
  {
    if d.col > 0 then Doc(d.lines[d.line := Cut(d.lines[d.line], d.col - 1)], d.line, d.col - 1)
    else if d.line > 0 && Mergeable(d.lines, d.line - 1) then
      Doc(Merged(d.lines, d.line - 1), d.line - 1, |d.lines[d.line - 1]|)
    else d
  }

  function DeleteForward(d: Doc): Doc
    requires Good(d)
  {
    if d.col < |d.lines[d.line]| then d.(lines := d.lines[d.line := Cut(d.lines[d.line], d.col)])
    else if Mergeable(d.lines, d.line) then d.(lines := Merged(d.lines, d.line))
    else d
  }

  function Left(d: Doc): Doc
    requires Good(d)
  {
    if d.col > 0 then d.(col := d.col - 1)
    else if d.line > 0 then d.(line := d.line - 1, col := |d.lines[d.line - 1]|)
    else d
  }

  function Right(d: Doc): Doc
    requires Good(d)
  {
    if d.col < |d.lines[d.line]| then d.(col := d.col + 1)
    else if d.line + 1 < |d.lines| then d.(line := d.line + 1, col := 0)
    else d
  }

  function Home(d: Doc, document: bool): Doc {
    d.(line := if document then 0 else d.line, col := 0)
  }

  function End(d: Doc, document: bool): Doc
    requires Good(d)
  {
    var line := if document then |d.lines| - 1 else d.line;
    d.(line := line, col := |d.lines[line]|)
  }

  // ---- moving by rows on screen -----------------------------------------------------------------

  function CursorOf(d: Doc): Cursor {
    Cursor(d.line, d.col)
  }

  function PlaceOnScreen(d: Doc, width: nat): Place
    requires Good(d) && width > 0
  {
    PlaceOf(d.lines, width, CursorOf(d))
  }

  /** `distance` rows up or down, but not off the document. */
  function TargetRow(d: Doc, width: nat, up: bool, distance: nat): (v: nat)
    requires Good(d) && width > 0
  {
    PlaceIsInside(d.lines, width, CursorOf(d));
    var row, last := PlaceOnScreen(d, width).row, DocRows(d.lines, width) - 1;
    if up then (if distance < row then row - distance else 0)
    else (if distance < last - row then row + distance else last)
  }

  function Vertical(d: Doc, width: nat, up: bool, distance: nat, x: nat): Doc
    requires Good(d) && width > 0
  {
    PlaceIsInside(d.lines, width, CursorOf(d));
    var c := CursorAt(d.lines, width, TargetRow(d, width, up, distance), x);
    d.(line := c.line, col := c.col)
  }

  /** A vertical or page move goes up or down by its distance, or to the first or last row if that is nearer, and lands
      there at the wanted column or the end of a shorter row. */
  lemma VerticalLands(d: Doc, width: nat, up: bool, distance: nat, x: nat)
    requires Good(d) && width > 0 && x < width
    ensures var row, rows := PlaceOnScreen(d, width).row, DocRows(d.lines, width);
            var v := if up then Max(row - distance, 0) else Min(row + distance, rows - 1);
            var after := Vertical(d, width, up, distance, x);
            && 0 <= v < rows && Good(after) && after.lines == d.lines
            && PlaceOnScreen(after, width) == Place(v, Min(x, DocRowLength(d.lines, width, v)))
  {
    PlaceIsInside(d.lines, width, CursorOf(d));
    CursorIsThere(d.lines, width, TargetRow(d, width, up, distance), x);
  }

  // ---- what every operation keeps -------------------------------------------------------------------

  datatype Edit =
    | Type(ch: char) | Indent | Enter | Erase | Delete
    | GoLeft | GoRight | GoHome(document: bool) | GoEnd(document: bool)
    | GoVertical(up: bool, distance: nat, x: nat)

  /** Only printable characters are typed, and a wanted column is on screen. */
  predicate Allowed(e: Edit, width: nat) {
    (e.Type? ==> Printable(e.ch)) && (e.GoVertical? ==> e.x < width)
  }

  function Apply(d: Doc, e: Edit, width: nat): Doc
    requires Good(d) && width > 0
  {
    match e
    case Type(ch) => Insert(d, [ch])
    case Indent => Insert(d, INDENT)
    case Enter => Split(d)
    case Erase => Backspace(d)
    case Delete => DeleteForward(d)
    case GoLeft => Left(d)
    case GoRight => Right(d)
    case GoHome(document) => Home(d, document)
    case GoEnd(document) => End(d, document)
    case GoVertical(up, distance, x) => Vertical(d, width, up, distance, x)
  }

  lemma InsertKeepsGood(d: Doc, s: string)
    requires Good(d) && forall ch :: ch in s ==> Printable(ch)
    ensures Good(Insert(d, s))
  {
    var t := d.lines[d.line];
    assert GoodLine(t);
    if |t| + |s| < LINE_CAP {
      var u := t[..d.col] + s + t[d.col..];
      forall ch | ch in u ensures Printable(ch) {
        assert ch in t || ch in s;
      }
      assert GoodLine(u);
    }
  }

  lemma SplitKeepsGood(d: Doc)
    requires Good(d)
    ensures Good(Split(d))
  {
    var t := d.lines[d.line];
    assert GoodLine(t);
    if |d.lines| < MAX_LINES {
      assert GoodLine(t[..d.col]) && GoodLine(t[d.col..]);
      var u := Split(d).lines;
      assert u[d.line + 1] == t[d.col..];
      forall s | s in u ensures GoodLine(s) {
        assert s in d.lines || s == t[..d.col] || s == t[d.col..];
      }
    }
  }

  lemma MergedIsGood(lines: seq<string>, i: nat)
    requires Mergeable(lines, i) && forall s :: s in lines ==> GoodLine(s)
    ensures forall s :: s in Merged(lines, i) ==> GoodLine(s)
  {
    var m := lines[i] + lines[i + 1];
    assert GoodLine(lines[i]) && GoodLine(lines[i + 1]);
    forall ch | ch in m ensures Printable(ch) {
      assert ch in lines[i] || ch in lines[i + 1];
    }
    forall s | s in Merged(lines, i) ensures GoodLine(s) {
      assert s in lines || s == m;
    }
  }

  lemma CutIsGood(t: string, c: nat)
    requires GoodLine(t) && c < |t|
    ensures GoodLine(Cut(t, c))
  {
    forall ch | ch in Cut(t, c) ensures Printable(ch) {
      assert ch in t;
    }
  }

  lemma BackspaceKeepsGood(d: Doc)
    requires Good(d)
    ensures Good(Backspace(d))
  {
    assert GoodLine(d.lines[d.line]);
    if d.col > 0 {
      CutIsGood(d.lines[d.line], d.col - 1);
    } else if d.line > 0 && Mergeable(d.lines, d.line - 1) {
      MergedIsGood(d.lines, d.line - 1);
    }
  }

  lemma DeleteKeepsGood(d: Doc)
    requires Good(d)
    ensures Good(DeleteForward(d))
  {
    assert GoodLine(d.lines[d.line]);
    if d.col < |d.lines[d.line]| {
      CutIsGood(d.lines[d.line], d.col);
    } else if Mergeable(d.lines, d.line) {
      MergedIsGood(d.lines, d.line);
    }
  }

  lemma ApplyKeepsGood(d: Doc, e: Edit, width: nat)
    requires Good(d) && width > 0 && Allowed(e, width)
    ensures Good(Apply(d, e, width))
  {
    match e
    case Type(ch) => InsertKeepsGood(d, [ch]);
    case Indent => InsertKeepsGood(d, INDENT);
    case Enter => SplitKeepsGood(d);
    case Erase => BackspaceKeepsGood(d);
    case Delete => DeleteKeepsGood(d);
    case GoVertical(up, distance, x) => VerticalLands(d, width, up, distance, x);
    case _ =>
  }

  function Edited(d: Doc, edits: seq<Edit>, width: nat): Doc
    requires Good(d) && width > 0 && forall e :: e in edits ==> Allowed(e, width)
    decreases |edits|
  {
    if edits == [] then d
    else
      ApplyKeepsGood(d, edits[0], width);
      Edited(Apply(d, edits[0], width), edits[1..], width)
  }

  lemma {:induction false} EditedIsGood(d: Doc, edits: seq<Edit>, width: nat)
    requires Good(d) && width > 0 && forall e :: e in edits ==> Allowed(e, width)
    ensures Good(Edited(d, edits, width))
    decreases |edits|
  {
    if edits != [] {
      ApplyKeepsGood(d, edits[0], width);
      EditedIsGood(Apply(d, edits[0], width), edits[1..], width);
    }
  }

  // ---- what undoes what -------------------------------------------------------------------------------

  /** Typing a character and erasing it restores the document, except on a full line, where the character is refused
      but the erasing is not unless the cursor is in the first column. */
  lemma TypeThenErase(d: Doc, ch: char)
    requires Good(d) && Printable(ch)
    ensures Good(Insert(d, [ch]))
    ensures Backspace(Insert(d, [ch])) == d <==> |d.lines[d.line]| + 1 < LINE_CAP || d.col == 0
  {
    InsertKeepsGood(d, [ch]);
    var t := d.lines[d.line];
    assert GoodLine(t);
    if |t| + 1 < LINE_CAP {
      var u := t[..d.col] + [ch] + t[d.col..];
      assert Cut(u, d.col) == t;
      assert d.lines[d.line := u][d.line := t] == d.lines;
    } else if d.col > 0 {
      assert |Backspace(d).lines[d.line]| != |t|;
    }
  }

  /** Breaking a line and erasing the break restores the document exactly when the line is short enough to be merged
      again; in a full document the break is refused, and the erasing must find nothing to erase either. */
  lemma EnterThenErase(d: Doc)
    requires Good(d)
    ensures Good(Split(d))
    ensures Backspace(Split(d)) == d <==>
              if |d.lines| < MAX_LINES then |d.lines[d.line]| + 1 < LINE_CAP
              else d.col == 0 && (d.line == 0 || !Mergeable(d.lines, d.line - 1))
  {
    SplitKeepsGood(d);
    var t := d.lines[d.line];
    if |d.lines| < MAX_LINES {
      var u := Split(d).lines;
      assert u[d.line] == t[..d.col] && u[d.line + 1] == t[d.col..];
      assert t[..d.col] + t[d.col..] == t;
      if |t| + 1 < LINE_CAP {
        assert u[..d.line] == d.lines[..d.line] && u[d.line + 2..] == d.lines[d.line + 1..];
        assert Merged(u, d.line) == d.lines;
      }
    } else if d.col > 0 {
      assert |Backspace(d).lines[d.line]| != |t|;
    }
  }

  /** Deleting forward is moving right and erasing, wherever there is something to delete; at the end of the document
      only if there is nothing to erase either. */
  lemma DeleteIsRightThenErase(d: Doc)
    requires Good(d)
    ensures Good(Right(d))
    ensures DeleteForward(d) == Backspace(Right(d)) <==>
              || d.col < |d.lines[d.line]| || Mergeable(d.lines, d.line)
              || (d.line + 1 == |d.lines| && d.col == 0 && (d.line == 0 || !Mergeable(d.lines, d.line - 1)))
  {
    if d.col == |d.lines[d.line]| && d.line + 1 == |d.lines| && d.col > 0 {
      assert |Backspace(d).lines[d.line]| != |d.lines[d.line]|;
    }
  }

  /** A full line refuses the character, and erasing then takes another one. */
  lemma TypedOnFullLine()
    ensures var d := Doc([seq(LINE_CAP - 1, _ => 'a')], 0, 1);
            Good(d) && Backspace(Insert(d, "b")) != d
  {
    var d := Doc([seq(LINE_CAP - 1, _ => 'a')], 0, 1);
    TypeThenErase(d, 'b');
  }

  /** A full line is broken, and the two parts are too long to be merged again. */
  lemma BrokenFullLine()
    ensures var d := Doc([seq(LINE_CAP - 1, _ => 'a')], 0, 1);
            Good(d) && Backspace(Split(d)) != d
  {
    var d := Doc([seq(LINE_CAP - 1, _ => 'a')], 0, 1);
    EnterThenErase(d);
  }

  /** At the end of the document there is nothing to delete, but erasing takes the last character. */
  lemma DeletedAtTheEnd()
    ensures var d := Doc(["a"], 0, 1);
            Good(d) && DeleteForward(d) != Backspace(Right(d))
  {
    var d := Doc(["a"], 0, 1);
    assert GoodLine("a");
    DeleteIsRightThenErase(d);
  }

  // ---- the file form ------------------------------------------------------------------------------------

  /** The lines, with a line feed between each two. */
  function Saved(lines: seq<string>): string {
    if lines == [] then "" else if |lines| == 1 then lines[0] else lines[0] + "\n" + Saved(lines[1..])
  }

  /** Read one byte of a file onto the last of the lines read so far. */
  function LoadByte(lines: seq<string>, ch: char): (r: seq<string>)
    requires lines != []
    ensures r != []
  {
    var n := |lines| - 1;
    if ch == '\r' then lines
    else if ch == '\n' then (if |lines| < MAX_LINES then lines + [""] else lines)
    else if Printable(ch) && |lines[n]| + 1 < LINE_CAP then lines[n := lines[n] + [ch]]
    else lines
  }

  function Load(lines: seq<string>, bytes: string): (r: seq<string>)
    requires lines != []
    ensures r != []
    decreases |bytes|
  {
    if bytes == "" then lines else Load(LoadByte(lines, bytes[0]), bytes[1..])
  }

  /** Reading is independent of where the reads are cut. */
  lemma {:induction false} LoadConcat(lines: seq<string>, a: string, b: string)
    requires lines != []
    ensures Load(lines, a + b) == Load(Load(lines, a), b)
    decreases |a|
  {
    if a == "" {
      assert a + b == b;
    } else {
      assert (a + b)[1..] == a[1..] + b;
      LoadConcat(LoadByte(lines, a[0]), a[1..], b);
    }
  }

  lemma {:induction false} LoadLine(before: seq<string>, s: string, t: string)
    requires GoodLine(s + t)
    ensures Load(before + [s], t) == before + [s + t]
    decreases |t|
  {
    if t == "" {
      assert s + t == s;
    } else {
      assert t[0] in s + t && Printable(t[0]);
      assert (s + [t[0]]) + t[1..] == s + t;
      assert (before + [s])[|before| := s + [t[0]]] == before + [s + [t[0]]];
      assert LoadByte(before + [s], t[0]) == before + [s + [t[0]]];
      LoadLine(before, s + [t[0]], t[1..]);
    }
  }

  lemma LoadFeed(lines: seq<string>, rest: string)
    requires lines != [] && |lines| < MAX_LINES
    ensures Load(lines, "\n" + rest) == Load(lines + [""], rest)
  {
    assert ("\n" + rest)[1..] == rest;
  }

  lemma {:induction false} LoadSaved(before: seq<string>, lines: seq<string>)
    requires lines != [] && |before| + |lines| <= MAX_LINES && forall s :: s in lines ==> GoodLine(s)
    ensures Load(before + [""], Saved(lines)) == before + lines
    decreases |lines|
  {
    hide Load, GoodLine;
    assert "" + lines[0] == lines[0];
    LoadLine(before, "", lines[0]);
    if |lines| == 1 {
      assert lines == [lines[0]];
    } else {
      var rest := Saved(lines[1..]);
      LoadConcat(before + [""], lines[0], "\n" + rest);
      assert lines[0] + "\n" + rest == lines[0] + ("\n" + rest);
      LoadFeed(before + [lines[0]], rest);
      LoadSaved(before + [lines[0]], lines[1..]);
      assert before + [lines[0]] + lines[1..] == before + lines;
    }
  }

  /** What is neither printable nor a line feed leaves no trace, wherever it is in the file. */
  lemma LoadSkips(lines: seq<string>, a: string, ch: char, b: string)
    requires lines != [] && !Printable(ch) && ch != '\n'
    ensures Load(lines, a + [ch] + b) == Load(lines, a + b)
  {
    hide Load;
    LoadConcat(lines, a, b);
    LoadConcat(lines, a, [ch] + b);
    assert a + [ch] + b == a + ([ch] + b);
    LoadSkipsFirst(Load(lines, a), ch, b);
  }

  lemma LoadSkipsFirst(lines: seq<string>, ch: char, b: string)
    requires lines != [] && !Printable(ch) && ch != '\n'
    ensures Load(lines, [ch] + b) == Load(lines, b)
  {
    assert ([ch] + b)[1..] == b;
  }

  /** Printable text goes to the end of the last line, as far as there is room for it. */
  lemma {:induction false} LoadTruncates(before: seq<string>, s: string, t: string)
    requires |s| <= 191 && forall ch :: ch in t ==> Printable(ch)
    ensures Load(before + [s], t) == before + [s + t[..Min(|t|, 191 - |s|)]]
    decreases |t|
  {
    hide Load, Printable;
    if t == "" {
      NothingLoaded(before + [s]);
      assert s + t[..0] == s;
    } else {
      var n, rest := Min(|t|, 191 - |s|), t[1..];
      forall ch | ch in rest ensures Printable(ch) { assert ch in t; }
      var s1 := if |s| < 191 then s + [t[0]] else s;
      assert t[0] in t && t == [t[0]] + rest;
      CharLoaded(before, s, t[0], rest);
      LoadTruncates(before, s1, rest);
      if n > 0 {
        assert t[..n] == [t[0]] + rest[..n - 1];
        assert s1 + rest[..n - 1] == s + t[..n];
      } else {
        assert s1 + rest[..0] == s + t[..0];
      }
    }
  }

  lemma NothingLoaded(lines: seq<string>)
    requires lines != []
    ensures Load(lines, "") == lines
  {
  }

  lemma CharLoaded(before: seq<string>, s: string, ch: char, rest: string)
    requires |s| <= 191 && Printable(ch)
    ensures Load(before + [s], [ch] + rest) == Load(before + [if |s| < 191 then s + [ch] else s], rest)
  {
    assert ([ch] + rest)[1..] == rest;
    assert (before + [s])[|before| := s + [ch]] == before + [s + [ch]];
  }

  /** Whatever file was loaded and however it was edited, saving and loading again gives the lines back. */
  lemma SaveThenLoad(bytes: string, edits: seq<Edit>, width: nat)
    requires width > 0 && forall e :: e in edits ==> Allowed(e, width)
    ensures Good(Doc(Load([""], bytes), 0, 0))
    ensures var d := Edited(Doc(Load([""], bytes), 0, 0), edits, width);
            Load([""], Saved(d.lines)) == d.lines
  {
    LoadIsGood([""], bytes);
    var d := Edited(Doc(Load([""], bytes), 0, 0), edits, width);
    EditedIsGood(Doc(Load([""], bytes), 0, 0), edits, width);
    LoadSaved([], d.lines);
    assert [] + [""] == [""] && [] + d.lines == d.lines;
  }

  /** Whatever the file, what is loaded is a document. */
  lemma {:induction false} LoadIsGood(lines: seq<string>, bytes: string)
    requires 1 <= |lines| <= MAX_LINES && forall s :: s in lines ==> GoodLine(s)
    ensures Good(Doc(Load(lines, bytes), 0, 0))
    decreases |bytes|
  {
    if bytes != "" {
      LoadByteIsGood(lines, bytes[0]);
      LoadIsGood(LoadByte(lines, bytes[0]), bytes[1..]);
    }
  }

  lemma LoadByteIsGood(lines: seq<string>, ch: char)
    requires 1 <= |lines| <= MAX_LINES && forall s :: s in lines ==> GoodLine(s)
    ensures |LoadByte(lines, ch)| <= MAX_LINES && forall s :: s in LoadByte(lines, ch) ==> GoodLine(s)
  {
    var last := lines[|lines| - 1];
    assert GoodLine(last) && GoodLine("");
    if Printable(ch) && |last| + 1 < LINE_CAP {
      assert GoodLine(last + [ch]);
    }
  }

  /** The bytes that reach the file when some of the line feeds are lost. */
  function Written(lines: seq<string>, first: nat, feeds: nat -> bool): string
    decreases |lines|
  {
    if lines == [] then "" else if |lines| == 1 then lines[0]
    else lines[0] + (if feeds(first) then "\n" else "") + Written(lines[1..], first + 1, feeds)
  }

  /** A save that loses a line feed goes unnoticed: the file is right exactly if none was lost. */
  lemma {:induction false} WrittenIsSaved(lines: seq<string>, first: nat, feeds: nat -> bool)
    ensures |Written(lines, first, feeds)| <= |Saved(lines)|
    ensures Written(lines, first, feeds) == Saved(lines) <==> forall i :: first <= i < first + |lines| - 1 ==> feeds(i)
    decreases |lines|
  {
    if |lines| > 1 {
      WrittenIsSaved(lines[1..], first + 1, feeds);
      var w, s := Written(lines[1..], first + 1, feeds), Saved(lines[1..]);
      if feeds(first) {
        assert (lines[0] + "\n" + w)[|lines[0]| + 1..] == w;
        assert (lines[0] + "\n" + s)[|lines[0]| + 1..] == s;
        assert Written(lines, first, feeds) == lines[0] + "\n" + w;
      }
    }
  }

  /** Two lines of which the line feed is lost arrive as one. */
  lemma LostFeed()
    ensures Written(["a", "b"], 0, _ => false) == "ab" && Saved(["a", "b"]) == "a\nb"
  {
    assert Written(["a", "b"][1..], 1, _ => false) == "b" && Saved(["a", "b"][1..]) == "b";
  }
}
