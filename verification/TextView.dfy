/** The document of the word processor as one text with the cursor in it: what each operation of the list of
    lines does to the text before the cursor and to the text after it. */
module TextView {
  import opened Document

  /** The text of some lines that others follow, and of some that follow others. */
  function Head(lines: seq<string>): string {
    if lines == [] then "" else Saved(lines) + "\n"
  }

  function Tail(lines: seq<string>): string {
    if lines == [] then "" else "\n" + Saved(lines)
  }

  function Before(d: Doc): string
    requires Good(d)
  {
    Head(d.lines[..d.line]) + d.lines[d.line][..d.col]
  }

  function After(d: Doc): string
    requires Good(d)
  {
    d.lines[d.line][d.col..] + Tail(d.lines[d.line + 1..])
  }

  lemma SavedFirst(s: string, rest: seq<string>)
    ensures Saved([s] + rest) == s + Tail(rest)
  {
    assert ([s] + rest)[1..] == rest;
    if rest != [] { assert s + "\n" + Saved(rest) == s + ("\n" + Saved(rest)); }
  }

  lemma {:induction false} SavedLast(lines: seq<string>, s: string)
    ensures Saved(lines + [s]) == Head(lines) + s
  {
    if lines == [] {
      assert [] + [s] == [s];
    } else {
      SavedLast(lines[1..], s);
      assert lines == [lines[0]] + lines[1..];
      assert (lines + [s])[0] == lines[0] && (lines + [s])[1..] == lines[1..] + [s];
      SavedFirst(lines[0], lines[1..]);
      assert Head(lines) == lines[0] + "\n" + Head(lines[1..]);
    }
  }

  lemma HeadLonger(lines: seq<string>, s: string)
    ensures Head(lines + [s]) == Head(lines) + s + "\n"
  {
    SavedLast(lines, s);
  }

  lemma TailLonger(s: string, lines: seq<string>)
    ensures Tail([s] + lines) == "\n" + s + Tail(lines)
  {
    SavedFirst(s, lines);
    assert "\n" + (s + Tail(lines)) == "\n" + s + Tail(lines);
  }

  lemma {:induction false} SavedParts(a: seq<string>, s: string, t: string, b: seq<string>)
    ensures Saved(a + [s + t] + b) == (Head(a) + s) + (t + Tail(b))
    decreases |b|
  {
    hide Saved;
    if b == [] {
      assert a + [s + t] + [] == a + [s + t];
      SavedLast(a, s + t);
      assert Head(a) + (s + t) == (Head(a) + s) + (t + "");
    } else {
      var n := |b| - 1;
      assert a + [s + t] + b == (a + [s + t] + b[..n]) + [b[n]] && b == b[..n] + [b[n]];
      SavedLast(a + [s + t] + b[..n], b[n]);
      SavedParts(a, s, t, b[..n]);
      SavedLast(b[..n], b[n]);
      assert Head(a + [s + t] + b[..n]) == (Head(a) + s) + (t + Tail(b[..n])) + "\n";
      TailLast(b[..n], b[n]);
      assert (Head(a) + s) + (t + Tail(b[..n])) + "\n" + b[n] == (Head(a) + s) + (t + (Tail(b[..n]) + "\n" + b[n]));
    }
  }

  lemma Regroup(a: string, b: string, c: string)
    ensures a + (b + c) == a + b + c
  {
  }

  lemma TailLast(lines: seq<string>, s: string)
    ensures Tail(lines + [s]) == Tail(lines) + "\n" + s
  {
    hide Saved;
    SavedLast(lines, s);
    if lines != [] {
      Regroup("\n", Saved(lines) + "\n", s);
      Regroup("\n", Saved(lines), "\n");
    }
  }

  /** The two parts are the file form of the document. */
  lemma PartsAreSaved(d: Doc)
    requires Good(d)
    ensures Before(d) + After(d) == Saved(d.lines)
  {
    var t := d.lines[d.line];
    assert t[..d.col] + t[d.col..] == t;
    assert d.lines == d.lines[..d.line] + [t] + d.lines[d.line + 1..];
    SavedParts(d.lines[..d.line], t[..d.col], t[d.col..], d.lines[d.line + 1..]);
  }

  lemma PartIsGood(d: Doc)
    requires Good(d)
    ensures GoodLine(d.lines[d.line][..d.col])
  {
    assert GoodLine(d.lines[d.line]);
  }

  lemma {:induction false} SavedTellsApart(a: seq<string>, b: seq<string>)
    requires 1 <= |a| <= MAX_LINES && 1 <= |b| <= MAX_LINES
    requires (forall s :: s in a ==> GoodLine(s)) && (forall s :: s in b ==> GoodLine(s))
    requires Saved(a) == Saved(b)
    ensures a == b
  {
    hide GoodLine, Load, Saved;
    LoadSaved([], a);
    LoadSaved([], b);
    assert [] + a == a && [] + b == b;
  }

  /** The lines before the cursor and its own up to it. */
  function LinesBefore(d: Doc): seq<string>
    requires Good(d)
  {
    d.lines[..d.line] + [d.lines[d.line][..d.col]]
  }

  lemma BeforeIsSaved(d: Doc)
    requires Good(d)
    ensures Before(d) == Saved(LinesBefore(d)) && forall s :: s in LinesBefore(d) ==> GoodLine(s)
  {
    hide Saved, GoodLine;
    SavedLast(d.lines[..d.line], d.lines[d.line][..d.col]);
    PartIsGood(d);
  }

  /** No two documents have the same parts. */
  lemma PartsTellApart(d: Doc, e: Doc)
    requires Good(d) && Good(e) && Before(d) == Before(e) && After(d) == After(e)
    ensures d == e
  {
    hide GoodLine, Saved, Before, After, LinesBefore;
    PartsAreSaved(d);
    PartsAreSaved(e);
    SavedTellsApart(d.lines, e.lines);
    BeforeIsSaved(d);
    BeforeIsSaved(e);
    LinesBeforeLast(d);
    LinesBeforeLast(e);
    SavedTellsApart(LinesBefore(d), LinesBefore(e));
  }

  lemma LinesBeforeLast(d: Doc)
    requires Good(d)
    ensures |LinesBefore(d)| == d.line + 1 && |LinesBefore(d)[d.line]| == d.col
  {
  }

  // ---- typing and erasing --------------------------------------------------------------

  /** Typing puts the characters before the cursor, if the line has room for them. */
  lemma InsertIsTyping(d: Doc, s: string)
    requires Good(d) && forall ch :: ch in s ==> Printable(ch)
    ensures Good(Insert(d, s))
    ensures if |d.lines[d.line]| + |s| < 192
            then Before(Insert(d, s)) == Before(d) + s && After(Insert(d, s)) == After(d)
            else Insert(d, s) == d
  {
    InsertKeepsGood(d, s);
    var t, e := d.lines[d.line], Insert(d, s);
    if |t| + |s| < LINE_CAP {
      var u := t[..d.col] + s + t[d.col..];
      assert e.lines[e.line] == u && u[..e.col] == t[..d.col] + s && u[e.col..] == t[d.col..];
      assert e.lines[..e.line] == d.lines[..d.line] && e.lines[e.line + 1..] == d.lines[d.line + 1..];
      assert Head(d.lines[..d.line]) + (t[..d.col] + s) == Head(d.lines[..d.line]) + t[..d.col] + s;
    }
  }

  /** An indent types four spaces. */
  lemma IndentIsFourSpaces()
    ensures INDENT == "    " && forall ch :: ch in INDENT ==> Printable(ch)
  {
  }

  /** Breaking a line puts a line feed before the cursor, if there is room for a line. */
  lemma SplitIsFeed(d: Doc)
    requires Good(d)
    ensures Good(Split(d))
    ensures if |d.lines| < 256
            then Before(Split(d)) == Before(d) + "\n" && After(Split(d)) == After(d)
            else Split(d) == d
  {
    SplitKeepsGood(d);
    var t, e := d.lines[d.line], Split(d);
    if |d.lines| < MAX_LINES {
      assert e.lines[..e.line] == d.lines[..d.line] + [t[..d.col]] && e.lines[e.line] == t[d.col..];
      assert e.lines[e.line + 1..] == d.lines[d.line + 1..];
      HeadLonger(d.lines[..d.line], t[..d.col]);
    }
  }

  /** The text before the cursor is empty exactly at the start of the document, the text after it exactly at the end. */
  lemma EmptyParts(d: Doc)
    requires Good(d)
    ensures Before(d) == "" <==> d.line == 0 && d.col == 0
    ensures After(d) == "" <==> d.line + 1 == |d.lines| && d.col == |d.lines[d.line]|
  {
  }

  /** The line feed between two lines is next to the cursor at the end of the one or the start of the other. */
  lemma FeedBetween(lines: seq<string>, i: nat)
    requires i + 1 < |lines|
    ensures Head(lines[..i + 1]) == Head(lines[..i]) + lines[i] + "\n"
    ensures Tail(lines[i + 1..]) == "\n" + lines[i + 1] + Tail(lines[i + 2..])
  {
    assert lines[..i + 1] == lines[..i] + [lines[i]] && lines[i + 1..] == [lines[i + 1]] + lines[i + 2..];
    HeadLonger(lines[..i], lines[i]);
    TailLonger(lines[i + 1], lines[i + 2..]);
  }

  /** The document with the character at column `c` of the cursor's line cut out and the cursor there. */
  lemma CutParts(d: Doc, c: nat, e: Doc)
    requires Good(d) && Good(e) && c < |d.lines[d.line]|
    requires e == Doc(d.lines[d.line := Cut(d.lines[d.line], c)], d.line, c)
    ensures var t := d.lines[d.line];
            && Before(e) == Head(d.lines[..d.line]) + t[..c]
            && After(e) == t[c + 1..] + Tail(d.lines[d.line + 1..])
  {
    hide Head, Tail, GoodLine;
    var t := d.lines[d.line];
    assert Cut(t, c)[..c] == t[..c] && Cut(t, c)[c..] == t[c + 1..];
    assert e.lines[..e.line] == d.lines[..d.line] && e.lines[e.line + 1..] == d.lines[d.line + 1..];
  }

  /** The document with the cursor where lines `i` and `i + 1` were joined. */
  lemma JoinedAt(d: Doc, i: nat, e: Doc)
    requires Good(d) && i + 1 < |d.lines| && Good(e) && e == Doc(Merged(d.lines, i), i, |d.lines[i]|)
    ensures Before(e) == Head(d.lines[..i]) + d.lines[i] && After(e) == d.lines[i + 1] + Tail(d.lines[i + 2..])
  {
    hide Head, Tail, GoodLine;
    JoinedParts(d.lines, i);
  }

  lemma LastOff(a: string, b: string, n: nat)
    requires 0 < n <= |b|
    ensures (a + b[..n])[..|a| + n - 1] == a + b[..n - 1]
  {
  }

  lemma FirstOff(a: string, n: nat, b: string)
    requires n < |a|
    ensures (a[n..] + b)[1..] == a[n + 1..] + b
  {
  }

  /** Erasing takes the last character before the cursor, line feeds included, unless the lines it would join are too
      long together; at the start there is nothing to take. */
  lemma BackspaceIsErasure(d: Doc)
    requires Good(d)
    ensures Good(Backspace(d))
    ensures if d.col > 0 || (d.line > 0 && |d.lines[d.line - 1]| + |d.lines[d.line]| < 191)
            then Before(d) != "" && Before(Backspace(d)) == Before(d)[..|Before(d)| - 1]
                 && After(Backspace(d)) == After(d)
            else Backspace(d) == d
  {
    hide Head, Tail, Merged, GoodLine;
    BackspaceKeepsGood(d);
    var e, t := Backspace(d), d.lines[d.line];
    if d.col > 0 {
      CutParts(d, d.col - 1, e);
      LastOff(Head(d.lines[..d.line]), t, d.col);
    } else if d.line > 0 && Mergeable(d.lines, d.line - 1) {
      JoinedAt(d, d.line - 1, e);
      FeedBetween(d.lines, d.line - 1);
      assert t[..0] == "" && t[0..] == t;
      assert Before(d) == Before(e) + "\n";
    }
  }

  /** The parts of the joined lines, split where they were joined. */
  lemma JoinedParts(lines: seq<string>, i: nat)
    requires i + 1 < |lines|
    ensures var m := Merged(lines, i);
            && i < |m| && m[i] == lines[i] + lines[i + 1]
            && m[..i] == lines[..i] && m[i + 1..] == lines[i + 2..]
            && m[i][..|lines[i]|] == lines[i] && m[i][|lines[i]|..] == lines[i + 1]
  {
  }

  /** Deleting forward takes the first character after the cursor, line feeds included, unless the lines it would join
      are too long together; at the end there is nothing to take. */
  lemma DeleteIsErasure(d: Doc)
    requires Good(d)
    ensures Good(DeleteForward(d))
    ensures if d.col < |d.lines[d.line]|
               || (d.line + 1 < |d.lines| && |d.lines[d.line]| + |d.lines[d.line + 1]| < 191)
            then After(d) != "" && Before(DeleteForward(d)) == Before(d) && After(DeleteForward(d)) == After(d)[1..]
            else DeleteForward(d) == d
  {
    hide Head, Tail, Merged, GoodLine;
    DeleteKeepsGood(d);
    var t, e := d.lines[d.line], DeleteForward(d);
    if d.col < |t| {
      CutParts(d, d.col, e);
      FirstOff(t, d.col, Tail(d.lines[d.line + 1..]));
    } else if Mergeable(d.lines, d.line) {
      JoinedAt(d, d.line, e);
      FeedBetween(d.lines, d.line);
      assert t[..d.col] == t && t[d.col..] == "";
      assert After(d) == "\n" + After(e);
    }
  }

  // ---- moving ------------------------------------------------------------------------

  /** One character moves from the one part of a text to the other. */
  lemma OneOver(h: string, t: string, c: nat, tail: string)
    requires 0 < c <= |t|
    ensures h + t[..c] == (h + t[..c - 1]) + [t[c - 1]] && t[c - 1..] + tail == [t[c - 1]] + (t[c..] + tail)
  {
    assert t[..c] == t[..c - 1] + [t[c - 1]] && t[c - 1..] == [t[c - 1]] + t[c..];
  }

  /** The cursor is one character further in `e` than in `d`. */
  ghost predicate OneFurther(d: Doc, e: Doc)
    requires Good(d) && Good(e)
  {
    exists ch :: Before(e) == Before(d) + [ch] && After(d) == [ch] + After(e)
  }

  lemma ColumnIsOneFurther(d: Doc, e: Doc)
    requires Good(d) && Good(e) && e == d.(col := d.col + 1)
    ensures OneFurther(d, e)
  {
    hide Head, Tail, GoodLine;
    var t := d.lines[d.line];
    OneOver(Head(d.lines[..d.line]), t, e.col, Tail(d.lines[d.line + 1..]));
    assert Before(e) == Before(d) + [t[d.col]];
  }

  lemma LineIsOneFurther(d: Doc, e: Doc)
    requires Good(d) && Good(e) && e.lines == d.lines && d.line + 1 < |d.lines|
    requires d.col == |d.lines[d.line]| && e.line == d.line + 1 && e.col == 0
    ensures OneFurther(d, e)
  {
    hide Head, Tail, GoodLine;
    FeedBetween(d.lines, d.line);
    var t, u := d.lines[d.line], d.lines[e.line];
    assert t[..d.col] == t && t[d.col..] == "" && u[..0] == "" && u[0..] == u;
    assert Before(e) == Before(d) + ['\n'];
    assert After(d) == ['\n'] + After(e);
  }

  /** Moving left takes the cursor back over one character, line feeds included. */
  lemma LeftIsBack(d: Doc)
    requires Good(d)
    ensures Good(Left(d))
    ensures if Before(d) != "" then OneFurther(Left(d), d) else Left(d) == d
  {
    hide Before, After, OneFurther;
    EmptyParts(d);
    if d.col > 0 {
      ColumnIsOneFurther(Left(d), d);
    } else if d.line > 0 {
      LineIsOneFurther(Left(d), d);
    }
  }

  /** Moving right takes it over the next one. */
  lemma RightIsForth(d: Doc)
    requires Good(d)
    ensures Good(Right(d))
    ensures if After(d) != "" then OneFurther(d, Right(d)) else Right(d) == d
  {
    hide Before, After, OneFurther;
    EmptyParts(d);
    if d.col < |d.lines[d.line]| {
      ColumnIsOneFurther(d, Right(d));
    } else if d.line + 1 < |d.lines| {
      LineIsOneFurther(d, Right(d));
    }
  }

  /** To the start of the text, or back to the line feed before. */
  lemma HomeIsStart(d: Doc, document: bool)
    requires Good(d)
    ensures Good(Home(d, document))
    ensures var b, a := Before(Home(d, document)), After(Home(d, document));
            && b + a == Before(d) + After(d) && b <= Before(d)
            && (if document then b == ""
                else (b == "" || b[|b| - 1] == '\n') && '\n' !in Before(d)[|b|..])
  {
    PartsAreSaved(d);
    PartsAreSaved(Home(d, document));
    if !document {
      PartIsGood(d);
      assert Before(d)[|Before(Home(d, document))|..] == d.lines[d.line][..d.col];
    }
  }

  /** To the end of the text, or on to the line feed after. */
  lemma EndIsEnd(d: Doc, document: bool)
    requires Good(d)
    ensures Good(End(d, document))
    ensures var b, a := Before(End(d, document)), After(End(d, document));
            && b + a == Before(d) + After(d)
            && (if document then a == ""
                else Before(d) <= b && (a == "" || a[0] == '\n') && '\n' !in b[|Before(d)|..])
  {
    hide Saved, Head, Tail;
    PartsAreSaved(d);
    PartsAreSaved(End(d, document));
    if document { EmptyParts(End(d, true)); } else { EndOfLine(d); }
  }

  lemma EndOfLine(d: Doc)
    requires Good(d)
    ensures var t, e := d.lines[d.line], End(d, false);
            && Good(e) && Before(e) == Before(d) + t[d.col..] && '\n' !in t[d.col..]
            && Before(e)[|Before(d)|..] == t[d.col..]
            && After(e) == Tail(d.lines[d.line + 1..]) && (After(e) == "" || After(e)[0] == '\n')
  {
    hide Saved, Head;
    var t := d.lines[d.line];
    assert GoodLine(t) && t[..|t|] == t && t[..d.col] + t[d.col..] == t;
    Regroup(Head(d.lines[..d.line]), t[..d.col], t[d.col..]);
    assert forall ch :: ch in t[d.col..] ==> ch in t;
  }

  /** Moving by rows changes nothing but where the cursor is. */
  lemma VerticalKeepsText(d: Doc, width: nat, up: bool, distance: nat, x: nat)
    requires Good(d) && width > 0 && x < width
    ensures Good(Vertical(d, width, up, distance, x))
    ensures var e := Vertical(d, width, up, distance, x); Before(e) + After(e) == Before(d) + After(d)
  {
    VerticalLands(d, width, up, distance, x);
    PartsAreSaved(d);
    PartsAreSaved(Vertical(d, width, up, distance, x));
  }
}
