/**
 The page the console shows: everything typed so far, laid out in rows of 80 cells without
 end, and a window of 25 rows on it. Cells from the cursor on are blank, so the page is the
 sequence of the cells before the cursor.
 */
module Page {
  import opened Machine
  import opened Strings

  /** A text cell: the low byte is the character, the high byte the colour attribute. */
  type Cell = x: int | 0 <= x < 0x1_0000

  const BLANK: Cell := 0x0F20
  const NEWLINE: Byte := 10
  const BACKSPACE: Byte := 8

  /** (COLOR_DEFAULT << 8) | c, with c a signed char: from 0x80 on the sign extension turns
      every attribute bit on. */
  function CellOf(c: Byte): Cell {
    if c < 0x80 then 0x0F00 + c else 0xFF00 + c
  }

  /** The cells before the cursor, and the page row at the top of the screen. */
  datatype Doc = Doc(text: seq<Cell>, top: nat)

  predicate DocOk(d: Doc) {
    80 * d.top <= |d.text| < 80 * (d.top + 25)
  }

  /** n cells with a white space on black. */
  function Blanks(n: nat): (s: seq<Cell>)
    ensures |s| == n && forall i :: 0 <= i < n ==> s[i] == 0x0F20
  {
    seq(n, _ => BLANK)
  }

  /** 25 rows of the page from row `top` on. */
  function Window(text: seq<Cell>, top: nat): (w: seq<Cell>)
    ensures |w| == 2000
  {
    seq(2000, i requires 0 <= i => if 80 * top + i < |text| then text[80 * top + i] else BLANK)
  }

  function Cursor(d: Doc): int {
    |d.text| - 80 * d.top
  }

  /** Fill the row with blanks and start the next one. */
  function NextRow(text: seq<Cell>): seq<Cell> {
    text + Blanks(80 - |text| % 80)
  }

  function TypeText(d: Doc, c: Byte): seq<Cell> {
    if c == NEWLINE then NextRow(d.text)
    else if c == BACKSPACE then
      (if 80 * d.top < |d.text| then d.text[..|d.text| - 1] else d.text)
    else d.text + [CellOf(c)]
  }

  /** Type one character; the window moves down only as far as the cursor forces it. */
  function Type(d: Doc, c: Byte): Doc {
    var text := TypeText(d, c);
    Doc(text, if d.top + 24 < |text| / 80 then |text| / 80 - 24 else d.top)
  }

  function TypeAll(d: Doc, s: seq<Byte>): Doc
    decreases |s|
  {
    if s == [] then d else TypeAll(Type(d, s[0]), s[1..])
  }

  // ---------------------------------------------------------------- the window

  lemma WindowWrite(text: seq<Cell>, top: nat, x: Cell)
    requires 80 * top <= |text| < 80 * (top + 25)
    ensures Window(text + [x], top) == Window(text, top)[|text| - 80 * top := x]
  {
  }

  lemma WindowErase(text: seq<Cell>, top: nat)
    requires 80 * top < |text| <= 80 * (top + 25)
    ensures Window(text[..|text| - 1], top) == Window(text, top)[|text| - 1 - 80 * top := BLANK]
  {
  }

  /** Blanks past the cursor do not show. */
  lemma WindowBlanks(text: seq<Cell>, top: nat, n: nat)
    requires 80 * top <= |text|
    ensures Window(text + Blanks(n), top) == Window(text, top)
  {
  }

  lemma WindowScroll(text: seq<Cell>, top: nat)
    requires |text| <= 80 * (top + 25)
    ensures Window(text, top + 1) == Window(text, top)[80..] + Blanks(80)
  {
  }

  /** Every cell from the cursor on is blank. */
  lemma BlankPastCursor(d: Doc, i: nat)
    requires DocOk(d) && Cursor(d) <= i < 2000
    ensures Window(d.text, d.top)[i] == BLANK
  {
  }

  lemma Column(length: nat, row: nat, col: nat)
    requires length == 80 * row + col && col < 80
    ensures length % 80 == col
  {
  }

  // ---------------------------------------------------------------- one character

  lemma {:induction false} TypeOk(d: Doc, c: Byte)
    requires DocOk(d)
    ensures DocOk(Type(d, c))
    ensures d.top <= Type(d, c).top <= d.top + 1
  {
  }

  /** The low byte of a cell is the character, the high byte its colours: white on black, or
      all bits set where the character's sign bit spilled into them. */
  lemma {:induction false} CellBytes(c: Byte)
    ensures CellOf(c) % 256 == c && CellOf(c) / 256 == if c < 128 then 0x0F else 0xFF
  {
  }

  /** A newline ends the row it is in, wherever in it: the text is filled with blanks up to the
      start of the next row. */
  lemma {:induction false} NewlineText(d: Doc)
    ensures var text := Type(d, 10).text;
            && |text| == 80 * (|d.text| / 80 + 1) && text[..|d.text|] == d.text
            && forall k :: |d.text| <= k < |text| ==> text[k] == 0x0F20
  {
  }

  lemma {:induction false} NewlineTop(d: Doc)
    requires DocOk(d)
    ensures var d', p := Type(d, 10), Cursor(d);
            if p < 1920 then d'.top == d.top && |d'.text| == 80 * (d.top + p / 80 + 1)
            else d'.top == d.top + 1 && |d'.text| == 80 * (d.top + 25)
  {
    var row := |d.text| / 80;
    assert |NextRow(d.text)| == 80 * (row + 1);
    assert |NextRow(d.text)| / 80 == row + 1;
    assert Cursor(d) / 80 == row - d.top;
  }

  lemma RowAndColumn(row: nat, col: nat, p: nat)
    requires p == 80 * row + col && col < 80
    ensures row == p / 80 && col == p % 80
  {
  }

  /** What a newline does to the 2000 cells and the cursor. */
  lemma {:induction false} NewlineOnScreen(d: Doc)
    requires DocOk(d)
    ensures var d', p := Type(d, 10), Cursor(d);
            var w, w' := Window(d.text, d.top), Window(d'.text, d'.top);
            if p < 1920 then Cursor(d') == 80 * (p / 80 + 1) && w' == w
            else Cursor(d') == 1920 && w' == w[80..] + Blanks(80)
  {
    var n := 80 - |d.text| % 80;
    var text := d.text + Blanks(n);
    NewlineTop(d);
    assert Window(text, d.top) == Window(d.text, d.top) by {
      WindowBlanks(d.text, d.top, n);
    }
    if 1920 <= Cursor(d) {
      WindowScroll(text, d.top);
    }
  }

  /** What a backspace does: the cursor goes back by one cell, to the row above from column 0,
      and that cell becomes blank; in the first cell nothing happens. */
  lemma {:induction false} BackspaceOnScreen(d: Doc)
    requires DocOk(d)
    ensures var d', p := Type(d, 8), Cursor(d);
            var w, w' := Window(d.text, d.top), Window(d'.text, d'.top);
            if p == 0 then d' == d
            else Cursor(d') == p - 1 && d'.top == d.top && w' == w[p - 1 := 0x0F20]
  {
    if Cursor(d) != 0 {
      WindowErase(d.text, d.top);
    }
  }

  /** What any other character does: its cell appears at the cursor, which moves on by one; from
      the last cell of the screen everything moves up by a row first. */
  lemma {:induction false} PrintOnScreen(d: Doc, c: Byte)
    requires DocOk(d) && c != 10 && c != 8
    ensures var d', p := Type(d, c), Cursor(d);
            var w, w' := Window(d.text, d.top), Window(d'.text, d'.top);
            var cell := if c < 128 then 0x0F00 + c else 0xFF00 + c;
            if p < 1999 then Cursor(d') == p + 1 && w' == w[p := cell]
            else Cursor(d') == 1920 && w' == w[p := cell][80..] + Blanks(80)
  {
    WindowWrite(d.text, d.top, CellOf(c));
    if Cursor(d) == 1999 {
      WindowScroll(d.text + [CellOf(c)], d.top);
    }
  }

  lemma {:induction false} TypeAllOk(d: Doc, s: seq<Byte>)
    requires DocOk(d)
    ensures DocOk(TypeAll(d, s))
    decreases |s|
  {
    if s == [] {
    } else {
      TypeOk(d, s[0]);
      TypeAllOk(Type(d, s[0]), s[1..]);
    }
  }

  /** In every state reachable from console_clear, backspaces included: the cursor is on the
      screen, and every cell from the cursor on is blank. */
  lemma {:induction false} ReachableScreens(s: seq<Byte>)
    ensures var d := TypeAll(Doc([], 0), s);
            && 0 <= Cursor(d) < 2000
            && forall i :: Cursor(d) <= i < 2000 ==> Window(d.text, d.top)[i] == BLANK
  {
    var d := TypeAll(Doc([], 0), s);
    TypeAllOk(Doc([], 0), s);
    forall i | Cursor(d) <= i < 2000
      ensures Window(d.text, d.top)[i] == BLANK
    {
      BlankPastCursor(d, i);
    }
  }

  /** A printed character followed by a backspace restores the page; the screen and cursor are
      as before, or one row higher if printing scrolled. */
  lemma {:induction false} BackspaceUndoes(d: Doc, c: Byte)
    requires DocOk(d) && c != NEWLINE && c != BACKSPACE
    ensures var d' := Type(Type(d, c), BACKSPACE);
            && d'.text == d.text
            && (if Cursor(d) < 1999 then d' == d
                else Window(d'.text, d'.top) == Window(d.text, d.top)[80..] + Blanks(80)
                     && Cursor(d') == Cursor(d) - 80)
  {
    var d1 := Type(d, c);
    assert d1.text[..|d1.text| - 1] == d.text;
    if Cursor(d) == 1999 {
      WindowScroll(d.text, d.top);
    }
  }

  // ---------------------------------------------------------------- a whole string

  function Cells(s: seq<Byte>): seq<Cell> {
    seq(|s|, i requires 0 <= i < |s| => CellOf(s[i]))
  }

  /** The string laid out line by line: each line takes whole rows, and the last one is open. */
  function Layout(s: seq<Byte>): seq<Cell>
    decreases |s|
  {
    if NEWLINE !in s then Cells(s)
    else
      var k := IndexOf(s, NEWLINE);
      NextRow(Cells(s[..k])) + Layout(s[k + 1..])
  }

  // ---------------------------------------------------------------- by row and column

  /** A place on the page. */
  datatype Place = Place(row: nat, col: nat)

  /** Where the cursor goes from a place: to column 0 of the next row after a newline and after
      the last column, and one column further otherwise. */
  function After(p: Place, c: Byte): Place {
    if c == 10 || p.col == 79 then Place(p.row + 1, 0) else Place(p.row, p.col + 1)
  }

  /** Where the cursor is after a string typed on an empty page. */
  function CursorAfter(s: seq<Byte>): (p: Place)
    ensures p.col < 80
  {
    if s == [] then Place(0, 0) else After(CursorAfter(s[..|s| - 1]), s[|s| - 1])
  }

  function CellIndex(p: Place): nat {
    80 * p.row + p.col
  }

  /** What cell k shows after a string typed on an empty page: the character typed when the
      cursor was there, and a blank if there was none. */
  function ShownAt(s: seq<Byte>, k: nat): Cell {
    if s == [] then 0x0F20
    else
      var t, c := s[..|s| - 1], s[|s| - 1];
      if c != 10 && k == CellIndex(CursorAfter(t)) then CellOf(c) else ShownAt(t, k)
  }

  /** Cursor and cell k are where the rows and columns say. */
  ghost predicate Placed(text: seq<Cell>, s: seq<Byte>, k: nat) {
    && |text| == CellIndex(CursorAfter(s))
    && (if k < |text| then text[k] else 0x0F20) == ShownAt(s, k)
  }

  lemma {:induction false} ShownSnoc(s: seq<Byte>, c: Byte, k: nat)
    ensures CursorAfter(s + [c]) == After(CursorAfter(s), c)
    ensures ShownAt(s + [c], k) == if c != 10 && k == CellIndex(CursorAfter(s)) then CellOf(c) else ShownAt(s, k)
  {
    assert (s + [c])[..|s|] == s;
  }

  /** The text after a newline typed in row `row`. */
  lemma {:induction false} NewlineInRow(d: Doc, row: nat, col: nat)
    requires |d.text| == 80 * row + col && col < 80
    ensures var text := Type(d, 10).text;
            && |text| == 80 * (row + 1) && text[..|d.text|] == d.text
            && forall k :: |d.text| <= k < |text| ==> text[k] == 0x0F20
  {
    RowAndColumn(row, col, |d.text|);
    NewlineText(d);
  }

  lemma {:induction false} PlacedNewline(d: Doc, s: seq<Byte>, k: nat)
    requires Placed(d.text, s, k)
    ensures Placed(Type(d, 10).text, s + [10], k)
  {
    var p, text := CursorAfter(s), Type(d, 10).text;
    ShownSnoc(s, 10, k);
    NewlineInRow(d, p.row, p.col);
    assert k < |d.text| ==> text[..|d.text|][k] == text[k];
  }

  lemma {:induction false} PlacedPrint(d: Doc, s: seq<Byte>, c: Byte, k: nat)
    requires Placed(d.text, s, k) && c != 10 && c != 8
    ensures Placed(Type(d, c).text, s + [c], k)
  {
    ShownSnoc(s, c, k);
    assert Type(d, c).text == d.text + [CellOf(c)];
  }

  /** Every character of a string without backspaces is at the place where the cursor was when
      it was typed, every other cell is blank, and the cursor is at its place: row by row and
      column by column. */
  lemma {:induction false} PagePlaces(s: seq<Byte>, k: nat)
    requires 8 !in s
    ensures var text := TypeAll(Doc([], 0), s).text;
            && |text| == CellIndex(CursorAfter(s))
            && (if k < |text| then text[k] else 0x0F20) == ShownAt(s, k)
    decreases |s|
  {
    if s == [] {
    } else {
      var n := |s| - 1;
      assert s == s[..n] + [s[n]];
      PagePlaces(s[..n], k);
      TypeAllSnoc(Doc([], 0), s[..n], s[n]);
      if s[n] == 10 {
        PlacedNewline(TypeAll(Doc([], 0), s[..n]), s[..n], k);
      } else {
        PlacedPrint(TypeAll(Doc([], 0), s[..n]), s[..n], s[n], k);
      }
    }
  }

  lemma {:induction false} TypeAllConcat(d: Doc, a: seq<Byte>, b: seq<Byte>)
    ensures TypeAll(d, a + b) == TypeAll(TypeAll(d, a), b)
    decreases |a|
  {
    if a == [] {
      assert a + b == b;
    } else {
      assert (a + b)[1..] == a[1..] + b;
      TypeAllConcat(Type(d, a[0]), a[1..], b);
    }
  }

  lemma {:induction false} TypeAllSnoc(d: Doc, s: seq<Byte>, c: Byte)
    ensures TypeAll(d, s + [c]) == Type(TypeAll(d, s), c)
  {
    TypeAllConcat(d, s, [c]);
    assert [c][1..] == [];
  }

  /** Without newlines and backspaces, typing appends. */
  lemma {:induction false} TypeLine(d: Doc, s: seq<Byte>)
    requires NEWLINE !in s && BACKSPACE !in s
    ensures TypeAll(d, s).text == d.text + Cells(s)
    decreases |s|
  {
    if s == [] {
      assert d.text + Cells(s) == d.text;
    } else {
      TypeLine(Type(d, s[0]), s[1..]);
      assert [CellOf(s[0])] + Cells(s[1..]) == Cells(s);
      assert d.text + ([CellOf(s[0])] + Cells(s[1..])) == d.text + [CellOf(s[0])] + Cells(s[1..]);
    }
  }

  lemma NextRowAligned(text: seq<Cell>, line: seq<Cell>)
    requires |text| % 80 == 0
    ensures NextRow(text + line) == text + NextRow(line)
    ensures |text + NextRow(line)| % 80 == 0
  {
  }

  lemma {:induction false} TypeAround(d: Doc, s: seq<Byte>, k: nat)
    requires k < |s|
    ensures TypeAll(d, s) == TypeAll(Type(TypeAll(d, s[..k]), s[k]), s[k + 1..])
  {
    assert s == s[..k] + s[k..];
    TypeAllConcat(d, s[..k], s[k..]);
    assert s[k..][1..] == s[k + 1..];
  }

  /** From the start of a row, typing a string without backspaces adds its layout. */
  lemma {:induction false} TypeIsLayout(d: Doc, s: seq<Byte>)
    requires BACKSPACE !in s && |d.text| % 80 == 0
    ensures TypeAll(d, s).text == d.text + Layout(s)
    decreases |s|
  {
    if NEWLINE !in s {
      TypeLine(d, s);
    } else {
      var k := IndexOf(s, NEWLINE);
      var line, rest := s[..k], s[k + 1..];
      TypeAround(d, s, k);
      TypeLine(d, line);
      NextRowAligned(d.text, Cells(line));
      TypeIsLayout(Type(TypeAll(d, line), NEWLINE), rest);
      CellsAssoc(d.text, NextRow(Cells(line)), Layout(rest));
    }
  }

  lemma CellsAssoc(a: seq<Cell>, b: seq<Cell>, c: seq<Cell>)
    ensures a + b + c == a + (b + c)
  {
  }

  /** The top row that keeps the end of a page in a 25-row window. */
  function TailTop(text: seq<Cell>): nat {
    if 24 < |text| / 80 then |text| / 80 - 24 else 0
  }

  lemma {:induction false} TopFollows(d: Doc, s: seq<Byte>)
    requires BACKSPACE !in s && d.top == TailTop(d.text)
    ensures TypeAll(d, s).top == TailTop(TypeAll(d, s).text)
    decreases |s|
  {
    if s == [] {
    } else {
      assert |d.text| <= |Type(d, s[0]).text|;
      TopFollows(Type(d, s[0]), s[1..]);
    }
  }

  /** After console_clear, a string without backspaces shows as the last 25 rows of its
      layout on the unbounded page, with the cursor at its end. */
  lemma {:induction false} ShowsLastRows(s: seq<Byte>)
    requires BACKSPACE !in s
    ensures TypeAll(Doc([], 0), s) == Doc(Layout(s), TailTop(Layout(s)))
  {
    TypeIsLayout(Doc([], 0), s);
    TopFollows(Doc([], 0), s);
    assert [] + Layout(s) == Layout(s);
  }
}
