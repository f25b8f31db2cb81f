/** The VGA text console, kernel/arch/x86_64/console.c. */
module Console {
  import opened Machine
  import opened Strings
  import opened Page

  class Screen {
    const vga: array<Cell>
    var row: nat
    var col: nat
    // The two cursor registers of the CRT controller.
    var cursorLow: Byte
    var cursorHigh: Byte
    ghost var doc: Doc

    /** The screen shows the window on the page, and both cursors agree with it. */
    ghost predicate Valid()
      reads this, vga
    {
      && vga.Length == 2000
      && DocOk(doc)
      && vga[..] == Window(doc.text, doc.top)
      && col < 80 && 80 * row + col == Cursor(doc)
      && 256 * cursorHigh + cursorLow == Cursor(doc)
    }

    method UpdateCursor()
      requires row < 25 && col < 80
      modifies this`cursorLow, this`cursorHigh
      ensures 256 * cursorHigh + cursorLow == 80 * row + col
    {
      var pos := row * 80 + col;
      cursorLow := pos % 256;
      cursorHigh := pos / 256 % 256;
    }

    /** Every row moves up by one, and the last one is blank. */
    method Scroll()
      requires vga.Length == 2000
      modifies vga
      ensures vga[..] == old(vga[..])[80..] + Blanks(80)
    {
      for r := 1 to 25
        invariant forall k :: 0 <= k < 80 * (r - 1) ==> vga[k] == old(vga[k + 80])
        invariant forall k :: 80 * (r - 1) <= k < 2000 ==> vga[k] == old(vga[k])
      {
        for c := 0 to 80
          invariant forall k :: 0 <= k < 80 * (r - 1) + c ==> vga[k] == old(vga[k + 80])
          invariant forall k :: 80 * (r - 1) + c <= k < 2000 ==> vga[k] == old(vga[k])
        {
          vga[(r - 1) * 80 + c] := vga[r * 80 + c];
        }
      }
      for c := 0 to 80
        invariant forall k :: 0 <= k < 1920 ==> vga[k] == old(vga[k + 80])
        invariant forall k :: 1920 <= k < 1920 + c ==> vga[k] == BLANK
      {
        vga[24 * 80 + c] := BLANK;
      }
      assert vga[..] == old(vga[..])[80..] + Blanks(80);
    }

    /** console_clear, from any screen: an empty page. */
    method Clear()
      requires vga.Length == 2000
      modifies this, vga
      ensures Valid() && doc == Doc([], 0)
      ensures row == 0 && col == 0 && cursorHigh == 0 && cursorLow == 0
      ensures forall k :: 0 <= k < 2000 ==> vga[k] == 0x0F20
    {
      for i := 0 to 2000
        invariant forall k :: 0 <= k < i ==> vga[k] == BLANK
      {
        vga[i] := BLANK;
      }
      row, col := 0, 0;
      UpdateCursor();
      doc := Doc([], 0);
      assert vga[..] == Window([], 0);
    }

    /** The end of console_putchar: scroll if the cursor ran past the bottom line. */
    method Settle(ghost text: seq<Cell>, ghost top: nat)
      requires vga.Length == 2000 && vga[..] == Window(text, top)
      requires col < 80 && row <= 25 && 80 * row + col == |text| - 80 * top
      requires row == 25 ==> col == 0
      modifies this, vga
      ensures Valid() && doc == Doc(text, if row < old(row) then top + 1 else top)
      ensures row < old(row) <==> old(row) == 25
    {
      doc := Doc(text, top);
      if row >= 25 {
        WindowScroll(text, top);
        Scroll();
        row := 24;
        doc := Doc(text, top + 1);
      }
      UpdateCursor();
    }

    method StartNextRow()
      requires Valid()
      modifies this`row, this`col
      ensures vga[..] == Window(NextRow(doc.text), doc.top)
      ensures col == 0 && 80 * row == |NextRow(doc.text)| - 80 * doc.top
    {
      Column(|doc.text|, doc.top + row, col);
      WindowBlanks(doc.text, doc.top, 80 - |doc.text| % 80);
      row := row + 1;
      col := 0;
    }

    method Erase() returns (moved: bool)
      requires Valid()
      modifies this`row, this`col, vga
      ensures moved <==> 0 < Cursor(doc)
      ensures !moved ==> row == old(row) && col == old(col) && vga[..] == old(vga[..])
      ensures moved ==> vga[..] == Window(doc.text[..|doc.text| - 1], doc.top)
      ensures moved ==> col < 80 && 80 * row + col == Cursor(doc) - 1
    {
      if col > 0 {
        col := col - 1;
      } else if row > 0 {
        row := row - 1;
        col := 79;
      } else {
        return false;
      }
      WindowErase(doc.text, doc.top);
      vga[row * 80 + col] := BLANK;
      assert vga[..] == old(vga[..])[Cursor(doc) - 1 := BLANK];
      return true;
    }

    method Print(x: Cell)
      requires Valid()
      modifies this`row, this`col, vga
      ensures vga[..] == Window(doc.text + [x], doc.top)
      ensures col < 80 && 80 * row + col == Cursor(doc) + 1
    {
      WindowWrite(doc.text, doc.top, x);
      vga[row * 80 + col] := x;
      assert vga[..] == old(vga[..])[Cursor(doc) := x];
      col := col + 1;
      if col >= 80 {
        col := 0;
        row := row + 1;
      }
    }

    /** console_putchar: one character moves the page as Type says, and the 2000 cells, the cursor
        and its registers as a terminal does. */
    method PutChar(c: Byte)
      requires Valid()
      modifies this, vga
      ensures Valid() && doc == Type(old(doc), c)
      ensures c == 10 ==>
                && row == (if old(row) < 24 then old(row) + 1 else 24) && col == 0
                && vga[..] == (if old(row) < 24 then old(vga[..]) else old(vga[..])[80..] + Blanks(80))
      ensures c == 8 && old(row) == 0 && old(col) == 0 ==> row == 0 && col == 0 && vga[..] == old(vga[..])
      ensures c == 8 && 0 < 80 * old(row) + old(col) ==>
                && 80 * row + col == 80 * old(row) + old(col) - 1
                && vga[..] == old(vga[..])[80 * row + col := 0x0F20]
      ensures c != 10 && c != 8 ==>
                var p, cell := 80 * old(row) + old(col), if c < 128 then 0x0F00 + c else 0xFF00 + c;
                if p < 1999 then 80 * row + col == p + 1 && vga[..] == old(vga[..])[p := cell]
                else row == 24 && col == 0 && vga[..] == old(vga[..])[p := cell][80..] + Blanks(80)
      ensures row < 25 && col < 80 && 256 * cursorHigh + cursorLow == 80 * row + col
    {
      ghost var d := doc;
      RowAndColumn(row, col, Cursor(d));
      MovePage(c);
      RowAndColumn(row, col, Cursor(doc));
      if c == 10 {
        NewlineOnScreen(d);
      } else if c == 8 {
        BackspaceOnScreen(d);
      } else {
        PrintOnScreen(d, c);
      }
    }

    /** The branches of console_putchar, on the page. */
    method MovePage(c: Byte)
      requires Valid()
      modifies this, vga
      ensures Valid() && doc == Type(old(doc), c)
    {
      if c == NEWLINE {
        StartNextRow();
      } else if c == BACKSPACE {
        var moved := Erase();
        if !moved {
          return;
        }
      } else {
        Print(CellOf(c));
      }
      Settle(TypeText(doc, c), doc.top);
    }

    /** console_puts on a NUL-terminated buffer. */
    method Puts(s: seq<Byte>)
      requires Valid() && 0 in s
      modifies this, vga
      ensures Valid() && doc == TypeAll(old(doc), CString(s))
    {
      var i := 0;
      while s[i] != 0
        invariant 0 <= i < |s| && 0 in s[i..]
        invariant Valid() && TypeAll(doc, CString(s[i..])) == TypeAll(old(doc), CString(s))
        decreases |s| - i
      {
        assert s[i..][1..] == s[i + 1..];
        PutChar(s[i]);
        i := i + 1;
      }
    }

    /** Print one more character of a text under way. */
    method Emit(c: Byte, ghost start: Doc, ghost s: seq<Byte>)
      requires Valid() && doc == TypeAll(start, s)
      modifies this, vga
      ensures Valid() && doc == TypeAll(start, s + [c])
    {
      TypeAllSnoc(start, s, c);
      PutChar(c);
    }

    /** console_puthex64: 0x and sixteen nibbles, most significant first. */
    method PutHex64(value: Word)
      requires Valid()
      modifies this, vga
      ensures Valid() && doc == TypeAll(old(doc), Hex64(value))
    {
      Puts([48, 120, 0]);
      assert CString([48, 120, 0]) == [48, 120];
      ghost var start := doc;
      var k := 16;
      while k > 0
        invariant 0 <= k <= 16 && Valid()
        invariant doc == TypeAll(start, HexDigits(ShiftRight(value, k), 16 - k))
      {
        k := k - 1;
        ghost var before := HexDigits(ShiftRight(value, k + 1), 15 - k);
        var digit := HexChar(ShiftRight(value, k) % 16);
        NextNibble(value, k);
        Emit(digit, start, before);
      }
      assert ShiftRight(value, 0) == value;
      TypeAllConcat(old(doc), [48, 120], HexDigits(value, 16));
    }
  }
}
