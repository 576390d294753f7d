/** The text console (src/kernel/libs/stdio.c): a screen buffer, a ring of the last scrolled-off lines
    and a scrollback view, proved to be a window on an unbounded terminal. Drawing is left out. */
module Console {
  import opened UnboundedTerminal
  import opened Arithmetic
  import opened NumberText

  const SCROLLBACK_LINES: nat := 10

  /** The grid shows the last h rows. */
  ghost predicate ShowsLive(grid: array2<Cell>, rows: seq<Row>, w: nat, h: nat)
    requires Shaped(rows, w, h) && grid.Length0 == h && grid.Length1 == w
    reads grid
  {
    forall y, x :: 0 <= y < h && 0 <= x < w ==> grid[y, x] == rows[|rows| - h + y][x]
  }

  /** What scrollback view v shows at row y: the bottom line is the v-th above the live screen, and
      lines older than the ring are blank. */
  ghost function HistoryCell(rows: seq<Row>, w: nat, h: nat, v: nat, y: nat, x: nat): Cell
    requires Shaped(rows, w, h) && y < h && x < w && 0 < v
  {
    var top := |rows| - h;
    var r := top - v - (h - 1 - y);
    if r >= 0 && r >= top - SCROLLBACK_LINES then Cell(rows[r][x].ch, DEFAULT_COLOR) else Cell(' ', DEFAULT_COLOR)
  }

  ghost predicate ShowsHistory(grid: array2<Cell>, rows: seq<Row>, w: nat, h: nat, v: nat, n: nat)
    requires Shaped(rows, w, h) && grid.Length0 == h && grid.Length1 == w && 0 < v && n <= h
    reads grid
  {
    forall y, x :: 0 <= y < n && 0 <= x < w ==> grid[y, x] == HistoryCell(rows, w, h, v, y, x)
  }

  /** Row y of view v is the line so many above the live screen: of the last ten, its characters in the default
      color; of the others, blanks. */
  lemma ViewShows(rows: seq<Row>, w: nat, h: nat, v: nat, y: nat, x: nat)
    requires Shaped(rows, w, h) && y < h && x < w && 0 < v
    ensures var above := v + (h - 1 - y);
            HistoryCell(rows, w, h, v, y, x) ==
            if above <= 10 && above <= |rows| - h then Cell(rows[|rows| - h - above][x].ch, 7) else Cell(' ', 7)
  {
  }

  /** One step up moves the whole picture down by one line; and the bottom line of view v is the v-th
      line above the live screen, so every line in the ring can be viewed, the latest first. */
  lemma ViewsScrollByOne(rows: seq<Row>, w: nat, h: nat, v: nat, y: nat, x: nat)
    requires Shaped(rows, w, h) && y < h && x < w && 0 < v <= |rows| - h && v <= SCROLLBACK_LINES
    ensures y + 1 < h ==> HistoryCell(rows, w, h, v + 1, y + 1, x) == HistoryCell(rows, w, h, v, y, x)
    ensures HistoryCell(rows, w, h, v, h - 1, x).ch == rows[|rows| - h - v][x].ch
  {
  }

  /** The view after a run of the two keys. */
  function ViewAfter(keys: seq<bool>, count: nat): nat
  {
    if keys == [] then 0
    else
      var v := ViewAfter(keys[..|keys| - 1], count);
      if keys[|keys| - 1] then (if v < count then v + 1 else count) else if v > 0 then v - 1 else 0
  }

  /** The ring holds the characters of the rows from top - count on; row r is in slot r % 10. */
  ghost predicate Remembers(ring: array2<char>, rows: seq<Row>, w: nat, top: nat, start: nat, count: nat)
    requires ring.Length0 == SCROLLBACK_LINES && ring.Length1 == w && top <= |rows|
    requires forall r :: 0 <= r < |rows| ==> |rows[r]| == w
    reads ring
  {
    && count == (if top < SCROLLBACK_LINES then top else SCROLLBACK_LINES)
    && start == (top - count) % SCROLLBACK_LINES
    && forall r, x :: top - count <= r < top && 0 <= x < w ==> ring[r % SCROLLBACK_LINES, x] == rows[r][x].ch
  }

  lemma RingKept(ring: array2<char>, rows: seq<Row>, more: seq<Row>, w: nat, top: nat, start: nat, count: nat)
    requires ring.Length0 == SCROLLBACK_LINES && ring.Length1 == w && top <= |rows|
    requires forall r :: 0 <= r < |rows + more| ==> |(rows + more)[r]| == w
    requires forall r :: 0 <= r < |rows| ==> |rows[r]| == w
    requires Remembers(ring, rows, w, top, start, count)
    ensures Remembers(ring, rows + more, w, top, start, count)
  {
  }

  /** Where the next line goes, and where the ring then starts. */
  lemma NextSlot(top: nat, start: nat, count: nat)
    requires count == (if top < SCROLLBACK_LINES then top else SCROLLBACK_LINES)
    requires start == (top - count) % SCROLLBACK_LINES
    ensures (start + count) % SCROLLBACK_LINES == top % SCROLLBACK_LINES
    ensures count == SCROLLBACK_LINES ==> (start + 1) % SCROLLBACK_LINES == (top + 1 - count) % SCROLLBACK_LINES
  {
  }

  lemma SlotOf(r: nat, top: nat)
    requires r <= top < r + SCROLLBACK_LINES
    ensures r % SCROLLBACK_LINES == top % SCROLLBACK_LINES <==> r == top
  {
  }

  ghost predicate Reversed(s: seq<char>, t: seq<char>)
    ensures Reversed(s, t) ==> |s| == |t|
  {
    |s| == |t| && forall k :: 0 <= k < |s| ==> s[k] == t[|t| - 1 - k]
  }

  /** The conversion loop of both functions: digits from the last to the first. */
  method ConvertDigits(number: nat, radix: nat, uppercase: bool, buffer: array<char>) returns (pos: nat)
    requires 2 <= radix <= 16 && |Digits(number, radix, uppercase)| <= buffer.Length
    modifies buffer
    ensures pos <= buffer.Length && Reversed(buffer[..pos], Digits(number, radix, uppercase))
  {
    ghost var d := Digits(number, radix, uppercase);
    hide Digits, Digit;
    var n := number;
    pos := 0;
    while pos == 0 || n > 0
      invariant 0 <= n && pos <= |d|
      invariant if pos == 0 || n > 0 then pos < |d| && d[..|d| - pos] == Digits(n, radix, uppercase) else pos == |d|
      invariant forall k :: 0 <= k < pos ==> buffer[k] == d[|d| - 1 - k]
      decreases n, |d| - pos
    {
      LastDigit(n, radix, uppercase);
      var rem := n % radix;
      ghost var rest := d[..|d| - pos];
      n := n / radix;
      buffer[pos] := Digit(rem, uppercase);
      assert d[|d| - 1 - pos] == rest[|rest| - 1];
      pos := pos + 1;
      assert rest[..|rest| - 1] == d[..|d| - pos];
    }
  }

  class Screen {
    const w: nat
    const h: nat
    const screen: array2<Cell>
    const backup: array2<Cell>
    const ring: array2<char>
    var x: int
    var y: int
    var start: nat
    var count: nat
    var view: int
    var inScrollback: bool
    /** Every row the terminal has ever had. */
    ghost var rows: seq<Row>

    ghost predicate Buffers()
      reads this, ring
    {
      && screen.Length0 == backup.Length0 == h && screen.Length1 == backup.Length1 == w && screen != backup
      && ring.Length0 == SCROLLBACK_LINES && ring.Length1 == w
      && Shaped(rows, w, h)
      && Remembers(ring, rows, w, |rows| - h, start, count)
    }

    ghost function Shown(): Terminal
      reads this
    {
      Terminal(rows, x, |rows| - h + y)
    }

    ghost predicate Valid()
      reads this, screen, backup, ring
    {
      && Buffers() && Fits(Shown(), w, h)
      && 0 <= view <= count && (inScrollback <==> view > 0)
      && ShowsLive(if inScrollback then backup else screen, rows, w, h)
      && (inScrollback ==> ShowsHistory(screen, rows, w, h, view, h))
    }

    ghost predicate Live()
      reads this, screen, backup, ring
      ensures Live() ==> Fits(Shown(), w, h)
    {
      Valid() && !inScrollback
    }

    /** console_initialize: all buffers zeroed, colors too. */
    constructor (width: nat, height: nat)
      requires 0 < width && 0 < height
      ensures Live() && fresh(screen) && fresh(backup) && fresh(ring)
      ensures w == width && h == height && count == 0
      ensures Shown() == Terminal(seq(height, _ => seq(width, _ => Cell('\0', 0))), 0, 0)
    {
      w, h := width, height;
      screen := new Cell[height, width]((_, _) => Cell('\0', 0));
      backup := new Cell[height, width]((_, _) => Cell('\0', 0));
      ring := new char[SCROLLBACK_LINES, width]((_, _) => '\0');
      x, y, start, count, view, inScrollback := 0, 0, 0, 0, 0, false;
      rows := seq(height, _ => seq(width, _ => Cell('\0', 0)));
    }

    /** kputchr on the live screen. */
    method Kputchr(cx: nat, cy: nat, c: char)
      requires Buffers() && ShowsLive(screen, rows, w, h) && cx < w && cy < h
      modifies this`rows, screen
      ensures Buffers() && ShowsLive(screen, rows, w, h)
      ensures rows == Written(old(rows), w, h, |old(rows)| - h + cy, cx, c)
    {
      screen[cy, cx] := screen[cy, cx].(ch := c);
      rows := Written(rows, w, h, |rows| - h + cy, cx, c);
    }

    /** The top line of the screen joins the ring, the oldest leaves it when full. */
    method SaveLine(line: nat)
      requires ring.Length0 == SCROLLBACK_LINES && ring.Length1 == w && screen.Length0 == h && screen.Length1 == w
      requires Shaped(rows, w, h) && line < h && ShowsLive(screen, rows, w, h)
      requires Remembers(ring, rows, w, |rows| - h + line, start, count)
      modifies this`start, this`count, ring
      ensures Remembers(ring, rows, w, |rows| - h + line + 1, start, count)
    {
      ghost var top := |rows| - h + line;
      var slot := (start + count) % SCROLLBACK_LINES;
      NextSlot(top, start, count);
      for cx := 0 to w
        modifies ring
        invariant forall i, z :: 0 <= i < SCROLLBACK_LINES && 0 <= z < w && i != slot ==> ring[i, z] == old(ring[i, z])
        invariant forall z :: 0 <= z < cx ==> ring[slot, z] == rows[top][z].ch
      {
        ring[slot, cx] := screen[line, cx].ch;
      }
      if count < SCROLLBACK_LINES {
        count := count + 1;
      } else {
        start := (start + 1) % SCROLLBACK_LINES;
      }
      forall r, z | top + 1 - count <= r < top + 1 && 0 <= z < w
        ensures ring[r % SCROLLBACK_LINES, z] == rows[r][z].ch
      {
        SlotOf(r, top);
      }
    }

    method ClearBottom(lines: nat)
      requires screen.Length0 == h && screen.Length1 == w && lines <= h
      modifies screen
      ensures forall a, b :: 0 <= a < h - lines && 0 <= b < w ==> screen[a, b] == old(screen[a, b])
      ensures forall a, b :: h - lines <= a < h && 0 <= b < w ==> screen[a, b] == Cell('\0', DEFAULT_COLOR)
    {
      for r := h - lines to h
        invariant forall a, b :: 0 <= a < h - lines && 0 <= b < w ==> screen[a, b] == old(screen[a, b])
        invariant forall a, b :: h - lines <= a < r && 0 <= b < w ==> screen[a, b] == Cell('\0', DEFAULT_COLOR)
      {
        for cx := 0 to w
          invariant forall a, b :: 0 <= a < h - lines && 0 <= b < w ==> screen[a, b] == old(screen[a, b])
          invariant forall a, b :: h - lines <= a < r && 0 <= b < w ==> screen[a, b] == Cell('\0', DEFAULT_COLOR)
          invariant forall b :: 0 <= b < cx ==> screen[r, b] == Cell('\0', DEFAULT_COLOR)
        {
          screen[r, cx] := Cell('\0', DEFAULT_COLOR);
        }
      }
    }

    /** The move of all lines but the first few. */
    method MoveUp(lines: nat)
      requires Shaped(rows, w, h) && screen.Length0 == h && screen.Length1 == w
      requires ShowsLive(screen, rows, w, h) && lines <= h
      modifies screen
      ensures forall a, b :: 0 <= a < h - lines && 0 <= b < w ==> screen[a, b] == rows[|rows| - h + lines + a][b]
    {
      forall r, cx | 0 <= r < h - lines && 0 <= cx < w {
        screen[r, cx] := screen[r + lines, cx];
      }
      forall a, b | 0 <= a < h - lines && 0 <= b < w ensures screen[a, b] == rows[|rows| - h + lines + a][b] {
        assert screen[a, b] == old(screen[a + lines, b]);
      }
    }

    /** The lines that scroll off join the ring. */
    method SaveLines(lines: nat)
      requires Buffers() && ShowsLive(screen, rows, w, h) && lines <= h
      modifies this`start, this`count, ring
      ensures Remembers(ring, rows, w, |rows| - h + lines, start, count)
    {
      for i := 0 to lines
        modifies this`start, this`count, ring
        invariant Remembers(ring, rows, w, |rows| - h + i, start, count)
      {
        SaveLine(i);
      }
    }

    /** The screen shows the rows with blank ones added. */
    method Shift(lines: nat)
      requires screen.Length0 == h && screen.Length1 == w && Shaped(rows, w, h) && lines <= h
      requires ShowsLive(screen, rows, w, h)
      modifies screen
      ensures ShowsLive(screen, rows + Blanks(w, lines), w, h)
    {
      MoveUp(lines);
      ClearBottom(lines);
    }

    /** scrollback. */
    method Scrollback(lines: nat)
      requires Buffers() && ShowsLive(screen, rows, w, h) && lines <= h
      modifies this`start, this`count, this`y, this`rows, ring, screen
      ensures Buffers() && ShowsLive(screen, rows, w, h)
      ensures rows == old(rows) + Blanks(w, lines) && y == old(y) - lines
    {
      SaveLines(lines);
      RingKept(ring, rows, Blanks(w, lines), w, |rows| - h + lines, start, count);
      Shift(lines);
      hide ShowsLive, Remembers;
      y := y - lines;
      rows := rows + Blanks(w, lines);
    }

    /** The end of kputc: wrap, and scroll if the cursor left the screen. */
    method Settle()
      requires Buffers() && ShowsLive(screen, rows, w, h) && view == 0 && !inScrollback
      requires 0 <= x <= w && 0 <= y <= h && (x == w ==> y < h)
      modifies this, screen, ring
      ensures Live() && Shown() == Settled(old(Shown()), w, h)
    {
      if x >= w {
        y := y + 1;
        x := 0;
      }
      if y >= h {
        Scrollback(1);
        assert Blanks(w, 1) == [Blank(w)];
      }
    }

    /** kputc on a backspace. */
    method StepBack()
      requires Live()
      modifies this`x, this`y, this`rows, screen
      ensures Live() && Shown() == SteppedBack(old(Shown()), w, h)
    {
      hide Written, Remembers, ShowsLive;
      if x > 0 {
        x := x - 1;
      } else if y > 0 {
        y := y - 1;
        x := w - 1;
      } else {
        return;
      }
      Kputchr(x, y, ' ');
    }

    /** kputc. */
    method Kputc(c: char)
      requires Live()
      modifies this, screen, ring
      ensures Live() && Shown() == Put(old(Shown()), w, h, c)
      decreases if c == '\t' then 1 else 0
    {
      hide Written, Remembers, ShowsLive;
      match c {
        case '\n' =>
          x := 0;
          y := y + 1;
        case '\U{8}' =>
          StepBack();
        case '\t' =>
          var i := 0;
          while i < 4 - x % 4
            decreases 4 - i
            invariant 0 <= i <= 4 && Live()
            invariant Tabbed(old(Shown()), w, h, 0) == Tabbed(Shown(), w, h, i)
          {
            Kputc(' ');
            i := i + 1;
          }
        case '\r' =>
          x := 0;
        case _ =>
          Kputchr(x, y, c);
          x := x + 1;
      }
      Settle();
    }

    /** kputs. */
    method Kputs(s: string)
      requires Live()
      modifies this, screen, ring
      ensures Live() && Shown() == Typed(old(Shown()), w, h, s)
    {
      for i := 0 to |s|
        invariant Live() && Shown() == Typed(old(Shown()), w, h, s[..i])
      {
        Kputc(s[i]);
        assert s[..i + 1][..i] == s[..i];
      }
      assert s[..|s|] == s;
    }

    // -------------------------------------------------------------- the scrollback view

    /** One row of redraw_from_scrollback. */
    method RedrawRow(r: nat, index: int)
      requires Buffers() && 0 < view <= count && r < h && index == count - view - (h - 1 - r)
      modifies screen
      ensures forall y, z :: 0 <= y < h && 0 <= z < w && y != r ==> screen[y, z] == old(screen[y, z])
      ensures forall z :: 0 <= z < w ==> screen[r, z] == HistoryCell(rows, w, h, view, r, z)
    {
      var inRing := 0 <= index < count;
      var slot := if inRing then (start + index) % SCROLLBACK_LINES else 0;
      assert inRing ==> slot == (|rows| - h - count + index) % SCROLLBACK_LINES;
      for cx := 0 to w
        invariant forall y, z :: 0 <= y < h && 0 <= z < w && y != r ==> screen[y, z] == old(screen[y, z])
        invariant forall z :: 0 <= z < cx ==> screen[r, z] == HistoryCell(rows, w, h, view, r, z)
      {
        screen[r, cx] := Cell(if inRing then ring[slot, cx] else ' ', DEFAULT_COLOR);
      }
    }

    /** redraw_from_scrollback. */
    method RedrawFromScrollback()
      requires Buffers() && 0 < view <= count
      modifies screen
      ensures ShowsHistory(screen, rows, w, h, view, h)
    {
      var topHistoryLine := count - view;
      for r := 0 to h
        invariant ShowsHistory(screen, rows, w, h, view, r)
      {
        RedrawRow(r, topHistoryLine - (h - 1 - r));
      }
    }

    method SaveScreen()
      requires Buffers() && ShowsLive(screen, rows, w, h)
      modifies backup
      ensures ShowsLive(backup, rows, w, h)
    {
      forall r, cx | 0 <= r < h && 0 <= cx < w {
        backup[r, cx] := screen[r, cx];
      }
    }

    method RestoreScreen()
      requires Buffers() && ShowsLive(backup, rows, w, h)
      modifies screen
      ensures ShowsLive(screen, rows, w, h)
    {
      forall r, cx | 0 <= r < h && 0 <= cx < w {
        screen[r, cx] := backup[r, cx];
      }
    }

    /** view_scrollback_up: one line further back, at most to the oldest one; the terminal is untouched. */
    method ViewScrollbackUp()
      requires Valid()
      modifies this`view, this`inScrollback, screen, backup
      ensures Valid()
      ensures view == if old(view) < count then old(view) + 1 else count
    {
      if count == 0 {
        return;
      }
      if !inScrollback {
        SaveScreen();
        inScrollback := true;
      }
      hide ShowsLive, ShowsHistory, Remembers;
      view := view + 1;
      if view > count {
        view := count;
      }
      RedrawFromScrollback();
    }

    /** view_scrollback_down: one line nearer; leaving the mode restores the live screen. */
    method ViewScrollbackDown()
      requires Valid()
      modifies this`view, this`inScrollback, screen
      ensures Valid()
      ensures view == if old(view) > 0 then old(view) - 1 else 0
      ensures view == 0 ==> ShowsLive(screen, rows, w, h)
    {
      if !inScrollback {
        return;
      }
      hide ShowsLive, ShowsHistory, Remembers;
      view := view - 1;
      if view <= 0 {
        view := 0;
        inScrollback := false;
        RestoreScreen();
        return;
      }
      RedrawFromScrollback();
    }

    /** Any run of the two keys (true is up) from the live screen: when it ends outside the mode, every
        cell of the screen is what it was before, and the terminal never changes. */
    method BrowseHistory(keys: seq<bool>)
      requires Live()
      modifies this`view, this`inScrollback, screen, backup
      ensures Valid() && view == ViewAfter(keys, count)
      ensures !inScrollback ==> forall r, cx :: 0 <= r < h && 0 <= cx < w ==> screen[r, cx] == old(screen[r, cx])
    {
      for i := 0 to |keys|
        invariant Valid() && view == ViewAfter(keys[..i], count)
      {
        if keys[i] {
          ViewScrollbackUp();
        } else {
          ViewScrollbackDown();
        }
        assert keys[..i + 1][..i] == keys[..i];
      }
      assert keys[..|keys|] == keys;
    }

    // -------------------------------------------------------------- numbers

    /** Print what ConvertDigits left in a buffer, last digit first. */
    method PrintDigits(buffer: array<char>, n: nat, ghost before: Terminal, ghost prefix: string, ghost digits: string)
      requires Live() && n <= buffer.Length && Reversed(buffer[..n], digits)
      requires Fits(before, w, h) && Shown() == Typed(before, w, h, prefix)
      modifies this, screen, ring
      ensures Live() && Shown() == Typed(before, w, h, prefix + digits)
    {
      hide Live, Typed, Put, Shown, Fits;
      var pos := n - 1;
      assert prefix + digits[..0] == prefix;
      while pos >= 0
        invariant -1 <= pos < n && Live()
        invariant Shown() == Typed(before, w, h, prefix + digits[..n - 1 - pos])
      {
        ghost var s := prefix + digits[..n - 1 - pos];
        assert buffer[pos] == buffer[..n][pos] == digits[n - 1 - pos];
        Kputc(buffer[pos]);
        assert prefix + digits[..n - pos] == s + [digits[n - 1 - pos]];
        TypedLast(before, w, h, s, digits[n - 1 - pos]);
        pos := pos - 1;
      }
      assert digits[..n] == digits;
    }

    /** The padding loop: at most one character for every column not taken. */
    method Pad(taken: int, columns: int, padding: char)
      requires Live()
      modifies this, screen, ring
      ensures Live() && Shown() == Typed(old(Shown()), w, h, Repeat(padding, columns - taken))
    {
      hide Live, Typed, Put, Shown, Fits;
      var width := columns;
      TypedNone(Shown(), w, h);
      assert Repeat(padding, columns - width) == "";
      while taken < width
        invariant width <= columns && (width < columns ==> taken <= width)
        invariant Live() && Shown() == Typed(old(Shown()), w, h, Repeat(padding, columns - width))
      {
        Kputc(padding);
        TypedLast(old(Shown()), w, h, Repeat(padding, columns - width), padding);
        assert Repeat(padding, columns - width) + [padding] == Repeat(padding, columns - width + 1);
        width := width - 1;
      }
      assert Repeat(padding, columns - width) == Repeat(padding, columns - taken);
    }

    /** printf_unsigned. */
    method PrintfUnsigned(number: nat, radix: nat, width: int, padding: char, uppercase: bool)
      requires Live() && number < 0x1_0000_0000_0000_0000 && 2 <= radix <= 16
      modifies this, screen, ring
      ensures Live() && Shown() == Typed(old(Shown()), w, h, UnsignedText(number, radix, width, padding, uppercase))
    {
      hide Live, Typed, Put, Shown, Fits;
      var buffer := new char[64];
      BuffersSuffice(number, radix, uppercase);
      var pos := ConvertDigits(number, radix, uppercase, buffer);
      ghost var d := Digits(number, radix, uppercase);
      Pad(pos, width, padding);
      PrintDigits(buffer, pos, old(Shown()), Repeat(padding, width - |d|), d);
    }

    /** The zero-padded branch of printf_signed: the sign, then the padded digits. */
    method SignThenPadding(magnitude: int, radix: nat, width: int, uppercase: bool)
      requires Live() && 0 < magnitude < 0x8000_0000_0000_0000 && 2 <= radix <= 16
      modifies this, screen, ring
      ensures Live() && Shown() == Typed(old(Shown()), w, h, SignedText(-magnitude, radix, width, '0', uppercase))
    {
      hide Live, Typed, Put, Shown, Fits;
      ghost var t := Shown();
      Kputc('-');
      TypedNone(t, w, h);
      TypedLast(t, w, h, "", '-');
      assert "" + ['-'] == "-";
      var rest := if width > 0 then width - 1 else 0;
      PrintfUnsigned(magnitude, radix, rest, '0', uppercase);
      ghost var text := UnsignedText(magnitude, radix, rest, '0', uppercase);
      TypedThen(t, w, h, "-", text);
      assert "-" + text == SignedText(-magnitude, radix, width, '0', uppercase) by {
        hide Digits;
      }
    }

    /** The other branch: the padding, then the sign and the digits. */
    method PaddingThenSign(magnitude: int, radix: nat, width: int, padding: char, uppercase: bool)
      requires Live() && 0 < magnitude < Power(radix, 32) && 2 <= radix <= 16 && padding != '0'
      modifies this, screen, ring
      ensures Live() && Shown() == Typed(old(Shown()), w, h, SignedText(-magnitude, radix, width, padding, uppercase))
    {
      hide Live, Typed, Put, Shown, Fits, Digits, Digit, Reversed;
      ghost var t := Shown();
      var buffer := new char[32];
      DigitCountIff(magnitude, radix, uppercase, 32);
      var pos := ConvertDigits(magnitude, radix, uppercase, buffer);
      ghost var d := Digits(magnitude, radix, uppercase);
      Pad(pos + 1, width, padding);
      Kputc('-');
      ghost var prefix := Repeat(padding, width - 1 - |d|);
      TypedLast(t, w, h, prefix, '-');
      PrintDigits(buffer, pos, t, prefix + "-", d);
      assert prefix + "-" + d == SignedText(-magnitude, radix, width, padding, uppercase);
    }

    /** printf_signed; negating the most negative number is outside the language. A negative number that
        is not zero-padded goes through 32 characters, enough for every 64-bit number from radix 4 on. */
    method PrintfSigned(number: int, radix: nat, width: int, padding: char, uppercase: bool)
      requires Live() && -0x8000_0000_0000_0000 < number < 0x8000_0000_0000_0000 && 2 <= radix <= 16
      requires number < 0 && padding != '0' ==> -number < Power(radix, 32)
      modifies this, screen, ring
      ensures Live() && Shown() == Typed(old(Shown()), w, h, SignedText(number, radix, width, padding, uppercase))
    {
      hide Live, Typed, Shown, Fits, Digits;
      if number < 0 {
        if padding == '0' {
          SignThenPadding(-number, radix, width, uppercase);
        } else {
          PaddingThenSign(-number, radix, width, padding, uppercase);
        }
      } else {
        PrintfUnsigned(number, radix, width, padding, uppercase);
      }
    }
  }
}
