/** An unbounded terminal: every row ever scrolled through, of which the last h are the screen. It
    is what the console of src/kernel/libs/stdio.c implements with one screen buffer and a ring. */
module UnboundedTerminal {
  import opened Arithmetic

  datatype Cell = Cell(ch: char, color: bv8)

  type Row = seq<Cell>

  /** The cursor is at column x of absolute row r. */
  datatype Terminal = Terminal(rows: seq<Row>, x: int, r: int)

  const DEFAULT_COLOR: bv8 := 0x07

  const BACKSPACE: char := '\U{8}'

  function Blank(w: nat): Row { seq(w, _ => Cell('\0', DEFAULT_COLOR)) }

  function Blanks(w: nat, n: nat): seq<Row> { seq(n, _ => Blank(w)) }

  ghost predicate Shaped(rows: seq<Row>, w: nat, h: nat)
  {
    && 0 < w && 0 < h <= |rows|
    && forall r :: 0 <= r < |rows| ==> |rows[r]| == w
  }

  /** The cursor is on the screen. */
  ghost predicate Fits(t: Terminal, w: nat, h: nat)
  {
    && Shaped(t.rows, w, h)
    && 0 <= t.x < w && |t.rows| - h <= t.r < |t.rows|
  }

  /** Put a character into a cell; its color stays. */
  function Written(rows: seq<Row>, w: nat, h: nat, r: int, x: int, c: char): (rows': seq<Row>)
    requires Shaped(rows, w, h) && 0 <= r < |rows| && 0 <= x < w
    ensures Shaped(rows', w, h) && |rows'| == |rows|
  {
    rows[r := rows[r][x := rows[r][x].(ch := c)]]
  }

  /** Past the last column the cursor wraps, past the last row the terminal grows. */
  function Settled(t: Terminal, w: nat, h: nat): (t': Terminal)
    requires Shaped(t.rows, w, h) && 0 <= t.x <= w && |t.rows| - h <= t.r && t.r <= |t.rows|
    requires t.x == w ==> t.r < |t.rows|
    ensures Fits(t', w, h)
  {
    var u := if t.x >= w then t.(x := 0, r := t.r + 1) else t;
    if u.r >= |u.rows| then u.(rows := u.rows + [Blank(w)]) else u
  }

  /** A backspace: the cursor steps back, and the character there is blanked. */
  function SteppedBack(t: Terminal, w: nat, h: nat): (t': Terminal)
    requires Fits(t, w, h)
    ensures Fits(t', w, h)
  {
    if t.x > 0 then t.(x := t.x - 1, rows := Written(t.rows, w, h, t.r, t.x - 1, ' '))
    else if t.r > |t.rows| - h then t.(x := w - 1, r := t.r - 1, rows := Written(t.rows, w, h, t.r - 1, w - 1, ' '))
    else t
  }

  /** One character other than a tab. */
  function PutOne(t: Terminal, w: nat, h: nat, c: char): (t': Terminal)
    requires Fits(t, w, h)
    ensures Fits(t', w, h)
  {
    Settled(
      if c == '\n' then t.(x := 0, r := t.r + 1)
      else if c == BACKSPACE then SteppedBack(t, w, h)
      else if c == '\r' then t.(x := 0)
      else t.(x := t.x + 1, rows := Written(t.rows, w, h, t.r, t.x, c)),
      w, h)
  }

  /** The spaces a tab still emits when i are out: the bound is read from the moving cursor. */
  function Tabbed(t: Terminal, w: nat, h: nat, i: nat): (t': Terminal)
    requires Fits(t, w, h)
    ensures Fits(t', w, h)
    decreases 4 - i
  {
    if i < 4 - t.x % 4 then Tabbed(PutOne(t, w, h, ' '), w, h, i + 1) else t
  }

  function Put(t: Terminal, w: nat, h: nat, c: char): (t': Terminal)
    requires Fits(t, w, h)
    ensures Fits(t', w, h)
  {
    if c == '\t' then Tabbed(t, w, h, 0) else PutOne(t, w, h, c)
  }

  function Typed(t: Terminal, w: nat, h: nat, s: string): (t': Terminal)
    requires Fits(t, w, h)
    ensures Fits(t', w, h)
  {
    if s == [] then t else Put(Typed(t, w, h, s[..|s| - 1]), w, h, s[|s| - 1])
  }

  lemma TypedNone(t: Terminal, w: nat, h: nat)
    requires Fits(t, w, h)
    ensures Typed(t, w, h, "") == t
  {
  }

  lemma TypedLast(t: Terminal, w: nat, h: nat, s: string, c: char)
    requires Fits(t, w, h)
    ensures Typed(t, w, h, s + [c]) == Put(Typed(t, w, h, s), w, h, c)
  {
    assert (s + [c])[..|s|] == s;
  }

  lemma {:induction false} TypedThen(t: Terminal, w: nat, h: nat, s: string, s': string)
    requires Fits(t, w, h)
    ensures Typed(t, w, h, s + s') == Typed(Typed(t, w, h, s), w, h, s')
  {
    hide Put, Fits;
    if s' == [] {
      assert s + s' == s;
    } else {
      TypedThen(t, w, h, s, s'[..|s'| - 1]);
      assert (s + s')[..|s + s'| - 1] == s + s'[..|s'| - 1];
    }
  }

  // ---------------------------------------------------------------- history is append-only

  /** u has every row of t that is above t's screen, and perhaps more rows. */
  ghost predicate Extends(t: Terminal, u: Terminal, h: nat)
  {
    && |t.rows| <= |u.rows|
    && forall r :: 0 <= r < |t.rows| - h ==> u.rows[r] == t.rows[r]
  }

  lemma {:induction false} TabbedExtends(t: Terminal, w: nat, h: nat, i: nat)
    requires Fits(t, w, h)
    ensures Extends(t, Tabbed(t, w, h, i), h)
    decreases 4 - i
  {
    if i < 4 - t.x % 4 {
      TabbedExtends(PutOne(t, w, h, ' '), w, h, i + 1);
    }
  }

  /** Whatever is typed, nothing above the screen ever changes again. */
  lemma {:induction false} HistoryIsFinal(t: Terminal, w: nat, h: nat, s: string)
    requires Fits(t, w, h)
    ensures Extends(t, Typed(t, w, h, s), h)
  {
    if s != [] {
      var u, c := Typed(t, w, h, s[..|s| - 1]), s[|s| - 1];
      HistoryIsFinal(t, w, h, s[..|s| - 1]);
      if c == '\t' {
        TabbedExtends(u, w, h, 0);
      }
    }
  }

  // ---------------------------------------------------------------- text is laid out in reading order

  /** The cursor as an offset in reading order, and the cell at such an offset. */
  function Offset(t: Terminal, w: nat): int { t.r * w + t.x }

  function Size(t: Terminal, w: nat): int { |t.rows| * w }

  lemma RowOf(p: int, w: nat, n: nat)
    requires 0 < w && 0 <= p < n * w
    ensures 0 <= p / w < n && 0 <= p % w < w && p == p / w * w + p % w
  {
    var q := p / w;
    assert p == q * w + p % w;
    if q < n {
    } else {
      MulMonotone(n, q, w);
    }
  }

  function CellAt(t: Terminal, w: nat, h: nat, p: int): Cell
    requires Shaped(t.rows, w, h) && 0 <= p < Size(t, w)
  {
    RowOf(p, w, |t.rows|);
    t.rows[p / w][p % w]
  }

  lemma OffsetOf(r: nat, x: nat, w: nat, n: nat)
    requires x < w && r < n
    ensures r * w + x < n * w && (r * w + x) / w == r && (r * w + x) % w == x
  {
    MulMonotone(r, n, w);
    var p := r * w + x;
    RowOf(p, w, n);
    var q := p / w;
    if q < r {
      MulMonotone(q, r, w);
    } else if r < q {
      MulMonotone(r, q, w);
    }
  }

  predicate Printable(c: char) { c !in ['\n', BACKSPACE, '\t', '\r'] }

  /** The cell at offset p of t, or a blank one behind its rows. */
  function Ground(t: Terminal, w: nat, h: nat, p: int): Cell
    requires Shaped(t.rows, w, h) && 0 <= p
  {
    if p < Size(t, w) then CellAt(t, w, h, p) else Cell('\0', 7)
  }

  /** From t to u the text s went into consecutive cells in reading order, starting at the cursor, and the
      cursor follows it. No other cell changed, no color did, and as many blank rows were added as the cursor
      needed. */
  ghost predicate LaidOut(t: Terminal, u: Terminal, w: nat, h: nat, s: string)
  {
    && Fits(t, w, h) && Fits(u, w, h)
    && Offset(u, w) == Offset(t, w) + |s| && Size(t, w) <= Size(u, w)
    && |u.rows| == (if u.r < |t.rows| then |t.rows| else u.r + 1)
    && 0 <= Offset(t, w) < Size(t, w) && Offset(u, w) < Size(u, w)
    && (forall p :: Offset(t, w) <= p < Offset(t, w) + |s| ==>
                      CellAt(u, w, h, p) == Ground(t, w, h, p).(ch := s[p - Offset(t, w)]))
    && (forall p :: 0 <= p < Size(u, w) && !(Offset(t, w) <= p < Offset(t, w) + |s|) ==>
                      CellAt(u, w, h, p) == Ground(t, w, h, p))
  }

  lemma CellIs(t: Terminal, w: nat, h: nat, r: nat, x: nat)
    requires Shaped(t.rows, w, h) && r < |t.rows| && x < w
    ensures 0 <= r * w + x < Size(t, w) && CellAt(t, w, h, r * w + x) == t.rows[r][x]
  {
    OffsetOf(r, x, w, |t.rows|);
  }

  lemma PrintedRows(t: Terminal, w: nat, h: nat, c: char)
    requires Fits(t, w, h) && Printable(c)
    ensures var u := Put(t, w, h, c);
            && Fits(u, w, h) && |t.rows| <= |u.rows|
            && |u.rows| == (if u.r < |t.rows| then |t.rows| else u.r + 1)
            && (forall r :: 0 <= r < |t.rows| && r != t.r ==> u.rows[r] == t.rows[r])
            && (forall r :: |t.rows| <= r < |u.rows| ==> u.rows[r] == seq(w, _ => Cell('\0', 7)))
            && u.rows[t.r] == t.rows[t.r][t.x := t.rows[t.r][t.x].(ch := c)]
            && (if t.x + 1 < w then u.r == t.r && u.x == t.x + 1 else u.r == t.r + 1 && u.x == 0)
  {
  }

  lemma OtherCell(t: Terminal, u: Terminal, w: nat, h: nat, q: int)
    requires Fits(t, w, h) && Fits(u, w, h) && |t.rows| <= |u.rows|
    requires forall r :: 0 <= r < |t.rows| && r != t.r ==> u.rows[r] == t.rows[r]
    requires forall r :: |t.rows| <= r < |u.rows| ==> u.rows[r] == seq(w, _ => Cell('\0', 7))
    requires forall x :: 0 <= x < w && x != t.x ==> u.rows[t.r][x] == t.rows[t.r][x]
    requires 0 <= q < Size(u, w) && q != Offset(t, w)
    ensures CellAt(u, w, h, q) == Ground(t, w, h, q)
  {
    RowOf(q, w, |u.rows|);
    CellIs(u, w, h, q / w, q % w);
    if q / w < |t.rows| {
      CellIs(t, w, h, q / w, q % w);
    } else {
      MulMonotone(|t.rows|, q / w, w);
    }
  }

  lemma PutPrintable(t: Terminal, w: nat, h: nat, c: char)
    requires Fits(t, w, h) && Printable(c)
    ensures LaidOut(t, Put(t, w, h, c), w, h, [c])
  {
    var t', p := Put(t, w, h, c), Offset(t, w);
    PrintedRows(t, w, h, c);
    hide PutOne, Written, CellAt;
    CellIs(t, w, h, t.r, t.x);
    CellIs(t', w, h, t.r, t.x);
    CellIs(t', w, h, t'.r, t'.x);
    MulMonotone(t.r, t.r + 1, w);
    MulNext(t.r, w);
    MulMonotone(|t.rows|, |t'.rows|, w);
    forall q | 0 <= q < Size(t', w) && q != p
      ensures CellAt(t', w, h, q) == Ground(t, w, h, q)
    {
      OtherCell(t, t', w, h, q);
    }
  }

  lemma CursorRowGrows(t: Terminal, u: Terminal, w: nat)
    requires 0 <= t.x < w && 0 <= u.x < w && 0 <= t.r && 0 <= u.r && Offset(t, w) <= Offset(u, w)
    ensures t.r <= u.r
  {
    if u.r < t.r {
      MulMonotone(u.r + 1, t.r, w);
      MulNext(u.r, w);
    }
  }

  lemma LaidOutThen(t: Terminal, u: Terminal, v: Terminal, w: nat, h: nat, s: string, c: char)
    requires LaidOut(t, u, w, h, s) && LaidOut(u, v, w, h, [c])
    ensures LaidOut(t, v, w, h, s + [c])
  {
    CursorRowGrows(u, v, w);
    hide CellAt, Offset, Size;
    var p, o := Offset(t, w), Offset(u, w);
    assert (s + [c])[..|s|] == s && (s + [c])[|s|] == c;
    forall q | p <= q < p + |s| + 1
      ensures CellAt(v, w, h, q) == Ground(t, w, h, q).(ch := (s + [c])[q - p])
    {
      if q < o {
        assert CellAt(v, w, h, q) == Ground(u, w, h, q) == CellAt(u, w, h, q);
      } else {
        assert CellAt(u, w, h, o) == Ground(t, w, h, o);
      }
    }
  }

  /** Printable text of any length, typed anywhere, lies in consecutive cells in reading order,
      across wraps and scrolls. */
  lemma {:induction false} TextIsContiguous(t: Terminal, w: nat, h: nat, s: string)
    requires Fits(t, w, h) && forall k :: 0 <= k < |s| ==> Printable(s[k])
    ensures LaidOut(t, Typed(t, w, h, s), w, h, s)
  {
    if s == [] {
      OffsetOf(t.r, t.x, w, |t.rows|);
    } else {
      hide LaidOut, PutOne;
      var s0, c := s[..|s| - 1], s[|s| - 1];
      var u := Typed(t, w, h, s0);
      TextIsContiguous(t, w, h, s0);
      PutPrintable(u, w, h, c);
      LaidOutThen(t, u, Put(u, w, h, c), w, h, s0, c);
      assert s0 + [c] == s;
    }
  }

  // ---------------------------------------------------------------- new lines

  /** A newline takes the cursor to the start of the next row, which is a new, blank one only if there is
      none. */
  lemma NewlineIs(t: Terminal, w: nat, h: nat)
    requires Fits(t, w, h)
    ensures var u := Put(t, w, h, '\n');
            && u.x == 0 && u.r == t.r + 1
            && u.rows == if t.r + 1 < |t.rows| then t.rows else t.rows + [seq(w, _ => Cell('\0', 7))]
  {
  }

  /** A carriage return changes the column only. */
  lemma CarriageReturnIs(t: Terminal, w: nat, h: nat)
    requires Fits(t, w, h)
    ensures Put(t, w, h, '\r') == Terminal(t.rows, 0, t.r)
  {
  }

  lemma RowAfter(t: Terminal, u: Terminal, w: nat, h: nat, s: string)
    requires LaidOut(t, u, w, h, s) && t.x + |s| < w
    ensures u.r == t.r && u.x == t.x + |s| && |u.rows| == |t.rows|
    ensures forall k :: 0 <= k < |s| ==> u.rows[t.r][t.x + k].ch == s[k]
  {
    OffsetOf(u.r, u.x, w, |u.rows|);
    MulMonotone(|t.rows|, |u.rows|, w);
    OffsetOf(t.r, t.x + |s|, w, |t.rows|);
    assert u.r == t.r;
    forall k | 0 <= k < |s|
      ensures u.rows[t.r][t.x + k].ch == s[k]
    {
      CellIs(u, w, h, t.r, t.x + k);
    }
  }

  /** What follows a line and a newline starts the next row, under the line. */
  lemma LinesAreRows(t: Terminal, w: nat, h: nat, s: string, c: char)
    requires Fits(t, w, h) && t.x + |s| < w && Printable(c) && forall k :: 0 <= k < |s| ==> Printable(s[k])
    ensures var u := Typed(t, w, h, s + "\n" + [c]);
            && t.r + 1 < |u.rows| && u.rows[t.r + 1][0].ch == c
            && forall k :: 0 <= k < |s| ==> u.rows[t.r][t.x + k].ch == s[k]
  {
    assert s + ['\n'] == s + "\n" && t.x < w && 0 <= t.x;
    hide *;
    var v := Typed(t, w, h, s);
    TextIsContiguous(t, w, h, s);
    RowAfter(t, v, w, h, s);
    TypedLast(t, w, h, s, '\n');
    TypedLast(t, w, h, s + "\n", c);
    NewlineIs(v, w, h);
    PrintedRows(Put(v, w, h, '\n'), w, h, c);
  }

  /** "\r" and a line write over the row from its start. */
  lemma ReturnOverwrites(t: Terminal, w: nat, h: nat, s: string)
    requires Fits(t, w, h) && |s| < w && forall k :: 0 <= k < |s| ==> Printable(s[k])
    ensures var u := Typed(t, w, h, "\r" + s);
            && u.r == t.r && |u.rows| == |t.rows| && forall k :: 0 <= k < |s| ==> u.rows[t.r][k].ch == s[k]
  {
    TypedNone(t, w, h);
    TypedLast(t, w, h, "", '\r');
    assert "" + ['\r'] == "\r";
    CarriageReturnIs(t, w, h);
    var v := Put(t, w, h, '\r');
    TypedThen(t, w, h, "\r", s);
    TextIsContiguous(v, w, h, s);
    RowAfter(v, Typed(v, w, h, s), w, h, s);
  }

  // ---------------------------------------------------------------- backspace and tab

  lemma PutBackspace(t: Terminal, w: nat, h: nat)
    requires Fits(t, w, h)
    ensures Put(t, w, h, BACKSPACE) == SteppedBack(t, w, h)
  {
  }

  /** A backspace blanks the cell before the cursor, in reading order, and goes there; at the start of the
      screen it does nothing. */
  lemma BackspaceErases(t: Terminal, w: nat, h: nat)
    requires Fits(t, w, h)
    ensures var u, p := Put(t, w, h, BACKSPACE), Offset(t, w);
            if t.x == 0 && t.r == |t.rows| - h then u == t
            else && Offset(u, w) == p - 1 && |u.rows| == |t.rows| && 0 < p <= Size(t, w)
                 && CellAt(u, w, h, p - 1) == CellAt(t, w, h, p - 1).(ch := ' ')
                 && forall q :: 0 <= q < Size(t, w) && q != p - 1 ==> CellAt(u, w, h, q) == CellAt(t, w, h, q)
  {
    PutBackspace(t, w, h);
    var u := SteppedBack(t, w, h);
    hide Put, CellAt;
    if !(t.x == 0 && t.r == |t.rows| - h) {
      MulNext(t.r - 1, w);
      CellIs(t, w, h, u.r, u.x);
      CellIs(u, w, h, u.r, u.x);
      forall q | 0 <= q < Size(t, w) && q != Offset(u, w)
        ensures CellAt(u, w, h, q) == CellAt(t, w, h, q)
      {
        RowOf(q, w, |t.rows|);
        CellIs(t, w, h, q / w, q % w);
        CellIs(u, w, h, q / w, q % w);
      }
    }
  }

  /** A backspace takes the cursor back over a printable character exactly if the screen has a second
      row or the character did not wrap; then only that cell differs, and it holds a space. */
  lemma BackspaceUndoesIff(t: Terminal, w: nat, h: nat, c: char)
    requires Fits(t, w, h) && Printable(c)
    ensures var u := Typed(t, w, h, [c, BACKSPACE]);
            && |t.rows| <= |u.rows|
            && (u.x == t.x && u.r == t.r <==> h > 1 || t.x + 1 < w)
            && (h > 1 || t.x + 1 < w ==>
                  && u.rows[..|t.rows|] == Written(t.rows, w, h, t.r, t.x, ' ')
                  && |u.rows| == |Put(t, w, h, c).rows|)
  {
    var v := Put(t, w, h, c);
    PrintedRows(t, w, h, c);
    TypedNone(t, w, h);
    TypedLast(t, w, h, "", c);
    TypedLast(t, w, h, [c], BACKSPACE);
    assert "" + [c] == [c] && [c] + [BACKSPACE] == [c, BACKSPACE];
    PutBackspace(v, w, h);
    hide Typed, Printable, Put;
    var u := SteppedBack(v, w, h);
    if h > 1 || t.x + 1 < w {
      assert u.rows[t.r] == t.rows[t.r][t.x := t.rows[t.r][t.x].(ch := ' ')];
    }
  }

  /** The column after a tab that starts at x with i spaces out. */
  function TabEnd(x: nat, w: nat, i: nat): nat
    requires 0 < w
    decreases 4 - i
  {
    if i < 4 - x % 4 then TabEnd(if x + 1 >= w then 0 else x + 1, w, i + 1) else x
  }

  /** The spaces a tab emits if they fit in the row. */
  function TabSpaces(x: nat): nat { if x % 4 < 2 then 2 else if x % 4 == 2 then 1 else 3 }

  lemma NextColumn(x: nat)
    ensures (x + 1) % 4 == if x % 4 == 3 then 0 else x % 4 + 1
  {
  }

  /** Where the source's moving bound leaves the cursor. */
  lemma TabEndIs(x: nat, w: nat)
    requires x < w
    ensures TabEnd(x, w, 0) ==
            if x + TabSpaces(x) < w then x + TabSpaces(x)
            else if w == 1 then 0
            else if w == 2 || x + 1 < w then 1 else 2
  {
    var y := if x + 1 >= w then 0 else x + 1;
    var z := if y + 1 >= w then 0 else y + 1;
    var z' := if z + 1 >= w then 0 else z + 1;
    assert TabEnd(x, w, 0) == TabEnd(y, w, 1);
    assert TabEnd(y, w, 1) == if y % 4 < 3 then TabEnd(z, w, 2) else y;
    assert TabEnd(z, w, 2) == if z % 4 < 2 then TabEnd(z', w, 3) else z;
    assert TabEnd(z', w, 3) == if z' % 4 == 0 then TabEnd(if z' + 1 >= w then 0 else z' + 1, w, 4) else z';
    hide TabEnd;
    NextColumn(x);
    NextColumn(y);
    NextColumn(z);
  }

  function Spaces(n: nat): string { seq(n, _ => ' ') }

  /** How many spaces a tab still emits at column x with i out. */
  function TabCount(x: nat, w: nat, i: nat): nat
    requires 0 < w
    decreases 4 - i
  {
    if i < 4 - x % 4 then 1 + TabCount(if x + 1 >= w then 0 else x + 1, w, i + 1) else 0
  }

  lemma TabCountIs(x: nat, w: nat)
    requires x < w
    ensures TabCount(x, w, 0) <= 4 && (x + TabSpaces(x) < w ==> TabCount(x, w, 0) == TabSpaces(x))
  {
    var y := if x + 1 >= w then 0 else x + 1;
    var z := if y + 1 >= w then 0 else y + 1;
    var z' := if z + 1 >= w then 0 else z + 1;
    assert TabCount(x, w, 0) == 1 + TabCount(y, w, 1);
    assert TabCount(y, w, 1) == if y % 4 < 3 then 1 + TabCount(z, w, 2) else 0;
    assert TabCount(z, w, 2) == if z % 4 < 2 then 1 + TabCount(z', w, 3) else 0;
    assert TabCount(z', w, 3) <= 1;
    assert z' % 4 != 0 ==> TabCount(z', w, 3) == 0;
    hide TabCount;
    NextColumn(x);
    NextColumn(y);
    NextColumn(z);
  }

  lemma SpacesAdd(n: nat)
    ensures "" + [' '] == Spaces(1) && Spaces(1) + Spaces(n) == Spaces(1 + n)
  {
  }

  lemma TypedSpaces(t: Terminal, w: nat, h: nat, n: nat)
    requires Fits(t, w, h)
    ensures Typed(PutOne(t, w, h, ' '), w, h, Spaces(n)) == Typed(t, w, h, Spaces(1 + n))
  {
    assert Put(t, w, h, ' ') == PutOne(t, w, h, ' ');
    hide *;
    SpacesAdd(n);
    TypedNone(t, w, h);
    TypedLast(t, w, h, "", ' ');
    TypedThen(t, w, h, Spaces(1), Spaces(n));
  }

  lemma TabStep(t: Terminal, w: nat, h: nat, i: nat)
    requires Fits(t, w, h)
    ensures 0 <= t.x && 0 < w
    ensures var u := PutOne(t, w, h, ' ');
            Fits(u, w, h) && 0 <= u.x
            && if i < 4 - t.x % 4
               then Tabbed(t, w, h, i) == Tabbed(u, w, h, i + 1) && TabCount(t.x, w, i) == 1 + TabCount(u.x, w, i + 1)
               else Tabbed(t, w, h, i) == t && TabCount(t.x, w, i) == 0
  {
  }

  lemma {:induction false} TabbedTypes(t: Terminal, w: nat, h: nat, i: nat)
    requires Fits(t, w, h)
    ensures 0 <= t.x && 0 < w && Tabbed(t, w, h, i) == Typed(t, w, h, Spaces(TabCount(t.x, w, i)))
    decreases 4 - i
  {
    TabStep(t, w, h, i);
    TypedNone(t, w, h);
    assert Spaces(0) == "";
    hide *;
    if i < 4 - t.x % 4 {
      var u := PutOne(t, w, h, ' ');
      TabbedTypes(u, w, h, i + 1);
      TypedSpaces(t, w, h, TabCount(u.x, w, i + 1));
    }
  }

  /** A tab is a run of at most 4 spaces; of as many as TabSpaces says if they fit in the row. */
  lemma TabIsSpaces(t: Terminal, w: nat, h: nat) returns (n: nat)
    requires Fits(t, w, h)
    ensures n <= 4 && Put(t, w, h, '\t') == Typed(t, w, h, Spaces(n))
    ensures t.x + TabSpaces(t.x) < w ==> n == TabSpaces(t.x)
  {
    n := TabCount(t.x, w, 0);
    TabbedTypes(t, w, h, 0);
    TabCountIs(t.x, w);
  }

  lemma {:induction false} TabbedColumn(t: Terminal, w: nat, h: nat, i: nat)
    requires Fits(t, w, h)
    ensures Tabbed(t, w, h, i).x == TabEnd(t.x, w, i)
    decreases 4 - i
  {
    if i < 4 - t.x % 4 {
      TabbedColumn(PutOne(t, w, h, ' '), w, h, i + 1);
    }
  }

  /** The tab stops the loop aims at, the multiples of 4, are reached only on a console one column
      wide: within a row a tab emits 2, 2, 1 or 3 spaces. */
  lemma TabReachesStopIff(t: Terminal, w: nat, h: nat)
    requires Fits(t, w, h)
    ensures Put(t, w, h, '\t').x % 4 == 0 <==> w == 1
    ensures t.x + TabSpaces(t.x) < w ==> Put(t, w, h, '\t').x == t.x + TabSpaces(t.x)
  {
    TabbedColumn(t, w, h, 0);
    TabEndIs(t.x, w);
    assert Put(t, w, h, '\t').x == TabEnd(t.x, w, 0);
    hide Put, TabEnd;
    NextColumn(t.x);
    NextColumn(t.x + 1);
    NextColumn(t.x + 2);
  }
}
