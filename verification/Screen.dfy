/** The text screen (screen.c:38-137): a window of 25 rows that slides down an unbounded page. */
module Screen {
  import opened Memory

  const WIDTH := 80
  const HEIGHT := 25
  /** A space, white on black. */
  const BLANK: nat := 0x0F20
  /** Green on black. */
  const GREEN: nat := 0x0200

  /** The page the text would make on endless paper. Cell k stands in row k / WIDTH; a cell without ink is blank. */
  datatype Page = Page(ink: map<nat, nat>, x: nat, y: nat)

  const EMPTY: Page := Page(map[], 0, 0)

  function CellAt(p: Page, k: nat): nat
  {
    if k in p.ink then p.ink[k] else BLANK
  }

  /** What one character does to the page before the cursor wraps. The type char is signed, so bytes from 0x80 on
      compare below a space and do nothing. */
  function Typed(p: Page, c: Byte): Page
  {
    if c == 8 && p.x > 0 then p.(x := p.x - 1)
    else if c == 9 then p.(x := (p.x / 8 + 1) * 8)
    else if c == 13 then p.(x := 0)
    else if c == 10 then p.(x := 0, y := p.y + 1)
    else if 32 <= c < 128 then p.(ink := p.ink[WIDTH * p.y + p.x := GREEN + c as nat], x := p.x + 1)
    else p
  }

  function Wrapped(p: Page): Page
  {
    if p.x >= WIDTH then p.(x := 0, y := p.y + 1) else p
  }

  function Put(p: Page, c: Byte): Page
  {
    Wrapped(Typed(p, c))
  }

  function Render(p: Page, s: seq<Byte>): Page
    decreases |s|
  {
    if |s| == 0 then p else Render(Put(p, s[0]), s[1..])
  }

  /** The row of the page at the top of the screen. */
  function Top(p: Page): nat
  {
    if p.y < HEIGHT then 0 else p.y - (HEIGHT - 1)
  }

  /** The last rows of the page, down to the cursor's, filled up with the rows below it on a short page. */
  function Window(p: Page): (w: seq<nat>)
    ensures |w| == WIDTH * HEIGHT
    ensures forall k | 0 <= k < |w| :: w[k] == CellAt(p, WIDTH * Top(p) + k)
  {
    seq<nat>(WIDTH * HEIGHT, k requires k >= 0 => CellAt(p, WIDTH * Top(p) + k))
  }

  /** No ink below the window or beside the page. */
  predicate Proper(p: Page)
  {
    p.x < WIDTH && forall k <- p.ink :: k < WIDTH * (Top(p) + HEIGHT)
  }

  /** No ink below the cursor's row. */
  predicate NothingBelow(p: Page)
  {
    forall k <- p.ink :: k < WIDTH * (p.y + 1)
  }

  // ---- the page

  lemma PutProper(p: Page, c: Byte)
    requires Proper(p)
    ensures Proper(Put(p, c)) && p.y <= Put(p, c).y <= p.y + 1
    ensures NothingBelow(p) ==> NothingBelow(Put(p, c))
  {
  }

  lemma {:induction false} RenderProper(p: Page, s: seq<Byte>)
    requires Proper(p)
    ensures Proper(Render(p, s)) && p.y <= Render(p, s).y
    ensures NothingBelow(p) ==> NothingBelow(Render(p, s))
    decreases |s|
  {
    hide Put, Proper, NothingBelow;
    if |s| > 0 {
      PutProper(p, s[0]);
      RenderProper(Put(p, s[0]), s[1..]);
    }
  }

  /** Text written in two parts makes the same page. */
  lemma {:induction false} RenderJoin(p: Page, s: seq<Byte>, t: seq<Byte>)
    ensures Render(p, s + t) == Render(Render(p, s), t)
    decreases |s|
  {
    hide Put;
    if |s| == 0 {
      assert s + t == t;
    } else {
      assert (s + t)[1..] == s[1..] + t;
      RenderJoin(Put(p, s[0]), s[1..], t);
    }
  }

  /** Rows the cursor has left are never written again. */
  lemma {:induction false} LeftRowsStay(p: Page, s: seq<Byte>, k: nat)
    requires Proper(p) && k < WIDTH * p.y
    ensures CellAt(Render(p, s), k) == CellAt(p, k)
    decreases |s|
  {
    hide Proper;
    if |s| > 0 {
      PutProper(p, s[0]);
      LeftRowsStay(Put(p, s[0]), s[1..], k);
    }
  }

  predicate Printable(s: seq<Byte>)
  {
    forall i | 0 <= i < |s| :: 32 <= s[i] < 128
  }

  /** Printable text fills the cells from the cursor on one after the other, over as many rows as it takes. */
  lemma {:induction false} TextRunsOn(p: Page, s: seq<Byte>, k: nat)
    requires Proper(p) && Printable(s)
    ensures var start := WIDTH * p.y + p.x;
            && WIDTH * Render(p, s).y + Render(p, s).x == start + |s|
            && CellAt(Render(p, s), k) == if start <= k < start + |s| then GREEN + s[k - start] as nat else CellAt(p, k)
    decreases |s|
  {
    hide Proper;
    if |s| > 0 {
      PutProper(p, s[0]);
      OneCell(p, s[0]);
      TextRunsOn(Put(p, s[0]), s[1..], k);
    }
  }

  lemma OneCell(p: Page, c: Byte)
    requires Proper(p) && 32 <= c < 128
    ensures var q := Put(p, c);
            && q.ink == p.ink[WIDTH * p.y + p.x := GREEN + c as nat]
            && WIDTH * q.y + q.x == WIDTH * p.y + p.x + 1
  {
  }

  /** What the other characters do on any page: none changes a cell. A newline leads to the start of the next row, a
      return to the start of the row, a tab to the next multiple of 8, on the next row if that is column 80, and a
      backspace one column to the left; the rest do nothing. */
  lemma ControlMeans(p: Page, c: Byte, t: nat)
    requires Proper(p) && !(32 <= c < 128) && p.x < t <= p.x + 8 && t % 8 == 0
    ensures var q := Render(p, [c]);
            && q.ink == p.ink
            && (c == 10 ==> q.x == 0 && q.y == p.y + 1)
            && (c == 13 ==> q.x == 0 && q.y == p.y)
            && (c == 9 ==> if t < 80 then q.x == t && q.y == p.y else q.x == 0 && q.y == p.y + 1)
            && (c == 8 ==> q.x == (if p.x == 0 then 0 else p.x - 1) && q.y == p.y)
            && (c !in {8, 9, 10, 13} ==> q == p)
  {
    OneCharacter(p, c);
  }

  lemma OneCharacter(p: Page, c: Byte)
    ensures Render(p, [c]) == Put(p, c)
  {
    hide Put;
    assert [c][1..] == [];
  }

  /** Each line followed by a newline. */
  function Lines(lines: seq<seq<Byte>>): seq<Byte>
  {
    if |lines| == 0 then [] else lines[0] + [10] + Lines(lines[1..])
  }

  predicate ShortLines(lines: seq<seq<Byte>>)
  {
    forall i | 0 <= i < |lines| :: Printable(lines[i]) && |lines[i]| < 80
  }

  /** Lines shorter than a row stand from column 0 on in consecutive rows. */
  lemma {:induction false} LinesInRows(p: Page, lines: seq<seq<Byte>>, row: nat, column: nat)
    requires Proper(p) && p.x == 0 && ShortLines(lines) && column < 80
    ensures var q := Render(p, Lines(lines));
            && q.x == 0 && q.y == p.y + |lines|
            && CellAt(q, 80 * row + column)
               == if p.y <= row < p.y + |lines| && column < |lines[row - p.y]|
                  then 0x0200 + lines[row - p.y][column] as nat else CellAt(p, 80 * row + column)
    decreases |lines|
  {
    hide Proper, CellAt, Put, Render, Lines;
    LinesUnfold(lines);
    RenderNothing(p);
    if |lines| > 0 {
      var q := OneLine(p, lines[0], row, column);
      RenderJoin(p, lines[0] + [10], Lines(lines[1..]));
      LinesInRows(q, lines[1..], row, column);
    }
  }

  lemma LinesUnfold(lines: seq<seq<Byte>>)
    ensures Lines(lines) == if |lines| == 0 then [] else lines[0] + [10] + Lines(lines[1..])
  {
  }

  lemma RenderNothing(p: Page)
    ensures Render(p, []) == p
  {
  }

  lemma OneLine(p: Page, line: seq<Byte>, row: nat, column: nat) returns (q: Page)
    requires Proper(p) && p.x == 0 && Printable(line) && |line| < 80 && column < 80
    ensures q == Render(p, line + [10]) && Proper(q) && q.x == 0 && q.y == p.y + 1
    ensures CellAt(q, 80 * row + column)
            == if row == p.y && column < |line| then 0x0200 + line[column] as nat else CellAt(p, 80 * row + column)
  {
    hide Proper, CellAt, Render, Put;
    var q1 := Render(p, line);
    q := Render(q1, [10]);
    RenderJoin(p, line, [10]);
    TextRunsOn(p, line, 80 * row + column);
    RenderProper(p, line);
    RowOf(q1, p.y, |line|);
    ControlMeans(q1, 10, q1.x / 8 * 8 + 8);
    RenderProper(q1, [10]);
    SameInk(q1, q, 80 * row + column);
  }

  lemma RowOf(q: Page, y: nat, x: nat)
    requires Proper(q) && WIDTH * q.y + q.x == WIDTH * y + x && x < WIDTH
    ensures q.x == x && q.y == y
  {
  }

  lemma SameInk(p: Page, q: Page, k: nat)
    requires p.ink == q.ink
    ensures CellAt(p, k) == CellAt(q, k)
  {
  }

  /** So a screen cleared and then written with such lines shows the last 24 of them, the latest in the row above the
      cursor. */
  lemma LastLinesShown(lines: seq<seq<Byte>>, row: nat, column: nat)
    requires ShortLines(lines) && row < 25 && column < 80
    ensures var n := row + if |lines| < 25 then 0 else |lines| - 24;
            Window(Render(EMPTY, Lines(lines)))[80 * row + column]
            == if n < |lines| && column < |lines[n]| then 0x0200 + lines[n][column] as nat else 0x0F20
  {
    var top := if |lines| < 25 then 0 else |lines| - 24;
    LinesInRows(EMPTY, lines, top + row, column);
  }

  /** Under a page with nothing below the cursor, the rows of the screen below the cursor are blank. */
  lemma BlankBelowCursor(p: Page, k: nat)
    requires NothingBelow(p) && WIDTH * (p.y - Top(p) + 1) <= k < WIDTH * HEIGHT
    ensures Window(p)[k] == BLANK
  {
  }

  // ---- the screen

  function Blanks(n: nat): (s: seq<nat>)
    ensures |s| == n && forall k | 0 <= k < n :: s[k] == BLANK
  {
    seq<nat>(n, k => BLANK)
  }

  /** One row up, and a blank row at the bottom. */
  function Scrolled(s: seq<nat>): (t: seq<nat>)
    requires |s| == WIDTH * HEIGHT
    ensures |t| == |s|
  {
    s[WIDTH..] + Blanks(WIDTH)
  }

  lemma ScrolledMeans(s: seq<nat>)
    requires |s| == WIDTH * HEIGHT
    ensures Scrolled(s) == s[80..] + seq(80, _ => 0x0F20)
  {
    assert Blanks(WIDTH) == seq(80, _ => 0x0F20);
  }

  /** Ink at the cursor changes the one cell of the window where the cursor is. */
  lemma InkedWindow(p: Page, v: nat)
    requires Proper(p)
    ensures var at := WIDTH * (p.y - Top(p)) + p.x;
            && Proper(p.(ink := p.ink[WIDTH * p.y + p.x := v])) && at < WIDTH * HEIGHT
            && Window(p.(ink := p.ink[WIDTH * p.y + p.x := v])) == Window(p)[at := v]
  {
  }

  /** A step to the next row moves the window only from the last row, and then by one row. */
  lemma NextRowWindow(p: Page, x: nat)
    requires Proper(p)
    ensures var q := p.(x := x, y := p.y + 1);
            && p.y - Top(p) < HEIGHT
            && (p.y - Top(p) < HEIGHT - 1 ==> Window(q) == Window(p) && q.y - Top(q) == p.y - Top(p) + 1)
            && (p.y - Top(p) == HEIGHT - 1 ==> Window(q) == Scrolled(Window(p)) && q.y - Top(q) == HEIGHT - 1)
  {
    var q := p.(x := x, y := p.y + 1);
    if p.y - Top(p) == HEIGHT - 1 {
      forall k: nat | k < WIDTH * HEIGHT
        ensures Window(q)[k] == Scrolled(Window(p))[k]
      {
        if k < WIDTH * (HEIGHT - 1) {
          assert Scrolled(Window(p))[k] == Window(p)[k + WIDTH];
        }
      }
    }
  }

  lemma SameWindow(p: Page, x: nat)
    ensures Window(p.(x := x)) == Window(p)
  {
  }

  /** What one character changes in the window. */
  lemma PutWindow(p: Page, c: Byte)
    requires Proper(p)
    ensures var q, row := Put(p, c), p.y - Top(p);
            var w := if 32 <= c < 128 then Window(p)[WIDTH * row + p.x := GREEN + c as nat] else Window(p);
            && row < HEIGHT && p.x < WIDTH && p.y <= q.y <= p.y + 1 && Proper(q)
            && (q.y == p.y ==> Window(q) == w && q.y - Top(q) == row)
            && (q.y == p.y + 1 && row < HEIGHT - 1 ==> Window(q) == w && q.y - Top(q) == row + 1)
            && (q.y == p.y + 1 && row == HEIGHT - 1 ==> Window(q) == Scrolled(w) && q.y - Top(q) == row)
  {
    hide Window, Scrolled;
    var inked := if 32 <= c < 128 then p.(ink := p.ink[WIDTH * p.y + p.x := GREEN + c as nat]) else p;
    PutProper(p, c);
    InkedWindow(p, GREEN + c as nat);
    assert Put(p, c) == inked.(x := Put(p, c).x, y := Put(p, c).y);
    SameWindow(inked, Put(p, c).x);
    NextRowWindow(inked, Put(p, c).x);
  }

  /** The page a screen shows when nothing is known of the text before: all its cells count as ink. */
  function PageOf(cells: seq<nat>, x: nat, y: nat): Page
  {
    Page(map k: nat | k < |cells| :: cells[k], x, y)
  }

  lemma EveryScreenIsAWindow(cells: seq<nat>, x: nat, y: nat)
    requires |cells| == WIDTH * HEIGHT && x < WIDTH && y < HEIGHT
    ensures Proper(PageOf(cells, x, y)) && Window(PageOf(cells, x, y)) == cells
  {
  }

  class Terminal {
    const cells: array<nat>
    var x: nat
    var y: nat

    ghost predicate Shows(p: Page)
      reads this, cells
    {
      && cells.Length == WIDTH * HEIGHT && Proper(p)
      && cells[..] == Window(p) && x == p.x && y == p.y - Top(p)
    }

    method Scroll()
      requires cells.Length == WIDTH * HEIGHT
      modifies this`y, cells
      ensures old(y) < HEIGHT ==> y == old(y) && cells[..] == old(cells[..])
      ensures old(y) >= HEIGHT ==> y == HEIGHT - 1 && cells[..] == Scrolled(old(cells[..]))
    {
      if y >= HEIGHT {
        ghost var was := cells[..];
        var i := 0;
        while i < WIDTH * (HEIGHT - 1)
          invariant 0 <= i <= WIDTH * (HEIGHT - 1)
          invariant forall k | 0 <= k < i :: cells[k] == was[k + WIDTH]
          invariant forall k | i <= k < cells.Length :: cells[k] == was[k]
        {
          cells[i] := cells[i + WIDTH];
          i := i + 1;
        }
        i := WIDTH * (HEIGHT - 1);
        while i < WIDTH * HEIGHT
          invariant WIDTH * (HEIGHT - 1) <= i <= WIDTH * HEIGHT
          invariant forall k | 0 <= k < WIDTH * (HEIGHT - 1) :: cells[k] == was[k + WIDTH]
          invariant forall k | WIDTH * (HEIGHT - 1) <= k < i :: cells[k] == BLANK
        {
          cells[i] := BLANK;
          i := i + 1;
        }
        y := HEIGHT - 1;
      }
    }

    /** One character: whatever page the screen shows a window of, it shows the window of that page with the
        character put on it. */
    method Putch(c: Byte, ghost p: Page)
      requires Shows(p)
      modifies this, cells
      ensures Shows(Render(p, [c]))
      ensures var printable := 32 <= c < 128;
              var down := c == 10 || (c == 9 && old(x) >= 72) || (printable && old(x) == 79);
              var was := old(cells[..]);
              var inked := if printable then was[80 * old(y) + old(x) := 0x0200 + c as nat] else was;
              && y == (if down && old(y) < 24 then old(y) + 1 else old(y))
              && cells[..] == (if down && old(y) == 24 then inked[80..] + seq(80, _ => 0x0F20) else inked)
              && (down || c == 13 ==> x == 0)
              && (c == 9 && !down ==> old(x) < x <= old(x) + 8 && x % 8 == 0)
              && (c == 8 ==> x == if old(x) == 0 then 0 else old(x) - 1)
              && (printable && !down ==> x == old(x) + 1)
              && (!printable && c !in {8, 9, 10, 13} ==> x == old(x))
    {
      hide Window, Proper, Top, Scrolled, Blanks, Render;
      PutWindow(p, c);
      OneCharacter(p, c);
      if c == 8 && x > 0 {
        x := x - 1;
      } else if c == 9 {
        x := (x / 8 + 1) * 8;
      } else if c == 13 {
        x := 0;
      } else if c == 10 {
        x := 0;
        y := y + 1;
      } else if 32 <= c < 128 {
        cells[x + WIDTH * y] := GREEN + c as nat;
        x := x + 1;
      }
      if x >= WIDTH {
        x := 0;
        y := y + 1;
      }
      ghost var inked := cells[..];
      ScrolledMeans(inked);
      Scroll();
    }

    method Cls()
      requires cells.Length == WIDTH * HEIGHT
      modifies this, cells
      ensures Shows(EMPTY)
      ensures x == 0 && y == 0 && forall k | 0 <= k < 80 * 25 :: cells[k] == 0x0F20
    {
      var i := 0;
      while i < WIDTH * HEIGHT
        invariant 0 <= i <= WIDTH * HEIGHT
        invariant forall k | 0 <= k < i :: cells[k] == BLANK
      {
        cells[i] := BLANK;
        i := i + 1;
      }
      x, y := 0, 0;
    }

    /** The screen after a string is the window of the page after the string; the cursor stays inside it. */
    method ScreenWrite(s: seq<Byte>, ghost p: Page)
      requires Shows(p) && 0 !in s
      modifies this, cells
      ensures Shows(Render(p, s)) && x < WIDTH && y < HEIGHT
    {
      var i := 0;
      assert s[..0] == [];
      while i < |s| && s[i] != 0
        invariant 0 <= i <= |s| && Shows(Render(p, s[..i]))
      {
        ghost var before := Render(p, s[..i]);
        Putch(s[i], before);
        assert s[..i + 1] == s[..i] + [s[i]];
        RenderJoin(p, s[..i], [s[i]]);
        i := i + 1;
      }
      assert s[..i] == s;
    }
  }
}
