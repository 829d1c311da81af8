/** The console of kernel/arch/x64/io/tty.c: a ring of 30 lines and 25 rows of video memory, proved to
    show the unbounded terminal of module `TerminalSpec`. */
module Tty {
  import opened TerminalSpec

  const RING: nat := 30

  /** C's remainder, which takes the sign of the dividend. */
  function CRem(a: int, b: int): int
    requires b > 0
  {
    if a >= 0 then a % b else -((-a) % b)
  }

  /** Row `r` of the flat video memory. */
  function Row(video: seq<nat>, r: nat): Line
    requires |video| == WIDTH * HEIGHT && r < HEIGHT
  {
    video[WIDTH * r..WIDTH * r + WIDTH]
  }

  /** The video memory shows the terminal. */
  ghost predicate Shows(video: seq<nat>, t: Terminal) {
    |video| == WIDTH * HEIGHT && t.row < |t.lines| && forall r: nat | r < HEIGHT :: Row(video, r) == t.ScreenRow(r)
  }

  /** The slot that holds the line `k` lines above the current one. */
  function Slot(buffer_row: int, k: int): int {
    (buffer_row - k) % RING
  }

  lemma SlotSteps(b: int, k: nat)
    requires 0 <= b < RING && k < RING
    ensures Slot(b, 0) == b && 0 <= Slot(b, k) < RING
    ensures k > 0 ==> Slot(b, k) != b && (Slot(b, k) + 1) % RING == Slot(b, k - 1)
    ensures (var s := CRem(b - k, RING); if s < 0 then s + RING else s) == Slot(b, k)
  {
  }

  /** The ring holds the latest lines. */
  ghost predicate Keeps(ring: seq<Line>, buffer_row: int, t: Terminal) {
    && |ring| == RING && 0 <= buffer_row < RING
    && forall k: nat | k < RING && k < |t.lines| :: KeptAt(ring, buffer_row, t, k)
  }

  ghost predicate KeptAt(ring: seq<Line>, buffer_row: int, t: Terminal, k: nat) {
    |ring| == RING && k < |t.lines| && ring[Slot(buffer_row, k)] == t.lines[|t.lines| - 1 - k]
  }

  lemma RowUpdate(video: seq<nat>, r: nat, line: Line, q: nat)
    requires |video| == WIDTH * HEIGHT && r < HEIGHT && q < HEIGHT
    ensures var w := video[..WIDTH * r] + line + video[WIDTH * r + WIDTH..];
      |w| == |video| && Row(w, q) == if q == r then line else Row(video, q)
  {
  }

  lemma CellUpdate(video: seq<nat>, r: nat, col: nat, c: nat, q: nat)
    requires |video| == WIDTH * HEIGHT && r < HEIGHT && q < HEIGHT && col < WIDTH
    ensures Row(video[r * WIDTH + col := c], q) == if q == r then Row(video, r)[col := c] else Row(video, q)
  {
  }

  /** A character on the screen. */
  lemma CellShown(video: seq<nat>, t: Terminal, c: nat)
    requires t.Ok() && t.col < WIDTH && Shows(video, t)
    ensures t.row * WIDTH + t.col < |video|
    ensures Shows(video[t.row * WIDTH + t.col := Glyph(t.fg, t.bg, c)], t.Write(c))
  {
    var w := video[t.row * WIDTH + t.col := Glyph(t.fg, t.bg, c)];
    forall r: nat | r < HEIGHT
      ensures Row(w, r) == t.Write(c).ScreenRow(r)
    {
      CellUpdate(video, t.row, t.col, Glyph(t.fg, t.bg, c), r);
      assert Row(video, r) == t.ScreenRow(r);
    }
  }

  lemma SlotAfter(buffer_row: int, next: int, k: nat)
    requires next == (buffer_row + 1) % RING && 0 < k < RING
    ensures Slot(next, k) == Slot(buffer_row, k - 1) && Slot(next, k) != next && 0 <= Slot(next, k) < RING
  {
  }

  /** A new line takes the slot of the oldest one. */
  lemma KeepsNewLine(ring: seq<Line>, buffer_row: int, t: Terminal)
    requires Keeps(ring, buffer_row, t)
    ensures Keeps(ring[(buffer_row + 1) % RING := Blank()], (buffer_row + 1) % RING, t.NewLine())
  {
    var next := (buffer_row + 1) % RING;
    var ring', t' := ring[next := Blank()], t.NewLine();
    forall k: nat | k < RING && k < |t'.lines|
      ensures KeptAt(ring', next, t', k)
    {
      if k > 0 {
        assert KeptAt(ring, buffer_row, t, k - 1);
        SlotAfter(buffer_row, next, k);
      }
    }
  }

  lemma KeepsWrite(ring: seq<Line>, buffer_row: int, t: Terminal, c: nat)
    requires Keeps(ring, buffer_row, t) && |t.lines| > 0 && t.col < WIDTH
    ensures Keeps(ring[buffer_row := ring[buffer_row][t.col := Glyph(t.fg, t.bg, c)]], buffer_row, t.Write(c))
  {
    var ring', t' := ring[buffer_row := ring[buffer_row][t.col := Glyph(t.fg, t.bg, c)]], t.Write(c);
    assert KeptAt(ring, buffer_row, t, 0);
    forall k: nat | k < RING && k < |t'.lines|
      ensures KeptAt(ring', buffer_row, t', k)
    {
      assert KeptAt(ring, buffer_row, t, k);
      if k > 0 { assert Slot(buffer_row, k) != buffer_row; }
    }
  }

  class Tty {
    var row: int
    var col: int
    var width: int
    var height: int
    var buffer_row: int
    var buffer_height: int
    var tab: int
    var fg: nat
    var bg: nat
    const buffer: array<Line>
    const tty_buffer: array<nat>
    ghost var terminal: Terminal

    ghost predicate Settings()
      reads this, buffer, tty_buffer
    {
      && width == WIDTH && height == HEIGHT && buffer_height == RING
      && buffer.Length == RING && tty_buffer.Length == WIDTH * HEIGHT
      && buffer as object != tty_buffer as object
      && terminal.Ok() && row == terminal.row && col == terminal.col && tab == terminal.tab
      && fg == terminal.fg && bg == terminal.bg
      && Keeps(buffer[..], buffer_row, terminal)
    }

    /** The video memory shows `terminal`, and the ring holds its latest 30 lines. */
    ghost predicate Valid()
      reads this, buffer, tty_buffer
    {
      Settings() && Shows(tty_buffer[..], terminal)
    }

    /** `memset` of one row of video memory, or `memcpy` of one line to it. */
    method CopyToRow(r: int, line: Line)
      requires 0 <= r < HEIGHT && tty_buffer.Length == WIDTH * HEIGHT
      modifies tty_buffer
      ensures forall q: nat | q < HEIGHT ::
        Row(tty_buffer[..], q) == if q == r then line else Row(old(tty_buffer[..]), q)
    {
      forall k | 0 <= k < WIDTH {
        tty_buffer[WIDTH * r + k] := line[k];
      }

      ghost var w := old(tty_buffer[..]);
      assert tty_buffer[..] == w[..WIDTH * r] + line + w[WIDTH * r + WIDTH..];
      forall q: nat | q < HEIGHT { RowUpdate(w, r, line, q); }
    }

    /** Lines 20-24: the ring moves on to a blank line. */
    method BufferRowUp()
      requires buffer_height == RING == buffer.Length && Keeps(buffer[..], buffer_row, terminal)
      modifies this`buffer_row, buffer
      ensures buffer_row == (old(buffer_row) + 1) % RING
      ensures Keeps(buffer[..], buffer_row, terminal.NewLine())
    {
      KeepsNewLine(buffer[..], buffer_row, terminal);
      buffer_row := (buffer_row + 1) % buffer_height;
      buffer[buffer_row] := Blank();
      assert buffer[..] == old(buffer[..])[buffer_row := Blank()];
    }

    /** Lines 34-46: the 24 lines above the new one are copied to the screen. The loop runs from the
        slot of the topmost line until it meets the current one. */
    method Scroll()
      requires width == WIDTH && height == HEIGHT && buffer_height == RING == buffer.Length
      requires tty_buffer.Length == WIDTH * HEIGHT && buffer as object != tty_buffer as object
      requires terminal.row == HEIGHT - 1 && |terminal.lines| > HEIGHT && Keeps(buffer[..], buffer_row, terminal)
      requires terminal.lines[|terminal.lines| - 1] == Blank()
      modifies tty_buffer
      ensures Shows(tty_buffer[..], terminal)
    {
      SlotSteps(buffer_row, HEIGHT - 1);
      var start_line := CRem(buffer_row - height + 1, buffer_height);
      if start_line < 0 {
        start_line := start_line + buffer_height;
      }
      var r := 0;
      var i := start_line;
      while i != buffer_row
        invariant 0 <= r < HEIGHT && i == Slot(buffer_row, HEIGHT - 1 - r)
        invariant forall q: nat | q < r :: Row(tty_buffer[..], q) == terminal.ScreenRow(q)
        decreases HEIGHT - r
      {
        SlotSteps(buffer_row, HEIGHT - 1 - r);
        CopyLine(r, i);
        r := r + 1;
        i := (i + 1) % buffer_height;
      }
      SlotSteps(buffer_row, HEIGHT - 1 - r);
      CopyToRow(r, Blank());
    }

    /** One copy of the scroll loop: ring line `i` is what row `r` shows. */
    method CopyLine(r: int, i: int)
      requires buffer.Length == RING && tty_buffer.Length == WIDTH * HEIGHT && buffer as object != tty_buffer as object
      requires terminal.row == HEIGHT - 1 && |terminal.lines| > HEIGHT && Keeps(buffer[..], buffer_row, terminal)
      requires 0 <= r < HEIGHT - 1 && i == Slot(buffer_row, HEIGHT - 1 - r) && 0 <= i < RING
      requires forall q: nat | q < r :: Row(tty_buffer[..], q) == terminal.ScreenRow(q)
      modifies tty_buffer
      ensures forall q: nat | q < r + 1 :: Row(tty_buffer[..], q) == terminal.ScreenRow(q)
    {
      assert KeptAt(buffer[..], buffer_row, terminal, HEIGHT - 1 - r);
      CopyToRow(r, buffer[i]);
    }

    /** Lines 26-47. */
    method LineUp()
      requires Valid()
      modifies this`row, this`buffer_row, this`terminal, buffer, tty_buffer
      ensures Valid() && terminal == old(terminal).NewLine()
    {
      BufferRowUp();
      terminal := terminal.NewLine();
      if row < height - 1 {
        row := row + 1;
        forall r: nat | r < HEIGHT
          ensures Row(tty_buffer[..], r) == terminal.ScreenRow(r)
        {
          assert Row(old(tty_buffer[..]), r) == old(terminal).ScreenRow(r);
        }
        return;
      }
      Scroll();
    }

    /** Lines 49-67. */
    method SpecialChar(c: nat)
      requires Valid()
      modifies this`row, this`col, this`buffer_row, this`terminal, buffer, tty_buffer
      ensures Valid() && terminal == old(terminal).Control(c)
    {
      PutCharOk(terminal, 9);
      if c == 10 {
        LineUp();
      }
      if c == 10 || c == 13 {
        SetColumn(0);
      } else if c == 9 {
        var stop := col + (tab - col % tab);
        if stop + 1 > width {
          SetColumn(stop % width);
          LineUp();
        } else {
          SetColumn(stop);
        }
      }
    }

    method SetColumn(c: nat)
      requires Valid() && c <= WIDTH
      modifies this`col, this`terminal
      ensures Valid() && terminal == old(terminal).(col := c)
    {
      col := c;
      terminal := terminal.(col := c);
      SameScreen(old(terminal));
    }

    /** Lines 75-78. */
    method WriteCell(c: nat)
      requires Valid() && col < WIDTH
      modifies this`col, this`terminal, buffer, tty_buffer
      ensures Valid() && terminal == old(terminal).Write(c)
    {
      var ch := Glyph(fg, bg, c);
      KeepsWrite(buffer[..], buffer_row, terminal, c);
      assert KeptAt(buffer[..], buffer_row, terminal, 0);
      assert Row(tty_buffer[..], row) == terminal.ScreenRow(row);
      tty_buffer[row * width + col] := ch;
      buffer[buffer_row] := buffer[buffer_row][col := ch];
      col := col + 1;
      terminal := terminal.Write(c);
      assert tty_buffer[..] == old(tty_buffer[..])[old(row) * WIDTH + old(col) := ch];
      assert buffer[..] == old(buffer[..])[buffer_row := old(buffer[buffer_row])[old(col) := ch]];
      CellShown(old(tty_buffer[..]), old(terminal), c);
    }

    /** Lines 69-79. */
    method PutCharacter(c: nat)
      requires Valid()
      modifies this`row, this`col, this`buffer_row, this`terminal, buffer, tty_buffer
      ensures Valid() && terminal == old(terminal).Put(c)
    {
      if col == width {
        LineUp();
        SetColumn(0);
      }
      WriteCell(c);
    }

    /** `tty_putchar` (lines 97-110). */
    method PutChar(c: nat)
      requires Valid()
      modifies this`row, this`col, this`buffer_row, this`terminal, buffer, tty_buffer
      ensures Valid() && terminal == old(terminal).PutChar(c)
    {
      if c > 0xff {
        return;
      }
      if c < 0x20 {
        SpecialChar(c);
      } else {
        PutCharacter(c);
      }
    }

    /** `tty_putstring` (lines 118-124), for the bytes before the terminating zero. */
    method PutString(s: seq<nat>)
      requires Valid()
      modifies this`row, this`col, this`buffer_row, this`terminal, buffer, tty_buffer
      ensures Valid() && terminal == Written(old(terminal), PromotedAll(s))
    {
      ghost var all := PromotedAll(s);
      var i := 0;
      while i < |s|
        invariant 0 <= i <= |s| && Valid() && terminal == Written(old(terminal), all[..i])
      {
        PutChar(Promoted(s[i]));
        assert all[..i + 1][..i] == all[..i];
        i := i + 1;
      }
      assert all[..|s|] == all;
    }

    /** `tty_clear` (lines 133-140): a blank screen, the cursor home, the ring one line further on. */
    method Clear()
      requires Settings()
      modifies this`row, this`col, this`buffer_row, this`terminal, buffer, tty_buffer
      ensures Valid() && terminal == old(terminal).Clear()
      ensures row == 0 && col == 0 && forall i | 0 <= i < tty_buffer.Length :: tty_buffer[i] == 0
      ensures buffer_row == (old(buffer_row) + 1) % RING
      ensures terminal.lines[..|old(terminal).lines|] == old(terminal).lines
    {
      BufferRowUp();
      ghost var ring := buffer[..];
      forall i | 0 <= i < tty_buffer.Length {
        tty_buffer[i] := 0;
      }
      assert buffer[..] == ring;
      col := 0;
      row := 0;
      terminal := terminal.Clear();
      forall k: nat | k < RING && k < |terminal.lines|
        ensures KeptAt(buffer[..], buffer_row, terminal, k)
      {
        assert KeptAt(buffer[..], buffer_row, old(terminal).NewLine(), k);
      }
      forall r: nat | r < HEIGHT
        ensures Row(tty_buffer[..], r) == terminal.ScreenRow(r)
      {
      }
    }

    /** `tty_initialize` (lines 81-95): the screen of a terminal with one blank line before the
        current one, whatever the video memory held. */
    constructor (video: array<nat>, white: nat, black: nat)
      requires video.Length == WIDTH * HEIGHT && white < COLOURS && black < COLOURS
      modifies video
      ensures Valid() && tty_buffer == video && fresh(buffer)
      ensures terminal == Terminal([Blank(), Blank()], 0, 0, 8, white, black)
    {
      row, col := 0, 0;
      buffer_row := 0;
      buffer_height := 30;
      width := 80;
      height := 25;
      tab := 8;
      fg, bg := white, black;
      buffer := new Line[RING](_ => Blank());
      tty_buffer := video;
      terminal := Terminal([Blank()], 0, 0, 8, white, black);
      new;
      assert KeptAt(buffer[..], buffer_row, terminal, 0);
      Clear();
    }

    /** `tty_set_tab_size` (lines 126-131). */
    method SetTabSize(size: int)
      requires Valid()
      modifies this`tab, this`terminal
      ensures Valid() && terminal == old(terminal).(tab := if 0 < size < WIDTH then size else old(terminal).tab)
    {
      if size > 0 && size < width {
        tab := size;
        terminal := terminal.(tab := size);
        SameScreen(old(terminal));
      }
    }

    /** `tty_set_color` (lines 112-116). */
    method SetColor(foreground: nat, background: nat)
      requires Valid() && foreground < COLOURS && background < COLOURS
      modifies this`fg, this`bg, this`terminal
      ensures Valid() && terminal == old(terminal).(fg := foreground, bg := background)
    {
      fg := foreground;
      bg := background;
      terminal := terminal.(fg := foreground, bg := background);
      SameScreen(old(terminal));
    }

    /** Colours, tab size and column are not part of what is shown. */
    lemma SameScreen(t: Terminal)
      requires t.lines == terminal.lines && t.row == terminal.row && tty_buffer.Length == WIDTH * HEIGHT
      requires Shows(tty_buffer[..], t) && Keeps(buffer[..], buffer_row, t)
      ensures Shows(tty_buffer[..], terminal) && Keeps(buffer[..], buffer_row, terminal)
    {
      forall r: nat | r < HEIGHT
        ensures Row(tty_buffer[..], r) == terminal.ScreenRow(r)
      {
        assert Row(tty_buffer[..], r) == t.ScreenRow(r);
      }
      forall k: nat | k < RING && k < |terminal.lines|
        ensures KeptAt(buffer[..], buffer_row, terminal, k)
      {
        assert KeptAt(buffer[..], buffer_row, t, k);
      }
    }

    /** The rows at or above the cursor agree with the ring, counted back from the current slot; the
        rows below are blank. */
    lemma ScreenIsRing(r: nat)
      requires Valid() && r < HEIGHT
      ensures Row(tty_buffer[..], r) == if r <= row then buffer[(buffer_row - row + r) % RING] else Blank()
    {
      assert Row(tty_buffer[..], r) == terminal.ScreenRow(r);
      if r <= row {
        assert KeptAt(buffer[..], buffer_row, terminal, row - r);
      }
    }
  }
}
