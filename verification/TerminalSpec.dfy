/** The console as an unbounded terminal: every line ever started, the last one being written. */
module TerminalSpec {
  import Bits

  const WIDTH: nat := 80
  const HEIGHT: nat := 25

  /** The number of colours. */
  const COLOURS: nat := 16

  /** A character with its colours, as a 16-bit word (line 75 of tty.c). The fields do not overlap, so the
      sum is what the code computes with `|`. */
  function Glyph(fg: nat, bg: nat, c: nat): nat {
    c + 0x100 * fg + 0x1000 * bg
  }

  lemma GlyphFields(fg: nat, bg: nat, c: nat)
    requires fg < COLOURS && bg < COLOURS && c <= 0xff
    ensures var g := Glyph(fg, bg, c); g % 0x100 == c && g / 0x100 % 0x10 == fg && g / 0x1000 == bg && g < 0x1_0000
  {
  }

  type Line = s: seq<nat> | |s| == WIDTH witness seq(WIDTH, _ => 0)

  function Blank(): Line {
    seq(WIDTH, _ => 0)
  }

  datatype Terminal = Terminal(lines: seq<Line>, row: nat, col: nat, tab: nat, fg: nat, bg: nat) {

    ghost predicate Ok() {
      && row < HEIGHT && row < |lines| && col <= WIDTH
      && 1 <= tab < WIDTH && fg < COLOURS && bg < COLOURS
    }

    function NewLine(): Terminal {
      this.(lines := lines + [Blank()], row := if row < HEIGHT - 1 then row + 1 else row)
    }

    function Put(c: nat): Terminal
      requires |lines| > 0 && col <= WIDTH
    {
      if col == WIDTH then NewLine().(col := 0).Write(c) else Write(c)
    }

    function Write(c: nat): Terminal
      requires |lines| > 0 && col < WIDTH
    {
      var last := |lines| - 1;
      this.(lines := lines[last := lines[last][col := Glyph(fg, bg, c)]], col := col + 1)
    }

    /** Control characters: newline, carriage return and tab; the others do nothing. */
    function Control(c: nat): Terminal
      requires tab > 0
    {
      if c == 10 then NewLine().(col := 0)
      else if c == 13 then this.(col := 0)
      else if c == 9 then
        var stop := col + (tab - col % tab);
        if stop + 1 > WIDTH then NewLine().(col := stop % WIDTH) else this.(col := stop)
      else this
    }

    /** What `tty_putchar` does: characters above 0xff are ignored. */
    function PutChar(c: nat): Terminal
      requires Ok()
    {
      if c > 0xff then this else if c < 0x20 then Control(c) else Put(c)
    }

    function Clear(): Terminal {
      this.(lines := lines + [Blank()], row := 0, col := 0)
    }

    /** What row `r` of the screen shows: the lines up to the current one, and nothing below. */
    function ScreenRow(r: nat): Line
      requires row < |lines|
    {
      if r <= row then lines[|lines| - 1 - row + r] else Blank()
    }
  }

  lemma PutCharOk(t: Terminal, c: nat)
    requires t.Ok()
    ensures t.PutChar(c).Ok()
    ensures |t.lines| <= |t.PutChar(c).lines|
    ensures forall i | 0 <= i < |t.lines| - 1 :: t.PutChar(c).lines[i] == t.lines[i]
  {
    if c == 9 {
      var stop := t.col + (t.tab - t.col % t.tab);
      assert 0 < t.tab - t.col % t.tab <= t.tab;
    }
  }

  function Written(t: Terminal, s: seq<nat>): (r: Terminal)
    requires t.Ok()
    ensures r.Ok()
  {
    if s == [] then t else
    PutCharOk(Written(t, s[..|s| - 1]), s[|s| - 1]);
    Written(t, s[..|s| - 1]).PutChar(s[|s| - 1])
  }

  /** A byte of a string as `tty_putchar` gets it: `char` is signed and the parameter is not. */
  function Promoted(c: nat): nat {
    if c < 0x80 then c else c + 0xffff_ff00
  }

  function PromotedAll(s: seq<nat>): seq<nat> {
    seq(|s|, i requires 0 <= i < |s| => Promoted(s[i]))
  }

  predicate Ascii(c: nat) {
    c < 0x80
  }

  function OnlyAscii(s: seq<nat>): seq<nat> {
    if s == [] then [] else OnlyAscii(s[..|s| - 1]) + if Ascii(s[|s| - 1]) then [s[|s| - 1]] else []
  }

  /** A string leaves what its ASCII characters leave: `tty_putchar` ignores the others. */
  lemma {:induction false} StringIsAscii(t: Terminal, s: seq<nat>)
    requires t.Ok() && forall i | 0 <= i < |s| :: s[i] <= 0xff
    ensures Written(t, PromotedAll(s)) == Written(t, OnlyAscii(s))
  {
    if s != [] {
      var n := |s| - 1;
      StringIsAscii(t, s[..n]);
      assert PromotedAll(s)[..n] == PromotedAll(s[..n]);
      var u, v := OnlyAscii(s[..n]), OnlyAscii(s);
      assert PromotedAll(s)[n] == Promoted(s[n]);
      if Ascii(s[n]) {
        assert v == u + [s[n]];
        assert v[..|v| - 1] == u;
      } else {
        assert v == u;
      }
    }
  }

  /** `r` is the terminal `t` with the text `s` laid out from the start of its current line. */
  ghost predicate Laid(t: Terminal, s: seq<nat>, r: Terminal) {
    var first := |t.lines| - 1;
    && s != [] && first >= 0
    && |r.lines| == first + (|s| - 1) / WIDTH + 1
    && r.col == (|s| - 1) % WIDTH + 1
    && r.fg == t.fg && r.bg == t.bg
    && (forall i | 0 <= i < first :: r.lines[i] == t.lines[i])
    && (forall j | 0 <= j < |s| :: At(r, first, j) == Glyph(t.fg, t.bg, s[j]))
  }

  /** The `j`-th character position counted from the start of line `first`. */
  function At(r: Terminal, first: int, j: nat): nat {
    if 0 <= first + j / WIDTH < |r.lines| then r.lines[first + j / WIDTH][j % WIDTH] else 0
  }

  lemma LaidStep(t: Terminal, s: seq<nat>, r: Terminal, c: nat)
    requires Laid(t, s, r) && 0x20 <= c <= 0xff && r.Ok()
    ensures Laid(t, s + [c], r.PutChar(c))
  {
    var first, n, q := |t.lines| - 1, |s|, r.PutChar(c);
    assert q == r.Put(c);
    assert r.col == WIDTH <==> n % WIDTH == 0;
    assert q.lines[first + n / WIDTH][n % WIDTH] == Glyph(t.fg, t.bg, c);
    forall j | 0 <= j < n
      ensures At(q, first, j) == At(r, first, j)
    {
    }
  }

  /** Text layout: printable characters written from the start of a line fill it and the following
      ones, `WIDTH` to a line, and disturb no earlier line. */
  lemma {:induction false} TextWraps(t: Terminal, s: seq<nat>)
    requires t.Ok() && t.col == 0 && s != []
    requires forall i | 0 <= i < |s| :: 0x20 <= s[i] <= 0xff
    ensures Laid(t, s, Written(t, s))
  {
    var n := |s| - 1;
    var p := s[..n];
    if n == 0 {
      assert Written(t, p) == t;
    } else {
      TextWraps(t, p);
      assert p + [s[n]] == s;
      LaidStep(t, p, Written(t, p), s[n]);
    }
  }

  // ------------------------------------------------------------------ what each character does

  predicate IsBlank(line: Line) {
    forall i | 0 <= i < WIDTH :: line[i] == 0
  }

  predicate SameSettings(t: Terminal, r: Terminal) {
    r.tab == t.tab && r.fg == t.fg && r.bg == t.bg
  }

  predicate SameLines(t: Terminal, r: Terminal) {
    r.lines == t.lines && r.row == t.row
  }

  /** There is one more line, a blank one, and the row is one further down or already the last one. */
  predicate LineStarted(t: Terminal, r: Terminal) {
    && |r.lines| == |t.lines| + 1 && r.lines[..|t.lines|] == t.lines && IsBlank(r.lines[|t.lines|])
    && r.row == if t.row == HEIGHT - 1 then t.row else t.row + 1
  }

  /** Newline starts a line, carriage return goes back to the start of this one, tab goes to the next
      multiple of the tab size, on the next line if that is not on this one, and the other characters below
      0x20 and those above 0xff do nothing. */
  lemma ControlCharacters(t: Terminal, c: nat)
    requires t.Ok()
    ensures SameSettings(t, t.PutChar(c))
    ensures c == 10 ==> LineStarted(t, t.PutChar(c)) && t.PutChar(c).col == 0
    ensures c == 13 ==> SameLines(t, t.PutChar(c)) && t.PutChar(c).col == 0
    ensures c == 9 ==>
      var r := t.PutChar(c);
      var stop := r.col + if SameLines(t, r) then 0 else WIDTH;
      && (SameLines(t, r) || LineStarted(t, r)) && (SameLines(t, r) <==> stop < WIDTH)
      && t.col < stop <= t.col + t.tab && stop % t.tab == 0
    ensures (c < 0x20 && c != 9 && c != 10 && c != 13) || c > 0xff ==> t.PutChar(c) == t
  {
    if c == 9 { NextStop(t.col, t.tab); }
    assert c == 10 ==> t.PutChar(c).lines[..|t.lines|] == t.lines;
  }

  lemma NextStop(col: nat, tab: nat)
    requires col <= WIDTH && 1 <= tab < WIDTH
    ensures var stop := col + (tab - col % tab);
      && col < stop <= col + tab && stop < 2 * WIDTH && stop % tab == 0
      && stop % WIDTH == if stop < WIDTH then stop else stop - WIDTH
  {
    var n := col / tab;
    assert col == n * tab + col % tab;
    assert col + (tab - col % tab) == (n + 1) * tab;
    Bits.DivMul(n + 1, tab);
  }

  /** A printable character goes to the cursor's place, at the start of a new line if this one is full. */
  lemma PrintableCharacter(t: Terminal, c: nat)
    requires t.Ok() && 0x20 <= c <= 0xff
    ensures SameSettings(t, t.PutChar(c))
    ensures t.col < WIDTH ==>
      var last := |t.lines| - 1;
      && t.PutChar(c).lines == t.lines[last := t.lines[last][t.col := Glyph(t.fg, t.bg, c)]]
      && t.PutChar(c).col == t.col + 1 && t.PutChar(c).row == t.row
    ensures t.col == WIDTH ==>
      && t.PutChar(c).lines == t.lines + [Blank()[0 := Glyph(t.fg, t.bg, c)]] && t.PutChar(c).col == 1
      && t.PutChar(c).row == if t.row == HEIGHT - 1 then t.row else t.row + 1
  {
  }

  // ------------------------------------------------------------------ text with newlines

  /** The pieces of a text between its newlines. */
  function Pieces(s: seq<nat>): (r: seq<seq<nat>>)
    ensures r != []
  {
    if s == [] then [[]]
    else
      var r, c := Pieces(s[..|s| - 1]), s[|s| - 1];
      if c == 10 then r + [[]] else r[|r| - 1 := r[|r| - 1] + [c]]
  }

  function Joined(pieces: seq<seq<nat>>): seq<nat>
    requires pieces != []
  {
    var n := |pieces| - 1;
    if n == 0 then pieces[0] else Joined(pieces[..n]) + [10] + pieces[n]
  }

  /** They are its only division at the newlines. */
  lemma {:induction false} PiecesJoined(s: seq<nat>)
    ensures Joined(Pieces(s)) == s
    ensures forall i | 0 <= i < |Pieces(s)| :: 10 !in Pieces(s)[i]
  {
    if s != [] {
      var n := |s| - 1;
      PiecesJoined(s[..n]);
      var r, p := Pieces(s[..n]), Pieces(s);
      assert p[..|p| - 1] == if s[n] == 10 then r else r[..|r| - 1];
      assert s == s[..n] + [s[n]];
    }
  }

  /** The number of lines that `n` characters take, which is at least one. */
  function LineCount(n: nat): nat {
    if n == 0 then 1 else (n - 1) / WIDTH + 1
  }

  /** What column `i` of the `k`th line of a piece of text shows. */
  function CellOf(piece: seq<nat>, fg: nat, bg: nat, k: nat, i: nat): nat {
    if k * WIDTH + i < |piece| then Glyph(fg, bg, piece[k * WIDTH + i]) else 0
  }

  function LineOf(piece: seq<nat>, fg: nat, bg: nat, k: nat): Line {
    seq(WIDTH, i requires 0 <= i < WIDTH => CellOf(piece, fg, bg, k, i))
  }

  /** A piece fills as many lines as it needs. */
  function LinesOf(piece: seq<nat>, fg: nat, bg: nat): (r: seq<Line>)
    ensures |r| == LineCount(|piece|)
  {
    seq(LineCount(|piece|), k requires 0 <= k < LineCount(|piece|) => LineOf(piece, fg, bg, k))
  }

  function Layout(pieces: seq<seq<nat>>, fg: nat, bg: nat): seq<Line> {
    var n := |pieces| - 1;
    if pieces == [] then [] else Layout(pieces[..n], fg, bg) + LinesOf(pieces[n], fg, bg)
  }

  lemma LayoutSnoc(pieces: seq<seq<nat>>, piece: seq<nat>, fg: nat, bg: nat)
    ensures Layout(pieces + [piece], fg, bg) == Layout(pieces, fg, bg) + LinesOf(piece, fg, bg)
  {
    assert (pieces + [piece])[..|pieces|] == pieces;
  }

  /** One more character in a piece. */
  lemma LinesOfSnoc(piece: seq<nat>, fg: nat, bg: nat, c: nat)
    ensures
      var a, b, n := LinesOf(piece, fg, bg), LinesOf(piece + [c], fg, bg), |piece|;
      b == if n > 0 && n % WIDTH == 0 then a + [Blank()[0 := Glyph(fg, bg, c)]]
           else a[|a| - 1 := a[|a| - 1][n % WIDTH := Glyph(fg, bg, c)]]
  {
    var a, b, n := LinesOf(piece, fg, bg), LinesOf(piece + [c], fg, bg), |piece|;
    assert |b| == |a| + if n > 0 && n % WIDTH == 0 then 1 else 0;
    forall k | 0 <= k < |b|
      ensures b[k] == if k < n / WIDTH then a[k]
                      else if k < |a| then a[k][n % WIDTH := Glyph(fg, bg, c)] else Blank()[0 := Glyph(fg, bg, c)]
    {
      assert b[k] == LineOf(piece + [c], fg, bg, k);
      assert k < |a| ==> a[k] == LineOf(piece, fg, bg, k);
    }
  }

  /** `r` is the terminal `t` with these pieces of text from its current line on. */
  ghost predicate Shown(t: Terminal, pieces: seq<seq<nat>>, r: Terminal)
    requires |t.lines| > 0 && pieces != []
  {
    var above, n := t.lines[..|t.lines| - 1], |pieces[|pieces| - 1]|;
    && r.lines == above + Layout(pieces, t.fg, t.bg) && SameSettings(t, r)
    && r.col == (if n == 0 then 0 else (n - 1) % WIDTH + 1)
    && r.row == if t.row + |r.lines| - |t.lines| < HEIGHT then t.row + |r.lines| - |t.lines| else HEIGHT - 1
  }

  /** The last piece of a layout, and what is above it. */
  lemma LayoutLast(above: seq<Line>, rest: seq<seq<nat>>, piece: seq<nat>, fg: nat, bg: nat)
    ensures above + Layout(rest + [piece], fg, bg) == above + Layout(rest, fg, bg) + LinesOf(piece, fg, bg)
  {
    LayoutSnoc(rest, piece, fg, bg);
  }

  lemma TextStep(t: Terminal, rest: seq<seq<nat>>, piece: seq<nat>, r: Terminal, c: nat)
    requires t.Ok() && Shown(t, rest + [piece], r) && r.Ok() && 0x20 <= c <= 0xff
    ensures Shown(t, rest + [piece + [c]], r.PutChar(c))
  {
    var above := t.lines[..|t.lines| - 1];
    LayoutLast(above, rest, piece, t.fg, t.bg);
    LayoutLast(above, rest, piece + [c], t.fg, t.bg);
    PieceGrows(above + Layout(rest, t.fg, t.bg), piece, r, c);
  }

  /** The last piece of what is on the terminal gets one more character. */
  lemma PieceGrows(above: seq<Line>, piece: seq<nat>, r: Terminal, c: nat)
    requires r.Ok() && 0x20 <= c <= 0xff && r.lines == above + LinesOf(piece, r.fg, r.bg)
    requires r.col == if |piece| == 0 then 0 else (|piece| - 1) % WIDTH + 1
    ensures r.PutChar(c).lines == above + LinesOf(piece + [c], r.fg, r.bg)
    ensures r.PutChar(c).col == |piece| % WIDTH + 1 && SameSettings(r, r.PutChar(c))
    ensures |r.PutChar(c).lines| == |r.lines| + if r.col == WIDTH then 1 else 0
    ensures r.PutChar(c).row == if r.col == WIDTH && r.row < HEIGHT - 1 then r.row + 1 else r.row
  {
    LinesOfSnoc(piece, r.fg, r.bg, c);
    PrintableCharacter(r, c);
    assert r.col == WIDTH <==> |piece| > 0 && |piece| % WIDTH == 0;
  }

  lemma NewlineStep(t: Terminal, pieces: seq<seq<nat>>, r: Terminal)
    requires t.Ok() && pieces != [] && Shown(t, pieces, r) && r.Ok()
    ensures Shown(t, pieces + [[]], r.PutChar(10))
  {
    LayoutSnoc(pieces, [], t.fg, t.bg);
    NoText(t.fg, t.bg);
  }

  lemma NoText(fg: nat, bg: nat)
    ensures LinesOf([], fg, bg) == [Blank()]
  {
    assert LineOf([], fg, bg, 0) == Blank();
  }

  lemma NothingShown(t: Terminal)
    requires t.Ok() && t.col == 0 && t.lines[|t.lines| - 1] == Blank()
    ensures Shown(t, [[]], t)
  {
    var none: seq<seq<nat>> := [];
    LayoutSnoc(none, [], t.fg, t.bg);
    NoText(t.fg, t.bg);
    assert none + [[]] == [[]] && Layout(none, t.fg, t.bg) == [];
    assert t.lines == t.lines[..|t.lines| - 1] + [Blank()];
  }

  /** A text with newlines leaves its pieces on the terminal one below the other, each from the start of a
      line on and `WIDTH` characters to a line. */
  lemma {:induction false} TextLayout(t: Terminal, s: seq<nat>)
    requires t.Ok() && t.col == 0 && t.lines[|t.lines| - 1] == Blank()
    requires forall i | 0 <= i < |s| :: s[i] == 10 || 0x20 <= s[i] <= 0xff
    ensures Shown(t, Pieces(s), Written(t, s))
  {
    if s == [] {
      NothingShown(t);
    } else {
      var n := |s| - 1;
      TextLayout(t, s[..n]);
      if s[n] == 10 {
        NewlineStep(t, Pieces(s[..n]), Written(t, s[..n]));
      } else {
        var pieces := Pieces(s[..n]);
        var rest, piece := pieces[..|pieces| - 1], pieces[|pieces| - 1];
        assert pieces == rest + [piece] && Pieces(s) == rest + [piece + [s[n]]];
        TextStep(t, rest, piece, Written(t, s[..n]), s[n]);
      }
    }
  }
}
