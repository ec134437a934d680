/**
 The VGA text console (hw/vga.c, console.c) as a 25-row window on a terminal whose rows are never lost.
 */
module Vga {
  import opened Memory
  import opened Rounding

  const WIDTH := 80
  const HEIGHT := 25
  const BLANK := 0x720
  const NUL := '\0'

  type Row = seq<int>

  function BlankRow(): Row {
    seq(WIDTH, i => BLANK)
  }

  // ------------------------------------------------------------------ the unbounded terminal

  /** All rows ever begun; the cursor is in the last one. */
  datatype Terminal = Terminal(rows: seq<Row>, col: int)

  ghost predicate Proper(t: Terminal) {
    t.rows != [] && 0 <= t.col < WIDTH && forall i :: 0 <= i < |t.rows| ==> |t.rows[i]| == WIDTH
  }

  predicate Printable(c: char) {
    0x20 <= c as int < 0x7f
  }

  /** White on black, high intensity. */
  function Glyph(c: char): int {
    0xf00 + c as int % 128
  }

  function NextTab(col: int): int {
    col + 4 - col % 4
  }

  function NewRow(t: Terminal): Terminal {
    t.(rows := t.rows + [BlankRow()])
  }

  function Wrap(t: Terminal): Terminal {
    if t.col >= WIDTH then NewRow(t).(col := 0) else t
  }

  /** The terminal after one character. */
  function Put(t: Terminal, c: char): Terminal
    requires t.rows != [] && 0 <= t.col < WIDTH && |t.rows[|t.rows| - 1]| == WIDTH
  {
    if c == '\n' then NewRow(t)
    else if c == '\r' then t.(col := 0)
    else if c == '\t' then Wrap(t.(col := NextTab(t.col)))
    else if Printable(c) then
      var last := |t.rows| - 1;
      Wrap(t.(rows := t.rows[last := t.rows[last][t.col := Glyph(c)]], col := t.col + 1))
    else t
  }

  lemma PutProper(t: Terminal, c: char)
    requires Proper(t)
    ensures Proper(Put(t, c)) && |t.rows| <= |Put(t, c).rows| <= |t.rows| + 1
  {
  }

  /** A newline begins a blank row below and keeps the column; a carriage return keeps the rows. */
  lemma LineEffect(t: Terminal)
    requires Proper(t)
    ensures Put(t, '\r') == Terminal(t.rows, 0)
    ensures var z := Put(t, '\n');
      && z.col == t.col && |z.rows| == |t.rows| + 1 && z.rows[..|t.rows|] == t.rows
      && forall x :: 0 <= x < 80 ==> z.rows[|t.rows|][x] == 0x720
  {
  }

  /** A tab moves to the next column that is a multiple of four, which may be the start of a new row. */
  lemma TabEffect(t: Terminal)
    requires Proper(t)
    ensures var z := Put(t, '\t');
      && z.col % 4 == 0
      && (t.col < 76 ==> t.col < z.col <= t.col + 4 && z.rows == t.rows)
      && (t.col >= 76 ==> z.col == 0 && z.rows == t.rows + [BlankRow()])
  {
    NextStop(t.col);
  }

  lemma NextStop(col: int)
    requires 0 <= col < 80
    ensures NextTab(col) % 4 == 0 && col < NextTab(col) <= col + 4 && (NextTab(col) >= 80 <==> col >= 76)
  {
    assert NextTab(col) == 4 * (col / 4 + 1);
  }

  /** A printable character is put, white on black, at the cursor, which moves on; any other character does nothing. */
  lemma GlyphEffect(t: Terminal, c: char)
    requires Proper(t) && c != '\n' && c != '\r' && c != '\t'
    ensures !(0x20 <= c as int <= 0x7e) ==> Put(t, c) == t
    ensures 0x20 <= c as int <= 0x7e ==>
      var z, n := Put(t, c), |t.rows| - 1;
      && |z.rows| == |t.rows| + (if t.col == 79 then 1 else 0) && z.col == (if t.col == 79 then 0 else t.col + 1)
      && z.rows[..n] == t.rows[..n] && |z.rows[n]| == 80
      && (forall x :: 0 <= x < 80 ==> z.rows[n][x] == if x == t.col then 0xf00 + c as int else t.rows[n][x])
      && (t.col == 79 ==> var m := |t.rows|; forall x :: 0 <= x < 80 ==> z.rows[m][x] == 0x720)
  {
  }

  ghost function Feed(t: Terminal, s: string): (z: Terminal)
    requires Proper(t)
    ensures Proper(z)
    decreases |s|
  {
    if s == "" then t
    else
      var m := Feed(t, s[..|s| - 1]);
      PutProper(m, s[|s| - 1]);
      Put(m, s[|s| - 1])
  }

  lemma {:induction false} FeedConcat(t: Terminal, s: string, u: string)
    requires Proper(t)
    ensures Feed(t, s + u) == Feed(Feed(t, s), u)
    decreases |u|
  {
    if u == "" {
      assert s + u == s;
    } else {
      assert (s + u)[..|s + u| - 1] == s + u[..|u| - 1];
      FeedConcat(t, s, u[..|u| - 1]);
    }
  }

  // ------------------------------------------------------------------ the window

  /** The first row on the screen. */
  function Top(t: Terminal): int {
    if |t.rows| > HEIGHT then |t.rows| - HEIGHT else 0
  }

  /** The 16-bit cell at row `r` and column `x` of video memory at `vga`. */
  function CellAt(w: seq<int>, vga: nat, r: nat, x: nat): int
    requires r < HEIGHT && x < WIDTH && vga + 2 * WIDTH * HEIGHT <= |w|
  {
    ByteAt(w, vga + 2 * (r * WIDTH + x)) + 256 * ByteAt(w, vga + 2 * (r * WIDTH + x) + 1)
  }

  /** Column `x` of row `i`, which is blank if it was not begun yet. */
  function RowCell(t: Terminal, i: nat, x: nat): int
    requires forall k :: 0 <= k < |t.rows| ==> |t.rows[k]| == WIDTH
    requires x < WIDTH
  {
    if i < |t.rows| then t.rows[i][x] else BLANK
  }

  /** The screen shows the rows of `t` from row `top` on. */
  ghost predicate ShownFrom(w: seq<int>, vga: nat, t: Terminal, top: nat)
    requires vga + 2 * WIDTH * HEIGHT <= |w| && forall i :: 0 <= i < |t.rows| ==> |t.rows[i]| == WIDTH
  {
    forall r: nat, x: nat :: r < HEIGHT && x < WIDTH ==> CellAt(w, vga, r, x) == RowCell(t, top + r, x)
  }

  /** Starting a row changes nothing on the screen. */
  lemma NewRowShown(w: seq<int>, vga: nat, t: Terminal, top: nat)
    requires vga + 2 * WIDTH * HEIGHT <= |w| && Proper(t) && ShownFrom(w, vga, t, top)
    ensures Proper(NewRow(t)) && ShownFrom(w, vga, NewRow(t), top)
  {
  }

  /** Scrolling makes room for the row begun last. */
  lemma ScrolledShown(w: seq<int>, w': seq<int>, vga: nat, t: Terminal, top: nat)
    requires vga + 2 * WIDTH * HEIGHT <= |w| == |w'| && Proper(t) && ShownFrom(w, vga, NewRow(t), top)
    requires |t.rows| == top + HEIGHT
    requires forall r: nat, x: nat :: r < HEIGHT && x < WIDTH ==>
      CellAt(w', vga, r, x) == if r < HEIGHT - 1 then CellAt(w, vga, r + 1, x) else BLANK
    ensures ShownFrom(w', vga, NewRow(t), top + 1)
  {
  }

  /** The terminal with a glyph at the cursor. */
  function Stamp(t: Terminal, c: char): Terminal
    requires t.rows != [] && 0 <= t.col < WIDTH && |t.rows[|t.rows| - 1]| == WIDTH
  {
    var last := |t.rows| - 1;
    t.(rows := t.rows[last := t.rows[last][t.col := Glyph(c)]], col := t.col + 1)
  }

  lemma StampShown(w: seq<int>, w': seq<int>, vga: nat, t: Terminal, top: nat, line: nat, c: char)
    requires vga + 2 * WIDTH * HEIGHT <= |w| == |w'| && Proper(t) && ShownFrom(w, vga, t, top)
    requires line < HEIGHT && top + line == |t.rows| - 1
    requires forall r: nat, x: nat :: r < HEIGHT && x < WIDTH ==>
      CellAt(w', vga, r, x) == if r == line && x == t.col then Glyph(c) else CellAt(w, vga, r, x)
    ensures ShownFrom(w', vga, Stamp(t, c), top)
    ensures forall i :: 0 <= i < |Stamp(t, c).rows| ==> |Stamp(t, c).rows[i]| == WIDTH
  {
    hide CellAt;
    var z := Stamp(t, c);
    forall r: nat, x: nat | r < HEIGHT && x < WIDTH ensures CellAt(w', vga, r, x) == RowCell(z, top + r, x) {
    }
  }

  class Console {
    const ram: array<int>
    const vga: nat
    var col: int
    var line: int
    /** The terminal this console is a window on. */
    ghost var term: Terminal

    ghost predicate Valid()
      reads this, ram
    {
      && vga + 2 * WIDTH * HEIGHT <= ram.Length && Proper(term)
      && col == term.col && line == (if |term.rows| > HEIGHT then HEIGHT else |term.rows|) - 1
      && ShownFrom(ram[..], vga, term, Top(term))
    }

    /** `vga[r * WIDTH + x] = v`. */
    method SetCell(r: nat, x: nat, v: int)
      requires r < HEIGHT && x < WIDTH && vga + 2 * WIDTH * HEIGHT <= ram.Length && 0 <= v < 65536
      modifies ram
      ensures forall i: nat, j: nat :: i < HEIGHT && j < WIDTH ==>
        CellAt(ram[..], vga, i, j) == if i == r && j == x then v else CellAt(old(ram[..]), vga, i, j)
    {
      hide ByteAt;
      var a := vga + 2 * (r * WIDTH + x);
      StoreByte(ram, a, v % 256);
      StoreByte(ram, a + 1, v / 256);
      forall i: nat, j: nat | i < HEIGHT && j < WIDTH
        ensures CellAt(ram[..], vga, i, j) == if i == r && j == x then v else CellAt(old(ram[..]), vga, i, j)
      {
        OneCell(i, j, r, x);
      }
    }

    /** vga_console_init(true). */
    constructor (memory: array<int>, address: nat)
      requires address + 2 * WIDTH * HEIGHT <= memory.Length
      modifies memory
      ensures Valid() && term == Terminal([BlankRow()], 0) && ram == memory && vga == address
    {
      ram, vga, col, line := memory, address, 0, 0;
      term := Terminal([BlankRow()], 0);
      new;
      Clear();
    }

    method Clear()
      requires vga + 2 * WIDTH * HEIGHT <= ram.Length
      modifies ram
      ensures forall r: nat, x: nat :: r < HEIGHT && x < WIDTH ==> CellAt(ram[..], vga, r, x) == BLANK
    {
      hide ByteAt, CellAt;
      var i := 0;
      while i < WIDTH * HEIGHT
        invariant 0 <= i <= WIDTH * HEIGHT
        invariant forall r: nat, x: nat :: r < HEIGHT && x < WIDTH && r * WIDTH + x < i ==> CellAt(ram[..], vga, r, x) == BLANK
      {
        SetCell(i / WIDTH, i % WIDTH, BLANK);
        i := i + 1;
      }
    }

    /** vga_console_scrup: rows 1 to 24 move to 0 to 23, and row 24 is cleared. */
    method Scrup()
      requires vga + 2 * WIDTH * HEIGHT <= ram.Length
      modifies ram
      ensures forall r: nat, x: nat :: r < HEIGHT && x < WIDTH ==>
        CellAt(ram[..], vga, r, x) == if r < HEIGHT - 1 then CellAt(old(ram[..]), vga, r + 1, x) else BLANK
    {
      hide ByteAt;
      Memcpy(ram, vga, vga + 2 * WIDTH, 2 * WIDTH * (HEIGHT - 1));
      ghost var w := ram[..];
      forall r: nat, x: nat | r < HEIGHT - 1 && x < WIDTH ensures CellAt(w, vga, r, x) == CellAt(old(ram[..]), vga, r + 1, x) {
        CopiedCell(old(ram[..]), w, vga, r, x);
      }
      var i := 0;
      while i < WIDTH
        invariant 0 <= i <= WIDTH
        invariant forall r: nat, x: nat :: r < HEIGHT && x < WIDTH ==>
          CellAt(ram[..], vga, r, x) == if r == HEIGHT - 1 && x < i then BLANK else CellAt(w, vga, r, x)
      {
        SetCell(HEIGHT - 1, i, BLANK);
        i := i + 1;
      }
    }

    /** vga_console_putchar. `t` follows the terminal up to the wrap, `z` past it; the window moves last. */
    method Putchar(c: char)
      requires Valid()
      modifies this`col, this`line, this`term, ram
      ensures Valid() && term == Put(old(term), c)
    {
      hide ByteAt, CellAt, ShownFrom, Stamp, Glyph;
      ghost var t, top := term, Top(term);
      ghost var z := t;
      PutProper(t, c);
      if c == '\n' {
        line := line + 1;
        NewRowShown(ram[..], vga, t, top);
        z := NewRow(t);
      } else if c == '\r' {
        col := 0;
        t := t.(col := 0);
        z := t;
        SameRows(ram[..], vga, term, t, top);
      } else if c == '\t' {
        TabStop(col);
        col := RoundUp(col + 1, 4);
        t := t.(col := NextTab(t.col));
        z := t;
        SameRows(ram[..], vga, term, t, top);
      } else if Printable(c) {
        SetCell(line, col, 0xf00 + c as int % 128);
        col := col + 1;
        StampFacts(t, c);
        StampShown(old(ram[..]), ram[..], vga, t, top, line, c);
        t := Stamp(t, c);
        z := t;
      }
      if col >= WIDTH {
        col := 0;
        line := line + 1;
        WrapShown(ram[..], vga, t, top);
        t := t.(col := 0);
        z := NewRow(t);
      }
      if line == HEIGHT {
        ghost var w := ram[..];
        Scrup();
        ScrolledShown(w, ram[..], vga, t, top);
        line := line - 1;
      }
      term := z;
    }
  }

  /** Video memory holds the last 25 rows, 80 cells each, low byte first; what is not yet begun is blank. */
  lemma WindowMeaning(console: Console, r: nat, x: nat)
    requires console.Valid() && r < 25 && x < 80
    ensures 0 <= console.col < 80 && 0 <= console.line < 25 && console.vga + 4000 <= console.ram.Length
    ensures var rows, at := console.term.rows, console.vga + 2 * (80 * r + x);
      var i := if |rows| > 25 then |rows| - 25 + r else r;
      && (forall k :: 0 <= k < |rows| ==> |rows[k]| == 80)
      && ByteAt(console.ram[..], at) + 256 * ByteAt(console.ram[..], at + 1) == if i < |rows| then rows[i][x] else 0x720
    ensures var n := |console.term.rows|; n > 0 && console.line == (if n > 25 then 24 else n - 1) && console.col == console.term.col
  {
    hide ByteAt;
    assert CellAt(console.ram[..], console.vga, r, x) == RowCell(console.term, Top(console.term) + r, x);
  }

  lemma SameRows(w: seq<int>, vga: nat, t: Terminal, z: Terminal, top: nat)
    requires vga + 2 * WIDTH * HEIGHT <= |w| && Proper(t) && ShownFrom(w, vga, t, top) && z.rows == t.rows
    ensures ShownFrom(w, vga, z, top)
  {
  }

  /** Wrapping at the right margin starts a row. */
  lemma WrapShown(w: seq<int>, vga: nat, t: Terminal, top: nat)
    requires vga + 2 * WIDTH * HEIGHT <= |w| && t.rows != [] && forall i :: 0 <= i < |t.rows| ==> |t.rows[i]| == WIDTH
    requires ShownFrom(w, vga, t, top)
    ensures Proper(t.(col := 0)) && Proper(NewRow(t.(col := 0)))
    ensures ShownFrom(w, vga, NewRow(t.(col := 0)), top)
  {
  }

  lemma StampFacts(t: Terminal, c: char)
    requires Proper(t)
    ensures Glyph(c) == 0xf00 + c as int % 128 && |Stamp(t, c).rows| == |t.rows| && Stamp(t, c).col == t.col + 1
    ensures forall i :: 0 <= i < |Stamp(t, c).rows| ==> |Stamp(t, c).rows[i]| == WIDTH
    ensures Printable(c) && c != '\n' && c != '\r' && c != '\t' ==> Put(t, c) == Wrap(Stamp(t, c))
  {
  }

  lemma OneCell(i: nat, j: nat, r: nat, x: nat)
    requires j < WIDTH && x < WIDTH
    ensures i * WIDTH + j == r * WIDTH + x <==> i == r && j == x
  {
  }

  lemma TabStop(col: nat)
    requires col < WIDTH
    ensures RoundUp(col + 1, 4) == NextTab(col)
  {
    hide RoundUp, IsPow2;
    SmallPowers();
    RoundUpLeast(col + 1, 4);
    OnlyMultiple(RoundUp(col + 1, 4), NextTab(col), col);
  }

  lemma OnlyMultiple(p: int, q: int, x: int)
    requires p % 4 == 0 && q % 4 == 0 && x < p <= x + 4 && x < q <= x + 4
    ensures p == q
  {
    assert p == 4 * (p / 4) && q == 4 * (q / 4);
  }

  /** One cell of the copied rows, byte by byte. */
  lemma CopiedCell(w: seq<int>, w': seq<int>, vga: nat, r: nat, x: nat)
    requires r < HEIGHT - 1 && x < WIDTH && vga + 2 * WIDTH * HEIGHT <= |w| == |w'|
    requires var i := 2 * (r * WIDTH + x);
      && ByteAt(w', vga + i) == ByteAt(w, Origin(vga, vga + 2 * WIDTH, i))
      && ByteAt(w', vga + (i + 1)) == ByteAt(w, Origin(vga, vga + 2 * WIDTH, i + 1))
    ensures CellAt(w', vga, r, x) == CellAt(w, vga, r + 1, x)
  {
    hide ByteAt;
  }
}
