/**
 console.c: bounded writes with newline expansion, and what written lines look like on the terminal.
 */
module Consoles {
  import opened Vga

  /** The characters a write puts out: with `crlf`, a carriage return before each newline. */
  function Expand(s: string, crlf: bool): string {
    if s == "" then ""
    else Expand(s[..|s| - 1], crlf) + if crlf && s[|s| - 1] == '\n' then "\r\n" else [s[|s| - 1]]
  }

  lemma {:induction false} ExpandConcat(s: string, u: string, crlf: bool)
    ensures Expand(s + u, crlf) == Expand(s, crlf) + Expand(u, crlf)
    decreases |u|
  {
    if u == "" {
      assert s + u == s;
    } else {
      assert (s + u)[..|s + u| - 1] == s + u[..|u| - 1];
      ExpandConcat(s, u[..|u| - 1], crlf);
    }
  }

  /** Without `crlf` nothing is added; with it, only a newline is expanded. */
  lemma {:induction false} ExpandOff(s: string)
    ensures Expand(s, false) == s
    decreases |s|
  {
    if s == "" {
    } else {
      ExpandOff(s[..|s| - 1]);
      assert s == s[..|s| - 1] + [s[|s| - 1]];
    }
  }

  /** How far a write of at most `len` characters gets: `str` is all that can be read from the pointer on. */
  ghost predicate Stops(str: string, len: nat, i: nat) {
    i <= |str| && i <= len && NUL !in str[..i] && (i < len ==> i < |str| && str[i] == NUL)
  }

  /** console_write. The loop looks at the character after the last one before it compares the count. */
  method ConsoleWrite(console: Console, str: string, len: nat, crlf: bool) returns (i: nat)
    requires console.Valid() && (NUL in str || len < |str|)
    modifies console`col, console`line, console`term, console.ram
    ensures console.Valid() && Stops(str, len, i)
    ensures console.term == Feed(old(console.term), Expand(str[..i], crlf))
  {
    hide Put, Expand, Feed;
    i := 0;
    ghost var t0 := console.term;
    NothingFed(t0, crlf);
    assert str[..0] == "";
    while str[i] != NUL && i < len
      invariant i < |str| && i <= len && NUL !in str[..i] && console.Valid()
      invariant console.term == Feed(t0, Expand(str[..i], crlf))
      decreases len - i
    {
      var c := str[i];
      if crlf && c == '\n' {
        console.Putchar('\r');
      }
      console.Putchar(c);
      OneMore(t0, str[..i], c, crlf);
      assert str[..i + 1] == str[..i] + [c];
      StillInside(str, len, i);
      i := i + 1;
    }
  }

  lemma StillInside(str: string, len: nat, i: nat)
    requires (NUL in str || len < |str|) && i < |str| && i < len && NUL !in str[..i] && str[i] != NUL
    ensures i + 1 < |str|
  {
  }

  lemma NothingFed(t: Terminal, crlf: bool)
    requires Vga.Proper(t)
    ensures Feed(t, Expand("", crlf)) == t
  {
  }

  lemma FedOne(t: Terminal, c: char)
    requires Vga.Proper(t)
    ensures Feed(t, [c]) == Put(t, c) && Vga.Proper(Put(t, c))
  {
  }

  lemma OneMore(t: Terminal, s: string, c: char, crlf: bool)
    requires Vga.Proper(t)
    ensures var m := Feed(t, Expand(s, crlf));
      && Vga.Proper(Put(m, '\r'))
      && Feed(t, Expand(s + [c], crlf)) == if crlf && c == '\n' then Put(Put(m, '\r'), c) else Put(m, c)
  {
    hide Put, Feed, Expand;
    ExpandConcat(s, [c], crlf);
    ExpandOne(c, crlf);
    FeedConcat(t, Expand(s, crlf), Expand([c], crlf));
    var m := Feed(t, Expand(s, crlf));
    FedOne(m, '\r');
    FedOne(m, c);
    if crlf && c == '\n' {
      assert "\r\n" == ['\r'] + [c];
      FeedConcat(m, ['\r'], [c]);
      FedOne(Put(m, '\r'), c);
    }
  }

  lemma ExpandOne(c: char, crlf: bool)
    ensures Expand([c], crlf) == if crlf && c == '\n' then "\r\n" else [c]
  {
  }

  /** Two writes are one write. */
  lemma WritesConcat(t: Terminal, s: string, u: string, crlf: bool)
    requires Vga.Proper(t)
    ensures Feed(Feed(t, Expand(s, crlf)), Expand(u, crlf)) == Feed(t, Expand(s + u, crlf))
  {
    ExpandConcat(s, u, crlf);
    FeedConcat(t, Expand(s, crlf), Expand(u, crlf));
  }

  // ------------------------------------------------------------------ lines of text

  ghost predicate AllPrintable(s: string) {
    forall i :: 0 <= i < |s| ==> Printable(s[i])
  }

  /** The cursor is at the start of an empty row. */
  ghost predicate AtFreshRow(t: Terminal) {
    Vga.Proper(t) && t.col == 0 && t.rows[|t.rows| - 1] == BlankRow()
  }

  /** The row `i` rows below the start of a printed string: its characters in order, 80 to a row. */
  function PrintedRow(s: string, i: nat): Row {
    seq(WIDTH, x requires 0 <= x => if i * WIDTH + x < |s| then Glyph(s[i * WIDTH + x]) else BLANK)
  }

  function PrintedRows(s: string, n: nat): seq<Row> {
    seq(n, i requires 0 <= i => PrintedRow(s, i))
  }

  /** What printing `s` from a fresh row leaves. */
  function Printed(t: Terminal, s: string): Terminal
    requires t.rows != []
  {
    Terminal(t.rows[..|t.rows| - 1] + PrintedRows(s, |s| / WIDTH + 1), |s| % WIDTH)
  }

  /** Printed characters fill rows of 80 in order. */
  lemma {:induction false} PrintedFills(t: Terminal, s: string)
    requires AtFreshRow(t) && AllPrintable(s)
    ensures Feed(t, s) == Printed(t, s)
    decreases |s|
  {
    hide Put, PrintedRows, BlankRow;
    if s == "" {
      NothingPrinted(t);
    } else {
      var n := |s| - 1;
      PrintedFills(t, s[..n]);
      PrintedOne(t, s[..n], s[n]);
      assert s == s[..n] + [s[n]];
    }
  }

  lemma NothingPrinted(t: Terminal)
    requires AtFreshRow(t)
    ensures Printed(t, "") == t
  {
    assert PrintedRow("", 0) == BlankRow();
    assert PrintedRows("", 1) == [BlankRow()];
    assert t.rows == t.rows[..|t.rows| - 1] + [BlankRow()];
  }

  lemma PrintedOne(t: Terminal, s: string, c: char)
    requires AtFreshRow(t) && Printable(c) && Vga.Proper(Printed(t, s))
    ensures Put(Printed(t, s), c) == Printed(t, s + [c])
  {
    hide PrintedRow, BlankRow, Glyph;
    var q, x := |s| / WIDTH, |s| % WIDTH;
    var head := t.rows[..|t.rows| - 1];
    var p := Printed(t, s);
    var rows := PrintedRows(s, q + 1);
    var u := s + [c];
    StampedRow(s, c);
    forall i | 0 <= i < q ensures PrintedRow(s, i) == PrintedRow(u, i) {
      SameRow(s, c, i);
    }
    assert rows[q := PrintedRow(u, q)] == PrintedRows(u, q + 1);
    assert p.rows[|p.rows| - 1] == PrintedRow(s, q);
    assert p.rows[|p.rows| - 1 := PrintedRow(u, q)] == head + PrintedRows(u, q + 1);
    if x == WIDTH - 1 {
      RowBelow(u, q + 1);
      assert head + PrintedRows(u, q + 1) + [BlankRow()] == head + PrintedRows(u, q + 2);
    }
  }

  lemma StampedRow(s: string, c: char)
    ensures PrintedRow(s, |s| / WIDTH)[|s| % WIDTH := Glyph(c)] == PrintedRow(s + [c], |s| / WIDTH)
  {
  }

  lemma SameRow(s: string, c: char, i: nat)
    requires i < |s| / WIDTH
    ensures PrintedRow(s, i) == PrintedRow(s + [c], i)
  {
  }

  lemma RowBelow(s: string, i: nat)
    requires |s| <= i * WIDTH
    ensures PrintedRow(s, i) == BlankRow()
  {
  }

  /** A printed line and its newline: the rows above stay, the line takes the rows it needs, the cursor is fresh again. */
  lemma PrintedLine(t: Terminal, s: string)
    requires AtFreshRow(t) && AllPrintable(s)
    ensures var z := Feed(t, Expand(s + "\n", true));
      && AtFreshRow(z)
      && z.rows == t.rows[..|t.rows| - 1] + PrintedRows(s, |s| / WIDTH + 1) + [BlankRow()]
  {
    hide Put, PrintedRows, BlankRow, Expand, Feed;
    ExpandConcat(s, "\n", true);
    PlainExpand(s, true);
    ExpandOne('\n', true);
    FeedConcat(t, s, "\r\n");
    PrintedFills(t, s);
    var p := Printed(t, s);
    NewLine(p);
  }

  lemma NewLine(p: Terminal)
    requires Vga.Proper(p)
    ensures Feed(p, "\r\n") == Terminal(p.rows + [BlankRow()], 0) && AtFreshRow(Feed(p, "\r\n"))
  {
  }

  lemma {:induction false} PlainExpand(s: string, crlf: bool)
    requires AllPrintable(s)
    ensures Expand(s, crlf) == s
    decreases |s|
  {
    if s == "" {
    } else {
      PlainExpand(s[..|s| - 1], crlf);
      assert s == s[..|s| - 1] + [s[|s| - 1]];
    }
  }
}
