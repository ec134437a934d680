/**
 vsnprintf and _vprintf: what they leave in memory, on the screen and behind `%n` pointers.
 */
module Sprintf {
  import opened Format
  import opened Numbers
  import opened Output
  import opened Printf

  /** `s` without its NULs. */
  function Strip(s: string): string {
    if s == "" then "" else Strip(s[..|s| - 1]) + if s[|s| - 1] == NUL then "" else [s[|s| - 1]]
  }

  lemma {:induction false} StripConcat(s: string, u: string)
    ensures Strip(s + u) == Strip(s) + Strip(u)
    decreases |u|
  {
    if u == "" {
      assert s + u == s;
    } else {
      assert (s + u)[..|s + u| - 1] == s + u[..|u| - 1];
      StripConcat(s, u[..|u| - 1]);
    }
  }

  lemma StripOne(c: char)
    ensures Strip([c]) == if c == '\0' then "" else [c]
  {
    assert [c][..0] == "";
  }

  lemma {:induction false} StripNothing(s: string)
    ensures Strip(s) == s <==> NUL !in s
    ensures |Strip(s)| <= |s| && (|Strip(s)| == |s| <==> NUL !in s)
  {
    if s == "" {
    } else {
      var n := |s| - 1;
      StripNothing(s[..n]);
      assert s == s[..n] + [s[n]];
    }
  }

  lemma {:induction false} ClipNothing(s: string)
    ensures Clip(s) == s <==> NUL !in s
  {
  }

  // ------------------------------------------------------------------ NULs come one at a time

  /** A piece with a NUL has nothing else. */
  ghost predicate Simple(p: Piece) {
    p.Out? ==> NUL !in p.s || p.s == [NUL]
  }

  ghost predicate AllSimple(ps: seq<Piece>) {
    forall k :: 0 <= k < |ps| ==> Simple(ps[k])
  }

  lemma SimpleConcat(ps: seq<Piece>, qs: seq<Piece>)
    requires AllSimple(ps) && AllSimple(qs)
    ensures AllSimple(ps + qs)
  {
  }

  lemma SimpleOne(s: string)
    requires NUL !in s
    ensures AllSimple([Out(s)])
  {
  }

  lemma SimpleChars(c: char, n: nat)
    ensures AllSimple(Chars(c, n)) && AllSimple(SignPieces(c))
  {
  }

  lemma SimpleField(flags: set<Flag>, width: nat, sign: char, s: string, reply: Reply, n: nat)
    requires NUL !in s
    ensures AllSimple(FieldPieces(flags, width, sign, s, reply, n))
  {
    hide Simple, Chars, SignPieces;
    var blanks := Max0((if sign != NUL && width > 0 then width - 1 else width) - |s|);
    SimpleOne(s);
    SimpleChars(' ', blanks);
    SimpleChars('0', blanks);
    SimpleChars(sign, 0);
    SimpleChars(' ', Max0(width - reply(n, s)));
    SimpleConcat([Out(s)], Chars(' ', Max0(width - reply(n, s))));
    SimpleConcat(SignPieces(sign), Chars('0', blanks));
    SimpleConcat(SignPieces(sign) + Chars('0', blanks), [Out(s)]);
    SimpleConcat(Chars(' ', blanks), SignPieces(sign));
    SimpleConcat(Chars(' ', blanks) + SignPieces(sign), [Out(s)]);
  }

  lemma SimpleDirective(d: Spec, env: Env, a: nat, w: Word, reply: Reply, n: nat)
    requires CStrings(env)
    ensures AllSimple(DirectivePieces(d, env, a, w, reply, n))
  {
    hide FieldPieces, NumberOf;
    if d.conv == 's' {
      SimpleField(d.flags - {LEADZEROFLAG}, d.width, NUL, StringArg(env, a), reply, n);
    } else if IsNumeric(d.conv) {
      var x := NumberOf(d.conv, d.flags, env, a);
      NumberHasNoNul(d.conv, d.flags, env, a);
      SimpleField(x.flags, d.width, x.sign, x.digits, reply, n + |x.prefix|);
      SimpleConcat(PrefixPieces(x.prefix), FieldPieces(x.flags, d.width, x.sign, x.digits, reply, n + |x.prefix|));
    }
  }

  lemma {:induction false} SimplePieces(fmt: string, i: nat, env: Env, a: nat, w: Word, reply: Reply, n: nat)
    requires i <= |fmt| && NUL !in fmt && CStrings(env)
    ensures AllSimple(Pieces(fmt, i, env, a, w, reply, n))
    decreases |fmt| - i
  {
    hide DirectivePieces, Scan, LiteralEnd, Count, Words, CStrings;
    var j := LiteralEnd(fmt, i);
    var lit := [Out(fmt[i..j])];
    assert Simple(lit[0]);
    if j == |fmt| {
    } else {
      var d := Scan(fmt, j + 1, {}, 0);
      if d.conv != NUL {
        var w1 := (w + Count(lit, reply, n)) % WORD;
        var ps := DirectivePieces(d, env, a, w1, reply, n + 1);
        var w2 := (w1 + Count(ps, reply, n + 1)) % WORD;
        SimpleDirective(d, env, a, w1, reply, n + 1);
        SimplePieces(fmt, d.next, env, a + Words(d, env, a), w2, reply, n + 1 + |ps|);
        SimpleConcat(lit, ps);
        SimpleConcat(lit + ps, Pieces(fmt, d.next, env, a + Words(d, env, a), w2, reply, n + 1 + |ps|));
      }
    }
  }

  /** Cut at NULs, pieces say what they say without its NULs. */
  lemma {:induction false} ClippedIsStripped(ps: seq<Piece>, n: nat)
    requires AllSimple(ps)
    ensures Clipped(ps) == Strip(Said(ps)) && Count(ps, ClipLength(), n) == |Clipped(ps)|
  {
    if ps == [] {
    } else {
      var k := |ps| - 1;
      ClippedIsStripped(ps[..k], n);
      if ps[k].Out? {
        StripConcat(Said(ps[..k]), ps[k].s);
        ClipOfSimple(ps[k]);
      } else {
        assert Said(ps) == Said(ps[..k]) && Clipped(ps) == Clipped(ps[..k]);
      }
    }
  }

  lemma ClipOfSimple(p: Piece)
    requires p.Out? && Simple(p)
    ensures Clip(p.s) == Strip(p.s)
  {
    StripNothing(p.s);
    ClipNothing(p.s);
    if p.s == [NUL] {
      assert p.s[..0] == "";
    }
  }

  // ------------------------------------------------------------------ %n

  /** The value a store of `size` bytes keeps of a count. */
  function Low(size: nat, n: int): int {
    if size == 1 then n % 256 else if size == 2 then n % 65536 else n % WORD
  }

  ghost predicate Tells(ps: seq<Piece>, k: int, w: int, reply: Reply, n: nat)
    requires 0 <= k < |ps|
  {
    ps[k].Store? ==> ps[k].value == Low(ps[k].size, w + Count(ps[..k], reply, n))
  }

  /** Every store in `ps` keeps the count at its place, when `w` characters were counted in `n` pieces before. */
  ghost predicate AllTell(ps: seq<Piece>, w: int, reply: Reply, n: nat) {
    forall k :: 0 <= k < |ps| ==> Tells(ps, k, w, reply, n)
  }

  lemma LowWord(size: nat, x: int, y: int)
    ensures Low(size, x % WORD + y) == Low(size, x + y)
  {
    var q, z := x / WORD, x % WORD + y;
    assert x + y == z + WORD * q == z + 65536 * (65536 * q) == z + 256 * (16777216 * q);
    DropWords(z, q);
    Drop65536(z, 65536 * q);
    Drop256(z, 16777216 * q);
  }

  lemma DropWords(z: int, q: int)
    ensures (z + WORD * q) % WORD == z % WORD
  {
  }

  lemma Drop65536(z: int, q: int)
    ensures (z + 65536 * q) % 65536 == z % 65536
  {
  }

  lemma Drop256(z: int, q: int)
    ensures (z + 256 * q) % 256 == z % 256
  {
  }

  lemma TellsConcat(ps: seq<Piece>, qs: seq<Piece>, w: Word, reply: Reply, n: nat)
    requires AllTell(ps, w, reply, n) && AllTell(qs, (w + Count(ps, reply, n)) % WORD, reply, n + |ps|)
    ensures AllTell(ps + qs, w, reply, n)
  {
    hide Count, Low;
    var m := |ps|;
    forall k | 0 <= k < |ps + qs| ensures Tells(ps + qs, k, w, reply, n) {
      if k < m {
        assert Tells(ps, k, w, reply, n);
        assert (ps + qs)[..k] == ps[..k];
      } else {
        assert Tells(qs, k - m, (w + Count(ps, reply, n)) % WORD, reply, n + m);
        assert (ps + qs)[..k] == ps + qs[..k - m];
        CountConcat(ps, qs[..k - m], reply, n);
        if qs[k - m].Store? {
          LowWord(qs[k - m].size, w + Count(ps, reply, n), Count(qs[..k - m], reply, n + m));
        }
      }
    }
  }

  lemma FieldIsOut(flags: set<Flag>, width: nat, sign: char, s: string, reply: Reply, n: nat)
    ensures forall p <- FieldPieces(flags, width, sign, s, reply, n) :: p.Out?
  {
  }

  lemma PrefixIsOut(prefix: string)
    ensures forall p <- PrefixPieces(prefix) :: p.Out?
  {
  }

  lemma OutsTell(ps: seq<Piece>, w: int, reply: Reply, n: nat)
    requires forall p <- ps :: p.Out?
    ensures AllTell(ps, w, reply, n)
  {
    forall k | 0 <= k < |ps| ensures Tells(ps, k, w, reply, n) {
      assert ps[k] in ps;
    }
  }

  lemma NothingCounted(d: Spec, env: Env, a: nat, w: Word, reply: Reply, n: nat)
    requires d.conv == 'n'
    ensures var ps := DirectivePieces(d, env, a, w, reply, n);
      |ps| == 1 && ps[..0] == [] && Count(ps[..0], reply, n) == 0 && ps[0].Store? && ps[0].value == Low(ps[0].size, w)
  {
  }

  lemma TellsDirective(d: Spec, env: Env, a: nat, w: Word, reply: Reply, n: nat)
    ensures AllTell(DirectivePieces(d, env, a, w, reply, n), w, reply, n)
  {
    hide NumberOf, FieldPieces, PrefixPieces, Low, Count;
    var ps := DirectivePieces(d, env, a, w, reply, n);
    if d.conv == 's' {
      FieldIsOut(d.flags - {LEADZEROFLAG}, d.width, NUL, StringArg(env, a), reply, n);
    } else if IsNumeric(d.conv) {
      var x := NumberOf(d.conv, d.flags, env, a);
      FieldIsOut(x.flags, d.width, x.sign, x.digits, reply, n + |x.prefix|);
      PrefixIsOut(x.prefix);
    }
    if d.conv == 'n' {
      NothingCounted(d, env, a, w, reply, n);
      assert Tells(ps, 0, w, reply, n);
    } else {
      OutsTell(ps, w, reply, n);
    }
  }

  /** Whatever the output function, `%n` stores the count of what was put out before it. */
  lemma {:induction false} StoresTell(fmt: string, i: nat, env: Env, a: nat, w: Word, reply: Reply, n: nat)
    requires i <= |fmt| && NUL !in fmt
    ensures AllTell(Pieces(fmt, i, env, a, w, reply, n), w, reply, n)
    decreases |fmt| - i
  {
    hide DirectivePieces, Scan, LiteralEnd, Count, Words;
    var j := LiteralEnd(fmt, i);
    var lit := [Out(fmt[i..j])];
    if j == |fmt| {
    } else {
      var d := Scan(fmt, j + 1, {}, 0);
      if d.conv != NUL {
        var w1 := (w + Count(lit, reply, n)) % WORD;
        var ps := DirectivePieces(d, env, a, w1, reply, n + 1);
        var w2 := (w1 + Count(ps, reply, n + 1)) % WORD;
        TellsDirective(d, env, a, w1, reply, n + 1);
        StoresTell(fmt, d.next, env, a + Words(d, env, a), w2, reply, n + 1 + |ps|);
        TellsConcat(lit, ps, w, reply, n);
        CountConcat(lit, ps, reply, n);
        Later(w, Count(lit, reply, n), Count(ps, reply, n + 1));
        TellsConcat(lit + ps, Pieces(fmt, d.next, env, a + Words(d, env, a), w2, reply, n + 1 + |ps|), w, reply, n);
      }
    }
  }

  /** When every character counts, `%n` stores the exact length of the part of the text before it. */
  lemma PercentN(fmt: string, env: Env, k: nat)
    requires NUL !in fmt && CStrings(env)
    requires var ps := Pieces(fmt, 0, env, 0, 0, Length(), 0); k < |ps| && ps[k].Store?
    ensures var ps := Pieces(fmt, 0, env, 0, 0, Length(), 0);
      var before := Said(ps[..k]);
      before <= Text(fmt, 0, env, 0) && ps[k].value == Low(ps[k].size, |before|)
  {
    hide Pieces, Text, Said, Count, CStrings, Low;
    var ps := Pieces(fmt, 0, env, 0, 0, Length(), 0);
    StoresTell(fmt, 0, env, 0, 0, Length(), 0);
    assert Tells(ps, k, 0, Length(), 0);
    CountIsLength(ps[..k], Length(), 0);
    PiecesSpellText(fmt, 0, env, 0, 0, Length(), 0);
    SaidConcat(ps[..k], ps[k..]);
    assert ps == ps[..k] + ps[k..];
  }

  // ------------------------------------------------------------------ vsnprintf

  /** Memory after a string and its terminating NUL were stored at `start`. */
  function StringAt(mem: string, start: nat, s: string): string
    requires start + |s| < |mem|
  {
    mem[..start] + s + [NUL] + mem[start + |s| + 1..]
  }

  /** The string, its NUL, and nothing else. */
  lemma StringBytes(mem: string, start: nat, s: string)
    requires start + |s| < |mem|
    ensures var w := StringAt(mem, start, s);
      && |w| == |mem| && w[start..start + |s|] == s && w[start + |s|] == '\0'
      && forall i :: 0 <= i < |mem| && !(start <= i <= start + |s|) ==> w[i] == mem[i]
  {
  }

  /** A size_t as an int: the number of 32-bit two's complement that is congruent to it. */
  lemma IntOfSize(w: Word)
    ensures -0x8000_0000 <= ToInt(w) <= 0x7fff_ffff && (ToInt(w) == w || ToInt(w) == w - 0x1_0000_0000)
  {
  }

  /** Memory can take what a call with this `len` stores, and has a byte in front of the buffer if `len` is 0. */
  ghost predicate HasRoom(limit: nat, start: nat, len: nat, text: string) {
    if len == 0 then 0 < start <= limit else start + Min(len, |text| + 1) <= limit
  }

  /**
   vsnprintf: the buffer holds the first `len - 1` characters of the text and a NUL, nothing else changes, and the length
   of the whole text is returned. With a `len` of 0 the byte before the buffer is cleared. Addresses are 32 bits wide.
   */
  method Vsnprintf(mem: array<char>, start: nat, len: nat, fmt: string, env: Env) returns (wlen: int, stores: seq<Piece>)
    requires NUL !in fmt && CStrings(env) && Sized(fmt, env)
    requires mem.Length <= WORD && len < WORD && HasRoom(mem.Length, start, len, Text(fmt, 0, env, 0))
    modifies mem
    ensures var text := Text(fmt, 0, env, 0);
      && wlen == ToInt(|text| % WORD)
      && (len > 0 ==> mem[..] == StringAt(old(mem[..]), start, text[..Min(len - 1, |text|)]))
      && (len == 0 ==> mem[..] == old(mem[..])[start - 1 := NUL])
    ensures stores == Stores(Pieces(fmt, 0, env, 0, 0, Length(), 0))
  {
    hide CStrings, Sized, Pieces, Text, Said, Count, Stores, Filled, StringAt;
    ghost var text, ps := Text(fmt, 0, env, 0), Pieces(fmt, 0, env, 0, 0, Length(), 0);
    PiecesSpellText(fmt, 0, env, 0, 0, Length(), 0);
    AllHonest(ps);
    var args := new Sink(Buffer(mem, start, len));
    NothingSaid();
    wlen := PrintfEngine(args, fmt, env);
    assert args.log == [] + ps == ps;
    Terminated(old(mem[..]), start, len, text);
    if args.pos >= len {
      mem[start + len - 1] := NUL;
    } else {
      assert |text| < len && text[..|text|] == text;
      Address(start, |text|);
      mem[(start + wlen) % WORD] := NUL;
    }
    stores := args.stores;
  }

  lemma NothingSaid()
    ensures Said([]) == ""
  {
  }

  /** The address behind the text, through the signed length. */
  lemma Address(start: nat, n: nat)
    requires start + n < WORD
    ensures (start + ToInt(n % WORD)) % WORD == start + n
  {
    assert n % WORD == n;
    if n >= 0x8000_0000 {
      assert start + n - WORD < 0;
    }
  }

  lemma AllHonest(ps: seq<Piece>)
    ensures Quiet(ps, Length(), 0) && Count(ps, Length(), 0) == |Said(ps)|
  {
    CountIsLength(ps, Length(), 0);
  }

  lemma Terminated(mem: string, start: nat, len: nat, s: string)
    requires start + Min(len, |s|) <= |mem|
    ensures |Filled(mem, start, len, s)| == |mem|
    ensures 0 < len <= |s| ==> Filled(mem, start, len, s)[start + len - 1 := NUL] == StringAt(mem, start, s[..len - 1])
    ensures len > |s| && start + |s| < |mem| ==> Filled(mem, start, len, s)[start + |s| := NUL] == StringAt(mem, start, s)
    ensures len == 0 ==> Filled(mem, start, len, s) == mem
  {
  }

  /** vsprintf: a buffer of unknown size, which must be large enough. Texts of INT_MAX and more characters are cut. */
  method Vsprintf(mem: array<char>, start: nat, fmt: string, env: Env) returns (err: int, stores: seq<Piece>)
    requires NUL !in fmt && CStrings(env) && Sized(fmt, env)
    requires mem.Length <= WORD && HasRoom(mem.Length, start, INT_MAX, Text(fmt, 0, env, 0))
    modifies mem
    ensures var text := Text(fmt, 0, env, 0);
      && err == ToInt(|text| % WORD)
      && (|text| < INT_MAX ==> err == |text| && mem[..] == StringAt(old(mem[..]), start, text))
      && (|text| >= INT_MAX ==> mem[..] == StringAt(old(mem[..]), start, text[..INT_MAX - 1]))
    ensures stores == Stores(Pieces(fmt, 0, env, 0, 0, Length(), 0))
  {
    hide CStrings, Sized, Pieces, Text, Stores, StringAt;
    err, stores := Vsnprintf(mem, start, INT_MAX, fmt, env);
    ghost var text := Text(fmt, 0, env, 0);
    assert |text| < INT_MAX ==> text[..|text|] == text;
  }

  // ------------------------------------------------------------------ _vprintf

  /** _vprintf: the terminal gets the text without its NULs, whose length is returned. */
  method Vprintf(console: V.Console, fmt: string, env: Env) returns (written: int, stores: seq<Piece>)
    requires console.Valid() && NUL !in fmt && CStrings(env) && Sized(fmt, env)
    modifies console, console.ram
    ensures console.Valid()
    ensures var text := Strip(Text(fmt, 0, env, 0));
      && console.term == V.Feed(old(console.term), C.Expand(text, true))
      && written == ToInt(|text| % WORD)
    ensures stores == Stores(Pieces(fmt, 0, env, 0, 0, ClipLength(), 0))
  {
    hide CStrings, Sized, Pieces, Text, Said, Count, Stores, Clipped, Clip, V.Feed, C.Expand;
    var out := new Sink(Screen(console));
    written := PrintfEngine(out, fmt, env);
    ghost var ps := Pieces(fmt, 0, env, 0, 0, ClipLength(), 0);
    assert out.log == [] + ps == ps;
    SimplePieces(fmt, 0, env, 0, 0, ClipLength(), 0);
    ClippedIsStripped(ps, 0);
    ClipIsHonest();
    PiecesSpellText(fmt, 0, env, 0, 0, ClipLength(), 0);
    stores := out.stores;
  }

  lemma ClipIsHonest()
    ensures Honest(ClipLength())
  {
    forall s | NUL !in s ensures Clip(s) == s {
      ClipNothing(s);
    }
  }

  /** Buffer and console are given the same characters exactly if no `%c` that is reached has an argument of low byte 0. */
  lemma SinksAgree(fmt: string, env: Env)
    requires NUL !in fmt && CStrings(env)
    ensures Clipped(Pieces(fmt, 0, env, 0, 0, ClipLength(), 0)) == Said(Pieces(fmt, 0, env, 0, 0, Length(), 0))
      <==> !NulArg(fmt, 0, env, 0)
  {
    hide CStrings, Pieces, Text, Said, Clipped, Clip, Strip, NulArg;
    ClipIsHonest();
    PiecesSpellText(fmt, 0, env, 0, 0, Length(), 0);
    PiecesSpellText(fmt, 0, env, 0, 0, ClipLength(), 0);
    SimplePieces(fmt, 0, env, 0, 0, ClipLength(), 0);
    ClippedIsStripped(Pieces(fmt, 0, env, 0, 0, ClipLength(), 0), 0);
    StripNothing(Text(fmt, 0, env, 0));
    TextNul(fmt, 0, env, 0);
  }

  /** `%c` of 0 puts a NUL into the buffer and nothing on the console. */
  lemma NulCharacter(env: Env)
    requires CStrings(env) && env.va(0) == 0
    ensures NulArg("%c", 0, env, 0)
    ensures Said(Pieces("%c", 0, env, 0, 0, Length(), 0)) == [NUL]
    ensures Clipped(Pieces("%c", 0, env, 0, 0, ClipLength(), 0)) == ""
  {
    hide CStrings, Pieces, Said, Clipped, Clip, NulArg;
    ClipIsHonest();
    OneNul(env);
    PiecesSpellText("%c", 0, env, 0, 0, Length(), 0);
    PiecesSpellText("%c", 0, env, 0, 0, ClipLength(), 0);
    SimplePieces("%c", 0, env, 0, 0, ClipLength(), 0);
    ClippedIsStripped(Pieces("%c", 0, env, 0, 0, ClipLength(), 0), 0);
    TextNul("%c", 0, env, 0);
  }

  lemma OneNul(env: Env)
    requires env.va(0) == 0
    ensures Text("%c", 0, env, 0) == [NUL] && Strip([NUL]) == ""
  {
    assert Scan("%c", 1, {}, 0) == Spec({}, 0, 'c', 2);
    assert Text("%c", 2, env, 1) == "";
    assert [NUL][..0] == "";
  }
}
