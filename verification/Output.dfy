/**
 The output functions the printf engine is used with: the truncating buffer of vsnprintf, and the console.
 */
module Output {
  import opened Format
  import opened Numbers
  import V = Vga
  import C = Consoles

  /** The longest string an `int` can count. */
  const INT_MAX := 0x7fff_ffff

  /** The part of `s` before its first NUL. */
  function Clip(s: string): (r: string)
    ensures r <= s && NUL !in r && (|r| < |s| ==> s[|r|] == NUL)
  {
    if s == "" || s[0] == NUL then "" else [s[0]] + Clip(s[1..])
  }

  /** What pieces say when each of them is cut at its first NUL. */
  function Clipped(ps: seq<Piece>): string {
    if ps == [] then "" else Clipped(ps[..|ps| - 1]) + if ps[|ps| - 1].Out? then Clip(ps[|ps| - 1].s) else ""
  }

  /** Which function `out` points to. For any other function only its answers are known. */
  datatype Target = Buffer(mem: array<char>, start: nat, len: nat) | Screen(console: V.Console) | Elsewhere(reply: Reply)

  /** Every character counts. */
  function Length(): Reply {
    (n, s) => |s|
  }

  /** Every character before a NUL counts. */
  function ClipLength(): Reply {
    (n, s) => |Clip(s)|
  }

  function Answers(target: Target): Reply {
    match target
    case Buffer(_, _, _) => Length()
    case Screen(_) => ClipLength()
    case Elsewhere(reply) => reply
  }

  function Min(x: nat, y: nat): nat {
    if x < y then x else y
  }

  /** Memory has room for what will have been stored when `ps` is put out after `log`. */
  ghost predicate Fits(target: Target, log: seq<Piece>, ps: seq<Piece>) {
    target.Buffer? ==> target.start + Min(target.len, |Said(log)| + |Said(ps)|) <= target.mem.Length
  }

  /** Memory after as much of `s` as fits was stored into the `len` bytes at `start`. */
  function Filled(before: string, start: nat, len: nat, s: string): string
    requires start + Min(len, |s|) <= |before|
  {
    before[..start] + s[..Min(len, |s|)] + before[start + Min(len, |s|)..]
  }

  /** `state`, together with the stores made through pointer arguments. */
  class Sink {
    const target: Target
    /** `pos` of struct _output_args. */
    var pos: nat
    /** The stores of `%n`, in order. */
    var stores: seq<Piece>
    /** How many pieces were put out or stored. */
    var count: nat
    /** Everything that was put out or stored, in order. */
    ghost var log: seq<Piece>
    ghost const before: string
    ghost const term: V.Terminal

    ghost function Frame(): set<object>
      reads if target.Screen? then {target.console} else {}
    {
      match target
      case Buffer(mem, _, _) => {this, mem}
      case Screen(console) => {this, console, console.ram}
      case Elsewhere(_) => {this}
    }

    ghost predicate Valid()
      reads this, Frame(), if target.Screen? then {target.console} else {}
    {
      && stores == Stores(log) && count == |log|
      && match target
         case Buffer(mem, start, len) =>
           start + Min(len, |Said(log)|) <= mem.Length == |before| && pos == Min(len, |Said(log)|)
           && mem[..] == Filled(before, start, len, Said(log))
         case Screen(console) =>
           console.Valid() && V.Proper(term) && console.term == V.Feed(term, C.Expand(Clipped(log), true))
         case Elsewhere(_) => true
    }

    function Reply(): Reply {
      Answers(target)
    }

    constructor (target: Target)
      requires target.Buffer? ==> target.start <= target.mem.Length
      requires target.Screen? ==> target.console.Valid()
      ensures Valid() && log == [] && stores == [] && this.target == target
      ensures target.Buffer? ==> before == target.mem[..]
      ensures target.Screen? ==> term == target.console.term
    {
      this.target, pos, stores, count, log := target, 0, [], 0, [];
      if target.Buffer? {
        before, term := target.mem[..], V.Terminal([], 0);
      } else if target.Screen? {
        before, term := "", target.console.term;
      } else {
        before, term := "", V.Terminal([], 0);
      }
    }

    /** `*ptr = chars_written` through an argument. */
    method StoreThrough(addr: Word, size: nat, value: int)
      requires Valid()
      modifies this`stores, this`count, this`log
      ensures Valid() && log == old(log) + [Store(addr, size, value)]
    {
      LogStore(log, Store(addr, size, value));
      stores, count := stores + [Store(addr, size, value)], count + 1;
      log := log + [Store(addr, size, value)];
    }

    /** _vsnprintf_output. */
    method VsnprintfOutput(s: string) returns (n: nat)
      requires Valid() && target.Buffer? && Fits(target, log, [Out(s)])
      modifies this`pos, this`count, this`log, target.mem
      ensures Valid() && log == old(log) + [Out(s)] && n == |s|
    {
      hide Said, Stores, Filled, Clipped;
      ghost var said := Said(log);
      LogOut(log, s);
      SaidOne(s);
      n := 0;
      assert said + s[..0] == said;
      while n < |s|
        invariant n <= |s| && log == old(log) && stores == old(stores) && count == old(count)
        invariant pos == Min(target.len, |said + s[..n]|)
        invariant target.start + Min(target.len, |said + s[..n]|) <= |before|
        invariant target.mem[..] == Filled(before, target.start, target.len, said + s[..n])
      {
        assert said + s[..n + 1] == said + s[..n] + [s[n]];
        FillMore(before, target.start, target.len, said + s[..n], s[n]);
        if pos < target.len {
          target.mem[target.start + pos] := s[n];
          pos := pos + 1;
        }
        n := n + 1;
      }
      assert s[..|s|] == s;
      count := count + 1;
      log := log + [Out(s)];
    }

    /** console_write as an output function; what follows the string in memory is not known. */
    method ConsoleOutput(s: string) returns (err: int)
      requires Valid() && target.Screen?
      modifies this`count, this`log, target.console, target.console.ram
      ensures Valid() && log == old(log) + [Out(s)] && err == |Clip(s)|
    {
      hide Stores, Clipped, Clip, C.Expand, V.Feed;
      var after: char := *;
      err := C.ConsoleWrite(target.console, s + [after], |s|, true);
      ClipStops(s, after, err);
      LogOut(log, s);
      C.WritesConcat(term, Clipped(log), Clip(s), true);
      count := count + 1;
      log := log + [Out(s)];
    }

    /** `out(str, len, state)`. */
    method Put(s: string) returns (err: int)
      requires Valid() && |s| <= INT_MAX && Fits(target, log, [Out(s)])
      modifies Frame()
      ensures Valid() && log == old(log) + [Out(s)] && err == Answers(target)(|old(log)|, s)
    {
      hide Said, Stores, Clipped, Filled, Clip;
      match target {
        case Buffer(_, _, _) => err := VsnprintfOutput(s);
        case Screen(_) => err := ConsoleOutput(s);
        case Elsewhere(reply) =>
          LogOut(log, s);
          err := reply(count, s);
          count := count + 1;
          log := log + [Out(s)];
      }
    }
  }

  /** The stores among `ps`. */
  function Stores(ps: seq<Piece>): seq<Piece> {
    if ps == [] then [] else Stores(ps[..|ps| - 1]) + if ps[|ps| - 1].Store? then [ps[|ps| - 1]] else []
  }

  lemma LogOut(ps: seq<Piece>, s: string)
    ensures Said(ps + [Out(s)]) == Said(ps) + s && Clipped(ps + [Out(s)]) == Clipped(ps) + Clip(s)
    ensures Stores(ps + [Out(s)]) == Stores(ps)
  {
  }

  lemma LogStore(ps: seq<Piece>, p: Piece)
    requires p.Store?
    ensures Said(ps + [p]) == Said(ps) && Clipped(ps + [p]) == Clipped(ps) && Stores(ps + [p]) == Stores(ps) + [p]
  {
  }

  lemma FillMore(before: string, start: nat, len: nat, s: string, c: char)
    requires start + Min(len, |s| + 1) <= |before|
    ensures var f := Filled(before, start, len, s);
      |f| == |before|
      && Filled(before, start, len, s + [c]) == if |s| < len then f[start + |s| := c] else f
  {
    if |s| < len {
      assert (s + [c])[..|s| + 1] == s + [c];
    } else {
      assert (s + [c])[..len] == s[..len];
    }
  }

  /** Room for pieces one after the other. */
  lemma FitsSplit(target: Target, log: seq<Piece>, ps: seq<Piece>, qs: seq<Piece>)
    requires Fits(target, log, ps + qs)
    ensures Fits(target, log, ps) && Fits(target, log + ps, qs)
  {
    hide Said;
    SaidConcat(ps, qs);
    SaidConcat(log, ps);
  }

  lemma ClipStops(s: string, after: char, i: nat)
    requires C.Stops(s + [after], |s|, i)
    ensures i == |Clip(s)| && (s + [after])[..i] == Clip(s)
  {
    var t, n := s + [after], |Clip(s)|;
    assert forall k :: 0 <= k < i ==> t[..i][k] == t[k] && t[k] in t[..i];
    assert forall k :: 0 <= k < n ==> t[k] == Clip(s)[k] && t[k] in Clip(s);
    assert n < |s| ==> t[n] == NUL;
  }
}
