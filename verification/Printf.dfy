/**
 _printf_engine, against the denotation of a format.
 */
module Printf {
  import opened Format
  import opened Numbers
  import opened Output

  // ------------------------------------------------------------------ what putting pieces out does

  /** No output function call fails, when `n` pieces went before. */
  ghost predicate Quiet(ps: seq<Piece>, reply: Reply, n: nat) {
    forall k :: 0 <= k < |ps| && ps[k].Out? ==> reply(n + k, ps[k].s) >= 0
  }

  /** Piece `k` is the first one the output function refuses. */
  ghost predicate FailsAt(ps: seq<Piece>, k: int, reply: Reply, n: nat) {
    0 <= k < |ps| && ps[k].Out? && reply(n + k, ps[k].s) < 0 && Quiet(ps[..k], reply, n)
  }

  /** The log ends with the pieces up to the first refused one, which is tried. */
  ghost predicate Failed(before: seq<Piece>, after: seq<Piece>, ps: seq<Piece>, reply: Reply, err: int) {
    var n := |before|;
    exists k :: FailsAt(ps, k, reply, n) && err == reply(n + k, ps[k].s) && after == before + ps[..k + 1]
  }

  /** From `before` the log grew by `ps`, and the count of characters from `w` to `w'`, unless a piece was refused. */
  ghost predicate Emitted(before: seq<Piece>, after: seq<Piece>, ps: seq<Piece>, reply: Reply, w: Word, w': Word, err: int) {
    var n := |before|;
    if err >= 0 then Quiet(ps, reply, n) && after == before + ps && w' == (w + Count(ps, reply, n)) % WORD
    else Failed(before, after, ps, reply, err)
  }

  lemma EmittedNone(log: seq<Piece>, reply: Reply, w: Word)
    ensures Emitted(log, log, [], reply, w, w, 0)
  {
    assert log == log + [];
  }

  lemma CountOne(p: Piece, reply: Reply, n: nat)
    ensures Count([p], reply, n) == if p.Out? then reply(n, p.s) else 0
  {
    assert [p][..0] == [];
  }

  lemma EmittedOne(before: seq<Piece>, p: Piece, reply: Reply, w: Word, err: int, w': Word)
    requires err == if p.Out? then reply(|before|, p.s) else 0
    requires err >= 0 ==> w' == (w + err) % WORD
    ensures Emitted(before, before + [p], [p], reply, w, w', err)
  {
    CountOne(p, reply, |before|);
    if err < 0 {
      assert FailsAt([p], 0, reply, |before|);
      assert [p][..1] == [p];
    }
  }

  lemma Later(w: int, x: int, y: int)
    ensures ((w + x) % WORD + y) % WORD == (w + (x + y)) % WORD
  {
  }

  lemma QuietConcat(ps: seq<Piece>, qs: seq<Piece>, reply: Reply, n: nat)
    requires Quiet(ps, reply, n) && Quiet(qs, reply, n + |ps|)
    ensures Quiet(ps + qs, reply, n)
  {
    forall k | 0 <= k < |ps + qs| && (ps + qs)[k].Out? ensures reply(n + k, (ps + qs)[k].s) >= 0 {
      if k >= |ps| {
        assert (ps + qs)[k] == qs[k - |ps|] && n + |ps| + (k - |ps|) == n + k;
      }
    }
  }

  /** A refusal is final: what would have come after it does not matter. */
  lemma FailedStops(before: seq<Piece>, after: seq<Piece>, ps: seq<Piece>, qs: seq<Piece>, reply: Reply, err: int)
    requires Failed(before, after, ps, reply, err)
    ensures Failed(before, after, ps + qs, reply, err)
  {
    var n := |before|;
    var k :| FailsAt(ps, k, reply, n) && err == reply(n + k, ps[k].s) && after == before + ps[..k + 1];
    assert (ps + qs)[..k] == ps[..k] && (ps + qs)[..k + 1] == ps[..k + 1];
    assert FailsAt(ps + qs, k, reply, n);
  }

  lemma FailedLater(before: seq<Piece>, after: seq<Piece>, ps: seq<Piece>, qs: seq<Piece>, reply: Reply, err: int)
    requires Quiet(ps, reply, |before|) && Failed(before + ps, after, qs, reply, err)
    ensures Failed(before, after, ps + qs, reply, err)
  {
    hide Quiet;
    var n := |before|;
    var k :| FailsAt(qs, k, reply, n + |ps|) && err == reply(n + |ps| + k, qs[k].s) && after == before + ps + qs[..k + 1];
    var m := |ps| + k;
    assert (ps + qs)[..m] == ps + qs[..k] && (ps + qs)[..m + 1] == ps + qs[..k + 1];
    assert before + ps + qs[..k + 1] == before + (ps + qs[..k + 1]);
    assert n + |ps| + k == n + m;
    QuietConcat(ps, qs[..k], reply, n);
    assert FailsAt(ps + qs, m, reply, n);
  }

  lemma EmittedThen(b: seq<Piece>, m: seq<Piece>, a: seq<Piece>, ps: seq<Piece>, qs: seq<Piece>, reply: Reply,
                    w: Word, w1: Word, w2: Word, e1: int, e2: int)
    requires e1 >= 0 && Emitted(b, m, ps, reply, w, w1, e1) && Emitted(m, a, qs, reply, w1, w2, e2)
    ensures Emitted(b, a, ps + qs, reply, w, w2, e2)
  {
    hide Quiet, Failed, Count;
    var n := |b|;
    if e2 >= 0 {
      QuietConcat(ps, qs, reply, n);
      CountConcat(ps, qs, reply, n);
      Later(w, Count(ps, reply, n), Count(qs, reply, n + |ps|));
      assert b + ps + qs == b + (ps + qs);
    } else {
      FailedLater(b, a, ps, qs, reply, e2);
    }
  }

  lemma EmittedStops(b: seq<Piece>, a: seq<Piece>, ps: seq<Piece>, qs: seq<Piece>, reply: Reply, w: Word, w': Word, err: int)
    requires err < 0 && Emitted(b, a, ps, reply, w, w', err)
    ensures Emitted(b, a, ps + qs, reply, w, w', err)
  {
    FailedStops(b, a, ps, qs, reply, err);
  }

  /** What is known between two pieces: the log, the count, and that the rest still fits. */
  lemma Between(target: Target, b: seq<Piece>, m: seq<Piece>, ps: seq<Piece>, qs: seq<Piece>, reply: Reply,
                w: Word, w1: Word, err: int)
    requires err >= 0 && Emitted(b, m, ps, reply, w, w1, err) && Fits(target, b, ps + qs)
    ensures m == b + ps && w1 == (w + Count(ps, reply, |b|)) % WORD && Fits(target, m, qs)
  {
    hide Quiet, Count, Fits;
    FitsSplit(target, b, ps, qs);
  }

  // ------------------------------------------------------------------ putting out

  /** OUTPUT_STRING. */
  method OutputString(out: Sink, s: string, chars_written: Word) returns (err: int, written: Word)
    requires out.Valid() && |s| <= INT_MAX && Fits(out.target, out.log, [Out(s)])
    modifies out.Frame()
    ensures out.Valid()
    ensures err == out.Reply()(|old(out.log)|, s)
    ensures Emitted(old(out.log), out.log, [Out(s)], out.Reply(), chars_written, written, err)
  {
    hide Answers, Emitted;
    written := chars_written;
    err := out.Put(s);
    if err >= 0 {
      written := (chars_written + err) % WORD;
    }
    EmittedOne(old(out.log), Out(s), out.Reply(), chars_written, err, written);
  }

  /** The padding loops: `width - n` copies of `c`, if that is positive. */
  method Pad(out: Sink, c: char, width: nat, n: nat, chars_written: Word) returns (err: int, written: Word)
    requires out.Valid() && Fits(out.target, out.log, Chars(c, Max0(width - n)))
    modifies out.Frame()
    ensures out.Valid()
    ensures Emitted(old(out.log), out.log, Chars(c, Max0(width - n)), out.Reply(), chars_written, written, err)
  {
    hide Emitted, Answers, Fits, Said, Chars;
    ghost var reply, b := out.Reply(), out.log;
    var format_num := width;
    err, written := 0, chars_written;
    EmittedNone(b, reply, written);
    NoChars(c);
    while format_num > n
      invariant format_num <= width && (format_num >= n || format_num == width)
      invariant out.Valid() && err >= 0
      invariant Emitted(b, out.log, Chars(c, width - format_num), reply, chars_written, written, err)
    {
      ghost var m, e, w, k := out.log, err, written, width - format_num;
      CharsSplit(c, k, width - n);
      Between(out.target, b, m, Chars(c, k), [Out([c])] + Chars(c, width - n - k - 1), reply, chars_written, w, e);
      FitsSplit(out.target, m, [Out([c])], Chars(c, width - n - k - 1));
      err, written := OutputString(out, [c], written);
      EmittedThen(b, m, out.log, Chars(c, k), [Out([c])], reply, chars_written, w, written, e, err);
      if err < 0 {
        EmittedStops(b, out.log, Chars(c, k + 1), Chars(c, width - n - k - 1), reply, chars_written, written, err);
        return;
      }
      format_num := format_num - 1;
    }
  }

  lemma NoChars(c: char)
    ensures Chars(c, 0) == []
  {
  }

  /** Padding with the next character split off. */
  lemma CharsSplit(c: char, k: nat, n: nat)
    requires k < n
    ensures Chars(c, k + 1) == Chars(c, k) + [Out([c])]
    ensures Chars(c, n) == Chars(c, k) + ([Out([c])] + Chars(c, n - k - 1)) == Chars(c, k + 1) + Chars(c, n - k - 1)
  {
  }

  /** The sign character, where it is wanted. */
  method PutSign(out: Sink, wanted: bool, signchar: char, chars_written: Word) returns (err: int, written: Word)
    requires out.Valid() && Fits(out.target, out.log, if wanted then SignPieces(signchar) else [])
    modifies out.Frame()
    ensures out.Valid()
    ensures Emitted(old(out.log), out.log, if wanted then SignPieces(signchar) else [], out.Reply(), chars_written, written, err)
  {
    hide Emitted, Answers, Fits;
    err, written := 0, chars_written;
    if wanted && signchar != NUL {
      err, written := OutputString(out, [signchar], chars_written);
    } else {
      EmittedNone(out.log, out.Reply(), written);
    }
  }

  /** Left justification: the text, then blanks. */
  method PutLeft(out: Sink, s: string, width: Word, chars_written: Word) returns (err: int, written: Word)
    requires out.Valid() && |s| <= INT_MAX
    requires Fits(out.target, out.log, [Out(s)] + Chars(' ', Max0(width - out.Reply()(|out.log|, s))))
    modifies out.Frame()
    ensures out.Valid()
    ensures Emitted(old(out.log), out.log, [Out(s)] + Chars(' ', Max0(width - out.Reply()(|old(out.log)|, s))), out.Reply(),
      chars_written, written, err)
  {
    hide Emitted, Answers, Chars, Fits;
    ghost var reply, b := out.Reply(), out.log;
    ghost var rest := Chars(' ', Max0(width - reply(|b|, s)));
    FitsSplit(out.target, b, [Out(s)], rest);
    err, written := OutputString(out, s, chars_written);
    if err < 0 {
      EmittedStops(b, out.log, [Out(s)], rest, reply, chars_written, written, err);
      return;
    }
    ghost var m, e, w := out.log, err, written;
    Between(out.target, b, m, [Out(s)], rest, reply, chars_written, w, e);
    err, written := Pad(out, ' ', width, err, written);
    EmittedThen(b, m, out.log, [Out(s)], rest, reply, chars_written, w, written, e, err);
  }

  /** Right justification: the sign before zeros, or after blanks. */
  method PutRight(out: Sink, zeros: bool, signchar: char, s: string, width: Word, chars_written: Word)
    returns (err: int, written: Word)
    requires out.Valid() && |s| <= INT_MAX && Fits(out.target, out.log, RightPieces(zeros, width, signchar, s))
    modifies out.Frame()
    ensures out.Valid()
    ensures Emitted(old(out.log), out.log, RightPieces(zeros, width, signchar, s), out.Reply(), chars_written, written, err)
  {
    hide Emitted, Answers, Chars, SignPieces, Fits, RightPieces;
    ghost var reply := out.Reply();
    ghost var b := out.log;
    var format_num := width;
    if signchar != NUL && format_num > 0 {
      format_num := format_num - 1;
    }
    ghost var blanks := Max0(format_num - |s|);
    ghost var p1, p2 := if zeros then SignPieces(signchar) else [], Chars(if zeros then '0' else ' ', blanks);
    ghost var p3 := if !zeros then SignPieces(signchar) else [];
    RightSplit(zeros, width, signchar, s, p1, p2, p3);
    FitsSplit(out.target, b, p1, p2 + p3 + [Out(s)]);
    err, written := PutSign(out, zeros, signchar, chars_written);
    if err < 0 {
      EmittedStops(b, out.log, p1, p2 + p3 + [Out(s)], reply, chars_written, written, err);
      return;
    }
    ghost var m, e, w := out.log, err, written;
    Between(out.target, b, m, p1, p2 + p3 + [Out(s)], reply, chars_written, w, e);
    FitsSplit(out.target, m, p2, p3 + [Out(s)]);
    err, written := Pad(out, if zeros then '0' else ' ', format_num, |s|, written);
    EmittedThen(b, m, out.log, p1, p2, reply, chars_written, w, written, e, err);
    if err < 0 {
      EmittedStops(b, out.log, p1 + p2, p3 + [Out(s)], reply, chars_written, written, err);
      return;
    }
    m, e, w := out.log, err, written;
    Between(out.target, b, m, p1 + p2, p3 + [Out(s)], reply, chars_written, w, e);
    FitsSplit(out.target, m, p3, [Out(s)]);
    err, written := PutSign(out, !zeros, signchar, written);
    EmittedThen(b, m, out.log, p1 + p2, p3, reply, chars_written, w, written, e, err);
    if err < 0 {
      EmittedStops(b, out.log, p1 + p2 + p3, [Out(s)], reply, chars_written, written, err);
      return;
    }
    m, e, w := out.log, err, written;
    Between(out.target, b, m, p1 + p2 + p3, [Out(s)], reply, chars_written, w, e);
    err, written := OutputString(out, s, written);
    EmittedThen(b, m, out.log, p1 + p2 + p3, [Out(s)], reply, chars_written, w, written, e, err);
  }

  /** Right-justified pieces in one formula for both paddings. */
  lemma RightSplit(zeros: bool, width: Word, signchar: char, s: string, p1: seq<Piece>, p2: seq<Piece>, p3: seq<Piece>)
    requires p1 == if zeros then SignPieces(signchar) else []
    requires p2 == Chars(if zeros then '0' else ' ', Max0((if signchar != NUL && width > 0 then width - 1 else width) - |s|))
    requires p3 == if !zeros then SignPieces(signchar) else []
    ensures RightPieces(zeros, width, signchar, s) == p1 + p2 + p3 + [Out(s)]
    ensures p1 + (p2 + p3 + [Out(s)]) == p1 + p2 + p3 + [Out(s)] == p1 + p2 + (p3 + [Out(s)])
    ensures p2 + (p3 + [Out(s)]) == p2 + p3 + [Out(s)]
  {
    hide Chars, SignPieces;
    Regroup(p1, p2, p3, [Out(s)]);
    if zeros {
      assert p1 + p2 + [] == p1 + p2;
    } else {
      assert [] + p2 == p2;
    }
  }

  lemma Regroup(p: seq<Piece>, q: seq<Piece>, r: seq<Piece>, t: seq<Piece>)
    ensures p + (q + r + t) == p + q + r + t == p + q + (r + t)
    ensures q + (r + t) == q + r + t
  {
  }

  /** _output_string. */
  method PutField(out: Sink, flags: set<Flag>, width: Word, signchar: char, s: string, chars_written: Word)
    returns (err: int, written: Word)
    requires out.Valid() && |s| <= INT_MAX
    requires Fits(out.target, out.log, FieldPieces(flags, width, signchar, s, out.Reply(), |out.log|))
    modifies out.Frame()
    ensures out.Valid()
    ensures Emitted(old(out.log), out.log, FieldPieces(flags, width, signchar, s, out.Reply(), |old(out.log)|), out.Reply(),
      chars_written, written, err)
  {
    hide Emitted, Answers, Chars, Fits, RightPieces;
    if LEFTFORMATFLAG in flags {
      err, written := PutLeft(out, s, width, chars_written);
    } else {
      err, written := PutRight(out, LEADZEROFLAG in flags, signchar, s, width, chars_written);
    }
  }

  // ------------------------------------------------------------------ conversions

  /** strlen. */
  method Strlen(s: string) returns (i: nat)
    requires NUL in s
    ensures i < |s| && s[i] == NUL && NUL !in s[..i]
  {
    i := 0;
    while s[i] != NUL
      invariant i < |s| && NUL !in s[..i]
      decreases |s| - i
    {
      assert s[..i + 1] == s[..i] + [s[i]];
      assert s[..|s|] == s;
      i := i + 1;
    }
  }

  lemma FirstNul(s: string, t: string, i: nat)
    requires NUL !in s && s + [NUL] <= t && i < |t| && t[i] == NUL && NUL !in t[..i]
    ensures i == |s| && t[..i] == s
  {
    assert forall k :: 0 <= k < i ==> t[k] in t[..i];
    assert forall k :: 0 <= k < |s| ==> t[k] == s[k] && s[k] in s;
    assert t[|s|] == NUL;
  }

  /** Fetches a numeric argument and writes its digits into the buffer. */
  method Digits(num_buffer: array<char>, conv: char, flags: set<Flag>, env: Env, a: nat)
    returns (start: nat, signchar: char, prefix: string, flags': set<Flag>, words: nat)
    requires num_buffer.Length == 32 && IsNumeric(conv)
    modifies num_buffer
    ensures start < 32 && num_buffer[start..] == NumberOf(conv, flags, env, a).digits + [NUL]
    ensures NumberOf(conv, flags, env, a) ==
      Number(prefix, flags', signchar, NumberOf(conv, flags, env, a).digits, words)
  {
    hide Numeral, SignedArg, UnsignedArg, SignChar, Magnitude;
    var arg: (nat, nat);
    flags', prefix, signchar := flags, "", NUL;
    if conv == 'd' || conv == 'i' {
      arg := SignedArg(flags', env, a);
      flags' := flags' + {SIGNEDFLAG};
      start, signchar := LonglongToString(num_buffer, arg.0, flags');
    } else if conv == 'u' {
      arg := UnsignedArg(flags', env, a);
      start, signchar := LonglongToString(num_buffer, arg.0, flags');
    } else {
      if conv == 'p' {
        flags' := flags' + {LONGFLAG, ALTFLAG};
      } else if conv == 'X' {
        flags' := flags' + {CAPSFLAG};
      }
      arg := UnsignedArg(flags', env, a);
      start := LonglongToHexstring(num_buffer, arg.0, flags');
      if ALTFLAG in flags' {
        prefix := if CAPSFLAG in flags' then "0X" else "0x";
      }
    }
    words := arg.1;
    assert num_buffer[start..] == num_buffer[start..31] + [num_buffer[31]];
  }

  /** Two pieces, one character each. */
  method PutTwo(out: Sink, c: char, d: char, chars_written: Word) returns (err: int, written: Word)
    requires out.Valid() && Fits(out.target, out.log, [Out([c])] + [Out([d])])
    modifies out.Frame()
    ensures out.Valid()
    ensures Emitted(old(out.log), out.log, [Out([c])] + [Out([d])], out.Reply(), chars_written, written, err)
  {
    hide Emitted, Answers, Fits;
    ghost var reply, b, p, q := out.Reply(), out.log, [Out([c])], [Out([d])];
    FitsSplit(out.target, b, p, q);
    err, written := OutputString(out, [c], chars_written);
    if err < 0 {
      EmittedStops(b, out.log, p, q, reply, chars_written, written, err);
      return;
    }
    ghost var m, e, w := out.log, err, written;
    Between(out.target, b, m, p, q, reply, chars_written, w, e);
    err, written := OutputString(out, [d], written);
    EmittedThen(b, m, out.log, p, q, reply, chars_written, w, written, e, err);
  }

  /** The two characters before an alternate hexadecimal number. */
  method PutPrefix(out: Sink, prefix: string, chars_written: Word) returns (err: int, written: Word)
    requires out.Valid() && prefix in ["", "0x", "0X"] && Fits(out.target, out.log, PrefixPieces(prefix))
    modifies out.Frame()
    ensures out.Valid()
    ensures Emitted(old(out.log), out.log, PrefixPieces(prefix), out.Reply(), chars_written, written, err)
  {
    hide Emitted, Answers, Fits;
    if prefix == "" {
      err, written := 0, chars_written;
      EmittedNone(out.log, out.Reply(), written);
      assert PrefixPieces(prefix) == [];
    } else {
      assert PrefixPieces(prefix) == [Out([prefix[0]])] + [Out([prefix[1]])];
      err, written := PutTwo(out, prefix[0], prefix[1], chars_written);
    }
  }

  /** What a numeric directive hands out. */
  ghost function NumberPieces(x: Number, width: Word, reply: Reply, n: nat): seq<Piece> {
    PrefixPieces(x.prefix) + FieldPieces(x.flags, width, x.sign, x.digits, reply, n + |x.prefix|)
  }

  lemma PrefixLength(prefix: string)
    ensures |PrefixPieces(prefix)| == |prefix|
  {
  }

  method PutNumber(out: Sink, conv: char, flags: set<Flag>, width: Word, env: Env, a: nat, chars_written: Word)
    returns (err: int, written: Word, words: nat)
    requires out.Valid() && IsNumeric(conv)
    requires Fits(out.target, out.log, NumberPieces(NumberOf(conv, flags, env, a), width, out.Reply(), |out.log|))
    modifies out.Frame()
    ensures out.Valid()
    ensures words == NumberOf(conv, flags, env, a).words
    ensures Emitted(old(out.log), out.log, NumberPieces(NumberOf(conv, flags, env, a), width, out.Reply(), |old(out.log)|),
      out.Reply(), chars_written, written, err)
  {
    hide Emitted, Answers, NumberOf, FieldPieces, PrefixPieces, Fits, Said, Stores, Clipped, Filled, Numeral;
    ghost var reply, b, x := out.Reply(), out.log, NumberOf(conv, flags, env, a);
    var num_buffer := new char[32];
    var start, signchar, prefix, flags' := 0, NUL, "", flags;
    start, signchar, prefix, flags', words := Digits(num_buffer, conv, flags, env, a);
    var s := num_buffer[start..];
    ghost var pre, field := PrefixPieces(prefix), FieldPieces(x.flags, width, x.sign, x.digits, reply, |b| + |prefix|);
    PrefixLength(prefix);
    PrefixCases(conv, flags, env, a);
    FitsSplit(out.target, b, pre, field);
    err, written := PutPrefix(out, prefix, chars_written);
    if err < 0 {
      EmittedStops(b, out.log, pre, field, reply, chars_written, written, err);
      return;
    }
    var string_len := Strlen(s);
    NumberHasNoNul(conv, flags, env, a);
    FirstNul(x.digits, s, string_len);
    ghost var m, e, w := out.log, err, written;
    Between(out.target, b, m, pre, field, reply, chars_written, w, e);
    err, written := PutField(out, flags', width, signchar, s[..string_len], written);
    EmittedThen(b, m, out.log, pre, field, reply, chars_written, w, written, e, err);
  }

  // ------------------------------------------------------------------ the engine

  /** Strings that an `int` can count. */
  ghost predicate Sized(fmt: string, env: Env) {
    |fmt| <= INT_MAX && forall p: Word :: |env.str(p)| <= INT_MAX
  }

  /** The characters up to the next `%` or the end. */
  method ScanLiteral(fmt: string, i: nat) returns (j: nat)
    requires i <= |fmt| && NUL !in fmt
    ensures j == LiteralEnd(fmt, i)
  {
    j := i;
    while j < |fmt| && fmt[j] != '%'
      invariant i <= j <= |fmt| && LiteralEnd(fmt, i) == LiteralEnd(fmt, j)
    {
      j := j + 1;
    }
  }

  /** A modifier of a directive sets its flags; anything else ends the directive. */
  method Modify(c: char, flags: set<Flag>) returns (flags': set<Flag>, more: bool)
    ensures flags' == flags + Modifier(c, flags) && more == (c == '.' || Modifier(c, flags) != {})
  {
    flags', more := flags, true;
    if c == '-' {
      flags' := flags + {LEFTFORMATFLAG};
    } else if c == '+' {
      flags' := flags + {SHOWSIGNFLAG};
    } else if c == ' ' {
      flags' := flags + {BLANKPOSFLAG};
    } else if c == '#' {
      flags' := flags + {ALTFLAG};
    } else if c == 'l' {
      if LONGFLAG in flags {
        flags' := flags' + {LONGLONGFLAG};
      }
      flags' := flags' + {LONGFLAG};
    } else if c == 'h' {
      if HALFFLAG in flags {
        flags' := flags' + {HALFHALFFLAG};
      }
      flags' := flags' + {HALFFLAG};
    } else if c == 'z' {
      flags' := flags + {SIZETFLAG};
    } else if c == 'j' {
      flags' := flags + {INTMAXFLAG};
    } else if c == 't' {
      flags' := flags + {PTRDIFFFLAG};
    } else if c != '.' {
      more := false;
    }
  }

  /** next_format: flags and width, up to the conversion character. */
  method ScanDirective(fmt: string, i: nat) returns (flags: set<Flag>, format_num: Word, c: char, next: nat)
    requires i <= |fmt|
    ensures Spec(flags, format_num, c, next) == Scan(fmt, i, {}, 0)
  {
    hide Scan, Modifier;
    flags, format_num, c, next := {}, 0, At(fmt, i), i;
    while true
      invariant i <= next <= |fmt| && c == At(fmt, next)
      invariant Scan(fmt, i, {}, 0) == Scan(fmt, next, flags, format_num)
      decreases |fmt| - next
    {
      ScanUnfold(fmt, next, flags, format_num);
      if c == NUL {
        return;
      }
      next := next + 1;
      if IsDigit(c) {
        if c == '0' && format_num == 0 {
          flags := flags + {LEADZEROFLAG};
        }
        Later(0, format_num * 10, c as int - '0' as int);
        format_num := format_num * 10 % WORD;
        format_num := (format_num + (c as int - '0' as int)) % WORD;
      } else {
        var more;
        flags, more := Modify(c, flags);
        if !more {
          return;
        }
      }
      c := At(fmt, next);
    }
  }

  /** `%n`. */
  method PutCount(out: Sink, flags: set<Flag>, ptr: Word, chars_written: Word)
    requires out.Valid()
    modifies out`stores, out`count, out`log
    ensures out.Valid()
    ensures Emitted(old(out.log), out.log, [Store(ptr, StoreSize(flags), StoreValue(flags, chars_written))], out.Reply(),
      chars_written, chars_written, 0)
  {
    hide Emitted, Answers, Said, Stores, Clipped, Filled, Count;
    var size, value := 4, chars_written;
    if LONGLONGFLAG in flags {
      size := 8;
    } else if LONGFLAG in flags {
      size := 4;
    } else if HALFHALFFLAG in flags {
      size, value := 1, chars_written % 256;
    } else if HALFFLAG in flags {
      size, value := 2, chars_written % 65536;
    }
    ghost var b := out.log;
    out.StoreThrough(ptr, size, value);
    EmittedOne(b, Store(ptr, size, value), out.Reply(), chars_written, 0, chars_written);
  }

  /** The switch on the conversion character. */
  method PutDirective(out: Sink, d: Spec, env: Env, a: nat, chars_written: Word) returns (err: int, written: Word, words: nat)
    requires out.Valid() && CStrings(env) && Sized("", env)
    requires Fits(out.target, out.log, DirectivePieces(d, env, a, chars_written, out.Reply(), |out.log|))
    modifies out.Frame()
    ensures out.Valid() && words == Words(d, env, a)
    ensures Emitted(old(out.log), out.log, DirectivePieces(d, env, a, chars_written, out.Reply(), |old(out.log)|), out.Reply(),
      chars_written, written, err)
  {
    hide Emitted, Answers, NumberOf, FieldPieces, PrefixPieces, StoreSize, StoreValue, Fits;
    words := 0;
    if d.conv == '%' {
      err, written := OutputString(out, "%", chars_written);
    } else if d.conv == 'c' {
      words := 1;
      err, written := OutputString(out, [(env.va(a) % 256) as char], chars_written);
    } else if d.conv == 's' {
      words := 1;
      var s := if env.va(a) == 0 then "<null>" + [NUL] else env.str(env.va(a)) + [NUL];
      var string_len := Strlen(s);
      FirstNul(StringArg(env, a), s, string_len);
      err, written := PutField(out, d.flags - {LEADZEROFLAG}, d.width, NUL, s[..string_len], chars_written);
    } else if IsNumeric(d.conv) {
      err, written, words := PutNumber(out, d.conv, d.flags, d.width, env, a, chars_written);
    } else if d.conv == 'n' {
      words := 1;
      err, written := 0, chars_written;
      PutCount(out, d.flags, env.va(a), chars_written);
    } else {
      assert [Out("%"), Out([d.conv])] == [Out("%")] + [Out([d.conv])];
      err, written := PutTwo(out, '%', d.conv, chars_written);
    }
  }

  /** The conversion of size_t to int. */
  function ToInt(w: Word): int {
    if w < 0x8000_0000 then w else w - WORD
  }

  /** All pieces are put out in order and counted, or those up to the first refused one, whose answer is returned. */
  ghost predicate Outcome(before: seq<Piece>, after: seq<Piece>, ps: seq<Piece>, reply: Reply, result: int) {
    var n := |before|;
    if Quiet(ps, reply, n) then after == before + ps && result == ToInt(Count(ps, reply, n) % WORD)
    else Failed(before, after, ps, reply, result)
  }

  method PrintfEngine(out: Sink, fmt: string, env: Env) returns (result: int)
    requires out.Valid() && NUL !in fmt && CStrings(env) && Sized(fmt, env)
    requires Fits(out.target, out.log, Pieces(fmt, 0, env, 0, 0, out.Reply(), |out.log|))
    modifies out.Frame()
    ensures out.Valid()
    ensures Outcome(old(out.log), out.log, Pieces(fmt, 0, env, 0, 0, out.Reply(), |old(out.log)|), out.Reply(), result)
  {
    hide Emitted, Answers, CStrings, Outcome, Pieces, Fits;
    ghost var reply, b := out.Reply(), out.log;
    ghost var all := Pieces(fmt, 0, env, 0, 0, reply, |b|);
    ghost var done, left := [], all;
    var i, a, chars_written, err, more := 0, 0, 0, 0, true;
    EmittedNone(b, reply, 0);
    assert all == [] + all;
    while more
      invariant i <= |fmt| && out.Valid() && err >= 0
      invariant Emitted(b, out.log, done, reply, 0, chars_written, err)
      invariant all == done + left
      invariant left == if more then Pieces(fmt, i, env, a, chars_written, reply, |out.log|) else []
      decreases more, |fmt| - i
    {
      ghost var m, e, w, ps := out.log, err, chars_written, [];
      Between(out.target, b, m, done, left, reply, 0, w, e);
      err, chars_written, i, a, more, ps := Turn(out, fmt, i, env, a, chars_written);
      EmittedThen(b, m, out.log, done, ps, reply, 0, w, chars_written, e, err);
      assert all == done + ps + left[|ps|..];
      done := done + ps;
      if err < 0 {
        Finished(b, out.log, done, all, reply, chars_written, err);
        return err;
      }
      left := if more then Pieces(fmt, i, env, a, chars_written, reply, |out.log|) else [];
    }
    Finished(b, out.log, done, all, reply, chars_written, err);
    result := ToInt(chars_written);
  }

  /** One turn of the loop: text, then a directive. It emits `ps`, with which the remaining pieces begin. */
  method Turn(out: Sink, fmt: string, i: nat, env: Env, a: nat, chars_written: Word)
    returns (err: int, written: Word, next: nat, a': nat, more: bool, ghost ps: seq<Piece>)
    requires out.Valid() && i <= |fmt| && NUL !in fmt && CStrings(env) && Sized(fmt, env)
    requires Fits(out.target, out.log, Pieces(fmt, i, env, a, chars_written, out.Reply(), |out.log|))
    modifies out.Frame()
    ensures out.Valid() && i <= next <= |fmt| && (more ==> i < next)
    ensures Emitted(old(out.log), out.log, ps, out.Reply(), chars_written, written, err)
    ensures ps <= Pieces(fmt, i, env, a, chars_written, out.Reply(), |old(out.log)|)
    ensures err >= 0 ==>
      Pieces(fmt, i, env, a, chars_written, out.Reply(), |old(out.log)|)
      == ps + if more then Pieces(fmt, next, env, a', written, out.Reply(), |out.log|) else []
  {
    hide Emitted, Answers, LiteralEnd, Scan, DirectivePieces, Words, CStrings, Pieces, Fits, Count;
    ghost var reply, b := out.Reply(), out.log;
    next, a', more := i, a, false;
    ghost var lit, rest := PiecesUnfold(fmt, i, env, a, chars_written, reply, |b|);
    FitsSplit(out.target, b, lit, rest);
    var j := ScanLiteral(fmt, i);
    ps := lit;
    err, written := OutputString(out, fmt[i..j], chars_written);
    if err < 0 {
      return;
    }
    Between(out.target, b, out.log, lit, rest, reply, chars_written, written, err);
    if j == |fmt| {
      return;
    }
    var flags, format_num, c, end := ScanDirective(fmt, j + 1);
    if c == NUL {
      return;
    }
    var d := Spec(flags, format_num, c, end);
    ghost var m, e, w, qs := out.log, err, written, DirectivePieces(d, env, a, written, reply, |out.log|);
    ghost var tail := rest[|qs|..];
    assert rest == qs + tail;
    FitsSplit(out.target, m, qs, tail);
    var words;
    err, written, words := PutDirective(out, d, env, a, written);
    EmittedThen(b, m, out.log, lit, qs, reply, chars_written, w, written, e, err);
    ps := lit + qs;
    assert lit + rest == ps + tail;
    if err >= 0 {
      Between(out.target, m, out.log, qs, tail, reply, w, written, err);
      next, a', more := end, a + words, true;
    }
  }

  /** One turn of the engine in the denotation: the literal text, and what follows it. */
  lemma PiecesUnfold(fmt: string, i: nat, env: Env, a: nat, w: Word, reply: Reply, n: nat)
    returns (lit: seq<Piece>, rest: seq<Piece>)
    requires i <= |fmt| && NUL !in fmt
    ensures lit == [Out(fmt[i..LiteralEnd(fmt, i)])] && Pieces(fmt, i, env, a, w, reply, n) == lit + rest
    ensures var j := LiteralEnd(fmt, i);
      if j == |fmt| || Scan(fmt, j + 1, {}, 0).conv == NUL then rest == []
      else
        var d := Scan(fmt, j + 1, {}, 0);
        var w1 := (w + Count(lit, reply, n)) % WORD;
        var ps := DirectivePieces(d, env, a, w1, reply, n + 1);
        var w2 := (w1 + Count(ps, reply, n + 1)) % WORD;
        rest == ps + Pieces(fmt, d.next, env, a + Words(d, env, a), w2, reply, n + 1 + |ps|)
  {
    hide LiteralEnd, Scan, DirectivePieces, Words, Count;
    lit := [Out(fmt[i..LiteralEnd(fmt, i)])];
    rest := Pieces(fmt, i, env, a, w, reply, n)[1..];
  }

  lemma Finished(b: seq<Piece>, a: seq<Piece>, ps: seq<Piece>, all: seq<Piece>, reply: Reply, w: Word, err: int)
    requires Emitted(b, a, ps, reply, 0, w, err) && ps <= all && (err >= 0 ==> ps == all)
    ensures Outcome(b, a, all, reply, if err < 0 then err else ToInt(w))
  {
    if err < 0 {
      FailedStops(b, a, ps, all[|ps|..], reply, err);
      assert all == ps + all[|ps|..];
    }
  }
}
