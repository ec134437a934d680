/**
 What a printf format denotes: the text it produces, and the sequence of pieces in which _printf_engine hands it out.
 */
module Format {
  import opened Numbers

  const WORD := 0x1_0000_0000

  type Word = x: int | 0 <= x < WORD

  /** What a call can see: the words of its variable arguments, and the string at each address. */
  datatype Env = Env(va: nat -> Word, str: Word -> string)

  /** A call of the output function, or a store through a pointer argument. */
  datatype Piece = Out(s: string) | Store(addr: Word, size: nat, value: int)

  /**
   What the output function answers, by the number of pieces before the call and the string it is given. As no two calls
   have the same number of pieces before them, the answers of any output function in any run can be written like this.
   */
  type Reply = (nat, string) -> int

  /** A C string: the NUL that ends it is not part of it. */
  ghost predicate CStrings(env: Env) {
    forall p: Word :: NUL !in env.str(p)
  }

  function At(fmt: string, i: nat): char {
    if i < |fmt| then fmt[i] else NUL
  }

  // ------------------------------------------------------------------ reading a directive

  /** A directive after its `%`: flags, width, conversion character (NUL if the format ends first), where it ends. */
  datatype Spec = Spec(flags: set<Flag>, width: Word, conv: char, next: nat)

  /** The flag a modifier character stands for; a doubled `l` or `h` stands for the longer or shorter type. */
  function Modifier(c: char, flags: set<Flag>): set<Flag> {
    match c
    case '-' => {LEFTFORMATFLAG}
    case '+' => {SHOWSIGNFLAG}
    case ' ' => {BLANKPOSFLAG}
    case '#' => {ALTFLAG}
    case 'l' => if LONGFLAG in flags then {LONGFLAG, LONGLONGFLAG} else {LONGFLAG}
    case 'h' => if HALFFLAG in flags then {HALFFLAG, HALFHALFFLAG} else {HALFFLAG}
    case 'z' => {SIZETFLAG}
    case 'j' => {INTMAXFLAG}
    case 't' => {PTRDIFFFLAG}
    case _ => {}
  }

  predicate IsDigit(c: char) {
    '0' <= c <= '9'
  }

  function Scan(fmt: string, i: nat, flags: set<Flag>, width: Word): (r: Spec)
    requires i <= |fmt|
    ensures i <= r.next <= |fmt| && (NUL !in fmt && r.conv != NUL ==> i < r.next && r.conv in fmt)
    decreases |fmt| - i
  {
    var c := At(fmt, i);
    if c == NUL then Spec(flags, width, NUL, i)
    else if IsDigit(c) then
      Scan(fmt, i + 1, if c == '0' && width == 0 then flags + {LEADZEROFLAG} else flags,
           (width * 10 + (c as int - '0' as int)) % WORD)
    else if c == '.' || Modifier(c, flags) != {} then Scan(fmt, i + 1, flags + Modifier(c, flags), width)
    else Spec(flags, width, c, i + 1)
  }

  lemma ScanUnfold(fmt: string, i: nat, flags: set<Flag>, width: Word)
    requires i <= |fmt|
    ensures var c := At(fmt, i);
      Scan(fmt, i, flags, width) ==
      if c == NUL then Spec(flags, width, NUL, i)
      else if IsDigit(c) then
        Scan(fmt, i + 1, if c == '0' && width == 0 then flags + {LEADZEROFLAG} else flags,
             (width * 10 + (c as int - '0' as int)) % WORD)
      else if c == '.' || Modifier(c, flags) != {} then Scan(fmt, i + 1, flags + Modifier(c, flags), width)
      else Spec(flags + Modifier(c, flags), width, c, i + 1)
  {
  }

  // ------------------------------------------------------------------ fetching an argument

  function Wide(env: Env, a: nat): (n: nat)
    ensures n < TWO64
  {
    env.va(a) + WORD * env.va(a + 1)
  }

  /** Sign extension of a `bits`-wide number below `top` = 2^bits to 64 bits. */
  function Extend(x: nat, top: nat): (n: nat)
    requires x < top <= WORD
    ensures n < TWO64
  {
    if x >= top / 2 then TWO64 - top + x else x
  }

  /** Value, as 64 unsigned bits, of an argument of `%d`, and the number of words it takes. */
  function SignedArg(flags: set<Flag>, env: Env, a: nat): (r: (nat, nat))
    ensures r.0 < TWO64
  {
    if LONGLONGFLAG in flags then (Wide(env, a), 2)
    else if LONGFLAG in flags then (Extend(env.va(a), WORD), 1)
    else if HALFHALFFLAG in flags then (Extend(env.va(a) % 256, 256), 1)
    else if HALFFLAG in flags then (Extend(env.va(a) % 65536, 65536), 1)
    else if SIZETFLAG in flags then (Extend(env.va(a), WORD), 1)
    else if INTMAXFLAG in flags then (Wide(env, a), 2)
    else (Extend(env.va(a), WORD), 1)
  }

  function UnsignedArg(flags: set<Flag>, env: Env, a: nat): (r: (nat, nat))
    ensures r.0 < TWO64
  {
    if LONGLONGFLAG in flags then (Wide(env, a), 2)
    else if LONGFLAG in flags then (env.va(a), 1)
    else if HALFHALFFLAG in flags then (env.va(a) % 256, 1)
    else if HALFFLAG in flags then (env.va(a) % 65536, 1)
    else if SIZETFLAG in flags then (env.va(a), 1)
    else if INTMAXFLAG in flags then (Wide(env, a), 2)
    else (env.va(a), 1)
  }

  // ------------------------------------------------------------------ the text

  function Max0(x: int): nat {
    if x > 0 then x else 0
  }

  function Fill(c: char, n: nat): string {
    seq(n, i => c)
  }

  function SignText(sign: char): string {
    if sign == NUL then "" else [sign]
  }

  /** A justified field. A sign is printed, and counted in the width, under right justification only. */
  function FieldText(flags: set<Flag>, width: nat, sign: char, s: string): string {
    var blanks := Max0(width - |SignText(sign)| - |s|);
    if LEFTFORMATFLAG in flags then s + Fill(' ', Max0(width - |s|))
    else if LEADZEROFLAG in flags then SignText(sign) + Fill('0', blanks) + s
    else Fill(' ', blanks) + SignText(sign) + s
  }

  /** The argument of a numeric conversion, as it is printed. */
  datatype Number = Number(prefix: string, flags: set<Flag>, sign: char, digits: string, words: nat)

  function NumberOf(conv: char, flags: set<Flag>, env: Env, a: nat): Number {
    match conv
    case 'd' => DecimalOf(flags + {SIGNEDFLAG}, SignedArg(flags, env, a))
    case 'i' => DecimalOf(flags + {SIGNEDFLAG}, SignedArg(flags, env, a))
    case 'u' => DecimalOf(flags, UnsignedArg(flags, env, a))
    case 'X' => HexOf(flags + {CAPSFLAG}, UnsignedArg(flags + {CAPSFLAG}, env, a))
    case 'p' => HexOf(flags + {LONGFLAG, ALTFLAG}, UnsignedArg(flags + {LONGFLAG, ALTFLAG}, env, a))
    case _ => HexOf(flags, UnsignedArg(flags, env, a))
  }

  function DecimalOf(flags: set<Flag>, arg: (nat, nat)): Number
    requires arg.0 < TWO64
  {
    Number("", flags, SignChar(arg.0, flags), Numeral(Magnitude(arg.0, flags), 10, false), arg.1)
  }

  function HexOf(flags: set<Flag>, arg: (nat, nat)): Number
    requires arg.0 < TWO64
  {
    Number(if ALTFLAG in flags then (if CAPSFLAG in flags then "0X" else "0x") else "", flags, NUL,
           Numeral(arg.0, 16, CAPSFLAG in flags), arg.1)
  }

  predicate IsNumeric(conv: char) {
    conv in "diuxXp"
  }

  function StringArg(env: Env, a: nat): string {
    if env.va(a) == 0 then "<null>" else env.str(env.va(a))
  }

  /** The text of one directive. */
  function DirectiveText(d: Spec, env: Env, a: nat): string {
    if d.conv == '%' then "%"
    else if d.conv == 'c' then [(env.va(a) % 256) as char]
    else if d.conv == 's' then FieldText(d.flags - {LEADZEROFLAG}, d.width, NUL, StringArg(env, a))
    else if IsNumeric(d.conv) then
      var n := NumberOf(d.conv, d.flags, env, a);
      n.prefix + FieldText(n.flags, d.width, n.sign, n.digits)
    else if d.conv == 'n' then ""
    else "%" + [d.conv]
  }

  /** The number of argument words a directive consumes. */
  function Words(d: Spec, env: Env, a: nat): nat {
    if d.conv in "csn" then 1
    else if IsNumeric(d.conv) then NumberOf(d.conv, d.flags, env, a).words
    else 0
  }

  /** Where the text up to the next directive ends. */
  function LiteralEnd(fmt: string, i: nat): (j: nat)
    requires i <= |fmt|
    ensures i <= j <= |fmt| && (j < |fmt| ==> fmt[j] == '%' || fmt[j] == NUL)
    ensures forall k :: i <= k < j ==> fmt[k] != '%' && fmt[k] != NUL
    decreases |fmt| - i
  {
    if i == |fmt| || fmt[i] == '%' || fmt[i] == NUL then i else LiteralEnd(fmt, i + 1)
  }

  /** The text of a format from position `i` on, with arguments from word `a` on. */
  function Text(fmt: string, i: nat, env: Env, a: nat): string
    requires i <= |fmt| && NUL !in fmt
    decreases |fmt| - i
  {
    var j := LiteralEnd(fmt, i);
    if j == |fmt| then fmt[i..j]
    else
      var d := Scan(fmt, j + 1, {}, 0);
      if d.conv == NUL then fmt[i..j]
      else fmt[i..j] + DirectiveText(d, env, a) + Text(fmt, d.next, env, a + Words(d, env, a))
  }

  // ------------------------------------------------------------------ the pieces

  function Chars(c: char, n: nat): seq<Piece> {
    seq(n, i => Out([c]))
  }

  function SignPieces(sign: char): seq<Piece> {
    if sign == NUL then [] else [Out([sign])]
  }

  /** A right-justified field: the sign comes before zeros and after blanks. */
  function RightPieces(zeros: bool, width: nat, sign: char, s: string): seq<Piece> {
    var blanks := Max0((if sign != NUL && width > 0 then width - 1 else width) - |s|);
    if zeros then SignPieces(sign) + Chars('0', blanks) + [Out(s)]
    else Chars(' ', blanks) + SignPieces(sign) + [Out(s)]
  }

  /** A field, piece by piece, when `n` pieces went before. Padding on the right is measured by the answer of the output function. */
  function FieldPieces(flags: set<Flag>, width: nat, sign: char, s: string, reply: Reply, n: nat): seq<Piece> {
    if LEFTFORMATFLAG in flags then [Out(s)] + Chars(' ', Max0(width - reply(n, s)))
    else RightPieces(LEADZEROFLAG in flags, width, sign, s)
  }

  function PrefixPieces(prefix: string): seq<Piece> {
    seq(|prefix|, i requires 0 <= i < |prefix| => Out([prefix[i]]))
  }

  /** The width in bytes of the object `%n` stores to. */
  function StoreSize(flags: set<Flag>): nat {
    if LONGLONGFLAG in flags then 8
    else if LONGFLAG in flags then 4
    else if HALFHALFFLAG in flags then 1
    else if HALFFLAG in flags then 2
    else 4
  }

  function StoreValue(flags: set<Flag>, written: Word): int {
    var size := StoreSize(flags);
    if size == 1 then written % 256 else if size == 2 then written % 65536 else written
  }

  function DirectivePieces(d: Spec, env: Env, a: nat, written: Word, reply: Reply, n: nat): seq<Piece> {
    if d.conv == '%' then [Out("%")]
    else if d.conv == 'c' then [Out([(env.va(a) % 256) as char])]
    else if d.conv == 's' then FieldPieces(d.flags - {LEADZEROFLAG}, d.width, NUL, StringArg(env, a), reply, n)
    else if IsNumeric(d.conv) then
      var x := NumberOf(d.conv, d.flags, env, a);
      PrefixPieces(x.prefix) + FieldPieces(x.flags, d.width, x.sign, x.digits, reply, n + |x.prefix|)
    else if d.conv == 'n' then [Store(env.va(a), StoreSize(d.flags), StoreValue(d.flags, written))]
    else [Out("%"), Out([d.conv])]
  }

  /** The sum of the answers to `ps`, when `n` pieces went before. */
  function Count(ps: seq<Piece>, reply: Reply, n: nat): int {
    if ps == [] then 0
    else
      var k := |ps| - 1;
      Count(ps[..k], reply, n) + if ps[k].Out? then reply(n + k, ps[k].s) else 0
  }

  /** All the pieces of a format from position `i` on, when `written` characters were counted in `n` pieces before. */
  function Pieces(fmt: string, i: nat, env: Env, a: nat, written: Word, reply: Reply, n: nat): seq<Piece>
    requires i <= |fmt| && NUL !in fmt
    decreases |fmt| - i
  {
    var j := LiteralEnd(fmt, i);
    var lit := [Out(fmt[i..j])];
    if j == |fmt| then lit
    else
      var d := Scan(fmt, j + 1, {}, 0);
      if d.conv == NUL then lit
      else
        var w1 := (written + Count(lit, reply, n)) % WORD;
        var ps := DirectivePieces(d, env, a, w1, reply, n + 1);
        var w2 := (w1 + Count(ps, reply, n + 1)) % WORD;
        lit + ps + Pieces(fmt, d.next, env, a + Words(d, env, a), w2, reply, n + 1 + |ps|)
  }

  /** What the pieces say together. */
  function Said(ps: seq<Piece>): string {
    if ps == [] then "" else Said(ps[..|ps| - 1]) + if ps[|ps| - 1].Out? then ps[|ps| - 1].s else ""
  }

  // ------------------------------------------------------------------ the pieces spell the text

  /** An output function that takes every character of a string without NUL. */
  ghost predicate Honest(reply: Reply) {
    forall n: nat, s :: NUL !in s ==> reply(n, s) == |s|
  }

  lemma {:induction false} SaidConcat(ps: seq<Piece>, qs: seq<Piece>)
    ensures Said(ps + qs) == Said(ps) + Said(qs)
    decreases |qs|
  {
    if qs == [] {
      assert ps + qs == ps;
    } else {
      assert (ps + qs)[..|ps + qs| - 1] == ps + qs[..|qs| - 1];
      SaidConcat(ps, qs[..|qs| - 1]);
    }
  }

  lemma {:induction false} CountConcat(ps: seq<Piece>, qs: seq<Piece>, reply: Reply, n: nat)
    ensures Count(ps + qs, reply, n) == Count(ps, reply, n) + Count(qs, reply, n + |ps|)
    decreases |qs|
  {
    if qs == [] {
      assert ps + qs == ps;
    } else {
      assert (ps + qs)[..|ps + qs| - 1] == ps + qs[..|qs| - 1];
      CountConcat(ps, qs[..|qs| - 1], reply, n);
    }
  }

  lemma SaidOne(s: string)
    ensures Said([Out(s)]) == s
  {
  }

  lemma {:induction false} SaidChars(c: char, n: nat)
    ensures Said(Chars(c, n)) == Fill(c, n)
  {
    if n == 0 {
    } else {
      assert Chars(c, n)[..n - 1] == Chars(c, n - 1);
      SaidChars(c, n - 1);
      assert Fill(c, n) == Fill(c, n - 1) + [c];
    }
  }

  lemma SaidSign(sign: char)
    ensures Said(SignPieces(sign)) == SignText(sign)
  {
  }

  lemma {:induction false} SaidPrefix(prefix: string)
    ensures Said(PrefixPieces(prefix)) == prefix
    decreases |prefix|
  {
    if prefix == "" {
    } else {
      var n := |prefix| - 1;
      assert PrefixPieces(prefix)[..n] == PrefixPieces(prefix[..n]);
      SaidPrefix(prefix[..n]);
      assert prefix == prefix[..n] + [prefix[n]];
    }
  }

  lemma SaidThree(xs: seq<Piece>, ys: seq<Piece>, zs: seq<Piece>)
    ensures Said(xs + ys + zs) == Said(xs) + Said(ys) + Said(zs)
  {
    SaidConcat(xs + ys, zs);
    SaidConcat(xs, ys);
  }

  lemma SaidField(flags: set<Flag>, width: nat, sign: char, s: string, reply: Reply, n: nat)
    requires reply(n, s) == |s|
    ensures Said(FieldPieces(flags, width, sign, s, reply, n)) == FieldText(flags, width, sign, s)
  {
    hide Said, Chars, Fill, SignPieces;
    SaidOne(s);
    SaidSign(sign);
    if LEFTFORMATFLAG in flags {
      SaidConcat([Out(s)], Chars(' ', Max0(width - |s|)));
      SaidChars(' ', Max0(width - |s|));
    } else {
      var blanks := Max0(width - |SignText(sign)| - |s|);
      assert blanks == Max0((if sign != NUL && width > 0 then width - 1 else width) - |s|);
      SaidChars('0', blanks);
      SaidChars(' ', blanks);
      SaidThree(SignPieces(sign), Chars('0', blanks), [Out(s)]);
      SaidThree(Chars(' ', blanks), SignPieces(sign), [Out(s)]);
    }
  }

  lemma DigitsHaveNoNul(n: nat, base: nat, caps: bool)
    requires 2 <= base <= 16
    ensures NUL !in Numeral(n, base, caps)
  {
    NumeralParses(n, base, caps);
    forall i | 0 <= i < |Numeral(n, base, caps)| ensures Numeral(n, base, caps)[i] != NUL {
      var d := DigitOf(Numeral(n, base, caps)[i], base, caps);
      TableValue(d, caps);
    }
  }

  lemma NumberHasNoNul(conv: char, flags: set<Flag>, env: Env, a: nat)
    requires IsNumeric(conv)
    ensures NUL !in NumberOf(conv, flags, env, a).digits
  {
    hide Numeral;
    var arg := UnsignedArg(flags, env, a).0;
    if conv == 'd' || conv == 'i' {
      DigitsHaveNoNul(Magnitude(SignedArg(flags + {SIGNEDFLAG}, env, a).0, flags + {SIGNEDFLAG}), 10, false);
    } else if conv == 'u' {
      DigitsHaveNoNul(Magnitude(arg, flags), 10, false);
    } else if conv == 'X' {
      DigitsHaveNoNul(UnsignedArg(flags + {CAPSFLAG}, env, a).0, 16, true);
    } else if conv == 'p' {
      DigitsHaveNoNul(UnsignedArg(flags + {LONGFLAG, ALTFLAG}, env, a).0, 16, CAPSFLAG in flags + {LONGFLAG, ALTFLAG});
    } else {
      DigitsHaveNoNul(arg, 16, CAPSFLAG in flags);
    }
  }

  lemma SaidDirective(d: Spec, env: Env, a: nat, written: Word, reply: Reply, n: nat)
    requires CStrings(env) && Honest(reply)
    ensures Said(DirectivePieces(d, env, a, written, reply, n)) == DirectiveText(d, env, a)
  {
    hide Said, FieldPieces, FieldText, NumberOf, PrefixPieces;
    if d.conv == '%' {
      SaidOne("%");
    } else if d.conv == 'c' {
      SaidOne([(env.va(a) % 256) as char]);
    } else if d.conv == 's' {
      SaidField(d.flags - {LEADZEROFLAG}, d.width, NUL, StringArg(env, a), reply, n);
    } else if IsNumeric(d.conv) {
      var x := NumberOf(d.conv, d.flags, env, a);
      NumberHasNoNul(d.conv, d.flags, env, a);
      SaidField(x.flags, d.width, x.sign, x.digits, reply, n + |x.prefix|);
      SaidPrefix(x.prefix);
      SaidConcat(PrefixPieces(x.prefix), FieldPieces(x.flags, d.width, x.sign, x.digits, reply, n + |x.prefix|));
    } else if d.conv == 'n' {
      SaidStore(Store(env.va(a), StoreSize(d.flags), StoreValue(d.flags, written)));
    } else {
      SaidConcat([Out("%")], [Out([d.conv])]);
      SaidOne("%");
      SaidOne([d.conv]);
      assert [Out("%")] + [Out([d.conv])] == [Out("%"), Out([d.conv])];
    }
  }

  lemma SaidStore(p: Piece)
    requires p.Store?
    ensures Said([p]) == ""
  {
  }

  /**
   The pieces handed out spell the denoted text, whatever the arguments; only `%n` depends on the output function at all.
   */
  lemma {:induction false} PiecesSpellText(fmt: string, i: nat, env: Env, a: nat, written: Word, reply: Reply, n: nat)
    requires i <= |fmt| && NUL !in fmt && CStrings(env) && Honest(reply)
    ensures Said(Pieces(fmt, i, env, a, written, reply, n)) == Text(fmt, i, env, a)
    decreases |fmt| - i
  {
    hide Said, Count, DirectivePieces, DirectiveText, Scan, LiteralEnd, Honest, CStrings, Words;
    var j := LiteralEnd(fmt, i);
    var lit := [Out(fmt[i..j])];
    SaidOne(fmt[i..j]);
    if j == |fmt| {
    } else {
      var d := Scan(fmt, j + 1, {}, 0);
      if d.conv != NUL {
        var w1 := (written + Count(lit, reply, n)) % WORD;
        var ps := DirectivePieces(d, env, a, w1, reply, n + 1);
        var w2 := (w1 + Count(ps, reply, n + 1)) % WORD;
        SaidDirective(d, env, a, w1, reply, n + 1);
        PiecesSpellText(fmt, d.next, env, a + Words(d, env, a), w2, reply, n + 1 + |ps|);
        SaidThree(lit, ps, Pieces(fmt, d.next, env, a + Words(d, env, a), w2, reply, n + 1 + |ps|));
      }
    }
  }

  /** What an output function answers when it takes everything. */
  lemma {:induction false} CountIsLength(ps: seq<Piece>, reply: Reply, n: nat)
    requires forall k: nat, s :: reply(k, s) == |s|
    ensures Count(ps, reply, n) == |Said(ps)|
  {
    if ps == [] {
    } else {
      CountIsLength(ps[..|ps| - 1], reply, n);
    }
  }

  // ------------------------------------------------------------------ where NULs come from

  /** A directive that is reached from position `i` on is `%c`, and its argument has a low byte of 0. */
  predicate NulArg(fmt: string, i: nat, env: Env, a: nat)
    requires i <= |fmt| && NUL !in fmt
    decreases |fmt| - i
  {
    var j := LiteralEnd(fmt, i);
    j < |fmt| &&
    var d := Scan(fmt, j + 1, {}, 0);
    d.conv != NUL && ((d.conv == 'c' && env.va(a) % 256 == 0) || NulArg(fmt, d.next, env, a + Words(d, env, a)))
  }

  /** Only `%c` can print a NUL. */
  lemma {:induction false} TextNul(fmt: string, i: nat, env: Env, a: nat)
    requires i <= |fmt| && NUL !in fmt && CStrings(env)
    ensures NUL in Text(fmt, i, env, a) <==> NulArg(fmt, i, env, a)
    decreases |fmt| - i
  {
    hide DirectiveText, Scan, LiteralEnd, CStrings, Words;
    var j := LiteralEnd(fmt, i);
    assert NUL !in fmt[i..j];
    if j == |fmt| {
    } else {
      var d := Scan(fmt, j + 1, {}, 0);
      if d.conv != NUL {
        DirectiveNul(d, env, a);
        TextNul(fmt, d.next, env, a + Words(d, env, a));
      }
    }
  }

  lemma DirectiveNul(d: Spec, env: Env, a: nat)
    requires CStrings(env) && d.conv != NUL
    ensures NUL in DirectiveText(d, env, a) <==> d.conv == 'c' && env.va(a) % 256 == 0
  {
    hide FieldText, NumberOf;
    if d.conv == 's' {
      FieldNul(d.flags - {LEADZEROFLAG}, d.width, NUL, StringArg(env, a));
    } else if IsNumeric(d.conv) {
      var n := NumberOf(d.conv, d.flags, env, a);
      NumberHasNoNul(d.conv, d.flags, env, a);
      FieldNul(n.flags, d.width, n.sign, n.digits);
      PrefixCases(d.conv, d.flags, env, a);
    }
  }

  lemma PrefixCases(conv: char, flags: set<Flag>, env: Env, a: nat)
    ensures NumberOf(conv, flags, env, a).prefix in ["", "0x", "0X"]
  {
  }

  lemma FieldNul(flags: set<Flag>, width: nat, sign: char, s: string)
    requires NUL !in s
    ensures NUL !in FieldText(flags, width, sign, s)
  {
  }

  // ------------------------------------------------------------------ what fields look like

  /** A right-justified field has the larger of the width asked for and the length needed. */
  lemma FieldLength(flags: set<Flag>, width: nat, sign: char, s: string)
    ensures LEFTFORMATFLAG !in flags ==>
      |FieldText(flags, width, sign, s)| == (if width > |SignText(sign)| + |s| then width else |SignText(sign)| + |s|)
    ensures LEFTFORMATFLAG in flags ==> |FieldText(flags, width, sign, s)| == (if width > |s| then width else |s|)
  {
  }

  function SkipBlanks(s: string): string {
    if s != "" && s[0] == ' ' then SkipBlanks(s[1..]) else s
  }

  function DropBlanks(s: string): string {
    if s != "" && s[|s| - 1] == ' ' then DropBlanks(s[..|s| - 1]) else s
  }

  /** Reads a printed field back: blanks, an optional sign, digits with leading zeros allowed, blanks. */
  function ReadSigned(field: string): int {
    var s := DropBlanks(SkipBlanks(field));
    if s != "" && s[0] == '-' then -Parse(s[1..], 10)
    else if s != "" && s[0] == '+' then Parse(s[1..], 10)
    else Parse(s, 10)
  }

  lemma {:induction false} SkipFill(n: nat, s: string)
    ensures SkipBlanks(Fill(' ', n) + s) == SkipBlanks(s)
  {
    if n == 0 {
      assert Fill(' ', n) + s == s;
    } else {
      assert (Fill(' ', n) + s)[1..] == Fill(' ', n - 1) + s;
      SkipFill(n - 1, s);
    }
  }

  lemma {:induction false} DropFill(n: nat, s: string)
    ensures DropBlanks(s + Fill(' ', n)) == DropBlanks(s)
  {
    if n == 0 {
      assert s + Fill(' ', n) == s;
    } else {
      var t := s + Fill(' ', n);
      assert t[..|t| - 1] == s + Fill(' ', n - 1);
      DropFill(n - 1, s);
    }
  }

  lemma {:induction false} ParseZeros(n: nat, s: string, base: nat)
    ensures Parse(Fill('0', n) + s, base) == Parse(s, base)
    decreases n + |s|
  {
    var t := Fill('0', n) + s;
    if s != "" {
      assert t[..|t| - 1] == Fill('0', n) + s[..|s| - 1];
      ParseZeros(n, s[..|s| - 1], base);
    } else if n > 0 {
      assert t[..|t| - 1] == Fill('0', n - 1) + s;
      ParseZeros(n - 1, s, base);
    }
  }

  /** A string that starts and ends with a decimal digit. */
  predicate Digital(s: string) {
    s != "" && IsDigit(s[0]) && IsDigit(s[|s| - 1])
  }

  lemma NumeralDigital(n: nat, zeros: nat)
    ensures Digital(Fill('0', zeros) + Numeral(n, 10, false))
  {
    var s := Numeral(n, 10, false);
    NumeralParses(n, 10, false);
    var first := DigitOf(s[0], 10, false);
    var last := DigitOf(s[|s| - 1], 10, false);
    assert IsDigit(s[0]) && IsDigit(s[|s| - 1]);
  }

  lemma NoBlanks(s: string)
    requires s != "" && s[0] != ' ' && s[|s| - 1] != ' '
    ensures DropBlanks(SkipBlanks(s)) == s
  {
  }

  /** Sign, zeros and digits read back as the signed number. */
  lemma ReadsNumber(sign: char, zeros: nat, n: nat)
    requires sign in ['-', '+', ' ', NUL]
    ensures ReadSigned(SignText(sign) + Fill('0', zeros) + Numeral(n, 10, false)) == if sign == '-' then 0 - n else n
  {
    hide Numeral, Fill, Parse;
    var d := Fill('0', zeros) + Numeral(n, 10, false);
    NumeralDigital(n, zeros);
    NumeralParses(n, 10, false);
    ParseZeros(zeros, Numeral(n, 10, false), 10);
    assert SignText(sign) + Fill('0', zeros) + Numeral(n, 10, false) == SignText(sign) + d;
    if sign == NUL {
      assert SignText(sign) + d == d;
      NoBlanks(d);
    } else if sign == ' ' {
      var t := [' '] + d;
      assert t[1..] == d;
      assert SkipBlanks(t) == SkipBlanks(d);
      NoBlanks(d);
    } else {
      var t := [sign] + d;
      NoBlanks(t);
      assert t[1..] == d;
    }
  }

  /** A right-justified decimal field reads back as its signed number, whether padded with blanks or zeros. */
  lemma RightReads(flags: set<Flag>, width: nat, sign: char, n: nat)
    requires LEFTFORMATFLAG !in flags && sign in ['-', '+', ' ', NUL]
    ensures ReadSigned(FieldText(flags, width, sign, Numeral(n, 10, false))) == if sign == '-' then 0 - n else n
  {
    hide Numeral, ReadSigned, Fill;
    var d := Numeral(n, 10, false);
    var blanks := Max0(width - |SignText(sign)| - |d|);
    if LEADZEROFLAG in flags {
      ReadsNumber(sign, blanks, n);
    } else {
      ReadsNumber(sign, 0, n);
      FillNothing('0');
      assert SignText(sign) + "" + d == SignText(sign) + d;
      assert Fill(' ', blanks) + SignText(sign) + d == Fill(' ', blanks) + (SignText(sign) + d);
      ReadsPadded(blanks, SignText(sign) + d);
    }
  }

  lemma FillNothing(c: char)
    ensures Fill(c, 0) == ""
  {
  }

  lemma ReadsPadded(blanks: nat, s: string)
    ensures ReadSigned(Fill(' ', blanks) + s) == ReadSigned(s)
  {
    SkipFill(blanks, s);
  }

  lemma LeftReads(flags: set<Flag>, width: nat, sign: char, n: nat)
    requires LEFTFORMATFLAG in flags
    ensures ReadSigned(FieldText(flags, width, sign, Numeral(n, 10, false))) == n
  {
    hide Numeral, Fill, Parse, ReadSigned, Digital;
    var d := Numeral(n, 10, false);
    FillNothing('0');
    NumeralDigital(n, 0);
    assert "" + d == d;
    NumeralParses(n, 10, false);
    DigitalReads(d, Max0(width - |d|));
  }

  lemma DigitalReads(d: string, blanks: nat)
    requires Digital(d)
    ensures ReadSigned(d + Fill(' ', blanks)) == Parse(d, 10)
  {
    hide Parse, Fill, DropBlanks;
    NoBlanks(d);
    var t := d + Fill(' ', blanks);
    assert t[0] == d[0] && SkipBlanks(t) == t && SkipBlanks(d) == d;
    DropFill(blanks, d);
  }

  /**
   What `%d` prints reads back as the argument exactly unless it is a negative number under left justification, where the
   sign is never put out.
   */
  lemma DecimalReadsBack(flags: set<Flag>, width: nat, n: nat)
    requires n < TWO64 && SIGNEDFLAG in flags
    ensures ReadSigned(FieldText(flags, width, SignChar(n, flags), Numeral(Magnitude(n, flags), 10, false))) == Signed(n)
      <==> !(LEFTFORMATFLAG in flags && Signed(n) < 0)
  {
    hide Numeral, FieldText, ReadSigned;
    if LEFTFORMATFLAG in flags {
      LeftReads(flags, width, SignChar(n, flags), Magnitude(n, flags));
    } else {
      RightReads(flags, width, SignChar(n, flags), Magnitude(n, flags));
    }
  }

  /** The same for a whole directive: its text reads back as the argument it consumed. */
  lemma DirectiveReadsBack(d: Spec, env: Env, a: nat)
    requires d.conv == 'd' || d.conv == 'i'
    ensures var v := Signed(SignedArg(d.flags, env, a).0);
      ReadSigned(DirectiveText(d, env, a)) == v <==> !(LEFTFORMATFLAG in d.flags && v < 0)
  {
    hide Numeral, FieldText, ReadSigned, SignedArg, Magnitude, SignChar;
    var n := NumberOf(d.conv, d.flags, env, a);
    DecimalReadsBack(n.flags, d.width, SignedArg(d.flags, env, a).0);
    assert DirectiveText(d, env, a) == FieldText(n.flags, d.width, n.sign, n.digits);
  }

  /** `%-4d` of minus five prints five. */
  lemma LeftLosesSign(env: Env)
    requires env.va(0) == 0xffff_fffb
    ensures Text("%-4d", 0, env, 0) == "5   "
  {
    hide Scan, DirectiveText;
    var d := Scan("%-4d", 1, {}, 0);
    LeftFour();
    PlainFive(d, env);
    assert "%-4d"[0..0] == "";
    assert LiteralEnd("%-4d", 0) == 0;
    assert Text("%-4d", 4, env, 1) == "";
  }

  lemma LeftFour()
    ensures Scan("%-4d", 1, {}, 0) == Spec({LEFTFORMATFLAG}, 4, 'd', 4)
  {
  }

  lemma PlainFive(d: Spec, env: Env)
    requires d == Spec({LEFTFORMATFLAG}, 4, 'd', 4) && env.va(0) == 0xffff_fffb
    ensures DirectiveText(d, env, 0) == "5   " && Words(d, env, 0) == 1
  {
    assert NumberOf('d', {LEFTFORMATFLAG}, env, 0).digits == "5";
    assert Fill(' ', 3) == "   ";
  }
}
