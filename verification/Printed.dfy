/**
 What each conversion of printf prints, read back in the argument words and looked at character by character.
 */
module Printed {
  import opened Numbers
  import opened Format

  // ------------------------------------------------------------------ fields

  /** A field, character by character: blanks behind under left justification, zeros between sign and text, or blanks before. */
  lemma FieldShape(flags: set<Flag>, width: nat, sign: char, s: string)
    ensures var t := FieldText(flags, width, sign, s);
      && |s| <= |t|
      && (LEFTFORMATFLAG in flags ==>
           |t| == (if width > |s| then width else |s|) && t[..|s|] == s && forall k :: |s| <= k < |t| ==> t[k] == ' ')
      && (LEFTFORMATFLAG !in flags ==>
           var m := if sign == '\0' then 0 else 1;
           var fill := |t| - m - |s|;
           && |t| == (if width > m + |s| then width else m + |s|)
           && t[|t| - |s|..] == s
           && (LEADZEROFLAG in flags ==> (m == 1 ==> t[0] == sign) && forall k :: m <= k < m + fill ==> t[k] == '0')
           && (LEADZEROFLAG !in flags ==> (m == 1 ==> t[fill] == sign) && forall k :: 0 <= k < fill ==> t[k] == ' '))
  {
    var m, n := |SignText(sign)|, Max0(width - |SignText(sign)| - |s|);
    assert LEFTFORMATFLAG !in flags ==> |FieldText(flags, width, sign, s)| == m + n + |s|;
  }

  /** The text of a field has the characters of `s`, the sign, blanks and zeros only. */
  lemma FieldAlphabet(flags: set<Flag>, width: nat, sign: char, s: string, alphabet: string)
    requires forall c :: c in s ==> c in alphabet
    requires ' ' in alphabet && '0' in alphabet && (sign != NUL ==> sign in alphabet)
    ensures forall c :: c in FieldText(flags, width, sign, s) ==> c in alphabet
  {
  }

  lemma NumeralAlphabet(n: nat, base: nat, caps: bool, alphabet: string)
    requires 2 <= base <= 16 && forall i :: 0 <= i < base ==> Table(caps)[i] in alphabet
    ensures forall c :: c in Numeral(n, base, caps) ==> c in alphabet
  {
    hide Numeral, Parse, DigitValue;
    NumeralParses(n, base, caps);
    forall c | c in Numeral(n, base, caps) ensures c in alphabet {
      assert c in Table(caps)[..base];
      var i :| 0 <= i < base && Table(caps)[..base][i] == c;
    }
  }

  // ------------------------------------------------------------------ arguments

  /** The argument of an unsigned conversion and the words it takes. */
  lemma UnsignedWords(f: set<Flag>, env: Env, a: nat)
    ensures var x, y := env.va(a), env.va(a + 1);
      UnsignedArg(f, env, a) ==
        if LONGLONGFLAG in f then (x + 0x1_0000_0000 * y, 2)
        else if LONGFLAG in f then (x, 1)
        else if HALFHALFFLAG in f then (x % 256, 1)
        else if HALFFLAG in f then (x % 65536, 1)
        else if SIZETFLAG in f then (x, 1)
        else if INTMAXFLAG in f then (x + 0x1_0000_0000 * y, 2)
        else (x, 1)
  {
  }

  /** `x` as a number of two's complement, where `top` values are told apart. */
  function TwosComplement(x: int, top: int): int {
    if 2 * x >= top then x - top else x
  }

  /** The argument of a signed conversion: its value, and the words it takes. */
  lemma SignedWords(f: set<Flag>, env: Env, a: nat)
    ensures var x, y := env.va(a), env.va(a + 1);
      var r := SignedArg(f, env, a);
      (Signed(r.0), r.1) ==
        if LONGLONGFLAG in f then (TwosComplement(x + 0x1_0000_0000 * y, 0x1_0000_0000_0000_0000), 2)
        else if LONGFLAG in f then (TwosComplement(x, 0x1_0000_0000), 1)
        else if HALFHALFFLAG in f then (TwosComplement(x % 256, 256), 1)
        else if HALFFLAG in f then (TwosComplement(x % 65536, 65536), 1)
        else if SIZETFLAG in f then (TwosComplement(x, 0x1_0000_0000), 1)
        else if INTMAXFLAG in f then (TwosComplement(x + 0x1_0000_0000 * y, 0x1_0000_0000_0000_0000), 2)
        else (TwosComplement(x, 0x1_0000_0000), 1)
  {
  }

  // ------------------------------------------------------------------ %u

  /** `%u` prints a decimal number: it reads back as the argument, and has decimal digits, blanks and a plus sign only. */
  lemma UnsignedReads(d: Spec, env: Env, a: nat)
    requires d.conv == 'u' && SIGNEDFLAG !in d.flags
    ensures var x, y, f := env.va(a), env.va(a + 1), d.flags;
      ReadSigned(DirectiveText(d, env, a)) ==
        if LONGLONGFLAG in f then x + 0x1_0000_0000 * y
        else if LONGFLAG in f then x
        else if HALFHALFFLAG in f then x % 256
        else if HALFFLAG in f then x % 65536
        else if SIZETFLAG in f then x
        else if INTMAXFLAG in f then x + 0x1_0000_0000 * y
        else x
    ensures forall c :: c in DirectiveText(d, env, a) ==> c in "0123456789 +"
  {
    hide Numeral, FieldText, ReadSigned, UnsignedArg, Magnitude;
    UnsignedWords(d.flags, env, a);
    var n := UnsignedArg(d.flags, env, a).0;
    var sign := SignChar(n, d.flags);
    UnsignedText(d, env, a);
    if LEFTFORMATFLAG in d.flags {
      LeftReads(d.flags, d.width, sign, n);
    } else {
      RightReads(d.flags, d.width, sign, n);
    }
    NumeralAlphabet(n, 10, false, "0123456789 +");
    FieldAlphabet(d.flags, d.width, sign, Numeral(n, 10, false), "0123456789 +");
  }

  /** Which sign an unsigned number is printed with, and that nothing else is printed with it. */
  lemma UnsignedText(d: Spec, env: Env, a: nat)
    requires d.conv == 'u' && SIGNEDFLAG !in d.flags
    ensures var sign := if SHOWSIGNFLAG in d.flags then '+' else if BLANKPOSFLAG in d.flags then ' ' else '\0';
      && SignChar(UnsignedArg(d.flags, env, a).0, d.flags) == sign
      && DirectiveText(d, env, a) == FieldText(d.flags, d.width, sign, Numeral(UnsignedArg(d.flags, env, a).0, 10, false))
  {
    hide Numeral, FieldText, UnsignedArg;
    var n := NumberOf(d.conv, d.flags, env, a);
    assert n.prefix == "" && n.flags == d.flags;
  }

  // ------------------------------------------------------------------ %d

  /**
   `%d` and `%i` print a decimal number. It reads back as the signed argument exactly unless that is negative under left
   justification. A right-justified number has a minus sign if it is negative, and otherwise the sign that was asked for.
   */
  lemma DecimalReads(d: Spec, env: Env, a: nat)
    requires d.conv == 'd' || d.conv == 'i'
    ensures var x, y, f := env.va(a), env.va(a + 1), d.flags;
      var v :=
        if LONGLONGFLAG in f then TwosComplement(x + 0x1_0000_0000 * y, 0x1_0000_0000_0000_0000)
        else if LONGFLAG in f then TwosComplement(x, 0x1_0000_0000)
        else if HALFHALFFLAG in f then TwosComplement(x % 256, 256)
        else if HALFFLAG in f then TwosComplement(x % 65536, 65536)
        else if SIZETFLAG in f then TwosComplement(x, 0x1_0000_0000)
        else if INTMAXFLAG in f then TwosComplement(x + 0x1_0000_0000 * y, 0x1_0000_0000_0000_0000)
        else TwosComplement(x, 0x1_0000_0000);
      && (ReadSigned(DirectiveText(d, env, a)) == v <==> !(LEFTFORMATFLAG in f && v < 0))
      && exists digits :: DirectiveText(d, env, a) == FieldText(f, d.width,
           if v < 0 then '-' else if SHOWSIGNFLAG in f then '+' else if BLANKPOSFLAG in f then ' ' else '\0', digits)
           && Parse(digits, 10) == (if v < 0 then 0 - v else v) && Numbers.Proper(digits, 10, false)
    ensures forall c :: c in DirectiveText(d, env, a) ==> c in "0123456789 +-"
  {
    hide Numeral, FieldText, ReadSigned, SignedArg, Magnitude, SignChar, Numbers.Proper, Parse;
    SignedWords(d.flags, env, a);
    DirectiveReadsBack(d, env, a);
    var n := SignedArg(d.flags, env, a).0;
    SignedText(d, env, a);
    var m := Magnitude(n, d.flags + {SIGNEDFLAG});
    NumeralParses(m, 10, false);
    NumeralAlphabet(m, 10, false, "0123456789 +-");
    FieldAlphabet(d.flags, d.width, SignChar(n, d.flags + {SIGNEDFLAG}), Numeral(m, 10, false), "0123456789 +-");
  }

  /** Without a width the sign comes first: minus, or plus or a blank if asked for, or else a digit. */
  lemma SignShown(d: Spec, env: Env, a: nat)
    requires (d.conv == 'd' || d.conv == 'i') && d.width == 0 && LEFTFORMATFLAG !in d.flags
    ensures var v, t := Signed(SignedArg(d.flags, env, a).0), DirectiveText(d, env, a);
      && t != ""
      && (v < 0 ==> t[0] == '-')
      && (v >= 0 && SHOWSIGNFLAG in d.flags ==> t[0] == '+')
      && (v >= 0 && SHOWSIGNFLAG !in d.flags && BLANKPOSFLAG in d.flags ==> t[0] == ' ')
      && (v >= 0 && SHOWSIGNFLAG !in d.flags && BLANKPOSFLAG !in d.flags ==> '0' <= t[0] <= '9')
  {
    hide Numeral, FieldText, SignedArg, Magnitude, SignChar;
    SignedText(d, env, a);
    var n := SignedArg(d.flags, env, a).0;
    var m := Magnitude(n, d.flags + {SIGNEDFLAG});
    FieldShape(d.flags, d.width, SignChar(n, d.flags + {SIGNEDFLAG}), Numeral(m, 10, false));
    NumeralAlphabet(m, 10, false, "0123456789");
    assert Numeral(m, 10, false)[0] in Numeral(m, 10, false);
  }

  lemma SignedText(d: Spec, env: Env, a: nat)
    requires d.conv == 'd' || d.conv == 'i'
    ensures var n := SignedArg(d.flags, env, a).0;
      var sign := SignChar(n, d.flags + {SIGNEDFLAG});
      var m := Magnitude(n, d.flags + {SIGNEDFLAG});
      && sign == (if Signed(n) < 0 then '-' else if SHOWSIGNFLAG in d.flags then '+'
                  else if BLANKPOSFLAG in d.flags then ' ' else '\0')
      && m == (if Signed(n) < 0 then 0 - Signed(n) else Signed(n))
      && DirectiveText(d, env, a) == FieldText(d.flags, d.width, sign, Numeral(m, 10, false))
  {
    hide Numeral, SignedArg;
    var n := NumberOf(d.conv, d.flags, env, a);
    assert n.prefix == "" && n.flags == d.flags + {SIGNEDFLAG};
  }

  // ------------------------------------------------------------------ %x

  /** Reads a printed hexadecimal field back. */
  function ReadHex(field: string): int {
    Parse(DropBlanks(SkipBlanks(field)), 16)
  }

  lemma HexField(flags: set<Flag>, width: nat, n: nat, caps: bool)
    ensures ReadHex(FieldText(flags, width, NUL, Numeral(n, 16, caps))) == n
  {
    hide Numeral, Parse, Fill, ReadHex;
    var s := Numeral(n, 16, caps);
    var k := Max0(width - |s|);
    HexEnds(n, caps, 0);
    HexEnds(n, caps, k);
    FillNothing('0');
    assert "" + s == s;
    HexPadded(s, k);
    assert "" + Fill('0', k) + s == Fill('0', k) + s;
    assert Fill(' ', k) + "" + s == Fill(' ', k) + s;
  }

  lemma HexPadded(s: string, k: nat)
    requires s != "" && s[0] != ' ' && s[|s| - 1] != ' '
    requires (Fill('0', k) + s)[0] != ' '
    ensures ReadHex(s + Fill(' ', k)) == ReadHex(Fill('0', k) + s) == ReadHex(Fill(' ', k) + s) == Parse(s, 16)
  {
    hide Parse, Fill, SkipBlanks, DropBlanks;
    NoBlanks(s);
    SkipNothing(s);
    SkipNothing(s + Fill(' ', k));
    DropFill(k, s);
    NoBlanks(Fill('0', k) + s);
    ParseZeros(k, s, 16);
    SkipFill(k, s);
  }

  lemma SkipNothing(s: string)
    requires s != "" && s[0] != ' '
    ensures SkipBlanks(s) == s
  {
  }

  lemma HexEnds(n: nat, caps: bool, zeros: nat)
    ensures Parse(Numeral(n, 16, caps), 16) == n
    ensures var t := Fill('0', zeros) + Numeral(n, 16, caps); t != "" && t[0] != ' ' && t[|t| - 1] != ' '
    ensures Numeral(n, 16, caps)[0] != ' '
  {
    hide Numeral, Parse;
    NumeralParses(n, 16, caps);
    NumeralAlphabet(n, 16, caps, Table(caps));
    var s := Numeral(n, 16, caps);
    assert s[0] in s && s[|s| - 1] in s;
    assert ' ' !in Table(caps);
  }

  /**
   `%x`, `%X` and `%p` print a hexadecimal number, with small digits unless it is `%X`, behind `0x` or `0X` for `#` and `%p`;
   behind that prefix it reads back as the argument.
   */
  lemma HexReads(d: Spec, env: Env, a: nat)
    requires d.conv in "xXp" && CAPSFLAG !in d.flags
    ensures var x, y, f := env.va(a), env.va(a + 1), d.flags;
      var t := DirectiveText(d, env, a);
      var prefix := if ALTFLAG in f || d.conv == 'p' then (if d.conv == 'X' then "0X" else "0x") else "";
      && prefix <= t
      && ReadHex(t[|prefix|..]) == (
           if LONGLONGFLAG in f then x + 0x1_0000_0000 * y
           else if LONGFLAG in f || d.conv == 'p' then x
           else if HALFHALFFLAG in f then x % 256
           else if HALFFLAG in f then x % 65536
           else if SIZETFLAG in f then x
           else if INTMAXFLAG in f then x + 0x1_0000_0000 * y
           else x)
      && forall c :: c in t[|prefix|..] ==> c in if d.conv == 'X' then "0123456789ABCDEF " else "0123456789abcdef "
  {
    hide Numeral, FieldText, UnsignedArg, ReadHex;
    var g := if d.conv == 'X' then d.flags + {CAPSFLAG} else if d.conv == 'p' then d.flags + {LONGFLAG, ALTFLAG} else d.flags;
    UnsignedWords(g, env, a);
    var n := UnsignedArg(g, env, a).0;
    var caps := d.conv == 'X';
    HexText(d, env, a, g);
    var prefix := if ALTFLAG in d.flags || d.conv == 'p' then (if caps then "0X" else "0x") else "";
    var field := FieldText(g, d.width, NUL, Numeral(n, 16, caps));
    assert (prefix + field)[|prefix|..] == field;
    HexField(g, d.width, n, caps);
    var alphabet := if caps then "0123456789ABCDEF " else "0123456789abcdef ";
    forall i | 0 <= i < 16 ensures Table(caps)[i] in alphabet {
      assert alphabet[i] == Table(caps)[i];
    }
    NumeralAlphabet(n, 16, caps, alphabet);
    assert alphabet[0] == '0' && alphabet[16] == ' ';
    FieldAlphabet(g, d.width, NUL, Numeral(n, 16, caps), alphabet);
  }

  lemma HexText(d: Spec, env: Env, a: nat, g: set<Flag>)
    requires d.conv in "xXp" && CAPSFLAG !in d.flags
    requires g == if d.conv == 'X' then d.flags + {CAPSFLAG} else if d.conv == 'p' then d.flags + {LONGFLAG, ALTFLAG} else d.flags
    ensures var prefix := if ALTFLAG in d.flags || d.conv == 'p' then (if d.conv == 'X' then "0X" else "0x") else "";
      DirectiveText(d, env, a) == prefix + FieldText(g, d.width, NUL, Numeral(UnsignedArg(g, env, a).0, 16, d.conv == 'X'))
  {
    hide Numeral, FieldText, UnsignedArg;
  }

  // ------------------------------------------------------------------ the rest

  /** `%c` prints the low byte of its argument, `%%` a percent sign, and an unknown conversion is echoed. */
  lemma CharacterDirectives(d: Spec, env: Env, a: nat)
    requires d.conv != NUL
    ensures d.conv == 'c' ==> DirectiveText(d, env, a) == [(env.va(a) % 256) as char]
    ensures d.conv == '%' ==> DirectiveText(d, env, a) == "%"
    ensures d.conv == 'n' ==> DirectiveText(d, env, a) == ""
    ensures d.conv !in "%csdiuxXpn" ==> DirectiveText(d, env, a) == ['%', d.conv]
  {
    assert "%" + [d.conv] == ['%', d.conv];
  }

  /** `%s` prints the string at its argument, or `<null>`, padded with blanks on either side, never with zeros. */
  lemma StringDirective(d: Spec, env: Env, a: nat)
    requires d.conv == 's'
    ensures var s, t := if env.va(a) == 0 then "<null>" else env.str(env.va(a)), DirectiveText(d, env, a);
      && |t| == (if d.width > |s| then d.width else |s|)
      && (LEFTFORMATFLAG in d.flags ==> t[..|s|] == s && forall k :: |s| <= k < |t| ==> t[k] == ' ')
      && (LEFTFORMATFLAG !in d.flags ==> t[|t| - |s|..] == s && forall k :: 0 <= k < |t| - |s| ==> t[k] == ' ')
  {
    hide FieldText;
    FieldShape(d.flags - {LEADZEROFLAG}, d.width, NUL, StringArg(env, a));
  }

  /** The argument words a directive takes: two for a 64-bit number, one for anything else with an argument. */
  lemma ArgumentWords(d: Spec, env: Env, a: nat)
    ensures var f := d.flags;
      var long := LONGLONGFLAG in f ||
        (INTMAXFLAG in f && LONGFLAG !in f && HALFHALFFLAG !in f && HALFFLAG !in f && SIZETFLAG !in f && d.conv != 'p');
      && (d.conv in "diuxXp" ==> Words(d, env, a) == if long then 2 else 1)
      && (d.conv in "csn" ==> Words(d, env, a) == 1)
      && (d.conv !in "diuxXpcsn" ==> Words(d, env, a) == 0)
  {
    hide Numeral, Magnitude, SignChar;
    NumberWords(d.conv, d.flags, env, a);
  }

  lemma NumberWords(conv: char, f: set<Flag>, env: Env, a: nat)
    ensures var long := LONGLONGFLAG in f ||
        (INTMAXFLAG in f && LONGFLAG !in f && HALFHALFFLAG !in f && HALFFLAG !in f && SIZETFLAG !in f && conv != 'p');
      conv in "diuxXp" ==> NumberOf(conv, f, env, a).words == if long then 2 else 1
  {
    hide Numeral, Magnitude, SignChar;
  }

  /** `%n` stores the count through its argument, in 8, 4, 2 or 1 bytes. */
  lemma CountDirective(d: Spec, env: Env, a: nat, written: Word, reply: Reply, n: nat)
    requires d.conv == 'n'
    ensures var f := d.flags;
      var size := if LONGLONGFLAG in f then 8 else if LONGFLAG in f then 4 else if HALFHALFFLAG in f then 1
                  else if HALFFLAG in f then 2 else 4;
      DirectivePieces(d, env, a, written, reply, n)
        == [Store(env.va(a), size, if size == 1 then written % 256 else if size == 2 then written % 65536 else written)]
  {
  }

  // ------------------------------------------------------------------ whole formats

  /** A format without directives is its own text. */
  lemma PlainText(fmt: string, env: Env, a: nat)
    requires NUL !in fmt && '%' !in fmt
    ensures Text(fmt, 0, env, a) == fmt
  {
    var j := LiteralEnd(fmt, 0);
    assert forall k :: 0 <= k < |fmt| ==> fmt[k] in fmt;
    assert fmt[0..|fmt|] == fmt;
  }

  /** Text up to the first `%`, then that directive, then the rest with the arguments it left. */
  lemma FirstDirective(fmt: string, j: nat, env: Env, a: nat)
    requires NUL !in fmt && j < |fmt| && fmt[j] == '%' && '%' !in fmt[..j]
    ensures var d := Scan(fmt, j + 1, {}, 0);
      Text(fmt, 0, env, a) ==
        if d.conv == NUL then fmt[..j]
        else fmt[..j] + DirectiveText(d, env, a) + Text(fmt, d.next, env, a + Words(d, env, a))
  {
    hide Scan, DirectiveText, Words;
    LiteralTo(fmt, 0, j);
    assert fmt[0..j] == fmt[..j];
  }

  lemma {:induction false} LiteralTo(fmt: string, i: nat, j: nat)
    requires NUL !in fmt && i <= j < |fmt| && fmt[j] == '%' && '%' !in fmt[..j]
    ensures LiteralEnd(fmt, i) == j
    decreases j - i
  {
    if i == j {
    } else {
      assert fmt[i] in fmt && fmt[i] == fmt[..j][i];
      LiteralTo(fmt, i + 1, j);
    }
  }
}
