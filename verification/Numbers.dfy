/**
 Decimal and hexadecimal numerals, and the two printers of printf.c that write them backwards into a buffer.
 */
module Numbers {
  import opened Rounding

  datatype Flag =
    | LONGFLAG | LONGLONGFLAG | HALFFLAG | HALFHALFFLAG | SIZETFLAG | INTMAXFLAG | PTRDIFFFLAG
    | ALTFLAG | CAPSFLAG | SHOWSIGNFLAG | SIGNEDFLAG | LEFTFORMATFLAG | LEADZEROFLAG | BLANKPOSFLAG

  const NUL := '\0'
  const TWO63 := 0x8000_0000_0000_0000
  const TWO64 := 0x1_0000_0000_0000_0000

  const HEXTABLE := "0123456789abcdef"
  const HEXTABLE_CAPS := "0123456789ABCDEF"

  function Table(caps: bool): (t: string)
    ensures |t| == 16
  {
    if caps then HEXTABLE_CAPS else HEXTABLE
  }

  /** The numeral of `n`, most significant digit first. */
  function Numeral(n: nat, base: nat, caps: bool): (s: string)
    requires 2 <= base <= 16
    ensures s != []
    decreases n
  {
    if n < base then [Table(caps)[n]] else Numeral(n / base, base, caps) + [Table(caps)[n % base]]
  }

  /** The value of a digit in either table, -1 for any other character. */
  function DigitValue(c: char): int {
    if '0' <= c <= '9' then c as int - '0' as int
    else if 'a' <= c <= 'f' then c as int - 'a' as int + 10
    else if 'A' <= c <= 'F' then c as int - 'A' as int + 10
    else -1
  }

  function Parse(s: string, base: nat): int {
    if s == [] then 0 else Parse(s[..|s| - 1], base) * base + DigitValue(s[|s| - 1])
  }

  /** Digits of the table, without a redundant leading zero. */
  ghost predicate Proper(s: string, base: nat, caps: bool)
    requires base <= 16
  {
    && s != [] && (s[0] == '0' ==> |s| == 1)
    && forall i :: 0 <= i < |s| ==> s[i] in Table(caps)[..base]
  }

  lemma TableValue(d: nat, caps: bool)
    requires d < 16
    ensures DigitValue(Table(caps)[d]) == d && Table(caps)[d] != NUL && (Table(caps)[d] == '0' <==> d == 0)
  {
  }

  lemma Quotient(n: nat, base: nat)
    requires base >= 2 && n >= base
    ensures 0 < n / base < n && n == n / base * base + n % base
  {
  }

  /** A printed number reads back as itself and has no redundant leading zero. */
  lemma {:induction false} NumeralParses(n: nat, base: nat, caps: bool)
    requires 2 <= base <= 16
    ensures Parse(Numeral(n, base, caps), base) == n && Proper(Numeral(n, base, caps), base, caps)
    ensures Numeral(n, base, caps)[0] == '0' <==> n == 0
    decreases n
  {
    hide Table, DigitValue;
    if n < base {
      TableValue(n, caps);
      assert Parse([], base) == 0;
      var s := [Table(caps)[n]];
      assert s[..0] == [];
      assert Table(caps)[..base][n] == Table(caps)[n];
    } else {
      Quotient(n, base);
      NumeralParses(n / base, base, caps);
      TableValue(n % base, caps);
      var r, d := Numeral(n / base, base, caps), Table(caps)[n % base];
      assert (r + [d])[..|r|] == r;
      assert Table(caps)[..base][n % base] == d;
    }
  }

  /** The numeral is the only proper digit string with its value. */
  lemma {:induction false} NumeralUnique(s: string, base: nat, caps: bool)
    requires 2 <= base <= 16 && Proper(s, base, caps)
    ensures Parse(s, base) >= 0 && s == Numeral(Parse(s, base), base, caps)
    decreases |s|
  {
    hide DigitValue, Table, Numeral, Parse;
    var n := |s| - 1;
    var d := DigitOf(s[n], base, caps);
    ParseLast(s, base);
    if n == 0 {
      assert s == [s[0]];
      LastDigit(d, base, caps);
    } else {
      assert Proper(s[..n], base, caps);
      NumeralUnique(s[..n], base, caps);
      var q := Parse(s[..n], base);
      LeadingDigit(s[..n], base, caps);
      AppendDigit(q, d, base);
      LastDigit(q * base + d, base, caps);
      assert s == s[..n] + [s[n]];
    }
  }

  lemma ParseLast(s: string, base: nat)
    requires s != []
    ensures Parse(s, base) == Parse(s[..|s| - 1], base) * base + DigitValue(s[|s| - 1]) && Parse([], base) == 0
    ensures |s| == 1 ==> Parse(s, base) == DigitValue(s[0])
  {
    assert |s| == 1 ==> s[..0] == [];
  }

  lemma DigitOf(c: char, base: nat, caps: bool) returns (d: nat)
    requires 2 <= base <= 16 && c in Table(caps)[..base]
    ensures d < base && Table(caps)[d] == c && DigitValue(c) == d
  {
    d :| d < base && Table(caps)[..base][d] == c;
    TableValue(d, caps);
  }

  lemma LeadingDigit(s: string, base: nat, caps: bool)
    requires 2 <= base <= 16 && Proper(s, base, caps) && s[0] != '0' && Parse(s, base) >= 0
    requires s == Numeral(Parse(s, base), base, caps)
    ensures Parse(s, base) > 0
  {
  }

  lemma AppendDigit(q: nat, d: nat, base: nat)
    requires 2 <= base && d < base && q > 0
    ensures q * base + d >= base && (q * base + d) / base == q && (q * base + d) % base == d
  {
    Above(q, base);
    DivisionUnique(q * base + d, base, q, d);
  }

  lemma Above(q: nat, base: nat)
    requires q > 0
    ensures q * base >= base
  {
  }

  function Power(b: nat, k: nat): nat {
    if k == 0 then 1 else b * Power(b, k - 1)
  }

  /** A number below base^k has at most `k` digits. */
  lemma {:induction false} NumeralLength(n: nat, base: nat, caps: bool, k: nat)
    requires 2 <= base <= 16 && 1 <= k && n < Power(base, k)
    ensures |Numeral(n, base, caps)| <= k
    decreases n
  {
    if n < base {
    } else {
      Quotient(n, base);
      assert Power(base, 1) == base * Power(base, 0) == base;
      PowerQuotient(n, base, Power(base, k - 1));
      NumeralLength(n / base, base, caps, k - 1);
    }
  }

  lemma PowerQuotient(n: nat, base: nat, p: nat)
    requires base >= 2 && n < base * p
    ensures n / base < p
  {
  }

  /** Twenty decimal and sixteen hexadecimal digits are enough for 64 bits. */
  lemma SixtyFourBits(n: nat)
    requires n < TWO64
    ensures |Numeral(n, 10, false)| <= 20 && forall caps :: |Numeral(n, 16, caps)| <= 16
  {
    assert Power(10, 20) >= TWO64 by {
      PowerAdd(10, 10, 10);
      Tens();
    }
    assert Power(16, 16) == TWO64 by {
      PowerAdd(16, 8, 8);
      Sixteens();
    }
    NumeralLength(n, 10, false, 20);
    forall caps {
      NumeralLength(n, 16, caps, 16);
    }
  }

  lemma Tens()
    ensures Power(10, 10) == 10000000000
  {
  }

  lemma Sixteens()
    ensures Power(16, 8) == 0x1_0000_0000
  {
  }

  lemma {:induction false} PowerAdd(b: nat, i: nat, j: nat)
    ensures Power(b, i + j) == Power(b, i) * Power(b, j)
  {
    if i == 0 {
    } else {
      PowerAdd(b, i - 1, j);
      Associate(b, Power(b, i - 1), Power(b, j));
    }
  }

  // ------------------------------------------------------------------ the printers

  /** The number whose digits are printed: for a negative signed argument its two's complement negation. */
  function Magnitude(n: nat, flag: set<Flag>): (m: nat)
    requires n < TWO64
    ensures m < TWO64
  {
    if SIGNEDFLAG in flag && n >= TWO63 then TWO64 - n else n
  }

  /** The argument as the signed number it stands for. */
  function Signed(n: nat): int {
    if n >= TWO63 then n - TWO64 else n
  }

  function SignChar(n: nat, flag: set<Flag>): char {
    if SIGNEDFLAG in flag && n >= TWO63 then '-'
    else if SHOWSIGNFLAG in flag then '+'
    else if BLANKPOSFLAG in flag then ' '
    else NUL
  }

  /** Sign and digits of a signed argument determine it, the most negative value included. */
  lemma SignedReads(n: nat, flag: set<Flag>)
    requires n < TWO64 && SIGNEDFLAG in flag
    ensures var v := Parse(Numeral(Magnitude(n, flag), 10, false), 10);
      Signed(n) == (if SignChar(n, flag) == '-' then -v else v)
  {
    NumeralParses(Magnitude(n, flag), 10, false);
  }

  /** `buf[--pos] = c`. */
  method PutFront(buf: array<char>, pos: nat, c: char) returns (p: nat)
    requires 0 < pos < buf.Length
    modifies buf
    ensures p == pos - 1 && buf[p..buf.Length - 1] == [c] + old(buf[pos..buf.Length - 1])
    ensures buf[buf.Length - 1] == old(buf[buf.Length - 1])
  {
    p := pos - 1;
    buf[p] := c;
  }

  /** The last digit of a numeral. */
  lemma LastDigit(n: nat, base: nat, caps: bool)
    requires 2 <= base <= 16
    ensures n >= base ==> Numeral(n, base, caps) == Numeral(n / base, base, caps) + [Table(caps)[n % base]]
    ensures n < base ==> Numeral(n, base, caps) == [Table(caps)[n]] && n % base == n
    ensures n / base == 0 <==> n < base
    ensures n / base <= n && (0 < n ==> n / base < n)
  {
    if n >= base {
      Quotient(n, base);
    } else {
      DivisionUnique(n, base, 0, n);
    }
  }

  /** longlong_to_string: writes the numeral, then NUL, at the end of the buffer and returns where it starts. */
  method LonglongToString(buf: array<char>, n: nat, flag: set<Flag>) returns (pos: nat, signchar: char)
    requires 21 <= buf.Length && n < TWO64
    modifies buf
    ensures pos < buf.Length && buf[pos..buf.Length - 1] == Numeral(Magnitude(n, flag), 10, false)
    ensures buf[buf.Length - 1] == NUL && signchar == SignChar(n, flag)
  {
    hide Numeral;
    var m: nat, negative := n, false;
    if SIGNEDFLAG in flag && n >= TWO63 {
      negative := true;
      m := (TWO64 - n) % TWO64;
    }
    ghost var digits := Numeral(m, 10, false);
    SixtyFourBits(m);
    pos := buf.Length - 1;
    buf[pos] := NUL;
    while m >= 10
      invariant pos < buf.Length && digits == Numeral(m, 10, false) + buf[pos..buf.Length - 1]
      invariant buf[buf.Length - 1] == NUL
      decreases m
    {
      LastDigit(m, 10, false);
      var digit := m % 10;
      m := m / 10;
      assert |digits| <= 20 && |Numeral(m, 10, false)| >= 1;
      pos := PutFront(buf, pos, HEXTABLE[digit]);
    }
    LastDigit(m, 10, false);
    pos := PutFront(buf, pos, HEXTABLE[m]);
    if negative {
      signchar := '-';
    } else if SHOWSIGNFLAG in flag {
      signchar := '+';
    } else if BLANKPOSFLAG in flag {
      signchar := ' ';
    } else {
      signchar := NUL;
    }
  }

  /** longlong_to_hexstring. */
  method LonglongToHexstring(buf: array<char>, n: nat, flag: set<Flag>) returns (pos: nat)
    requires 17 <= buf.Length && n < TWO64
    modifies buf
    ensures pos < buf.Length && buf[pos..buf.Length - 1] == Numeral(n, 16, CAPSFLAG in flag)
    ensures buf[buf.Length - 1] == NUL
  {
    hide Numeral;
    var u: nat, caps := n, CAPSFLAG in flag;
    var table := if caps then HEXTABLE_CAPS else HEXTABLE;
    ghost var digits := Numeral(u, 16, caps);
    SixtyFourBits(u);
    pos := buf.Length - 1;
    buf[pos] := NUL;
    var again := true;
    while again
      invariant pos < buf.Length && buf[buf.Length - 1] == NUL
      invariant again ==> digits == Numeral(u, 16, caps) + buf[pos..buf.Length - 1]
      invariant !again ==> digits == buf[pos..buf.Length - 1]
      decreases again, u
    {
      LastDigit(u, 16, caps);
      assert |digits| <= 16 && |Numeral(u, 16, caps)| >= 1;
      var digit := u % 16;
      u := u / 16;
      pos := PutFront(buf, pos, table[digit]);
      again := u != 0;
    }
  }
}
