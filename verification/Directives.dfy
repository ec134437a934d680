/**
 What a directive of a format means, in terms of its own characters and of the argument words: which flags and width it
 gives, which number an argument stands for, and what the printed text looks like.
 */
module Directives {
  import opened Rounding
  import opened Numbers
  import opened Format

  // ------------------------------------------------------------------ between `%` and the conversion character

  /** A character that modifies a directive; any other one ends it. */
  predicate Plain(c: char) {
    c in "0123456789.-+ #lhzjt"
  }

  ghost predicate AllPlain(s: string) {
    forall i :: 0 <= i < |s| ==> Plain(s[i])
  }

  function HowMany(s: string, c: char): nat {
    if s == "" then 0 else HowMany(s[..|s| - 1], c) + if s[|s| - 1] == c then 1 else 0
  }

  /** The digits of `s`, in order. */
  function DigitsOf(s: string): string {
    if s == "" then "" else DigitsOf(s[..|s| - 1]) + if IsDigit(s[|s| - 1]) then [s[|s| - 1]] else ""
  }

  function WidthOf(s: string): Word {
    Parse(DigitsOf(s), 10) % 0x1_0000_0000
  }

  /** A `0` comes while the width is still zero. */
  ghost predicate ZeroFirst(s: string) {
    exists k :: 0 <= k < |s| && s[k] == '0' && WidthOf(s[..k]) == 0
  }

  /** When a flag is set by the characters of `s`. */
  ghost predicate Means(f: Flag, s: string) {
    match f
    case LEFTFORMATFLAG => '-' in s
    case SHOWSIGNFLAG => '+' in s
    case BLANKPOSFLAG => ' ' in s
    case ALTFLAG => '#' in s
    case LEADZEROFLAG => ZeroFirst(s)
    case LONGFLAG => HowMany(s, 'l') >= 1
    case LONGLONGFLAG => HowMany(s, 'l') >= 2
    case HALFFLAG => HowMany(s, 'h') >= 1
    case HALFHALFFLAG => HowMany(s, 'h') >= 2
    case SIZETFLAG => 'z' in s
    case INTMAXFLAG => 'j' in s
    case PTRDIFFFLAG => 't' in s
    case CAPSFLAG => false
    case SIGNEDFLAG => false
  }

  ghost predicate Reading(flags: set<Flag>, s: string) {
    forall f: Flag :: f in flags <==> Means(f, s)
  }

  lemma WidthStep(s: string, c: char)
    ensures IsDigit(c) ==> WidthOf(s + [c]) == (WidthOf(s) * 10 + (c as int - '0' as int)) % 0x1_0000_0000
    ensures !IsDigit(c) ==> WidthOf(s + [c]) == WidthOf(s)
  {
    assert (s + [c])[..|s|] == s;
    if IsDigit(c) {
      var d := DigitsOf(s);
      ParseLast(d + [c], 10);
      assert (d + [c])[..|d|] == d;
      TimesTen(Parse(d, 10), c as int - '0' as int);
    } else {
      assert DigitsOf(s) + "" == DigitsOf(s);
    }
  }

  lemma TimesTen(x: int, d: int)
    ensures (x % 0x1_0000_0000 * 10 + d) % 0x1_0000_0000 == (x * 10 + d) % 0x1_0000_0000
  {
    var q := x / 0x1_0000_0000;
    assert x == 0x1_0000_0000 * q + x % 0x1_0000_0000;
    assert x * 10 + d == x % 0x1_0000_0000 * 10 + d + 0x1_0000_0000 * (10 * q);
    DropMultiple(x % 0x1_0000_0000 * 10 + d, 10 * q);
  }

  lemma DropMultiple(z: int, q: int)
    ensures (z + 0x1_0000_0000 * q) % 0x1_0000_0000 == z % 0x1_0000_0000
  {
  }

  lemma CountStep(s: string, c: char, x: char)
    ensures HowMany(s + [c], x) == HowMany(s, x) + if c == x then 1 else 0
    ensures x in s + [c] <==> x in s || x == c
  {
    assert (s + [c])[..|s|] == s;
  }

  lemma {:induction false} CountIn(s: string, x: char)
    ensures HowMany(s, x) >= 1 <==> x in s
  {
    if s == "" {
    } else {
      CountIn(s[..|s| - 1], x);
      assert s == s[..|s| - 1] + [s[|s| - 1]];
    }
  }

  lemma ZeroStep(s: string, c: char)
    ensures ZeroFirst(s + [c]) <==> ZeroFirst(s) || (c == '0' && WidthOf(s) == 0)
  {
    hide WidthOf;
    var t := s + [c];
    assert t[..|s|] == s && t[|s|] == c;
    forall k | 0 <= k < |s| ensures t[..k] == s[..k] && t[k] == s[k] {
    }
    if ZeroFirst(s) {
      var k :| 0 <= k < |s| && s[k] == '0' && WidthOf(s[..k]) == 0;
      assert t[k] == '0' && WidthOf(t[..k]) == 0;
    }
    if ZeroFirst(t) {
      var k :| 0 <= k < |t| && t[k] == '0' && WidthOf(t[..k]) == 0;
      assert k < |s| ==> s[k] == '0' && WidthOf(s[..k]) == 0;
    }
  }

  /** One more modifier. */
  lemma FlagStep(flags: set<Flag>, s: string, c: char, f: Flag)
    requires Reading(flags, s)
    ensures Means(f, s + [c]) <==> f in flags || f in Modifier(c, flags) || (f == LEADZEROFLAG && c == '0' && WidthOf(s) == 0)
  {
    hide HowMany, WidthOf, ZeroFirst, Modifier;
    assert f in flags <==> Means(f, s);
    assert LONGFLAG in flags <==> Means(LONGFLAG, s);
    assert HALFFLAG in flags <==> Means(HALFFLAG, s);
    ModifierCases(c, flags, f);
    match f
    case LEADZEROFLAG => ZeroStep(s, c);
    case LONGFLAG => CountStep(s, c, 'l');
    case LONGLONGFLAG => CountStep(s, c, 'l');
    case HALFFLAG => CountStep(s, c, 'h');
    case HALFHALFFLAG => CountStep(s, c, 'h');
    case _ =>
  }

  lemma ModifierCases(c: char, flags: set<Flag>, f: Flag)
    ensures f in Modifier(c, flags) <==>
      || (f == LEFTFORMATFLAG && c == '-') || (f == SHOWSIGNFLAG && c == '+') || (f == BLANKPOSFLAG && c == ' ')
      || (f == ALTFLAG && c == '#') || (f == SIZETFLAG && c == 'z') || (f == INTMAXFLAG && c == 'j')
      || (f == PTRDIFFFLAG && c == 't') || (f == LONGFLAG && c == 'l') || (f == HALFFLAG && c == 'h')
      || (f == LONGLONGFLAG && c == 'l' && LONGFLAG in flags) || (f == HALFHALFFLAG && c == 'h' && HALFFLAG in flags)
  {
  }

  lemma FlagsStep(flags: set<Flag>, s: string, c: char) returns (flags': set<Flag>)
    requires Reading(flags, s)
    ensures flags' == flags + Modifier(c, flags) + (if c == '0' && WidthOf(s) == 0 then {LEADZEROFLAG} else {})
    ensures Reading(flags', s + [c])
  {
    hide Means, Modifier, WidthOf;
    flags' := flags + Modifier(c, flags) + (if c == '0' && WidthOf(s) == 0 then {LEADZEROFLAG} else {});
    forall f: Flag ensures f in flags' <==> Means(f, s + [c]) {
      FlagStep(flags, s, c, f);
    }
  }

  /** What has been read when the scan has passed the modifiers `fmt[i..i + k]`. */
  lemma {:induction false} ScanPrefix(fmt: string, i: nat, k: nat) returns (flags: set<Flag>)
    requires i + k <= |fmt| && NUL !in fmt && AllPlain(fmt[i..i + k])
    ensures Reading(flags, fmt[i..i + k])
    ensures Scan(fmt, i, {}, 0) == Scan(fmt, i + k, flags, WidthOf(fmt[i..i + k]))
  {
    hide Scan, Modifier, Reading, WidthOf, IsDigit;
    if k == 0 {
      assert fmt[i..i] == "";
      NothingRead();
      flags := {};
    } else {
      var s, c := fmt[i..i + k - 1], fmt[i + k - 1];
      assert fmt[i..i + k] == s + [c];
      assert AllPlain(s) by {
        assert forall j :: 0 <= j < |s| ==> s[j] == fmt[i..i + k][j];
      }
      var before := ScanPrefix(fmt, i, k - 1);
      assert Plain(c) by {
        assert fmt[i..i + k][k - 1] == c;
      }
      flags := FlagsStep(before, s, c);
      OneScan(fmt, i + k - 1, before, s, flags);
    }
  }

  lemma NothingRead()
    ensures Reading({}, "") && WidthOf("") == 0
  {
  }

  /** The scan takes one modifier. */
  lemma OneScan(fmt: string, i: nat, flags: set<Flag>, s: string, flags': set<Flag>)
    requires i < |fmt| && NUL !in fmt && Plain(fmt[i])
    requires flags' == flags + Modifier(fmt[i], flags) + (if fmt[i] == '0' && WidthOf(s) == 0 then {LEADZEROFLAG} else {})
    ensures Scan(fmt, i, flags, WidthOf(s)) == Scan(fmt, i + 1, flags', WidthOf(s + [fmt[i]]))
  {
    hide Scan, Modifier, WidthOf, IsDigit, Plain;
    var c := fmt[i];
    assert c in fmt;
    ScanUnfold(fmt, i, flags, WidthOf(s));
    PlainStep(c, flags);
    WidthStep(s, c);
    if IsDigit(c) {
      assert flags' == if c == '0' && WidthOf(s) == 0 then flags + {LEADZEROFLAG} else flags;
    } else {
      assert flags' == flags + Modifier(c, flags);
    }
  }

  lemma PlainStep(c: char, flags: set<Flag>)
    ensures Plain(c) <==> IsDigit(c) || c == '.' || Modifier(c, flags) != {}
    ensures IsDigit(c) || c == '.' ==> Modifier(c, flags) == {}
    ensures c == '0' ==> IsDigit(c)
  {
  }

  /** The modifiers at `i`, and the character behind them. */
  lemma Modifiers(fmt: string, i: nat) returns (s: string, flags: set<Flag>)
    requires i <= |fmt| && NUL !in fmt
    ensures i + |s| <= |fmt| && s == fmt[i..i + |s|] && AllPlain(s) && Reading(flags, s)
    ensures i + |s| == |fmt| ==> Scan(fmt, i, {}, 0) == Spec(flags, WidthOf(s), NUL, |fmt|)
    ensures i + |s| < |fmt| ==>
      var c := fmt[i + |s|];
      !Plain(c) && c != NUL && Scan(fmt, i, {}, 0) == Spec(flags, WidthOf(s), c, i + |s| + 1)
  {
    hide Scan, Modifier, IsDigit, Reading, WidthOf, Plain;
    var j := i;
    while j < |fmt| && Plain(fmt[j])
      invariant i <= j <= |fmt| && AllPlain(fmt[i..j])
    {
      assert fmt[i..j + 1] == fmt[i..j] + [fmt[j]];
      j := j + 1;
    }
    s := fmt[i..j];
    flags := ScanPrefix(fmt, i, j - i);
    assert i + (j - i) == j;
    ScanUnfold(fmt, j, flags, WidthOf(s));
    if j < |fmt| {
      assert fmt[j] in fmt;
      PlainStep(fmt[j], flags);
      assert flags + Modifier(fmt[j], flags) == flags;
    }
  }

  /**
   A directive in its own characters. They are modifiers up to the conversion character; each flag is set exactly by its
   letter, the longer and shorter types by two of theirs, the width is the digits read as one number, modulo 2^32.
   */
  lemma ScanMeaning(fmt: string, i: nat) returns (s: string)
    requires i <= |fmt| && NUL !in fmt
    ensures AllPlain(s)
    ensures var d := Scan(fmt, i, {}, 0);
      && (d.conv == NUL ==> fmt[i..] == s)
      && (d.conv != NUL ==> i < d.next <= |fmt| && s == fmt[i..d.next - 1] && d.conv == fmt[d.next - 1] && !Plain(d.conv))
      && d.width == Parse(DigitsOf(s), 10) % 0x1_0000_0000
    ensures var f := Scan(fmt, i, {}, 0).flags;
      && (LEFTFORMATFLAG in f <==> '-' in s) && (SHOWSIGNFLAG in f <==> '+' in s) && (BLANKPOSFLAG in f <==> ' ' in s)
      && (ALTFLAG in f <==> '#' in s) && (LEADZEROFLAG in f <==> ZeroFirst(s))
      && (LONGFLAG in f <==> 'l' in s) && (LONGLONGFLAG in f <==> HowMany(s, 'l') >= 2)
      && (HALFFLAG in f <==> 'h' in s) && (HALFHALFFLAG in f <==> HowMany(s, 'h') >= 2)
      && (SIZETFLAG in f <==> 'z' in s) && (INTMAXFLAG in f <==> 'j' in s) && (PTRDIFFFLAG in f <==> 't' in s)
      && CAPSFLAG !in f && SIGNEDFLAG !in f
  {
    hide Scan, ZeroFirst, HowMany, Parse, DigitsOf, Plain;
    var flags;
    s, flags := Modifiers(fmt, i);
    CountIn(s, 'l');
    CountIn(s, 'h');
    assert i + |s| == |fmt| ==> fmt[i..] == s;
    assert Means(LEFTFORMATFLAG, s) <==> LEFTFORMATFLAG in flags;
  }
}
