/** parse_int: Python's int(s) on a string, with 0 in place of the ValueError
    it raises on anything that is not a base-10 integer literal. */
module Integers {
  import opened Text

  predicate IsDigit(c: char)
  {
    '0' <= c <= '9'
  }

  function DigitValue(c: char): nat
    requires IsDigit(c)
  {
    c as int - '0' as int
  }

  /** The digit part int() accepts: ASCII digits, where a single underscore may
      separate two digits ("1_976"). */
  predicate IsDigitRun(s: string)
    decreases |s|
  {
    && |s| > 0
    && IsDigit(s[0])
    && (|s| == 1 || IsDigitRun(s[1..]) || (s[1] == '_' && IsDigitRun(s[2..])))
  }

  /** A base-10 literal as int() reads it once the surrounding whitespace is
      gone: an optional sign, then a digit run. */
  predicate IsIntLiteral(t: string)
  {
    IsDigitRun(t) || (|t| > 0 && (t[0] == '+' || t[0] == '-') && IsDigitRun(t[1..]))
  }

  /** The number spelled by the digits of s, underscores ignored. */
  function DigitsValue(s: string): nat
  {
    if s == [] then 0
    else if IsDigit(s[|s| - 1]) then DigitsValue(s[..|s| - 1]) * 10 + DigitValue(s[|s| - 1])
    else DigitsValue(s[..|s| - 1])
  }

  function LiteralValue(t: string): int
    requires IsIntLiteral(t)
  {
    if t[0] == '-' then -(DigitsValue(t[1..]) as int)
    else if t[0] == '+' then DigitsValue(t[1..])
    else DigitsValue(t)
  }

  /** The whitespace int() skips around a literal. It is str.isspace()
      without U+001C-U+001F: CPython turns non-ASCII whitespace into spaces,
      keeps every ASCII character as it is, and then skips only tab, line
      feed, vertical tab, form feed, carriage return and space. */
  predicate IsIntSpace(c: char)
  {
    IsSpace(c) && !('\U{1C}' <= c <= '\U{1F}')
  }

  /** Leading int() whitespace removed. */
  function TrimLeft(s: string): (r: string)
    ensures r == [] || !IsIntSpace(r[0])
    ensures |r| <= |s| && r == s[|s| - |r|..]
    ensures forall j :: 0 <= j < |s| - |r| ==> IsIntSpace(s[j])
  {
    if s != [] && IsIntSpace(s[0]) then TrimLeft(s[1..]) else s
  }

  /** Trailing int() whitespace removed. */
  function TrimRight(s: string): (r: string)
    ensures r == [] || !IsIntSpace(r[|r| - 1])
    ensures |r| <= |s| && r == s[..|r|]
    ensures forall j :: |r| <= j < |s| ==> IsIntSpace(s[j])
  {
    if s != [] && IsIntSpace(s[|s| - 1]) then TrimRight(s[..|s| - 1]) else s
  }

  /** What int() reads once the surrounding whitespace is skipped. */
  function Trim(s: string): string
  {
    TrimRight(TrimLeft(s))
  }

  /** A string that neither starts nor ends with int() whitespace is read as it is. */
  lemma TrimUnchanged(s: string)
    requires s == [] || (!IsIntSpace(s[0]) && !IsIntSpace(s[|s| - 1]))
    ensures Trim(s) == s
  {
  }

  /** CPython's default limit on the digits of a decimal string that int()
      converts (sys.get_int_max_str_digits()); beyond it int() raises
      ValueError, and so does str() on an integer of more digits. */
  const MaxStrDigits: nat := 4300

  /** The number of digits in s, underscores and signs not counted. */
  function DigitCount(s: string): nat
  {
    if s == [] then 0 else (if IsDigit(s[0]) then 1 else 0) + DigitCount(s[1..])
  }

  /** parse_int (NovelSearch/cli.py:50-58): the value of a literal within the
      digit limit, 0 otherwise. */
  function ParseInt(s: string): int
  {
    var t := Trim(s);
    if IsIntLiteral(t) && DigitCount(t) <= MaxStrDigits then LiteralValue(t) else 0
  }

  /** The canonical decimal spelling of a natural number. */
  function NatString(n: nat): (r: string)
    ensures |r| > 0 && IsDigit(r[0]) && IsDigit(r[|r| - 1])
  {
    if n < 10 then [('0' as int + n) as char]
    else NatString(n / 10) + [('0' as int + n % 10) as char]
  }

  /** str(n) for an integer n. */
  function DecimalString(n: int): string
  {
    if n < 0 then "-" + NatString(-n) else NatString(n)
  }

  lemma {:induction false} DigitRunSnoc(s: string, c: char)
    requires IsDigitRun(s) && IsDigit(c)
    ensures IsDigitRun(s + [c])
    decreases |s|
  {
    if |s| == 1 {
      assert (s + [c])[1..] == [c];
    } else if IsDigitRun(s[1..]) {
      DigitRunSnoc(s[1..], c);
      assert (s + [c])[1..] == s[1..] + [c];
    } else {
      DigitRunSnoc(s[2..], c);
      assert (s + [c])[2..] == s[2..] + [c];
    }
  }

  lemma {:induction false} NatStringIsDigitRun(n: nat)
    ensures IsDigitRun(NatString(n))
  {
    if n >= 10 {
      NatStringIsDigitRun(n / 10);
      DigitRunSnoc(NatString(n / 10), ('0' as int + n % 10) as char);
    }
  }

  lemma {:induction false} NatStringValue(n: nat)
    ensures DigitsValue(NatString(n)) == n
  {
    if n >= 10 {
      var s := NatString(n);
      assert s[..|s| - 1] == NatString(n / 10);
      NatStringValue(n / 10);
    }
  }

  lemma {:induction false} DigitCountAppend(a: string, b: string)
    ensures DigitCount(a + b) == DigitCount(a) + DigitCount(b)
    decreases |a|
  {
    if a == [] {
      assert a + b == b;
    } else {
      assert (a + b)[1..] == a[1..] + b;
      DigitCountAppend(a[1..], b);
    }
  }

  /** Every character of a decimal spelling is a digit. */
  lemma {:induction false} NatStringDigitCount(n: nat)
    ensures DigitCount(NatString(n)) == |NatString(n)|
  {
    if n >= 10 {
      var c := ('0' as int + n % 10) as char;
      NatStringDigitCount(n / 10);
      DigitCountAppend(NatString(n / 10), [c]);
      assert DigitCount([c]) == 1 by {
        assert [c][1..] == [];
      }
    }
  }

  /** A literal with no int() whitespace at its ends reads as its value
      exactly when it is within the digit limit. */
  lemma ParseIntLiteral(t: string)
    requires IsIntLiteral(t) && !IsIntSpace(t[0]) && !IsIntSpace(t[|t| - 1])
    ensures ParseInt(t) == if DigitCount(t) <= MaxStrDigits then LiteralValue(t) else 0
  {
    TrimUnchanged(t);
  }

  lemma ParseIntNonNegative(n: int)
    requires n >= 0
    ensures ParseInt(DecimalString(n)) == if |NatString(n)| <= MaxStrDigits then n else 0
  {
    var d := NatString(n);
    assert DecimalString(n) == d;
    assert IsIntLiteral(d) by {
      NatStringIsDigitRun(n);
    }
    ParseIntLiteral(d);
    assert LiteralValue(d) == n by {
      assert d[0] != '-' && d[0] != '+';
      NatStringValue(n);
    }
    NatStringDigitCount(n);
  }

  lemma ParseIntNegative(n: int)
    requires n < 0
    ensures ParseInt(DecimalString(n)) == if |NatString(-n)| <= MaxStrDigits then n else 0
  {
    var m: nat := -n;
    var s := NatString(m);
    var d := "-" + s;
    assert d == DecimalString(n);
    assert d[0] == '-' && d[1..] == s;
    assert IsIntLiteral(d) by {
      NatStringIsDigitRun(m);
    }
    assert d[|d| - 1] == s[|s| - 1];
    ParseIntLiteral(d);
    assert LiteralValue(d) == n by {
      NatStringValue(m);
    }
    assert DigitCount(d) == |s| by {
      NatStringDigitCount(m);
    }
  }

  /** Round trip: parse_int reads back every integer that str() writes, that
      is every integer of at most MaxStrDigits digits; a longer spelling
      reads as 0. */
  lemma ParseIntDecimalString(n: int)
    ensures ParseInt(DecimalString(n)) == if |NatString(if n < 0 then -n else n)| <= MaxStrDigits then n else 0
  {
    if n < 0 {
      ParseIntNegative(n);
    } else {
      ParseIntNonNegative(n);
    }
  }

  lemma DigitRunCons(c: char, s: string)
    requires IsDigit(c) && IsDigitRun(s)
    ensures IsDigitRun([c] + s)
  {
    assert ([c] + s)[1..] == s;
  }

  lemma DigitRunSeparated(c: char, s: string)
    requires IsDigit(c) && IsDigitRun(s)
    ensures IsDigitRun([c, '_'] + s)
  {
    var t := [c, '_'] + s;
    assert t[1] == '_' && t[2..] == s;
  }

  lemma DigitsValueSnoc(s: string, c: char)
    ensures DigitsValue(s + [c]) == if IsDigit(c) then DigitsValue(s) * 10 + DigitValue(c) else DigitsValue(s)
  {
    assert (s + [c])[..|s|] == s;
  }

  lemma UnderscoreRun()
    ensures IsDigitRun("0_1976")
  {
    assert IsDigitRun("6");
    DigitRunCons('7', "6");
    assert ['7'] + "6" == "76";
    DigitRunCons('9', "76");
    assert ['9'] + "76" == "976";
    DigitRunCons('1', "976");
    assert ['1'] + "976" == "1976";
    DigitRunSeparated('0', "1976");
    assert ['0', '_'] + "1976" == "0_1976";
  }

  lemma UnderscoreValue()
    ensures DigitsValue("0_1976") == 1976
  {
    DigitsValueSnoc([], '0');
    assert [] + ['0'] == "0";
    DigitsValueSnoc("0", '_');
    assert "0" + ['_'] == "0_";
    DigitsValueSnoc("0_", '1');
    assert "0_" + ['1'] == "0_1";
    DigitsValueSnoc("0_1", '9');
    assert "0_1" + ['9'] == "0_19";
    DigitsValueSnoc("0_19", '7');
    assert "0_19" + ['7'] == "0_197";
    DigitsValueSnoc("0_197", '6');
    assert "0_197" + ['6'] == "0_1976";
  }

  /** A plus sign, leading zeros and digit-separating underscores are accepted. */
  lemma ParseIntUnderscore()
    ensures ParseInt("+0_1976") == 1976
  {
    var t := "+0_1976";
    assert t[0] == '+' && t[1..] == "0_1976";
    assert IsIntLiteral(t) && LiteralValue(t) == 1976 by {
      UnderscoreRun();
      UnderscoreValue();
    }
    assert DigitCount(t) == 5 by {
      DigitCountAppend("+0_", "1976");
      assert "+0_" + "1976" == t;
      assert "+0_"[1..] == "0_" && "0_"[1..] == "_" && "_"[1..] == [];
      assert "1976"[1..] == "976" && "976"[1..] == "76" && "76"[1..] == "6" && "6"[1..] == [];
    }
    ParseIntLiteral(t);
  }

  /** A token with anything after the digits reads as 0: "1976(tie)" is not a year. */
  lemma ParseIntTrailingText()
    ensures ParseInt("1976(tie)") == 0
  {
    var t := "1976(tie)";
    TrimUnchanged(t);
    assert !IsDigitRun(t[1..][1..][1..][1..]);
    assert !IsDigitRun(t[1..][1..][1..]);
    assert !IsDigitRun(t[1..][1..]);
    assert !IsDigitRun(t[1..]);
  }

  /** Two texts that trim to the same literal read as the same number. */
  lemma ParseIntSameTrim(s: string, u: string)
    requires Trim(s) == Trim(u)
    ensures ParseInt(s) == ParseInt(u)
  {
  }

  /** The bare digit 5 reads as 5. */
  lemma ParseIntFive()
    ensures ParseInt("5") == 5
  {
    assert IsIntLiteral("5") && LiteralValue("5") == 5;
    assert DigitCount("5") == 1 by {
      assert "5"[1..] == [];
    }
    ParseIntLiteral("5");
  }

  /** Tab, line feed and space around a literal are skipped. */
  lemma ParseIntPadded()
    ensures ParseInt(" \t5\n") == 5
  {
    var s := " \t5\n";
    assert Trim(s) == "5" by {
      TrimLeftSpaces(s, 2);
      assert s[2..] == "5\n";
      assert IsIntSpace('\n') && !IsIntSpace('5') && "5\n"[..1] == "5";
    }
    assert Trim("5") == "5" by {
      TrimUnchanged("5");
    }
    ParseIntSameTrim(s, "5");
    ParseIntFive();
  }

  /** Leading int() whitespace up to a character that is not whitespace is skipped. */
  lemma {:induction false} TrimLeftSpaces(s: string, p: nat)
    requires p < |s| && !IsIntSpace(s[p])
    requires forall j :: 0 <= j < p ==> IsIntSpace(s[j])
    ensures TrimLeft(s) == s[p..]
    decreases p
  {
    if p > 0 {
      assert s[1..][p - 1] == s[p];
      TrimLeftSpaces(s[1..], p - 1);
      assert s[1..][p - 1..] == s[p..];
    }
  }

  /** A non-ASCII space such as U+00A0 around a literal is skipped too. */
  lemma ParseIntNonAsciiPadded()
    ensures ParseInt("\U{A0}5") == 5
  {
    var s := "\U{A0}5";
    assert Trim(s) == "5" by {
      TrimLeftSpaces(s, 1);
      assert s[1..] == "5";
      TrimUnchanged("5");
    }
    assert Trim("5") == "5" by {
      TrimUnchanged("5");
    }
    ParseIntSameTrim(s, "5");
    ParseIntFive();
  }

  /** U+001C-U+001F count as whitespace for str.isspace() but not for int():
      a year cell padded with one of them reads as 0. */
  lemma ParseIntSeparatorPadded()
    ensures ParseInt("\U{1C}5") == 0
  {
    var s := "\U{1C}5";
    TrimUnchanged(s);
    assert !IsDigitRun(s);
  }
}
