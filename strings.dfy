/** Python's decimal text conversions as the append script relies on them:
    `str(n)` for an integer, `int(s)` for a string, and the substring test `p in s`. */
module Strings {
  import opened Options

  predicate IsDigit(c: char) { '0' <= c <= '9' }

  predicate AllDigits(s: string) { forall i :: 0 <= i < |s| ==> IsDigit(s[i]) }

  function DigitValue(c: char): (d: nat)
    requires IsDigit(c)
    ensures d < 10
  {
    c as int - '0' as int
  }

  function DigitChar(d: nat): (c: char)
    requires d < 10
    ensures IsDigit(c) && DigitValue(c) == d
  {
    ('0' as int + d) as char
  }

  /** `str(n)` for a natural number: decimal digits, no sign, no leading zero. */
  function NatToString(n: nat): (s: string)
    ensures |s| > 0
    decreases n
  {
    if n < 10 then [DigitChar(n)] else NatToString(n / 10) + [DigitChar(n % 10)]
  }

  /** The text of a natural number is all digits, with no leading zero. */
  lemma {:induction false} NatToStringDigits(n: nat)
    ensures AllDigits(NatToString(n))
    ensures |NatToString(n)| > 1 ==> NatToString(n)[0] != '0'
    decreases n
  {
    if n >= 10 {
      NatToStringDigits(n / 10);
      var s := NatToString(n);
      assert s == NatToString(n / 10) + [DigitChar(n % 10)];
      assert forall i :: 0 <= i < |s| - 1 ==> s[i] == NatToString(n / 10)[i];
    }
  }

  /** `str(n)` for any integer: a minus sign in front of a negative number. */
  function IntToString(n: int): (s: string)
    ensures |s| > 0
  {
    if n < 0 then "-" + NatToString(-n) else NatToString(n)
  }

  /** The text of an integer is digits, after a minus sign exactly when it is negative,
      with no leading zero in the digits and no "-0". */
  lemma {:induction false} IntToStringChars(n: int)
    ensures var s := IntToString(n);
            (forall i :: 0 <= i < |s| ==> IsDigit(s[i]) || (i == 0 && s[i] == '-')) &&
            ((n < 0) == (s[0] == '-')) &&
            IsIntText(s)
  {
    var m: nat := if n < 0 then -n else n;
    NatToStringDigits(m);
    var d := NatToString(m);
    assert IsDigit(d[0]);
    if n < 0 {
      assert ("-" + d)[1..] == d;
      assert forall i :: 1 <= i < |d| + 1 ==> ("-" + d)[i] == d[i - 1];
      assert d != "0" by { NatToStringRoundTrip(m); }
    }
  }

  /** Text in the form str() gives an integer: an optional minus sign, then decimal
      digits with no leading zero, and never "-0". */
  predicate IsIntText(s: string)
  {
    |s| > 0 &&
    var d := if s[0] == '-' then s[1..] else s;
    |d| > 0 && AllDigits(d) && (|d| > 1 ==> d[0] != '0') && (s[0] == '-' ==> d != "0")
  }

  /** Digits with no leading zero are exactly the text str() writes for their value. */
  lemma {:induction false} DigitsAreNatText(s: string)
    requires |s| > 0 && AllDigits(s) && (|s| > 1 ==> s[0] != '0')
    ensures s == NatToString(DigitsValue(s))
    decreases |s|
  {
    var n := DigitsValue(s);
    var c := s[|s| - 1];
    if |s| > 1 {
      var p := s[..|s| - 1];
      assert p[0] == s[0];
      assert AllDigits(p);
      DigitsAreNatText(p);
      var q := DigitsValue(p);
      assert q != 0 by { assert p[0] != '0'; }
      assert n == 10 * q + DigitValue(c);
      assert n / 10 == q && n % 10 == DigitValue(c);
      assert DigitChar(DigitValue(c)) == c;
      assert s == p + [c];
    } else {
      assert DigitChar(DigitValue(c)) == c;
    }
  }

  /** Only one text of that form reads back as a given integer: it is str() of it. */
  lemma {:induction false} IntTextUnique(s: string, n: int)
    requires IsIntText(s) && ParseInt(s) == Some(n)
    ensures s == IntToString(n)
  {
    if s[0] == '-' {
      var d := s[1..];
      assert s == "-" + d;
      ParseNegativeDigits(d);
      DigitsAreNatText(d);
    } else {
      ParseDigits(s);
      DigitsAreNatText(s);
    }
  }

  /** The value of a string of decimal digits (leading zeros allowed, as int() allows them). */
  function DigitsValue(s: string): nat
    requires AllDigits(s)
  {
    if s == [] then 0 else 10 * DigitsValue(s[..|s| - 1]) + DigitValue(s[|s| - 1])
  }

  lemma {:induction false} NatToStringRoundTrip(n: nat)
    ensures AllDigits(NatToString(n)) && DigitsValue(NatToString(n)) == n
    decreases n
  {
    NatToStringDigits(n);
    if n >= 10 {
      var s := NatToString(n);
      assert s[..|s| - 1] == NatToString(n / 10);
      NatToStringRoundTrip(n / 10);
    }
  }

  /** The ASCII whitespace int() ignores around a number: space, tab, line feed,
      vertical tab, form feed, carriage return and the separators 0x1C to 0x1F. */
  predicate IsSpace(c: char)
  {
    c == ' ' || c == '\t' || c == '\n' || c == '\r' || c as int == 11 || c as int == 12 ||
    28 <= c as int <= 31
  }

  function TrimStart(s: string): (r: string)
    ensures |r| > 0 ==> !IsSpace(r[0])
  {
    if |s| > 0 && IsSpace(s[0]) then TrimStart(s[1..]) else s
  }

  function TrimEnd(s: string): (r: string)
    ensures |r| > 0 ==> !IsSpace(r[|r| - 1])
  {
    if |s| > 0 && IsSpace(s[|s| - 1]) then TrimEnd(s[..|s| - 1]) else s
  }

  /** Digits with single underscores between them, as int() accepts them ("1_000"). */
  predicate ValidDigitBody(b: string)
  {
    |b| > 0 && IsDigit(b[0]) && IsDigit(b[|b| - 1]) &&
    (forall i :: 0 <= i < |b| ==> IsDigit(b[i]) || b[i] == '_') &&
    (forall i, j :: 0 <= i < |b| && 0 <= j < |b| && j == i + 1 ==> b[i] != '_' || b[j] != '_')
  }

  function RemoveUnderscores(b: string): (r: string)
    requires forall i :: 0 <= i < |b| ==> IsDigit(b[i]) || b[i] == '_'
    ensures AllDigits(r) && |r| <= |b|
    ensures AllDigits(b) ==> r == b
  {
    if b == [] then []
    else (if b[0] == '_' then [] else [b[0]]) + RemoveUnderscores(b[1..])
  }

  function BodyValue(b: string): nat
    requires ValidDigitBody(b)
  {
    DigitsValue(RemoveUnderscores(b))
  }

  /** `int(s)`: surrounding whitespace, an optional sign, then a digit body; None where int() raises. */
  function ParseInt(s: string): (r: Option<int>)
  {
    ParseSigned(TrimEnd(TrimStart(s)))
  }

  /** int() after trimming: an optional sign, then a digit body. */
  function ParseSigned(t: string): (r: Option<int>)
  {
    if |t| > 0 && t[0] == '-' then
      match ParseBody(t[1..])
      case Some(v) => Some(-v)
      case None => None
    else if |t| > 0 && t[0] == '+' then ParseBody(t[1..])
    else ParseBody(t)
  }

  function ParseBody(b: string): (r: Option<int>)
  {
    if ValidDigitBody(b) then Some(BodyValue(b)) else None
  }

  lemma {:induction false} TrimNoSpace(s: string)
    requires |s| > 0 && !IsSpace(s[0]) && !IsSpace(s[|s| - 1])
    ensures TrimEnd(TrimStart(s)) == s
  {
    assert TrimStart(s) == s;
  }

  lemma {:induction false} DigitsAreBody(d: string)
    requires |d| > 0 && AllDigits(d)
    ensures ParseBody(d) == Some(DigitsValue(d))
  {
  }

  lemma {:induction false} ParseDigits(d: string)
    requires |d| > 0 && AllDigits(d)
    ensures ParseInt(d) == Some(DigitsValue(d))
  {
    DigitsAreBody(d);
    TrimNoSpace(d);
  }

  lemma {:induction false} SignedNegative(s: string, d: string)
    requires |d| > 0 && AllDigits(d) && s == "-" + d
    ensures ParseSigned(s) == Some(-(DigitsValue(d) as int))
  {
    DigitsAreBody(d);
    assert s[1..] == d;
  }

  lemma {:induction false} ParseNegativeDigits(d: string)
    requires |d| > 0 && AllDigits(d)
    ensures ParseInt("-" + d) == Some(-(DigitsValue(d) as int))
  {
    var s := "-" + d;
    assert s[0] == '-' && s[|s| - 1] == d[|d| - 1];
    TrimNoSpace(s);
    SignedNegative(s, d);
  }

  /** int(str(n)) == n: the text written for an integer reads back as that integer. */
  lemma {:induction false} IntToStringRoundTrip(n: int)
    ensures ParseInt(IntToString(n)) == Some(n)
  {
    var m: nat := if n < 0 then -n else n;
    NatToStringRoundTrip(m);
    if n < 0 {
      ParseNegativeDigits(NatToString(m));
    } else {
      ParseDigits(NatToString(m));
    }
  }

  predicate OccursAt(s: string, p: string, i: int)
  {
    0 <= i <= |s| - |p| && s[i..i + |p|] == p
  }

  /** Python's `p in s` on strings. */
  predicate Contains(s: string, p: string)
  {
    exists i :: 0 <= i <= |s| - |p| && OccursAt(s, p, i)
  }
}
