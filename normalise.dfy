/** The value normaliser of the append loop (main.py:162-169): which raw cells
    produce a row, and the text written for them. */
module Normalise {
  import opened Options
  import opened Strings
  import opened Tables

  /** `int(x)` for a float: truncation toward zero. */
  function Trunc(x: real): (n: int)
    ensures 0.0 <= x ==> n as real <= x < n as real + 1.0
    ensures x < 0.0 ==> n as real - 1.0 < x <= n as real
  {
    if x >= 0.0 then x.Floor else -((-x).Floor)
  }

  /** Python truthiness of a cell that is not a float. */
  predicate Truthy(c: Cell)
  {
    match c
    case Int(n) => n != 0
    case Text(s) => s != ""
    case _ => true
  }

  /** The text a raw cell contributes, or None when the cell is skipped. */
  function NormaliseValue(c: Cell): (r: Option<string>)
    ensures r.None? <==> c.Missing? || (!c.Float? && !Truthy(c))
    ensures c.Text? && r.Some? ==> r.value == c.s
  {
    match c
    case Missing => None
    case Float(x) => Some("." + IntToString(Trunc(x)))
    case Int(n) => if n == 0 then None else Some(IntToString(n))
    case Text(s) => if s == "" then None else Some(s)
  }

  /** A float is written as a point followed by its truncated value in the form str()
      gives an integer (a minus sign exactly when negative, no leading zero), and that
      text reads back as the truncated value. */
  lemma {:induction false} FloatRendering(x: real)
    ensures NormaliseValue(Float(x)).Some?
    ensures var v := NormaliseValue(Float(x)).value;
            |v| >= 2 && v[0] == '.' &&
            var t := v[1..];
            (forall i :: 0 <= i < |t| ==> IsDigit(t[i]) || (i == 0 && t[i] == '-')) &&
            ((Trunc(x) < 0) == (t[0] == '-')) &&
            IsIntText(t) &&
            ParseInt(t) == Some(Trunc(x))
  {
    var v := NormaliseValue(Float(x)).value;
    assert v[1..] == IntToString(Trunc(x));
    IntToStringChars(Trunc(x));
    IntToStringRoundTrip(Trunc(x));
  }

  /** What follows the point is exactly `str()` of the truncated value: any text in that
      form reading back as the same number is the same text (".085" is not ".85"). */
  lemma {:induction false} FloatRenderingExact(x: real, t: string)
    requires IsIntText(t) && ParseInt(t) == Some(Trunc(x))
    ensures NormaliseValue(Float(x)) == Some("." + t)
  {
    IntTextUnique(t, Trunc(x));
  }

  /** A non-zero integer passes through: its text reads back as the same number. */
  lemma {:induction false} IntRendering(n: int)
    requires n != 0
    ensures NormaliseValue(Int(n)).Some? && ParseInt(NormaliseValue(Int(n)).value) == Some(n)
  {
    IntToStringRoundTrip(n);
  }

  /** Truncation, not rounding: 85.9 and 85.0 are both written ".85", and -0.5 as ".0". */
  lemma {:induction false} TruncationExamples()
    ensures NormaliseValue(Float(85.9)) == Some(".85")
    ensures NormaliseValue(Float(85.0)) == Some(".85")
    ensures NormaliseValue(Float(-0.5)) == Some(".0")
  {
    assert Trunc(85.9) == 85;
    assert Trunc(-0.5) == 0;
    assert NatToString(8) == "8";
    assert NatToString(85) == NatToString(8) + "5";
    assert NatToString(0) == "0";
    assert IntToString(Trunc(85.9)) == "85";
    assert IntToString(Trunc(-0.5)) == "0";
    var x := 85.9;
    assert NormaliseValue(Float(x)) == Some("." + IntToString(Trunc(x)));
    assert "." + "85" == ".85";
    var y := -0.5;
    assert NormaliseValue(Float(y)) == Some("." + IntToString(Trunc(y)));
    assert "." + "0" == ".0";
  }
}
