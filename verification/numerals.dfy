/** Python's `int(token)` for base-10 tokens, and its inverse `str(n)`. */
module Numerals {
  import opened Wrappers

  predicate IsDigit(c: char) {
    '0' <= c <= '9'
  }

  function DigitValue(c: char): (d: nat)
    requires IsDigit(c)
    ensures d < 10
  {
    c as int - '0' as int
  }

  function DigitChar(d: nat): (c: char)
    requires d < 10
    ensures IsDigit(c) && DigitValue(c) == d
  {
    ('0' as int + d) as char
  }

  /** Python's grammar for the body of a base-10 `int()` literal: digits,
      with single underscores allowed between two digits. */
  predicate IsDecimal(s: string) {
    && |s| > 0
    && IsDigit(s[0])
    && IsDigit(s[|s| - 1])
    && DigitsOrUnderscores(s)
    && forall i, j :: 0 <= i < |s| && 0 <= j < |s| && j == i + 1 ==> s[i] != '_' || s[j] != '_'
  }

  predicate DigitsOrUnderscores(s: string) {
    forall i :: 0 <= i < |s| ==> IsDigit(s[i]) || s[i] == '_'
  }

  /** The number the digits of `s` spell, underscores ignored. */
  function DecimalValue(s: string): nat
    requires DigitsOrUnderscores(s)
  {
    if s == [] then 0
    else if s[|s| - 1] == '_' then DecimalValue(s[..|s| - 1])
    else 10 * DecimalValue(s[..|s| - 1]) + DigitValue(s[|s| - 1])
  }

  /** Python's `int(token)` for a whitespace-free token: an optional sign
      followed by a decimal body; anything else is the `ValueError` case. */
  function ParseInt(token: string): (r: Option<int>)
    ensures r.Some? ==> |token| > 0
    ensures r.Some? && (token[0] == '+' || token[0] == '-') ==> IsDecimal(token[1..])
    ensures r.Some? && token[0] != '+' && token[0] != '-' ==> IsDecimal(token)
    ensures r.Some? && token[0] == '-' ==> r.value <= 0
    ensures r.Some? && token[0] != '-' ==> r.value >= 0
    ensures IsDecimal(token) ==> r == Some(DecimalValue(token) as int)
    ensures |token| > 0 && token[0] == '+' && IsDecimal(token[1..]) ==>
              r == Some(DecimalValue(token[1..]) as int)
    ensures |token| > 0 && token[0] == '-' && IsDecimal(token[1..]) ==>
              r == Some(-(DecimalValue(token[1..]) as int))
  {
    if |token| > 0 && (token[0] == '+' || token[0] == '-') then
      var body := token[1..];
      if IsDecimal(body) then
        var magnitude: int := DecimalValue(body);
        Some(if token[0] == '-' then -magnitude else magnitude)
      else None
    else if IsDecimal(token) then
      Some(DecimalValue(token))
    else None
  }

  /** Python's `str(n)` for a natural number: its shortest decimal form. */
  function NatToString(n: nat): (s: string)
    ensures |s| > 0 && IsDigit(s[0])
    ensures s[0] == '0' ==> n == 0
  {
    if n < 10 then [DigitChar(n)] else NatToString(n / 10) + [DigitChar(n % 10)]
  }

  /** Python's `str(n)`. */
  function IntToString(n: int): (s: string)
    ensures |s| > 0 && s[0] != '+'
    ensures s[0] == '-' <==> n < 0
  {
    if n < 0 then "-" + NatToString(-n) else NatToString(n)
  }

  lemma {:induction false} NatToStringDecimal(n: nat)
    ensures IsDecimal(NatToString(n))
    ensures forall i :: 0 <= i < |NatToString(n)| ==> IsDigit(NatToString(n)[i])
    ensures DecimalValue(NatToString(n)) == n
  {
    if n >= 10 {
      NatToStringDecimal(n / 10);
      var p := NatToString(n / 10);
      var s := NatToString(n);
      assert s == p + [DigitChar(n % 10)];
      assert s[..|s| - 1] == p;
    }
  }

  /** `int(str(n)) == n`: the parser reads back every number the
      formatter writes. */
  lemma {:induction false} IntRoundTrip(n: int)
    ensures ParseInt(IntToString(n)) == Some(n)
  {
    var t := IntToString(n);
    if n < 0 {
      var body := NatToString(-n);
      NatToStringDecimal(-n);
      assert t == "-" + body;
      assert t[0] == '-' && t[1..] == body;
      var magnitude: int := DecimalValue(body);
      assert ParseInt(t) == Some(-magnitude);
    } else {
      NatToStringDecimal(n);
      assert t == NatToString(n);
      assert IsDigit(t[0]);
      assert ParseInt(t) == Some(DecimalValue(t));
    }
  }

  /** A single underscore between digits is transparent to `int()`. */
  lemma {:induction false} UnderscoreExample()
    ensures ParseInt("1_000") == Some(1000)
  {
    assert "1_000"[..4] == "1_00";
    assert "1_00"[..3] == "1_0";
    assert "1_0"[..2] == "1_";
    assert "1_"[..1] == "1";
    assert DecimalValue("1_000") == 1000;
    assert IsDecimal("1_000");
  }

  /** Doubled or leading underscores, and a sign without digits, are not
      integers. */
  lemma {:induction false} MalformedExample()
    ensures ParseInt("1__0") == None
    ensures ParseInt("_1") == None
    ensures ParseInt("+") == None
  {
    assert !IsDecimal("1__0") by { assert "1__0"[1] == '_' && "1__0"[2] == '_'; }
  }

  /** A sign and leading zeros are accepted. */
  lemma {:induction false} SignExample()
    ensures ParseInt("-07") == Some(-7)
  {
    assert "-07"[1..] == "07";
    assert "07"[..1] == "0";
    assert "0"[..0] == "";
    assert DecimalValue("07") == 7;
    assert IsDecimal("07");
  }
}
