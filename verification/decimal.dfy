/**
 * Decimal text: Python's `int(str)` for base 10 and the `05d` format specification.
 */
module Decimal {
  import opened Wrappers

  predicate IsDigit(c: char)
  {
    '0' <= c <= '9'
  }

  predicate AllDigits(s: string)
  {
    forall i :: 0 <= i < |s| ==> IsDigit(s[i])
  }

  function DigitValue(c: char): nat
    requires IsDigit(c)
  {
    c as int - '0' as int
  }

  function DigitChar(d: nat): (c: char)
    requires d < 10
    ensures IsDigit(c) && DigitValue(c) == d
  {
    ('0' as int + d) as char
  }

  /** The number a run of decimal digits denotes; leading zeros are allowed. */
  function ValueOf(s: string): nat
    requires AllDigits(s)
  {
    if |s| == 0 then 0 else ValueOf(s[..|s| - 1]) * 10 + DigitValue(s[|s| - 1])
  }

  /** The shortest decimal spelling of `n`. */
  function Digits(n: nat): (s: string)
    ensures |s| > 0 && AllDigits(s)
    ensures ValueOf(s) == n
    ensures |s| == 1 || s[0] != '0'
  {
    if n < 10 then [DigitChar(n)]
    else
      var s := Digits(n / 10) + [DigitChar(n % 10)];
      assert s[..|s| - 1] == Digits(n / 10);
      s
  }

  function Pow10(k: nat): nat
  {
    if k == 0 then 1 else 10 * Pow10(k - 1)
  }

  /** A number below 10^k needs at most k digits. */
  lemma {:induction false} DigitsLength(n: nat, k: nat)
    requires 1 <= k && n < Pow10(k)
    ensures |Digits(n)| <= k
  {
    if n >= 10 {
      assert n / 10 < Pow10(k - 1);
      DigitsLength(n / 10, k - 1);
      assert |Digits(n)| == |Digits(n / 10)| + 1;
    }
  }

  function Zeros(k: nat): (s: string)
    ensures |s| == k && AllDigits(s)
  {
    seq(k, _ => '0')
  }

  /** The white space `int()` strips from both ends: ASCII space, tab, line feed, vertical tab,
      form feed and carriage return, and every non-ASCII character `str.isspace` accepts (these
      are first mapped to a space). The ASCII separators U+001C..U+001F are not stripped. */
  predicate IsSpace(c: char)
  {
    var u := c as int;
    || 9 <= u <= 13
    || u == 32
    || u == 0x85 || u == 0xA0 || u == 0x1680
    || 0x2000 <= u <= 0x200A
    || u == 0x2028 || u == 0x2029 || u == 0x202F || u == 0x205F || u == 0x3000
  }

  function TrimStart(s: string): string
  {
    if |s| > 0 && IsSpace(s[0]) then TrimStart(s[1..]) else s
  }

  function TrimEnd(s: string): string
  {
    if |s| > 0 && IsSpace(s[|s| - 1]) then TrimEnd(s[..|s| - 1]) else s
  }

  /** `int(s)`: surrounding white space, an optional sign, then one or more digits;
      anything else is a `ValueError`, modelled as `None`. */
  function ParseInt(s: string): Option<int>
  {
    ParseSigned(TrimEnd(TrimStart(s)))
  }

  /** An optional sign followed by one or more digits, with nothing around them. */
  function ParseSigned(t: string): Option<int>
  {
    var body := if |t| > 0 && (t[0] == '-' || t[0] == '+') then t[1..] else t;
    if |body| > 0 && AllDigits(body) then
      var v: int := ValueOf(body);
      Some(if t[0] == '-' then -v else v)
    else
      None
  }

  /** `f"{n:05d}"`: the sign, then zeros up to a total width of five, then the digits. */
  function FormatZeroPadded(n: int): (s: string)
    ensures |s| >= 5
    ensures 0 <= n < 100000 ==> |s| == 5 && AllDigits(s)
    ensures forall i :: 0 <= i < |s| ==> s[i] != '_' && s[i] != '.'
    ensures |s| > 5 ==> s[0] != '0' && (s[0] == '-' ==> s[1] != '0')
  {
    var sign := if n < 0 then "-" else "";
    var digits := Digits(if n < 0 then -n else n);
    var fill := 5 - |sign| - |digits|;
    assert 0 <= n < 100000 ==> |digits| <= 5 by {
      if 0 <= n < 100000 { DigitsLength(n, 5); }
    }
    sign + Zeros(if fill > 0 then fill else 0) + digits
  }

  lemma {:induction false} ValueOfZeros(k: nat)
    ensures ValueOf(Zeros(k)) == 0
  {
    if k > 0 {
      assert Zeros(k)[..k - 1] == Zeros(k - 1);
      ValueOfZeros(k - 1);
    }
  }

  /** Leading zeros do not change the value. */
  lemma {:induction false} ValueOfLeadingZeros(k: nat, s: string)
    requires AllDigits(s)
    ensures AllDigits(Zeros(k) + s)
    ensures ValueOf(Zeros(k) + s) == ValueOf(s)
  {
    var t := Zeros(k) + s;
    assert AllDigits(t) by {
      forall i | 0 <= i < |t| ensures IsDigit(t[i]) {
        if i >= k { assert t[i] == s[i - k]; }
      }
    }
    if |s| == 0 {
      assert t == Zeros(k);
      ValueOfZeros(k);
    } else {
      assert t[..|t| - 1] == Zeros(k) + s[..|s| - 1];
      ValueOfLeadingZeros(k, s[..|s| - 1]);
    }
  }

  /** Text that neither starts nor ends with white space is not trimmed. */
  lemma TrimUnchanged(s: string)
    requires |s| > 0 && !IsSpace(s[0]) && !IsSpace(s[|s| - 1])
    ensures TrimEnd(TrimStart(s)) == s
  {
  }

  /** Digits parse to their value, and with a minus sign to its negation. */
  lemma ParseSignedDigits(d: string)
    requires |d| > 0 && AllDigits(d)
    ensures ParseSigned(d) == Some(ValueOf(d) as int)
    ensures ParseSigned("-" + d) == Some(-(ValueOf(d) as int))
  {
    assert ("-" + d)[1..] == d;
  }

  /** The formatted number is its sign followed by zero-padded digits whose value is |n|. */
  lemma FormattedParts(n: int) returns (body: string)
    ensures |body| > 0 && AllDigits(body)
    ensures ValueOf(body) as int == (if n < 0 then -n else n)
    ensures FormatZeroPadded(n) == (if n < 0 then "-" + body else body)
    ensures |FormatZeroPadded(n)| == 5 || body[0] != '0'
  {
    var sign := if n < 0 then "-" else "";
    var digits := Digits(if n < 0 then -n else n);
    var fill := 5 - |sign| - |digits|;
    var zeros := Zeros(if fill > 0 then fill else 0);
    body := zeros + digits;
    ValueOfLeadingZeros(|zeros|, digits);
    assert FormatZeroPadded(n) == sign + body;
  }

  /** Round trip: `int(f"{n:05d}") == n` for every integer `n`. */
  lemma ParseFormatted(n: int)
    ensures ParseInt(FormatZeroPadded(n)) == Some(n)
  {
    var body := FormattedParts(n);
    ParseSignedDigits(body);
    assert IsDigit(body[0]) && IsDigit(body[|body| - 1]);
    if n < 0 {
      var s := "-" + body;
      assert s[0] == '-' && s[|s| - 1] == body[|body| - 1];
      TrimUnchanged(s);
    } else {
      TrimUnchanged(body);
    }
  }
}
