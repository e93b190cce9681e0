/** ECMAScript `parseInt(s, 10)`, which the counter observer applies to an
    element's `data-value` (script.js:172): skip leading white space, take an
    optional sign, then the longest run of decimal digits. With no digit the
    result is `NaN`, written `None` here. The result is an unbounded integer:
    the rounding of values beyond 2^53 to the nearest double, and the
    distinction between `+0` and `-0`, are not modelled. */
module JsParseInt {
  import opened Wrappers

  /** The ECMAScript white space and line terminator code points that
      `parseInt` trims: TAB, LF, VT, FF, CR, SPACE, NBSP, ZWNBSP, LS, PS and
      the other space separators of Unicode category Zs. */
  predicate IsWhiteSpace(c: char) {
    c == '\t' || c == '\n' || c == '\U{000B}' || c == '\U{000C}' || c == '\r'
    || c == ' ' || c == '\U{00A0}' || c == '\U{1680}'
    || ('\U{2000}' <= c <= '\U{200A}')
    || c == '\U{2028}' || c == '\U{2029}' || c == '\U{202F}' || c == '\U{205F}'
    || c == '\U{3000}' || c == '\U{FEFF}'
  }

  predicate IsDigit(c: char) {
    '0' <= c <= '9'
  }

  function DigitValue(c: char): nat
    requires IsDigit(c)
  {
    c as int - '0' as int
  }

  function DigitChar(d: nat): (c: char)
    requires d < 10
    ensures IsDigit(c) && DigitValue(c) == d
  {
    ('0' as int + d) as char
  }

  predicate AllDigits(s: string) {
    forall i :: 0 <= i < |s| ==> IsDigit(s[i])
  }

  /** `s` without its leading white space. */
  function TrimStart(s: string): (t: string)
    ensures |t| <= |s| && t == s[|s| - |t|..]
    ensures |t| > 0 ==> !IsWhiteSpace(t[0])
    ensures forall i :: 0 <= i < |s| - |t| ==> IsWhiteSpace(s[i])
  {
    if |s| > 0 && IsWhiteSpace(s[0]) then TrimStart(s[1..]) else s
  }

  /** The longest prefix of `s` made of decimal digits. */
  function DigitPrefix(s: string): (d: string)
    ensures |d| <= |s| && d == s[..|d|] && AllDigits(d)
    ensures |d| < |s| ==> !IsDigit(s[|d|])
  {
    if |s| > 0 && IsDigit(s[0]) then [s[0]] + DigitPrefix(s[1..]) else []
  }

  /** The number a string of decimal digits denotes, most significant first. */
  function DigitsValue(d: string): nat
    requires AllDigits(d)
  {
    if |d| == 0 then 0 else DigitsValue(d[..|d| - 1]) * 10 + DigitValue(d[|d| - 1])
  }

  /** `s` after the optional sign, and the sign itself. */
  function SplitSign(s: string): (r: (int, string))
    ensures r.0 == 1 || r.0 == -1
    ensures |s| > 0 && (s[0] == '+' || s[0] == '-') ==> r.1 == s[1..]
    ensures |s| == 0 || (s[0] != '+' && s[0] != '-') ==> r == (1, s)
    ensures r.0 == -1 <==> |s| > 0 && s[0] == '-'
  {
    if |s| > 0 && s[0] == '-' then (-1, s[1..])
    else if |s| > 0 && s[0] == '+' then (1, s[1..])
    else (1, s)
  }

  /** `parseInt(s, 10)`; `None` is `NaN`. */
  function ParseInt(s: string): (r: Option<int>)
    ensures r.None? <==> DigitPrefix(SplitSign(TrimStart(s)).1) == []
  {
    var signed := SplitSign(TrimStart(s));
    var digits := DigitPrefix(signed.1);
    if digits == [] then None else Some(signed.0 * DigitsValue(digits))
  }

  /** The canonical decimal digits of a natural number. */
  function NatDigits(n: nat): (d: string)
    ensures |d| >= 1 && AllDigits(d)
    ensures n >= 10 ==> d[0] != '0'
  {
    if n < 10 then [DigitChar(n)] else NatDigits(n / 10) + [DigitChar(n % 10)]
  }

  /** The canonical decimal text of an integer, as `String(n)` writes it. */
  function Decimal(n: int): string {
    if n < 0 then "-" + NatDigits(-n) else NatDigits(n)
  }

  lemma {:induction false} NatDigitsValue(n: nat)
    ensures DigitsValue(NatDigits(n)) == n
  {
    if n >= 10 {
      NatDigitsValue(n / 10);
      var d := NatDigits(n);
      assert d[..|d| - 1] == NatDigits(n / 10);
    }
  }

  /** The digit run of `d + rest` is exactly `d` when `rest` does not go on
      with a digit. */
  lemma {:induction false} DigitPrefixOfDigits(d: string, rest: string)
    requires AllDigits(d)
    requires |rest| == 0 || !IsDigit(rest[0])
    ensures DigitPrefix(d + rest) == d
  {
    if |d| > 0 {
      assert (d + rest)[1..] == d[1..] + rest;
      DigitPrefixOfDigits(d[1..], rest);
    } else {
      assert d + rest == rest;
    }
  }

  /** The decimal text of `n` starts with no white space, and its sign
      splits off to leave the digits of `|n|`. */
  lemma SignOfDecimal(n: int, rest: string)
    ensures var t := Decimal(n) + rest;
      && |t| > 0 && !IsWhiteSpace(t[0])
      && SplitSign(t) == (if n < 0 then -1 else 1, NatDigits(if n < 0 then -n else n) + rest)
  {
    var m: nat := if n < 0 then -n else n;
    var digits := NatDigits(m);
    var t := Decimal(n) + rest;
    if n < 0 {
      assert t == "-" + (digits + rest);
      assert t[0] == '-';
    } else {
      assert t == digits + rest;
      assert t[0] == digits[0] && IsDigit(digits[0]);
    }
  }

  /** Unpadded text whose sign leaves a digit run, not followed by a digit,
      parses to that run's value with that sign. */
  lemma ParseSplit(t: string, sign: int, digits: string, rest: string)
    requires |t| > 0 && !IsWhiteSpace(t[0])
    requires SplitSign(t) == (sign, digits + rest)
    requires |digits| > 0 && AllDigits(digits)
    requires |rest| == 0 || !IsDigit(rest[0])
    ensures ParseInt(t) == Some(sign * DigitsValue(digits))
  {
    TrimNothing(t);
    DigitPrefixOfDigits(digits, rest);
  }

  /** `parseInt` reads a sign followed by a digit run from unpadded text. */
  lemma ParseSignedDigits(n: int, rest: string)
    requires |rest| == 0 || !IsDigit(rest[0])
    ensures ParseInt(Decimal(n) + rest) == Some(n)
  {
    var m: nat := if n < 0 then -n else n;
    SignOfDecimal(n, rest);
    ParseSplit(Decimal(n) + rest, if n < 0 then -1 else 1, NatDigits(m), rest);
    NatDigitsValue(m);
  }

  /** `parseInt` only looks at the text after its leading white space. */
  lemma ParseAfterTrim(s: string, t: string)
    requires TrimStart(s) == TrimStart(t)
    ensures ParseInt(s) == ParseInt(t)
  {
  }

  /** Leading white space before an integer's decimal text is trimmed
      away, and the text itself is left alone. */
  lemma TrimDecimal(n: int, pad: string, rest: string)
    requires forall i :: 0 <= i < |pad| ==> IsWhiteSpace(pad[i])
    ensures TrimStart(pad + Decimal(n) + rest) == Decimal(n) + rest
    ensures TrimStart(Decimal(n) + rest) == Decimal(n) + rest
  {
    var t := Decimal(n) + rest;
    SignOfDecimal(n, rest);
    TrimPadding(pad, t);
    TrimNothing(t);
    assert pad + Decimal(n) + rest == pad + t;
  }

  /** Round trip: `parseInt` reads back every integer's decimal text, even
      when the text is padded with leading white space and followed by
      anything that does not start with a digit. */
  lemma ParseDecimal(n: int, pad: string, rest: string)
    requires forall i :: 0 <= i < |pad| ==> IsWhiteSpace(pad[i])
    requires |rest| == 0 || !IsDigit(rest[0])
    ensures ParseInt(pad + Decimal(n) + rest) == Some(n)
  {
    TrimDecimal(n, pad, rest);
    ParseAfterTrim(pad + Decimal(n) + rest, Decimal(n) + rest);
    ParseSignedDigits(n, rest);
  }

  lemma TrimNothing(s: string)
    requires |s| > 0 && !IsWhiteSpace(s[0])
    ensures TrimStart(s) == s
  {
  }

  /** Leading white space is trimmed away, and nothing else. */
  lemma {:induction false} TrimPadding(pad: string, s: string)
    requires forall i :: 0 <= i < |pad| ==> IsWhiteSpace(pad[i])
    requires |s| == 0 || !IsWhiteSpace(s[0])
    ensures TrimStart(pad + s) == s
  {
    if |pad| > 0 {
      assert (pad + s)[1..] == pad[1..] + s;
      TrimPadding(pad[1..], s);
    } else {
      assert pad + s == s;
    }
  }
}
