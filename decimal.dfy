/** Decimal text for integers: C++ `std::to_string(int)` on one side, the
    integer part of C `atoi` / `atof` on the other. */
module Decimal {

  predicate IsDigit(c: char)
  {
    '0' <= c <= '9'
  }

  function DigitChar(d: nat): (c: char)
    requires d < 10
    ensures IsDigit(c) && DigitValue(c) == d
  {
    "0123456789"[d]
  }

  function DigitValue(c: char): nat
    requires IsDigit(c)
  {
    (c as int - '0' as int) as nat
  }

  /** Decimal digits of `n`, most significant first, no leading zero. */
  function NatToString(n: nat): (s: string)
    ensures |s| > 0
    ensures forall k :: 0 <= k < |s| ==> IsDigit(s[k])
    ensures (s[0] == '0') == (n == 0)
    ensures n == 0 ==> s == "0"
  {
    if n < 10 then [DigitChar(n)] else NatToString(n / 10) + [DigitChar(n % 10)]
  }

  /** `std::to_string(int)`: a '-' before the digits of a negative value. */
  function IntToString(n: int): string
  {
    if n < 0 then "-" + NatToString(-n) else NatToString(n)
  }

  /** What `to_string` can print: an optional '-', then decimal digits with
      no leading zero, and "-0" excluded. */
  predicate IsDecimalInt(s: string)
  {
    var digits := if |s| > 0 && s[0] == '-' then s[1..] else s;
    && |digits| > 0
    && (forall k :: 0 <= k < |digits| ==> IsDigit(digits[k]))
    && (digits[0] == '0' ==> s == "0")
  }

  lemma IntToStringIsDecimal(n: int)
    ensures IsDecimalInt(IntToString(n))
  {
    if n < 0 {
      assert IntToString(n)[1..] == NatToString(-n);
    }
  }

  /** Number of leading decimal digits of `s`. */
  function DigitPrefixLength(s: string): (k: nat)
    ensures k <= |s|
    ensures forall i :: 0 <= i < k ==> IsDigit(s[i])
    ensures k < |s| ==> !IsDigit(s[k])
  {
    if |s| == 0 || !IsDigit(s[0]) then 0 else 1 + DigitPrefixLength(s[1..])
  }

  /** The value of a string of decimal digits. */
  function DigitsValue(ds: string): nat
    requires forall i :: 0 <= i < |ds| ==> IsDigit(ds[i])
  {
    if |ds| == 0 then 0 else DigitsValue(ds[..|ds| - 1]) * 10 + DigitValue(ds[|ds| - 1])
  }

  /** The integer that `atoi` reads from the front of `s`: an optional sign,
      then the longest run of digits; no digits read as 0. */
  function LeadingInt(s: string): int
  {
    if |s| > 0 && (s[0] == '-' || s[0] == '+') then
      var body := s[1..];
      var v: int := DigitsValue(body[..DigitPrefixLength(body)]);
      if s[0] == '-' then -v else v
    else
      DigitsValue(s[..DigitPrefixLength(s)])
  }

  /** `atoi` as far as frame-file names need it. */
  function Atoi(s: string): int
  {
    LeadingInt(s)
  }

  /** `atof` on the integer tokens of a block key. */
  function Atof(s: string): real
  {
    LeadingInt(s) as real
  }

  lemma {:induction false} DigitsValueOfNatToString(n: nat)
    ensures DigitsValue(NatToString(n)) == n
  {
    if n >= 10 {
      var s := NatToString(n);
      DigitsValueOfNatToString(n / 10);
      assert s[..|s| - 1] == NatToString(n / 10);
    }
  }

  /** Reading back what `to_string` printed gives the same integer. */
  lemma {:induction false} LeadingIntOfIntToString(n: int)
    ensures LeadingInt(IntToString(n)) == n
    ensures Atof(IntToString(n)) == n as real
    ensures Atoi(IntToString(n)) == n
  {
    var m: nat := if n < 0 then -n else n;
    var digits := NatToString(m);
    assert IsDigit(digits[0]);
    LeadingIntIgnoresSuffix(m, "");
    assert digits + "" == digits;
    if n < 0 {
      var s := IntToString(n);
      assert s == "-" + digits;
      assert s[1..] == digits;
    }
  }

  lemma {:induction false} DigitPrefixAll(s: string)
    requires forall i :: 0 <= i < |s| ==> IsDigit(s[i])
    ensures DigitPrefixLength(s) == |s|
  {
    if |s| > 0 { DigitPrefixAll(s[1..]); }
  }

  /** Reading stops at the first non-digit: whatever follows the digits of a
      number is ignored, so "12.png" reads as 12. */
  lemma LeadingIntIgnoresSuffix(n: nat, rest: string)
    requires |rest| == 0 || !IsDigit(rest[0])
    ensures LeadingInt(NatToString(n) + rest) == n
  {
    var s := NatToString(n);
    DigitsValueOfNatToString(n);
    DigitPrefixAppend(s, rest);
    assert (s + rest)[..|s|] == s;
  }

  lemma {:induction false} DigitPrefixAppend(s: string, rest: string)
    requires forall i :: 0 <= i < |s| ==> IsDigit(s[i])
    requires |rest| == 0 || !IsDigit(rest[0])
    ensures DigitPrefixLength(s + rest) == |s|
  {
    if |s| > 0 {
      assert (s + rest)[1..] == s[1..] + rest;
      DigitPrefixAppend(s[1..], rest);
    } else {
      assert s + rest == rest;
    }
  }

  /** Text with no digit at all, and text that starts with a character
      that is neither a digit nor a sign, read as 0, as `atoi` and `atof` do;
      the empty text is both. */
  lemma LeadingIntNoDigits(s: string)
    requires (forall i :: 0 <= i < |s| ==> !IsDigit(s[i]))
             || (|s| > 0 && !IsDigit(s[0]) && s[0] != '-' && s[0] != '+')
    ensures LeadingInt(s) == 0
  {
    if |s| > 0 && (s[0] == '-' || s[0] == '+') {
      var body := s[1..];
      if |body| > 0 {
        assert !IsDigit(s[1]);
        assert body[0] == s[1];
      }
      assert DigitPrefixLength(body) == 0;
    }
  }
}
