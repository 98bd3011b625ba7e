/**
 * Unsigned decimal text: the rendering used for collection ids and
 * revisions in handles, ETags and bodies, and the digit-prefix parse used
 * to read revisions back.
 */
module DecimalText {

  predicate IsDigit(c: char) {
    '0' <= c <= '9'
  }

  predicate AllDigits(s: string) {
    forall i :: 0 <= i < |s| ==> IsDigit(s[i])
  }

  function DigitChar(d: nat): (c: char)
    requires d < 10
    ensures IsDigit(c) && DigitValue(c) == d
  {
    ('0' as int + d) as char
  }

  function DigitValue(c: char): (d: nat)
    requires IsDigit(c)
    ensures d < 10
  {
    c as int - '0' as int
  }

  /** Decimal rendering of an unsigned number, most significant digit
      first, without leading zeros. */
  function Itoa(n: nat): (s: string)
    ensures |s| >= 1 && AllDigits(s)
    ensures s[0] == '0' ==> n == 0
  {
    if n < 10 then [DigitChar(n)] else Itoa(n / 10) + [DigitChar(n % 10)]
  }

  /** The number a string of digits denotes. */
  function ValueOf(s: string): nat
    requires AllDigits(s)
  {
    if s == [] then 0 else ValueOf(s[..|s| - 1]) * 10 + DigitValue(s[|s| - 1])
  }

  /** The longest prefix made of digits. */
  function DigitPrefix(s: string): (p: string)
    ensures p <= s && AllDigits(p)
    ensures |p| < |s| ==> !IsDigit(s[|p|])
  {
    if s == [] || !IsDigit(s[0]) then [] else [s[0]] + DigitPrefix(s[1..])
  }

  /** Reads the leading digits of a string; 0 when there are none. */
  function ParseUInt(s: string): (n: nat)
    ensures s == [] || !IsDigit(s[0]) ==> n == 0
  {
    ValueOf(DigitPrefix(s))
  }

  lemma {:induction false} ValueOfItoa(n: nat)
    ensures ValueOf(Itoa(n)) == n
  {
    if n >= 10 {
      var s := Itoa(n);
      assert s[..|s| - 1] == Itoa(n / 10);
      ValueOfItoa(n / 10);
    }
  }

  lemma {:induction false} DigitPrefixOfDigits(s: string)
    requires AllDigits(s)
    ensures DigitPrefix(s) == s
  {
    if s != [] {
      DigitPrefixOfDigits(s[1..]);
    }
  }

  /** Reading back a rendered number gives the number. */
  lemma ParseItoa(n: nat)
    ensures ParseUInt(Itoa(n)) == n
  {
    DigitPrefixOfDigits(Itoa(n));
    ValueOfItoa(n);
  }

  /** Rendering is injective, so a rendered number identifies it. */
  lemma ItoaInjective(m: nat, n: nat)
    requires Itoa(m) == Itoa(n)
    ensures m == n
  {
    ValueOfItoa(m);
    ValueOfItoa(n);
  }

  /** Parsing stops at the first character that is not a digit. */
  lemma ParseStopsAtNonDigit(digits: string, rest: string)
    requires AllDigits(digits)
    requires rest == [] || !IsDigit(rest[0])
    ensures ParseUInt(digits + rest) == ValueOf(digits)
  {
    PrefixOfDigitsWithRest(digits, rest);
  }

  lemma {:induction false} PrefixOfDigitsWithRest(digits: string, rest: string)
    requires AllDigits(digits)
    requires rest == [] || !IsDigit(rest[0])
    ensures DigitPrefix(digits + rest) == digits
  {
    if digits == [] {
      assert digits + rest == rest;
    } else {
      assert (digits + rest)[1..] == digits[1..] + rest;
      PrefixOfDigitsWithRest(digits[1..], rest);
      assert [digits[0]] + digits[1..] == digits;
    }
  }
}
