/** String helpers with Python's meaning: `in` on strings and `str` of a natural number. */
module Text {

  /** Python's `needle in hay`: `needle` occurs in `hay` at some offset (the empty string occurs everywhere). */
  predicate IsSubstring(needle: string, hay: string) {
    exists i :: 0 <= i <= |hay| && needle <= hay[i..]
  }

  /** Every string occurs in itself, and in any string that starts with it. */
  lemma SubstringOfPrefix(needle: string, hay: string)
    requires needle <= hay
    ensures IsSubstring(needle, hay)
  {
    assert hay[0..] == hay;
  }

  /** A string occurring in the middle of a concatenation. */
  lemma SubstringInMiddle(a: string, needle: string, b: string)
    ensures IsSubstring(needle, a + needle + b)
  {
    var hay := a + needle + b;
    assert needle <= hay[|a|..];
  }

  /** The decimal digit for `d`: the character `d` places after `'0'`. */
  function Digit(d: nat): (c: char)
    requires d < 10
    ensures '0' <= c <= '9'
    ensures c as int - '0' as int == d
  {
    ('0' as int + d) as char
  }

  /** Python's `str(n)` for a natural number: its decimal digits, without leading zeros. */
  function DecimalString(n: nat): (s: string)
    ensures 1 <= |s|
    ensures n < 10 <==> |s| == 1
    ensures s[|s| - 1] == Digit(n % 10)
    ensures forall i :: 0 <= i < |s| ==> '0' <= s[i] <= '9'
  {
    if n < 10 then [Digit(n)] else DecimalString(n / 10) + [Digit(n % 10)]
  }

  /** Different numbers print differently. */
  lemma {:induction false} DecimalStringInjective(a: nat, b: nat)
    requires DecimalString(a) == DecimalString(b)
    ensures a == b
  {
    var sa, sb := DecimalString(a), DecimalString(b);
    assert Digit(a % 10) == Digit(b % 10);
    if a >= 10 {
      assert b >= 10;
      assert DecimalString(a / 10) == sa[..|sa| - 1];
      assert DecimalString(b / 10) == sb[..|sb| - 1];
      DecimalStringInjective(a / 10, b / 10);
    }
  }

  /** The leading run of decimal digits of `s`. */
  function DigitPrefix(s: string): (d: string)
    ensures d <= s
  {
    if s == [] || !('0' <= s[0] <= '9') then [] else [s[0]] + DigitPrefix(s[1..])
  }

  /** Digits followed by anything that does not start with a digit: the digit run is exactly the digits. */
  lemma {:induction false} DigitPrefixOf(d: string, rest: string)
    requires forall i :: 0 <= i < |d| ==> '0' <= d[i] <= '9'
    requires rest == [] || !('0' <= rest[0] <= '9')
    ensures DigitPrefix(d + rest) == d
  {
    if d == [] {
      assert d + rest == rest;
    } else {
      assert (d + rest)[1..] == d[1..] + rest;
      DigitPrefixOf(d[1..], rest);
    }
  }
}
