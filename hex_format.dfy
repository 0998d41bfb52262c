/** Python's `format(n, "02x")`, its inverse `int(s, 16)`, and the value of
    a decimal numeral, as the decoder uses them on register words. */
module HexFormat {

  predicate IsHexChar(c: char) {
    '0' <= c <= '9' || 'a' <= c <= 'f'
  }

  predicate IsDecimalChar(c: char) {
    '0' <= c <= '9'
  }

  predicate AllHex(s: string) {
    forall i :: 0 <= i < |s| ==> IsHexChar(s[i])
  }

  predicate AllDecimal(s: string) {
    forall i :: 0 <= i < |s| ==> IsDecimalChar(s[i])
  }

  /** The value of one lower-case hexadecimal digit. */
  function HexCharValue(c: char): (d: nat)
    requires IsHexChar(c)
    ensures d < 16
    ensures IsDecimalChar(c) <==> d < 10
  {
    if c <= '9' then c as int - '0' as int else c as int - 'a' as int + 10
  }

  /** The lower-case hexadecimal digit of a nibble. */
  function HexChar(d: nat): (c: char)
    requires d < 16
    ensures IsHexChar(c) && HexCharValue(c) == d
  {
    if d < 10 then ('0' as int + d) as char else ('a' as int + d - 10) as char
  }

  /** The shortest hexadecimal numeral of n: no leading zero, "0" for zero. */
  function HexDigits(n: nat): (s: string)
    ensures 1 <= |s| && AllHex(s)
    ensures n < 16 <==> |s| == 1
    ensures s[0] == '0' ==> n == 0
    decreases n
  {
    if n < 16 then [HexChar(n)] else HexDigits(n / 16) + [HexChar(n % 16)]
  }

  /** format(n, "02x"): the hexadecimal numeral of n, zero-padded to at
      least two digits. */
  function Format02x(n: nat): (s: string)
    ensures 2 <= |s| && AllHex(s)
    ensures n < 0x100 <==> |s| == 2
  {
    if n < 16 then ['0'] + HexDigits(n) else HexDigits(n)
  }

  /** int(s, 16) on a numeral of lower-case hexadecimal digits. */
  function HexValue(s: string): nat
    requires AllHex(s)
  {
    if s == [] then 0 else HexValue(s[..|s| - 1]) * 16 + HexCharValue(s[|s| - 1])
  }

  /** The value of a numeral of decimal digits (leading zeros allowed). */
  function DecimalValue(s: string): nat
    requires AllDecimal(s)
  {
    if s == [] then 0 else DecimalValue(s[..|s| - 1]) * 10 + (s[|s| - 1] as int - '0' as int)
  }

  /** The first position of c in s, or |s| when c does not occur. */
  function IndexOf(s: string, c: char): (k: nat)
    ensures k <= |s|
    ensures k < |s| ==> s[k] == c
    ensures forall j :: 0 <= j < k ==> s[j] != c
  {
    if s == [] then 0 else if s[0] == c then 0 else 1 + IndexOf(s[1..], c)
  }

  lemma {:induction false} HexDigitsRoundTrip(n: nat)
    ensures HexValue(HexDigits(n)) == n
    decreases n
  {
    if n >= 16 {
      HexDigitsRoundTrip(n / 16);
      var s := HexDigits(n);
      assert s[..|s| - 1] == HexDigits(n / 16);
    }
  }

  /** Reading the two-digit rendering back as hexadecimal gives the number. */
  lemma Format02xRoundTrip(n: nat)
    ensures HexValue(Format02x(n)) == n
  {
    HexDigitsRoundTrip(n);
    if n < 16 {
      var s := Format02x(n);
      assert s[..1] == ['0'];
      assert s[..|s| - 1] == s[..1];
    }
  }

  /** A byte renders as exactly its high and its low nibble. */
  lemma Format02xByte(b: nat)
    requires b < 0x100
    ensures Format02x(b) == [HexChar(b / 16), HexChar(b % 16)]
  {
    if b >= 16 {
      assert HexDigits(b / 16) == [HexChar(b / 16)];
    }
  }

  /** Two bytes render differently. */
  lemma Format02xInjective(m: nat, n: nat)
    requires Format02x(m) == Format02x(n)
    ensures m == n
  {
    Format02xRoundTrip(m);
    Format02xRoundTrip(n);
  }
}
