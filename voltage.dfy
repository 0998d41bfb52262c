/** The voltage rule of the battery and RPi voltage registers: the
    little-endian 16-bit word is printed with format(word, "02x"), the
    printed hexadecimal digits are read as a decimal number, and that
    number is the voltage in hundredths of a volt. On a word whose nibbles
    are all decimal digits (a BCD number) this is the BCD decoding. */
module Voltage {
  import opened Outcomes
  import opened I2c
  import opened HexFormat

  function Pow(b: nat, k: nat): (r: nat)
    requires b > 0
    ensures r >= 1
  {
    if k == 0 then 1 else b * Pow(b, k - 1)
  }

  /** int.from_bytes([lo, hi], byteorder="little"). */
  function Word(lo: byte, hi: byte): (w: nat)
    ensures w < 0x1_0000 && w % 0x100 == lo && w / 0x100 == hi
  {
    lo + 0x100 * hi
  }

  /** Every hexadecimal digit of n is a decimal digit. */
  predicate IsBcd(n: nat)
    decreases n
  {
    n % 16 < 10 && (n < 16 || IsBcd(n / 16))
  }

  /** The decimal number whose digits are the nibbles of n. */
  function BcdValue(n: nat): (v: nat)
    ensures IsBcd(n) ==> (n < 16 <==> v < 10)
    ensures IsBcd(n) && n > 0 ==> v > 0
    decreases n
  {
    if n < 16 then n else BcdValue(n / 16) * 10 + n % 16
  }

  /** The word whose nibbles are the decimal digits of v. */
  function BcdEncode(v: nat): (n: nat)
    ensures n >= v
    ensures v < 10 <==> n < 16
    decreases v
  {
    if v < 10 then v else BcdEncode(v / 10) * 16 + v % 10
  }

  /** The hexadecimal numeral of n is a decimal numeral exactly when n is
      BCD, and it then reads as the BCD value of n. */
  lemma {:induction false} HexDigitsAsDecimal(n: nat)
    ensures AllDecimal(HexDigits(n)) <==> IsBcd(n)
    ensures IsBcd(n) ==> DecimalValue(HexDigits(n)) == BcdValue(n)
    decreases n
  {
    var s := HexDigits(n);
    if n < 16 {
      assert s == [HexChar(n)];
      assert s[..0] == [];
    } else {
      HexDigitsAsDecimal(n / 16);
      var t := HexDigits(n / 16);
      var c := HexChar(n % 16);
      assert s == t + [c];
      assert s[..|s| - 1] == t;
      assert AllDecimal(s) <==> AllDecimal(t) && IsDecimalChar(c) by {
        if AllDecimal(t) && IsDecimalChar(c) {
          forall i | 0 <= i < |s| ensures IsDecimalChar(s[i]) {
            if i < |t| { assert s[i] == t[i]; }
          }
        }
        if AllDecimal(s) {
          assert s[|s| - 1] == c;
          forall i | 0 <= i < |t| ensures IsDecimalChar(t[i]) {
            assert t[i] == s[i];
          }
        }
      }
    }
  }

  /** The same fact for the zero-padded rendering format(n, "02x"). */
  lemma Format02xAsDecimal(n: nat)
    ensures AllDecimal(Format02x(n)) <==> IsBcd(n)
    ensures IsBcd(n) ==> DecimalValue(Format02x(n)) == BcdValue(n)
  {
    HexDigitsAsDecimal(n);
    if n < 16 {
      var s := Format02x(n);
      assert s == ['0', HexChar(n)];
      assert AllDecimal(s) <==> IsDecimalChar(s[1]);
      assert s[..1] == ['0'];
      assert HexDigits(n)[..0] == [];
    }
  }

  /** A BCD number below 16^k has a value below 10^k. */
  lemma {:induction false} BcdValueBelow(n: nat, k: nat)
    requires IsBcd(n) && n < Pow(16, k)
    ensures BcdValue(n) < Pow(10, k)
    decreases n
  {
    if n >= 16 {
      assert k > 0;
      assert n / 16 < Pow(16, k - 1);
      BcdValueBelow(n / 16, k - 1);
    } else if k > 0 {
      assert Pow(10, k) == 10 * Pow(10, k - 1);
    }
  }

  /** A number below 10^k encodes to a word below 16^k. */
  lemma {:induction false} BcdEncodeBelow(v: nat, k: nat)
    requires v < Pow(10, k)
    ensures BcdEncode(v) < Pow(16, k)
    decreases v
  {
    if v >= 10 {
      assert k > 0;
      assert v / 10 < Pow(10, k - 1);
      BcdEncodeBelow(v / 10, k - 1);
    } else if k > 0 {
      assert Pow(16, k) == 16 * Pow(16, k - 1);
    }
  }

  /** Encoding gives a BCD word that decodes back. */
  lemma {:induction false} BcdEncodeRoundTrip(v: nat)
    ensures IsBcd(BcdEncode(v)) && BcdValue(BcdEncode(v)) == v
    decreases v
  {
    if v >= 10 {
      BcdEncodeRoundTrip(v / 10);
      var n := BcdEncode(v);
      assert n / 16 == BcdEncode(v / 10) && n % 16 == v % 10;
    }
  }

  /** Decoding a BCD word and encoding the value gives the word back. */
  lemma {:induction false} BcdValueRoundTrip(n: nat)
    requires IsBcd(n)
    ensures BcdEncode(BcdValue(n)) == n
    decreases n
  {
    if n >= 16 {
      BcdValueRoundTrip(n / 16);
      var v := BcdValue(n);
      assert v / 10 == BcdValue(n / 16) && v % 10 == n % 16;
    }
  }

  /** A 16-bit BCD word holds a value below 10000. */
  lemma BcdWordBelow(w: nat)
    requires IsBcd(w) && w < 0x1_0000
    ensures BcdValue(w) < 10000
  {
    assert Pow(16, 4) == 0x1_0000 && Pow(10, 4) == 10000;
    BcdValueBelow(w, 4);
  }

  /** The voltage in hundredths of a volt held by the register pair
      (lo, hi): the decimal number whose digits are the word's nibbles, or
      None when a nibble is not a decimal digit (the shipped code raises
      ValueError from float() then, except for the words VoltAsWritten
      shows). */
  function DecodeVolt(lo: byte, hi: byte): (r: Option<nat>)
    ensures r.Some? <==> IsBcd(Word(lo, hi))
    ensures r.Some? ==> r.value < 10000
  {
    var w := Word(lo, hi);
    if IsBcd(w) then BcdWordBelow(w); Some(BcdValue(w)) else None
  }

  /** DecodeVolt is the source's rule: print the word with
      format(word, "02x") and read the digits as a decimal numeral, which
      succeeds exactly when every printed digit is decimal. */
  lemma DecodeVoltReadsHexAsDecimal(lo: byte, hi: byte)
    ensures var s := Format02x(Word(lo, hi));
      DecodeVolt(lo, hi) == if AllDecimal(s) then Some(DecimalValue(s)) else None
  {
    Format02xAsDecimal(Word(lo, hi));
  }


  /** The register pair that holds a voltage below 100.00 V. */
  function EncodeVolt(v: nat): (pair: (byte, byte))
    requires v < 10000
    ensures Word(pair.0, pair.1) == BcdEncode(v)
  {
    assert Pow(16, 4) == 0x1_0000 && Pow(10, 4) == 10000;
    BcdEncodeBelow(v, 4);
    var n := BcdEncode(v);
    (n % 0x100, n / 0x100)
  }

  /** Every voltage below 100.00 V has a register pair that decodes to it. */
  lemma VoltRoundTrip(v: nat)
    requires v < 10000
    ensures DecodeVolt(EncodeVolt(v).0, EncodeVolt(v).1) == Some(v)
  {
    BcdEncodeRoundTrip(v);
  }

  /** A register pair that decodes to v is the encoding of v: the rule is
      one-to-one on the words it accepts. */
  lemma VoltCanonical(lo: byte, hi: byte)
    requires DecodeVolt(lo, hi).Some?
    ensures DecodeVolt(lo, hi).value < 10000
    ensures EncodeVolt(DecodeVolt(lo, hi).value) == (lo, hi)
  {
    BcdValueRoundTrip(Word(lo, hi));
  }

  /** The worked example: bytes [0x44, 0x01] read as 1.44 V. */
  lemma VoltExample()
    ensures DecodeVolt(0x44, 0x01) == Some(144)
  {
    assert Word(0x44, 0x01) == 0x144;
    assert IsBcd(0x144);
    assert BcdValue(0x144) == 144;
  }

  /** Python's float() applied to a numeral of lower-case hexadecimal
      digits, in exact arithmetic: it accepts a decimal numeral, or a
      decimal numeral, the letter 'e' and a decimal exponent; any other
      digit string raises ValueError (None). */
  function PyFloat(s: string): (r: Option<nat>)
    requires AllHex(s)
    ensures 'e' !in s ==> (r.Some? <==> s != [] && AllDecimal(s))
    ensures 'e' !in s && r.Some? ==> r.value == DecimalValue(s)
  {
    var k := IndexOf(s, 'e');
    if k == |s| then
      if s != [] && AllDecimal(s) then Some(DecimalValue(s)) else None
    else if 0 < k < |s| - 1 && AllDecimal(s[..k]) && AllDecimal(s[k + 1..]) then
      Some(DecimalValue(s[..k]) * Pow(10, DecimalValue(s[k + 1..])))
    else
      None
  }

  /** The voltage rule exactly as the shipped code writes it:
      float(format(word, "02x")), in hundredths of a volt. It agrees with
      the corrected rule on every word whose numeral has no letter 'e'. */
  function VoltAsWritten(lo: byte, hi: byte): (r: Option<nat>)
    ensures 'e' !in Format02x(Word(lo, hi)) ==> r == DecodeVolt(lo, hi)
  {
    DecodeVoltReadsHexAsDecimal(lo, hi);
    PyFloat(Format02x(Word(lo, hi)))
  }

  /** On every BCD word the shipped code yields the corrected value. */
  lemma AsWrittenAgreesOnBcd(lo: byte, hi: byte)
    requires DecodeVolt(lo, hi).Some?
    ensures VoltAsWritten(lo, hi) == DecodeVolt(lo, hi)
  {
    var s := Format02x(Word(lo, hi));
    DecodeVoltReadsHexAsDecimal(lo, hi);
    assert forall i :: 0 <= i < |s| ==> s[i] != 'e';
  }

  /** The word 0x01e5 (bytes [0xe5, 0x01]) prints as "1e5", which float()
      reads as 1e5: the shipped code reports 1000.00 V where the word is not
      a voltage at all. */
  lemma ExponentQuirk()
    ensures VoltAsWritten(0xe5, 0x01) == Some(100000)
    ensures DecodeVolt(0xe5, 0x01) == None
  {
    var s := Format02x(Word(0xe5, 0x01));
    assert Word(0xe5, 0x01) == 0x1e5;
    assert HexDigits(0x1e) == [HexChar(1), HexChar(14)];
    assert s == ['1', 'e', '5'];
    assert IndexOf(s, 'e') == 1;
    assert s[..1] == ['1'] && s[2..] == ['5'];
    assert DecimalValue(['1']) == 1 by { assert ['1'][..0] == []; }
    assert DecimalValue(['5']) == 5 by { assert ['5'][..0] == []; }
    assert Pow(10, 5) == 100000;
    assert !IsBcd(0x1e5);
  }
}
