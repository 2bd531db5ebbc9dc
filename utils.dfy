/**
 * Conversions between natural numbers and uppercase base-16 text, most
 * significant digit first.
 *
 * A Go string is indexed by byte, so text handed to HexStringToInt is a
 * string whose every character is below 256: one character per byte.
 */
module Utils {

  /** Go's int is 64 bits wide: values from 2^63 on overflow. */
  const INT_LIMIT: nat := 0x8000_0000_0000_0000

  function Pow16(k: nat): (r: nat)
    ensures r >= 1
  {
    if k == 0 then 1 else 16 * Pow16(k - 1)
  }

  predicate IsHexDigit(c: char)
  {
    '0' <= c <= '9' || 'A' <= c <= 'F'
  }

  predicate IsHexString(s: string)
  {
    forall i :: 0 <= i < |s| ==> IsHexDigit(s[i])
  }

  /** Text whose every character is a single byte. */
  predicate IsByteString(s: string)
  {
    forall i :: 0 <= i < |s| ==> s[i] as int < 256
  }

  lemma HexStringIsByteString(s: string)
    requires IsHexString(s)
    ensures IsByteString(s)
  {
    forall i | 0 <= i < |s|
      ensures s[i] as int < 256
    {
      assert IsHexDigit(s[i]);
    }
  }

  /**
   * The value HexStringToInt gives one byte: a decimal digit counts as itself,
   * every other byte as (c - 'A') + 10 in 8-bit arithmetic, which wraps.
   */
  function DigitValue(c: char): (d: nat)
    requires c as int < 256
    ensures d < 256
    ensures IsHexDigit(c) ==> d < 16 && (d == 0 <==> c == '0')
  {
    if '0' <= c <= '9' then c as int - '0' as int else (c as int - 'A' as int + 10) % 256
  }

  /** The digit NumToHexString writes for d: '0' + d below ten, 'A' + (d - 10) from ten on. */
  function HexDigit(d: nat): (c: char)
    requires d < 16
    ensures IsHexDigit(c) && DigitValue(c) == d
  {
    if d < 10 then ('0' as int + d) as char else ('A' as int + (d - 10)) as char
  }

  /** Every digit is the digit written for its own value. */
  lemma HexDigitOfValue(c: char)
    requires IsHexDigit(c)
    ensures HexDigit(DigitValue(c)) == c
  {
  }

  /** d * 16^k, written as k multiplications by 16. */
  function DigitShift(d: nat, k: nat): nat
  {
    if k == 0 then d else 16 * DigitShift(d, k - 1)
  }

  lemma {:induction false} DigitShiftBounds(d: nat, k: nat)
    requires d < 16
    ensures DigitShift(d, k) <= 15 * Pow16(k)
    ensures d >= 1 ==> DigitShift(d, k) >= Pow16(k)
    ensures d == 0 ==> DigitShift(d, k) == 0
  {
    if k > 0 {
      DigitShiftBounds(d, k - 1);
    }
  }

  /** The repeated multiplication is the product d * math.Pow(16, k) that HexStringToInt adds. */
  lemma {:induction false} DigitShiftIsProduct(d: nat, k: nat)
    ensures DigitShift(d, k) == d * Pow16(k)
  {
    if k > 0 {
      DigitShiftIsProduct(d, k - 1);
      Times16(d, Pow16(k - 1));
    }
  }

  lemma Times16(d: int, p: int)
    ensures d * (16 * p) == 16 * (d * p)
  {
  }

  /** The sum over i of DigitValue(s[i]) * 16^(|s| - 1 - i). */
  function HexValue(s: string): nat
    requires IsByteString(s)
  {
    if s == [] then 0 else DigitShift(DigitValue(s[0]), |s| - 1) + HexValue(s[1..])
  }

  /** k hex digits hold a value below 16^k. */
  lemma {:induction false} HexValueBound(s: string)
    requires IsHexString(s)
    ensures IsByteString(s) && HexValue(s) < Pow16(|s|)
  {
    HexStringIsByteString(s);
    if s != [] {
      assert IsHexString(s[1..]) by {
        assert forall i :: 0 <= i < |s| - 1 ==> s[1..][i] == s[i + 1];
      }
      HexValueBound(s[1..]);
      DigitShiftBounds(DigitValue(s[0]), |s| - 1);
    }
  }

  /** Appending a byte multiplies the value so far by 16 and adds the byte's value. */
  lemma {:induction false} HexValueSnoc(s: string, c: char)
    requires IsByteString(s) && c as int < 256
    ensures IsByteString(s + [c])
    ensures HexValue(s + [c]) == 16 * HexValue(s) + DigitValue(c)
  {
    var sc := s + [c];
    assert forall i :: 0 <= i < |sc| ==> sc[i] as int < 256;
    if s == [] {
      assert sc == [c] && sc[1..] == [];
    } else {
      assert sc[1..] == s[1..] + [c];
      HexValueSnoc(s[1..], c);
    }
  }

  /** A leading digit other than '0' puts the value at or above 16^(|s| - 1). */
  lemma HexValueLeadingDigit(s: string)
    requires IsByteString(s) && s != [] && IsHexDigit(s[0]) && s[0] != '0'
    ensures HexValue(s) >= Pow16(|s| - 1)
  {
    DigitShiftBounds(DigitValue(s[0]), |s| - 1);
  }

  function ZeroPad(k: nat): (z: string)
    ensures |z| == k && forall i :: 0 <= i < k ==> z[i] == '0'
  {
    seq(k, _ => '0')
  }

  /** Leading zeros do not change the value. */
  lemma {:induction false} LeadingZeros(k: nat, s: string)
    requires IsByteString(s)
    ensures IsByteString(ZeroPad(k) + s)
    ensures HexValue(ZeroPad(k) + s) == HexValue(s)
  {
    var zs := ZeroPad(k) + s;
    assert forall i :: 0 <= i < |zs| ==> zs[i] as int < 256;
    if k > 0 {
      assert zs[1..] == ZeroPad(k - 1) + s;
      LeadingZeros(k - 1, s);
      DigitShiftBounds(0, |zs| - 1);
    } else {
      assert zs == s;
    }
  }

  /** The base-16 digits of n, most significant first, with no leading zero (none for 0). */
  function Digits(n: nat): (s: string)
    ensures IsHexString(s)
    ensures n == 0 <==> s == []
    ensures n > 0 ==> s[0] != '0'
  {
    if n == 0 then [] else Digits(n / 16) + [HexDigit(n % 16)]
  }

  /** The text NumToHexString produces: "0" for zero, otherwise the digits of n. */
  function ToHex(n: nat): (s: string)
    ensures IsHexString(s) && |s| >= 1
    ensures n == 0 <==> s == "0"
    ensures n > 0 ==> s[0] != '0'
  {
    if n == 0 then "0" else Digits(n)
  }

  lemma {:induction false} DigitsValue(n: nat)
    ensures IsByteString(Digits(n)) && HexValue(Digits(n)) == n
  {
    HexStringIsByteString(Digits(n));
    if n > 0 {
      DigitsValue(n / 16);
      HexValueSnoc(Digits(n / 16), HexDigit(n % 16));
    }
  }

  /** Parsing the rendering of n gives n back. */
  lemma HexRoundTrip(n: nat)
    ensures IsByteString(ToHex(n)) && HexValue(ToHex(n)) == n
  {
    HexStringIsByteString(ToHex(n));
    if n > 0 {
      DigitsValue(n);
    } else {
      assert HexValue("0") == DigitShift(0, 0) + HexValue("");
    }
  }

  /** The last character of the rendering is digit n % 16; before it comes the rendering of n / 16. */
  lemma ToHexLastDigit(n: nat)
    requires n > 0
    ensures ToHex(n) == (if n < 16 then "" else ToHex(n / 16)) + [HexDigit(n % 16)]
  {
    assert ToHex(n) == Digits(n / 16) + [HexDigit(n % 16)];
  }

  /** The rendering of a positive n has the fewest digits that can hold n. */
  lemma ToHexLength(n: nat)
    requires n > 0
    ensures Pow16(|ToHex(n)| - 1) <= n < Pow16(|ToHex(n)|)
  {
    HexRoundTrip(n);
    HexValueBound(ToHex(n));
    HexValueLeadingDigit(ToHex(n));
  }

  /**
   * A digit string without a leading zero is the rendering of its own value:
   * the rendering is the only such text for a positive number.
   */
  lemma ToHexCanonical(s: string)
    requires IsHexString(s) && s != [] && s[0] != '0'
    ensures IsByteString(s) && ToHex(HexValue(s)) == s
  {
    DigitsOfValue(s);
    HexValueLeadingDigit(s);
  }

  /** A digit string without a leading zero is the digit string of its own value. */
  lemma {:induction false} DigitsOfValue(s: string)
    requires IsHexString(s) && s != [] && s[0] != '0'
    ensures IsByteString(s) && Digits(HexValue(s)) == s
  {
    var t, c := s[..|s| - 1], s[|s| - 1];
    assert s == t + [c];
    HexPrefix(s);
    HexValueSnoc(t, c);
    var m := if t == [] then 0 else HexValue(t);
    if t != [] {
      DigitsOfValue(t);
      HexValueLeadingDigit(t);
    }
    assert Digits(m) == t;
    assert HexValue(s) == 16 * m + DigitValue(c);
    DigitsSnoc(m, c, HexValue(s));
  }

  /** Dropping the last digit leaves a digit string; every digit is a byte. */
  lemma HexPrefix(s: string)
    requires IsHexString(s) && s != []
    ensures IsByteString(s) && IsHexDigit(s[|s| - 1])
    ensures IsHexString(s[..|s| - 1]) && IsByteString(s[..|s| - 1])
  {
    HexStringIsByteString(s);
    HexStringIsByteString(s[..|s| - 1]);
  }

  /** Appending digit c to the digits of m gives the digits of 16 * m + c. */
  lemma DigitsSnoc(m: nat, c: char, n: nat)
    requires IsHexDigit(c) && (m > 0 || c != '0') && n == 16 * m + DigitValue(c)
    ensures Digits(n) == Digits(m) + [c]
  {
    assert n / 16 == m && n % 16 == DigitValue(c);
    HexDigitOfValue(c);
  }

  /** Renders num in base 16, building the text from the least significant digit up. */
  method NumToHexString(num: nat) returns (hex: string)
    ensures hex == ToHex(num)
  {
    if num == 0 {
      return "0";
    }
    hex := "";
    var n := num;
    while n > 0
      invariant Digits(n) + hex == Digits(num)
      decreases n
    {
      var remainder := n % 16;
      var c := ('0' as int + remainder) as char;
      if remainder >= 10 {
        remainder := remainder - 10;
        c := ('A' as int + remainder) as char;
      }
      DigitsStep(n, c, hex);
      n := n / 16;
      hex := [c] + hex;
    }
  }

  /** One step of NumToHexString: the character it computes is the last digit of n. */
  lemma DigitsStep(n: nat, c: char, hex: string)
    requires n > 0
    requires c == if n % 16 >= 10 then ('A' as int + (n % 16 - 10)) as char else ('0' as int + n % 16) as char
    ensures Digits(n) + hex == Digits(n / 16) + ([c] + hex)
  {
    assert c == HexDigit(n % 16);
    assert Digits(n) == Digits(n / 16) + [c];
  }

  /**
   * Parses base-16 text, adding DigitValue(c) * 16^k from the last byte back
   * to the first. Values from 2^63 on overflow Go's int and are not modelled.
   */
  method HexStringToInt(hexStr: string) returns (num: int)
    requires IsByteString(hexStr)
    requires HexValue(hexStr) < INT_LIMIT
    ensures num == HexValue(hexStr)
  {
    num := 0;
    var idx := |hexStr| - 1;
    while idx >= 0
      invariant -1 <= idx < |hexStr|
      invariant IsByteString(hexStr[idx + 1..])
      invariant num == HexValue(hexStr[idx + 1..])
    {
      var c := hexStr[idx];
      var exponent := |hexStr| - idx - 1;
      var digit: int;
      if '0' <= c <= '9' {
        digit := c as int - '0' as int;
      } else {
        digit := (c as int - 'A' as int + 10) % 256;
      }
      ParseStep(hexStr, idx, digit, exponent);
      num := num + digit * Pow16(exponent);
      idx := idx - 1;
    }
    assert hexStr[0..] == hexStr;
  }

  /** One step of HexStringToInt: the byte at idx adds its value times 16^(bytes after it). */
  lemma ParseStep(s: string, idx: nat, digit: int, exponent: nat)
    requires IsByteString(s) && idx < |s|
    requires digit == DigitValue(s[idx]) && exponent == |s| - idx - 1
    ensures IsByteString(s[idx..]) && IsByteString(s[idx + 1..])
    ensures HexValue(s[idx..]) == HexValue(s[idx + 1..]) + digit * Pow16(exponent)
  {
    assert forall i :: 0 <= i < |s| - idx ==> s[idx..][i] == s[idx + i];
    assert s[idx..][1..] == s[idx + 1..];
    DigitShiftIsProduct(DigitValue(s[idx]), |s| - idx - 1);
  }

  /** Rendering a number that fits a Go int and parsing the text gives the number back. */
  method NumToHexAndBack(n: nat) returns (m: int)
    requires n < INT_LIMIT
    ensures m == n
  {
    var s := NumToHexString(n);
    HexStringIsByteString(s);
    HexRoundTrip(n);
    m := HexStringToInt(s);
  }
}
