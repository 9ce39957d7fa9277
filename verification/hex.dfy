/**
 Hexadecimal text as the C++ streams produce and consume it: output under
 `std::hex << std::setfill('0') << std::setw(w)` (lower-case digits, no
 prefix, left-padded with '0' to at least w characters) and the digits an
 input stream in `std::hex` mode accepts.
 */
module Hex {

  /** The lower-case digit for a value below 16. */
  function HexDigit(d: nat): (c: char)
    requires d < 16
    ensures IsHexDigit(c) && DigitValue(c) == d
  {
    if d < 10 then '0' + d as char else 'a' + (d - 10) as char
  }

  predicate IsHexDigit(c: char)
  {
    '0' <= c <= '9' || 'a' <= c <= 'f' || 'A' <= c <= 'F'
  }

  function DigitValue(c: char): (d: nat)
    requires IsHexDigit(c)
    ensures d < 16
  {
    if '0' <= c <= '9' then (c - '0') as nat
    else if 'a' <= c <= 'f' then (c - 'a') as nat + 10
    else (c - 'A') as nat + 10
  }

  /** The shortest lower-case hexadecimal spelling of n ("0" for zero). */
  function HexDigits(n: nat): (s: string)
    ensures 1 <= |s|
    ensures forall i :: 0 <= i < |s| ==> IsHexDigit(s[i])
  {
    if n < 16 then [HexDigit(n)] else HexDigits(n / 16) + [HexDigit(n % 16)]
  }

  /** n in hexadecimal, left-padded with '0' to at least `width` characters. */
  function HexPad(n: nat, width: nat): (s: string)
    ensures |s| == if |HexDigits(n)| < width then width else |HexDigits(n)|
    ensures forall i :: 0 <= i < |s| ==> IsHexDigit(s[i])
  {
    var digits := HexDigits(n);
    if |digits| < width then seq(width - |digits|, _ => '0') + digits else digits
  }

  /** The value of a run of hexadecimal digits, most significant first. */
  function HexValue(s: string): nat
    requires forall i :: 0 <= i < |s| ==> IsHexDigit(s[i])
  {
    if |s| == 0 then 0 else 16 * HexValue(s[..|s| - 1]) + DigitValue(s[|s| - 1])
  }

  /** 16 raised to the k-th power. */
  function Pow16(k: nat): (r: nat)
    ensures r > 0
  {
    if k == 0 then 1 else 16 * Pow16(k - 1)
  }

  /** A value has at most k digits exactly when it is below 16^k. */
  lemma {:induction false} HexDigitsLength(n: nat, k: nat)
    requires k >= 1
    ensures |HexDigits(n)| <= k <==> n < Pow16(k)
  {
    if n >= 16 && k > 1 {
      HexDigitsLength(n / 16, k - 1);
    }
  }

  /** Reading back a padded spelling of n gives n. */
  lemma {:induction false} HexPadValue(n: nat, width: nat)
    ensures HexValue(HexPad(n, width)) == n
  {
    DigitsValue(n);
    var digits := HexDigits(n);
    if |digits| < width {
      LeadingZeros(width - |digits|, digits);
    }
  }

  lemma {:induction false} DigitsValue(n: nat)
    ensures HexValue(HexDigits(n)) == n
  {
    if n >= 16 {
      DigitsValue(n / 16);
      var s := HexDigits(n);
      assert s[..|s| - 1] == HexDigits(n / 16);
    }
  }

  lemma {:induction false} LeadingZeros(k: nat, t: string)
    requires forall i :: 0 <= i < |t| ==> IsHexDigit(t[i])
    ensures var s := seq(k, _ => '0') + t;
            (forall i :: 0 <= i < |s| ==> IsHexDigit(s[i])) && HexValue(s) == HexValue(t)
  {
    var z: string := seq(k, _ => '0');
    var s := z + t;
    assert forall i :: 0 <= i < |s| ==> IsHexDigit(s[i]);
    if |t| == 0 {
      assert s == z;
      AllZeros(k);
    } else {
      LeadingZeros(k, t[..|t| - 1]);
      assert s[..|s| - 1] == z + t[..|t| - 1];
    }
  }

  lemma {:induction false} AllZeros(k: nat)
    ensures var z: string := seq(k, _ => '0'); HexValue(z) == 0
  {
    if k > 0 {
      AllZeros(k - 1);
      var z: string := seq(k, _ => '0');
      assert z[..k - 1] == seq(k - 1, _ => '0');
    }
  }

  /** `setw(2)` of an octet: exactly its two nibbles, high nibble first. */
  lemma OctetDigits(b: nat)
    requires b < 256
    ensures HexPad(b, 2) == [HexDigit(b / 16), HexDigit(b % 16)]
  {
    if b < 16 {
      assert HexDigits(b) == [HexDigit(b)];
    } else {
      assert HexDigits(b / 16) == [HexDigit(b / 16)];
    }
  }
}
