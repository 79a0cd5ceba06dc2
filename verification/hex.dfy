/**
 * Python's `"{:04x}".format(n)` for a non-negative integer
 * (files/plugins/Installer.py line 146): the shortest lowercase hexadecimal
 * rendering of `n`, left-padded with '0' to at least four characters.
 * `HexValue` reads such text back and is the partner every rendering is
 * checked against.
 */
module Hex {
  import opened Wrappers
  import opened Bits

  /** The characters `'{:x}'` produces: decimal digits and lowercase a-f. */
  predicate IsHexChar(c: char)
  {
    '0' <= c <= '9' || 'a' <= c <= 'f'
  }

  predicate IsHexText(s: string)
  {
    forall i :: 0 <= i < |s| ==> IsHexChar(s[i])
  }

  function Pow16(k: nat): (r: nat)
    ensures r >= 1
  {
    if k == 0 then 1 else 16 * Pow16(k - 1)
  }

  /** The lowercase digit for a nibble. */
  function HexDigit(d: nat): (c: char)
    requires d < 16
    ensures IsHexChar(c)
  {
    if d < 10 then ('0' as int + d) as char else ('a' as int + d - 10) as char
  }

  /** The nibble a lowercase hex character stands for; anything else has none. */
  function DigitValue(c: char): (r: Option<nat>)
    ensures r.Some? <==> IsHexChar(c)
    ensures r.Some? ==> r.value < 16 && HexDigit(r.value) == c
  {
    if '0' <= c <= '9' then Some(c as int - '0' as int)
    else if 'a' <= c <= 'f' then Some(c as int - 'a' as int + 10)
    else None
  }

  lemma DigitValueOf(d: nat)
    requires d < 16
    ensures DigitValue(HexDigit(d)) == Some(d)
  {
  }

  /** The number a string of lowercase hex digits denotes (the empty string denotes 0). */
  function HexValue(s: string): Option<nat>
  {
    if |s| == 0 then Some(0)
    else
      match HexValue(s[..|s| - 1])
      case None => None
      case Some(v) =>
        match DigitValue(s[|s| - 1])
        case None => None
        case Some(d) => Some(v * 16 + d)
  }

  /** Text has a value exactly when every character of it is a lowercase hex digit. */
  lemma {:induction false} HexValueDefinedIff(s: string)
    ensures HexValue(s).Some? <==> IsHexText(s)
  {
    if |s| > 0 {
      HexValueDefinedIff(s[..|s| - 1]);
      assert s == s[..|s| - 1] + [s[|s| - 1]];
    }
  }

  /** Python's `'%x' % n`: the shortest rendering, most significant digit first. */
  function ToHex(n: nat): (r: string)
    ensures |r| >= 1
  {
    if n < 16 then [HexDigit(n)] else ToHex(n / 16) + [HexDigit(n % 16)]
  }

  /** The shortest rendering is hex text that reads back as `n` and has no leading zero. */
  lemma {:induction false} ToHexRoundTrip(n: nat)
    ensures IsHexText(ToHex(n))
    ensures HexValue(ToHex(n)) == Some(n)
    ensures ToHex(n)[0] == '0' ==> n == 0
  {
    DigitValueOf(n % 16);
    if n >= 16 {
      ToHexRoundTrip(n / 16);
      var high := ToHex(n / 16);
      assert ToHex(n)[..|ToHex(n)| - 1] == high;
      assert ToHex(n)[0] == high[0];
    }
  }

  /** Python's `str.rjust(w, '0')`, the padding that the `0` and width of a format specifier ask for. */
  function PadLeft(s: string, w: nat): (r: string)
    ensures |r| == if |s| >= w then |s| else w
    ensures r[|r| - |s|..] == s
    ensures forall i :: 0 <= i < |r| - |s| ==> r[i] == '0'
  {
    if |s| >= w then s else seq(w - |s|, _ => '0') + s
  }

  /** Leading zeros do not change the value of hex text. */
  lemma {:induction false} HexValueLeadingZeros(z: string, s: string)
    requires forall i :: 0 <= i < |z| ==> z[i] == '0'
    ensures HexValue(z + s) == HexValue(s)
  {
    if |s| == 0 {
      assert z + s == z;
      HexValueOfZeros(z);
    } else {
      assert (z + s)[..|z + s| - 1] == z + s[..|s| - 1];
      HexValueLeadingZeros(z, s[..|s| - 1]);
    }
  }

  lemma {:induction false} HexValueOfZeros(z: string)
    requires forall i :: 0 <= i < |z| ==> z[i] == '0'
    ensures HexValue(z) == Some(0)
  {
    if |z| > 0 {
      HexValueOfZeros(z[..|z| - 1]);
    }
  }

  /** `"{:04x}".format(n)` */
  function Format04x(n: nat): (r: string)
    ensures |r| >= 4
  {
    PadLeft(ToHex(n), 4)
  }

  /** The padded rendering is hex text that reads back as `n`; it is four characters exactly when `n < 2^16`. */
  lemma Format04xRoundTrip(n: nat)
    ensures IsHexText(Format04x(n))
    ensures HexValue(Format04x(n)) == Some(n)
    ensures |Format04x(n)| == 4 <==> n < 0x1_0000
  {
    var digits := ToHex(n);
    var r := Format04x(n);
    ToHexRoundTrip(n);
    assert r == r[..|r| - |digits|] + digits;
    HexValueLeadingZeros(r[..|r| - |digits|], digits);
    ToHexFitsFour(n);
  }

  /** The shortest rendering has exactly as many digits as the number needs. */
  lemma {:induction false} ToHexLength(n: nat)
    ensures n < Pow16(|ToHex(n)|)
    ensures |ToHex(n)| > 1 ==> Pow16(|ToHex(n)| - 1) <= n
  {
    if n >= 16 {
      ToHexLength(n / 16);
      assert |ToHex(n)| == |ToHex(n / 16)| + 1;
    }
  }

  /** The shortest rendering has at most four digits exactly when the number is below 16^4. */
  lemma ToHexFitsFour(n: nat)
    ensures |ToHex(n)| <= 4 <==> n < 0x1_0000
  {
    var k := |ToHex(n)|;
    ToHexLength(n);
    assert Pow16(4) == 0x1_0000;
    if k <= 4 {
      Pow16Monotone(k, 4);
    } else {
      Pow16Monotone(4, k - 1);
    }
  }

  lemma {:induction false} Pow16Monotone(j: nat, k: nat)
    requires j <= k
    ensures Pow16(j) <= Pow16(k)
  {
    if j < k {
      Pow16Monotone(j, k - 1);
    }
  }

  /** Hex texts of the same length that denote the same number are the same text. */
  lemma {:induction false} HexValueInjective(s: string, t: string)
    requires |s| == |t| && HexValue(s).Some? && HexValue(s) == HexValue(t)
    ensures s == t
  {
    if |s| > 0 {
      var v := HexValue(s).value;
      var ds, dt := DigitValue(s[|s| - 1]).value, DigitValue(t[|t| - 1]).value;
      var vs, vt := HexValue(s[..|s| - 1]).value, HexValue(t[..|t| - 1]).value;
      DivModOf(v, 16, vs, ds);
      DivModOf(v, 16, vt, dt);
      HexValueInjective(s[..|s| - 1], t[..|t| - 1]);
      assert s == s[..|s| - 1] + [s[|s| - 1]];
      assert t == t[..|t| - 1] + [t[|t| - 1]];
    }
  }

  /** Appending a digit multiplies the value by sixteen and adds the digit. */
  lemma HexValueSnoc(s: string, d: nat)
    requires HexValue(s).Some? && d < 16
    ensures HexValue(s + [HexDigit(d)]) == Some(HexValue(s).value * 16 + d)
  {
    var t := s + [HexDigit(d)];
    assert t[..|t| - 1] == s;
    assert DigitValue(t[|t| - 1]) == Some(d) by {
      DigitValueOf(d);
    }
  }

  lemma HexValueOfTwo(a: nat, b: nat)
    requires a < 16 && b < 16
    ensures HexValue([HexDigit(a), HexDigit(b)]) == Some(a * 16 + b)
  {
    HexValueSnoc([], a);
    assert [] + [HexDigit(a)] == [HexDigit(a)];
    HexValueSnoc([HexDigit(a)], b);
    assert [HexDigit(a)] + [HexDigit(b)] == [HexDigit(a), HexDigit(b)];
  }

  lemma HexValueOfFour(a: nat, b: nat, c: nat, d: nat)
    requires a < 16 && b < 16 && c < 16 && d < 16
    ensures HexValue([HexDigit(a), HexDigit(b), HexDigit(c), HexDigit(d)]) == Some(((a * 16 + b) * 16 + c) * 16 + d)
  {
    var s1 := [HexDigit(a)];
    var s2 := s1 + [HexDigit(b)];
    var s3 := s2 + [HexDigit(c)];
    HexValueSnoc([], a);
    assert [] + [HexDigit(a)] == s1;
    HexValueSnoc(s1, b);
    HexValueSnoc(s2, c);
    HexValueSnoc(s3, d);
    assert s3 + [HexDigit(d)] == [HexDigit(a), HexDigit(b), HexDigit(c), HexDigit(d)];
  }

  /**
   * Below 2^16 the rendering is exactly four digits, most significant
   * nibble first.
   */
  lemma Format04xDigits(n: nat)
    requires n < 0x1_0000
    ensures Format04x(n) == [HexDigit(n / 4096), HexDigit(n / 256 % 16), HexDigit(n / 16 % 16), HexDigit(n % 16)]
  {
    var q1 := n / 16;
    var q2 := q1 / 16;
    var q3 := q2 / 16;
    var a, b, c, d := q3, q2 % 16, q1 % 16, n % 16;
    assert n == q2 * 256 + (c * 16 + d);
    DivModOf(n, 256, q2, c * 16 + d);
    assert n == q3 * 4096 + (b * 256 + c * 16 + d);
    DivModOf(n, 4096, q3, b * 256 + c * 16 + d);
    var f := [HexDigit(a), HexDigit(b), HexDigit(c), HexDigit(d)];
    HexValueOfFour(a, b, c, d);
    assert ((a * 16 + b) * 16 + c) * 16 + d == n;
    Format04xRoundTrip(n);
    HexValueInjective(f, Format04x(n));
  }
}
