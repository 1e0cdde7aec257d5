/**
  The two integer renderings the decoder needs: Python's `'{0:d}'` (minimal
  decimal) and `'{0:06x}'` (lower-case hexadecimal, zero-padded to at least
  six digits), together with their inverse, so that a rendered name
  determines the number it was made from.
*/
module Format {

  const HEX_DIGITS: string := "0123456789abcdef"

  /** Value of one digit character ('0'-'9', 'a'-'f'). */
  function DigitValue(c: char): (d: nat)
    ensures d < 16
    ensures c in HEX_DIGITS ==> HEX_DIGITS[d] == c
  {
    if '0' <= c <= '9' then c as int - '0' as int
    else if 'a' <= c <= 'f' then c as int - 'a' as int + 10
    else 0
  }

  lemma DivIsQuotient(n: nat, base: nat)
    requires 2 <= base
    ensures (n / base) * base + n % base == n && n % base < base
  {
  }

  lemma DivOfSmall(n: nat, base: nat)
    requires 2 <= base && n < base
    ensures n / base == 0
  {
  }

  lemma DivShrinks(n: nat, base: nat)
    requires 2 <= base <= n
    ensures 0 < n / base < n
  {
  }

  /** Quotient and remainder of n by base. */
  function DivRem(n: nat, base: nat): (qr: (nat, nat))
    requires 2 <= base
    ensures qr.0 * base + qr.1 == n && qr.1 < base
    ensures n < base ==> qr.0 == 0
    ensures n >= base ==> 0 < qr.0 < n
  {
    DivIsQuotient(n, base);
    if n < base then
      DivOfSmall(n, base);
      (n / base, n % base)
    else
      DivShrinks(n, base);
      (n / base, n % base)
  }

  /** Minimal representation of `n` in `base` (2..16), most significant digit first. */
  function Digits(n: nat, base: nat): (s: string)
    requires 2 <= base <= 16
    ensures |s| >= 1
    decreases n
  {
    var (q, r) := DivRem(n, base);
    if n < base then [HEX_DIGITS[r]]
    else Digits(q, base) + [HEX_DIGITS[r]]
  }

  /** Value of a digit string read in `base` (the inverse of Digits and of zero-padding). */
  function ValueOf(s: string, base: nat): nat
    requires 2 <= base <= 16
  {
    if s == [] then 0
    else ValueOf(s[..|s| - 1], base) * base + (DigitValue(s[|s| - 1]) % base)
  }

  /** `'{0:d}'.format(n)` */
  function Decimal(n: nat): string
  {
    Digits(n, 10)
  }

  function Zeros(k: nat): (z: string)
    ensures |z| == k && forall i :: 0 <= i < k ==> z[i] == '0'
  {
    if k == 0 then [] else Zeros(k - 1) + ['0']
  }

  /** `'{0:06x}'.format(n)`: lower-case hex, left-padded with '0' to six characters. */
  function Hex6(n: nat): (s: string)
    ensures |s| >= 6
  {
    var h := Digits(n, 16);
    if |h| >= 6 then h else Zeros(6 - |h|) + h
  }

  lemma DigitValueOf(d: nat, base: nat)
    requires 2 <= base <= 16 && d < base
    ensures DigitValue(HEX_DIGITS[d]) == d
  {
  }

  lemma RemSmall(r: nat, base: nat)
    requires 2 <= base && r < base
    ensures r % base == r
  {
  }

  /** ValueOf reads the last digit as the least significant one. */
  lemma ValueOfSnoc(t: string, c: char, base: nat)
    requires 2 <= base <= 16
    ensures ValueOf(t + [c], base) == ValueOf(t, base) * base + DigitValue(c) % base
  {
    assert (t + [c])[..|t|] == t;
  }

  /** Reading back a rendering gives the number rendered. */
  lemma {:induction false} ValueOfDigits(n: nat, base: nat)
    requires 2 <= base <= 16
    ensures ValueOf(Digits(n, base), base) == n
    decreases n
  {
    var (q, r) := DivRem(n, base);
    RemSmall(r, base);
    DigitValueOf(r, base);
    var t: string := if n < base then [] else Digits(q, base);
    assert Digits(n, base) == t + [HEX_DIGITS[r]];
    ValueOfSnoc(t, HEX_DIGITS[r], base);
    if n >= base {
      ValueOfDigits(q, base);
    }
    assert ValueOf(t, base) == q;
  }

  /** Leading zeros do not change the value read. */
  lemma {:induction false} ValueOfZeros(k: nat, s: string, base: nat)
    requires 2 <= base <= 16
    ensures ValueOf(Zeros(k) + s, base) == ValueOf(s, base)
    decreases |s|, k
  {
    if s == [] {
      assert Zeros(k) + s == Zeros(k);
      if k > 0 {
        assert Zeros(k) == Zeros(k - 1) + ['0'];
        ValueOfSnoc(Zeros(k - 1), '0', base);
        ValueOfZeros(k - 1, [], base);
        assert Zeros(k - 1) + [] == Zeros(k - 1);
        calc {
          ValueOf(Zeros(k), base);
          ValueOf(Zeros(k - 1), base) * base + DigitValue('0') % base;
          0 * base + 0 % base;
          0;
        }
      }
    } else {
      var init, c := s[..|s| - 1], s[|s| - 1];
      assert s == init + [c];
      assert Zeros(k) + s == (Zeros(k) + init) + [c];
      ValueOfSnoc(Zeros(k) + init, c, base);
      ValueOfSnoc(init, c, base);
      ValueOfZeros(k, init, base);
      calc {
        ValueOf(Zeros(k) + s, base);
        ValueOf(Zeros(k) + init, base) * base + DigitValue(c) % base;
        ValueOf(init, base) * base + DigitValue(c) % base;
        ValueOf(s, base);
      }
    }
  }

  lemma ValueOfHex6(n: nat)
    ensures ValueOf(Hex6(n), 16) == n
  {
    var h := Digits(n, 16);
    if |h| < 6 {
      ValueOfZeros(6 - |h|, h, 16);
    }
    ValueOfDigits(n, 16);
  }

  lemma ValueOfDecimal(n: nat)
    ensures ValueOf(Decimal(n), 10) == n
  {
    ValueOfDigits(n, 10);
  }

  /** Distinct numbers get distinct names (both renderings are injective). */
  lemma DecimalInjective(m: nat, n: nat)
    ensures Decimal(m) == Decimal(n) <==> m == n
  {
    ValueOfDecimal(m);
    ValueOfDecimal(n);
  }

  lemma Hex6Injective(m: nat, n: nat)
    ensures Hex6(m) == Hex6(n) <==> m == n
  {
    ValueOfHex6(m);
    ValueOfHex6(n);
  }

  /** A decimal digit is one of '0' to '9'. */
  lemma DecimalDigit(d: nat)
    requires d < 10
    ensures '0' <= HEX_DIGITS[d] <= '9'
  {
    assert HEX_DIGITS[..10] == "0123456789";
    assert HEX_DIGITS[d] == HEX_DIGITS[..10][d];
  }

  /** Renderings contain no separator such as '.' or '_'. */
  lemma {:induction false} DecimalHasOnlyDigits(n: nat)
    ensures forall i :: 0 <= i < |Decimal(n)| ==> '0' <= Decimal(n)[i] <= '9'
    decreases n
  {
    var (q, r) := DivRem(n, 10);
    DecimalDigit(r);
    if n >= 10 {
      DecimalHasOnlyDigits(q);
      assert Decimal(n) == Decimal(q) + [HEX_DIGITS[r]];
    }
  }

  /** Single-digit numbers are rendered as one character. */
  lemma DecimalSmall(n: nat)
    requires n < 10
    ensures Decimal(n) == [HEX_DIGITS[n]]
  {
  }

  function Power(base: nat, k: nat): nat
  {
    if k == 0 then 1 else base * Power(base, k - 1)
  }

  lemma MulMono(a: nat, b: nat, c: nat)
    requires a <= b
    ensures a * c <= b * c
  {
  }

  /** One more digit below the base keeps a number below the next power. */
  lemma ShiftBelow(v: nat, p: nat, d: nat, base: nat)
    requires v < p && d < base
    ensures v * base + d < base * p
  {
    MulMono(v + 1, p, base);
    assert (v + 1) * base == v * base + base;
  }

  /** Every character of a rendering is a digit. */
  lemma {:induction false} DigitsAreDigits(n: nat, base: nat)
    requires 2 <= base <= 16
    ensures forall i :: 0 <= i < |Digits(n, base)| ==> Digits(n, base)[i] in HEX_DIGITS
    decreases n
  {
    var (q, r) := DivRem(n, base);
    if n >= base {
      DigitsAreDigits(q, base);
      assert Digits(n, base) == Digits(q, base) + [HEX_DIGITS[r]];
    }
  }

  /** A number below base^k needs at most k digits. */
  lemma {:induction false} DigitsShort(n: nat, base: nat, k: nat)
    requires 2 <= base <= 16 && 1 <= k && n < Power(base, k)
    ensures |Digits(n, base)| <= k
    decreases k
  {
    var (q, r) := DivRem(n, base);
    if n >= base {
      assert Power(base, 1) == base;
      assert k >= 2;
      var p := Power(base, k - 1);
      if q >= p {
        MulMono(p, q, base);
        assert false;
      }
      DigitsShort(q, base, k - 1);
    }
  }

  /** k digits read back as less than base^k. */
  lemma {:induction false} ValueOfBelow(s: string, base: nat)
    requires 2 <= base <= 16
    ensures ValueOf(s, base) < Power(base, |s|)
    decreases |s|
  {
    if s != [] {
      var front := s[..|s| - 1];
      ValueOfBelow(front, base);
      ShiftBelow(ValueOf(front, base), Power(base, |front|), DigitValue(s[|s| - 1]) % base, base);
    }
  }

  /**
    `{0:06x}` writes only the characters 0-9 and a-f, and it writes exactly
    six of them exactly when the number is below 2^24.
  */
  lemma Hex6Digits(n: nat)
    ensures forall i :: 0 <= i < |Hex6(n)| ==> Hex6(n)[i] in HEX_DIGITS
    ensures |Hex6(n)| == 6 <==> n < 0x100_0000
  {
    var h := Digits(n, 16);
    DigitsAreDigits(n, 16);
    assert Power(16, 6) == 0x100_0000;
    if n < 0x100_0000 {
      DigitsShort(n, 16, 6);
    }
    if |Hex6(n)| == 6 {
      ValueOfHex6(n);
      ValueOfBelow(Hex6(n), 16);
    }
  }

  /** `'{0:d}.{1:d}'.format(major, minor)`, the version string both file headers build. */
  function VersionString(major: nat, minor: nat): string
  {
    Decimal(major) + "." + Decimal(minor)
  }

  /** The version strings the readers accept. */
  predicate SupportedVersion(version: string)
  {
    version == "2.0" || version == "2.1"
  }

  /** The accepted strings are exactly those of major version 2 with minor version 0 or 1. */
  lemma SupportedVersionIff(major: nat, minor: nat)
    ensures SupportedVersion(VersionString(major, minor)) <==> major == 2 && minor <= 1
  {
    var v := VersionString(major, minor);
    if major == 2 && minor <= 1 {
      DecimalSmall(major);
      DecimalSmall(minor);
      assert v == [HEX_DIGITS[2]] + "." + [HEX_DIGITS[minor]];
    }
    if SupportedVersion(v) {
      var a, b := Decimal(major), Decimal(minor);
      assert |v| == |a| + 1 + |b| == 3;
      assert a == v[..1] && v[..1] == "2";
      assert b == v[2..];
      DecimalSmall(2);
      DecimalInjective(major, 2);
      DecimalSmall(0);
      DecimalSmall(1);
      if v == "2.0" {
        assert b == "0";
        DecimalInjective(minor, 0);
      } else {
        assert b == "1";
        DecimalInjective(minor, 1);
      }
    }
  }
}
