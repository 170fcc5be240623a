/**
 * Byte strings as PHP holds them, the byte order that `strcmp` computes, and the
 * decimal text PHP produces when it interpolates an integer into a string.
 */
module Bytes {

  /** One octet of a PHP string. */
  newtype byte = b: int | 0 <= b < 256

  type bytes = seq<byte>

  const Minus: byte := 45   // '-'
  const Zero: byte := 48    // '0'
  const Nine: byte := 57    // '9'
  const Colon: byte := 58   // ':'
  const LowerD: byte := 100 // 'd'
  const LowerE: byte := 101 // 'e'
  const LowerI: byte := 105 // 'i'
  const LowerL: byte := 108 // 'l'

  /** The bytes of a text, one byte per character (the low 8 bits of its code); used for ASCII text. */
  function Ascii(s: string): (r: bytes)
    ensures |r| == |s|
    ensures forall i :: 0 <= i < |s| ==> r[i] as int == s[i] as int % 256
  {
    seq(|s|, i requires 0 <= i < |s| => (s[i] as int % 256) as byte)
  }

  // ---------------------------------------------------------------------------
  // strcmp

  /**
   * PHP's `strcmp`: bytes are compared one by one as unsigned values and a proper
   * prefix sorts first. Only the sign of the result is meaningful; the model
   * returns -1, 0 or 1.
   */
  function StrCmp(a: bytes, b: bytes): (r: int)
    ensures -1 <= r <= 1
  {
    if a == [] && b == [] then 0
    else if a == [] then -1
    else if b == [] then 1
    else if a[0] < b[0] then -1
    else if a[0] > b[0] then 1
    else StrCmp(a[1..], b[1..])
  }

  /** `a` sorts strictly before `b` in the order `strcmp` defines. */
  predicate Below(a: bytes, b: bytes) {
    StrCmp(a, b) < 0
  }

  /**
   * Lexicographic order over unsigned byte values, stated without recursion:
   * `a` is a proper prefix of `b`, or the first byte where they differ is
   * smaller in `a`.
   */
  ghost predicate LexLess(a: bytes, b: bytes) {
    || (|a| < |b| && a == b[..|a|])
    || exists k :: 0 <= k < |a| && k < |b| && a[..k] == b[..k] && a[k] < b[k]
  }

  lemma {:induction false} StrCmpZeroIffEqual(a: bytes, b: bytes)
    ensures StrCmp(a, b) == 0 <==> a == b
  {
    if a != [] && b != [] && a[0] == b[0] {
      StrCmpZeroIffEqual(a[1..], b[1..]);
      assert a == [a[0]] + a[1..] && b == [b[0]] + b[1..];
    }
  }

  lemma {:induction false} StrCmpAntisymmetric(a: bytes, b: bytes)
    ensures StrCmp(b, a) == -StrCmp(a, b)
  {
    if a != [] && b != [] && a[0] == b[0] {
      StrCmpAntisymmetric(a[1..], b[1..]);
    }
  }

  lemma {:induction false} BelowTransitive(a: bytes, b: bytes, c: bytes)
    requires Below(a, b) && Below(b, c)
    ensures Below(a, c)
  {
    if a != [] && b != [] && c != [] && a[0] == b[0] == c[0] {
      BelowTransitive(a[1..], b[1..], c[1..]);
    }
  }

  /** Any two byte strings are ordered one way or the other, or are equal. */
  lemma BelowTrichotomy(a: bytes, b: bytes)
    ensures Below(a, b) || a == b || Below(b, a)
    ensures !(Below(a, b) && Below(b, a))
    ensures !Below(a, a)
  {
    StrCmpZeroIffEqual(a, b);
    StrCmpAntisymmetric(a, b);
    StrCmpZeroIffEqual(a, a);
  }

  /** `strcmp` agrees with plain lexicographic order on byte values. */
  lemma {:induction false} BelowIsLexLess(a: bytes, b: bytes)
    ensures Below(a, b) <==> LexLess(a, b)
  {
    if a == [] || b == [] {
      if LexLess(a, b) {
        assert |a| < |b|;
      }
    } else if a[0] < b[0] {
      assert a[..0] == b[..0];
    } else if a[0] > b[0] {
    } else {
      BelowIsLexLess(a[1..], b[1..]);
      if LexLess(a[1..], b[1..]) {
        if |a[1..]| < |b[1..]| && a[1..] == b[1..][..|a[1..]|] {
          assert a == b[..|a|];
        } else {
          var k :| 0 <= k < |a[1..]| && k < |b[1..]| && a[1..][..k] == b[1..][..k] && a[1..][k] < b[1..][k];
          assert a[..k + 1] == [a[0]] + a[1..][..k];
          assert b[..k + 1] == [b[0]] + b[1..][..k];
        }
      }
      if LexLess(a, b) {
        if |a| < |b| && a == b[..|a|] {
          assert a[1..] == b[1..][..|a[1..]|];
        } else {
          var k :| 0 <= k < |a| && k < |b| && a[..k] == b[..k] && a[k] < b[k];
          assert k != 0;
          assert a[1..][..k - 1] == a[..k][1..] == b[..k][1..] == b[1..][..k - 1];
          assert a[1..][k - 1] < b[1..][k - 1];
        }
      }
    }
  }

  // ---------------------------------------------------------------------------
  // Decimal text of integers

  predicate IsDigit(b: byte) {
    Zero <= b <= Nine
  }

  predicate AllDigits(s: bytes) {
    forall i :: 0 <= i < |s| ==> IsDigit(s[i])
  }

  /** A non-empty run of digits without a leading zero, except for "0" itself. */
  predicate IsNatText(s: bytes) {
    |s| >= 1 && AllDigits(s) && (s[0] == Zero ==> |s| == 1)
  }

  /** The integer grammar of Bencode: `['-'] digit+`, no leading zeros and no "-0". */
  predicate IsIntText(s: bytes) {
    || IsNatText(s)
    || (|s| >= 2 && s[0] == Minus && IsNatText(s[1..]) && s[1] != Zero)
  }

  /** The value of a run of decimal digits (the reference reading of digit text). */
  function DigitsValue(s: bytes): nat
    requires AllDigits(s)
  {
    if s == [] then 0 else 10 * DigitsValue(s[..|s| - 1]) + (s[|s| - 1] - Zero) as int
  }

  /** The value of a text in the integer grammar. */
  function IntTextValue(s: bytes): int
    requires IsIntText(s)
  {
    if s[0] == Minus then 0 - DigitsValue(s[1..]) else DigitsValue(s)
  }

  /** The decimal digits of a natural number, most significant first. */
  function NatDigits(n: nat): (r: bytes)
    ensures IsNatText(r)
    ensures r[0] == Zero <==> n == 0
  {
    if n < 10 then [Zero + n as byte] else NatDigits(n / 10) + [Zero + (n % 10) as byte]
  }

  /**
   * What PHP writes for an integer interpolated into a string (`"{$n}"`, `strval`):
   * a minus sign for negative numbers, then the digits of the magnitude.
   */
  function IntToDecimal(n: int): (r: bytes)
    ensures IsIntText(r)
    ensures r[0] == Minus <==> n < 0
  {
    if n < 0 then [Minus] + NatDigits(-n) else NatDigits(n)
  }

  lemma {:induction false} NatDigitsValue(n: nat)
    ensures DigitsValue(NatDigits(n)) == n
  {
    if n >= 10 {
      NatDigitsValue(n / 10);
      var r := NatDigits(n);
      assert r[..|r| - 1] == NatDigits(n / 10);
    }
  }

  /** Reading back the decimal text of an integer gives the integer. */
  lemma IntToDecimalValue(n: int)
    ensures IntTextValue(IntToDecimal(n)) == n
  {
    if n < 0 {
      NatDigitsValue(-n);
      assert IntToDecimal(n)[1..] == NatDigits(-n);
    } else {
      NatDigitsValue(n);
    }
  }

  /** Distinct integers have distinct decimal texts. */
  lemma IntToDecimalInjective(m: int, n: int)
    requires IntToDecimal(m) == IntToDecimal(n)
    ensures m == n
  {
    IntToDecimalValue(m);
    IntToDecimalValue(n);
  }

  /** A digit run that does not start with '0' has a positive value. */
  lemma {:induction false} DigitsValuePositive(s: bytes)
    requires s != [] && AllDigits(s) && s[0] != Zero
    ensures DigitsValue(s) >= 1
  {
    if |s| > 1 {
      DigitsValuePositive(s[..|s| - 1]);
    }
  }

  /** Canonical digit text is the text of its own value. */
  lemma {:induction false} NatDigitsOfValue(s: bytes)
    requires IsNatText(s)
    ensures NatDigits(DigitsValue(s)) == s
  {
    if |s| > 1 {
      var init := s[..|s| - 1];
      DigitsValuePositive(init);
      NatDigitsOfValue(init);
      assert s == init + [s[|s| - 1]];
    }
  }

  /** Text in the integer grammar is exactly what PHP writes for its value. */
  lemma IntToDecimalOfValue(s: bytes)
    requires IsIntText(s)
    ensures IntToDecimal(IntTextValue(s)) == s
  {
    if s[0] == Minus {
      DigitsValuePositive(s[1..]);
      NatDigitsOfValue(s[1..]);
      assert s == [Minus] + s[1..];
    } else {
      NatDigitsOfValue(s);
    }
  }
}
