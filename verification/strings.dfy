/** The string operations the core relies on: decimal rendering (`String(n)`),
    `padStart`, `Number(...)` on strings of digits, and the code-unit
    lexicographic order of JavaScript's `<` on strings. */
module Strings {
  import opened Arithmetic

  predicate IsDigit(c: char) {
    '0' <= c <= '9'
  }

  predicate AllDigits(s: string) {
    forall i :: 0 <= i < |s| ==> IsDigit(s[i])
  }

  function DigitChar(d: int): (c: char)
    requires 0 <= d < 10
    ensures IsDigit(c)
  {
    ('0' as int + d) as char
  }

  function DigitValue(c: char): (d: int)
    requires IsDigit(c)
    ensures 0 <= d < 10
    ensures DigitChar(d) == c
  {
    c as int - '0' as int
  }

  function Pow10(w: nat): (p: nat)
    ensures p >= 1
  {
    if w == 0 then 1 else 10 * Pow10(w - 1)
  }

  /** `Number(s)` for a non-empty string of decimal digits. */
  function DigitsValue(s: string): (n: nat)
    requires AllDigits(s)
    ensures n < Pow10(|s|)
  {
    if s == [] then 0 else 10 * DigitsValue(s[..|s| - 1]) + DigitValue(s[|s| - 1])
  }

  /** `String(n)` for a natural number: its decimal digits with no leading zero. */
  function NatToString(n: nat): (s: string)
    ensures |s| >= 1 && AllDigits(s)
    ensures |s| > 1 ==> s[0] != '0'
  {
    if n < 10 then [DigitChar(n)] else NatToString(n / 10) + [DigitChar(n % 10)]
  }

  /** `String(i)` for an integer: a minus sign before the digits of a negative value. */
  function IntToString(i: int): (s: string)
    ensures |s| >= 1
    ensures i < 0 <==> s[0] == '-'
  {
    if i < 0 then "-" + NatToString(-i) else NatToString(i)
  }

  /** `s.padStart(width, fill)` with a one-character `fill`: prefix `fill` until
      `s` is `width` long. */
  function PadStart(s: string, width: nat, fill: char): string {
    if |s| >= width then s else seq(width - |s|, _ => fill) + s
  }

  /** Padding reaches the width (or keeps a longer string), ends with the
      original string and puts only `fill` in front of it. */
  lemma PadStartSpec(s: string, width: nat, fill: char)
    ensures var r := PadStart(s, width, fill);
      && |r| == (if |s| < width then width else |s|)
      && r[|r| - |s|..] == s
      && forall i :: 0 <= i < |r| - |s| ==> r[i] == fill
  {
  }

  /** The last `w` decimal digits of `n`, leading zeros included. */
  function FixedDigits(n: nat, w: nat): (s: string)
    ensures |s| == w && AllDigits(s)
  {
    if w == 0 then [] else FixedDigits(n / 10, w - 1) + [DigitChar(n % 10)]
  }

  /** JavaScript `a < b` on strings: code-unit lexicographic order, a proper
      prefix coming first. */
  predicate StrLess(a: string, b: string) {
    if a == [] then b != []
    else if b == [] then false
    else if a[0] != b[0] then a[0] < b[0]
    else StrLess(a[1..], b[1..])
  }

  /** JavaScript `a <= b` on strings. */
  predicate StrLessEq(a: string, b: string) {
    a == b || StrLess(a, b)
  }

  // ---------------------------------------------------------------------------
  // Decimal rendering and reading are inverse.
  // ---------------------------------------------------------------------------

  lemma {:induction false} NatToStringValue(n: nat)
    ensures DigitsValue(NatToString(n)) == n
  {
    if n >= 10 {
      var s := NatToString(n);
      assert s[..|s| - 1] == NatToString(n / 10);
      NatToStringValue(n / 10);
    }
  }

  /** Different numbers render differently. */
  lemma NatToStringInjective(a: nat, b: nat)
    ensures NatToString(a) == NatToString(b) ==> a == b
  {
    NatToStringValue(a);
    NatToStringValue(b);
  }

  lemma IntToStringInjective(a: int, b: int)
    ensures IntToString(a) == IntToString(b) ==> a == b
  {
    if IntToString(a) == IntToString(b) {
      if a < 0 {
        assert IntToString(a)[1..] == NatToString(-a);
        assert IntToString(b)[1..] == NatToString(-b);
      }
      NatToStringInjective(if a < 0 then -a else a, if b < 0 then -b else b);
    }
  }

  /** Reading `w` fixed digits gives the number modulo `10^w`. */
  lemma {:induction false} FixedDigitsValue(n: nat, w: nat)
    ensures DigitsValue(FixedDigits(n, w)) == n % Pow10(w)
  {
    if w > 0 {
      var s := FixedDigits(n, w);
      assert s[..|s| - 1] == FixedDigits(n / 10, w - 1);
      FixedDigitsValue(n / 10, w - 1);
      ModPow10Step(n, w);
    }
  }

  lemma ModPow10Step(n: nat, w: nat)
    requires w > 0
    ensures n % Pow10(w) == 10 * ((n / 10) % Pow10(w - 1)) + n % 10
  {
    var p := Pow10(w - 1);
    var q := n / 10;
    var a := q / p;
    assert q == p * a + q % p;
    assert n == 10 * q + n % 10;
    assert n == (10 * p) * a + (10 * (q % p) + n % 10);
    assert 0 <= 10 * (q % p) + n % 10 < 10 * p;
    DivModUnique(n, 10 * p, a, 10 * (q % p) + n % 10);
  }

  /** A string of digits is the fixed-width rendering of its own value. */
  lemma {:induction false} DigitsRoundTrip(s: string)
    requires AllDigits(s)
    ensures FixedDigits(DigitsValue(s), |s|) == s
  {
    if s != [] {
      var init := s[..|s| - 1];
      var n := DigitsValue(s);
      DivModUnique(n, 10, DigitsValue(init), DigitValue(s[|s| - 1]));
      DigitsRoundTrip(init);
      assert s == init + [s[|s| - 1]];
    }
  }

  /** A number with exactly `w` digits renders as those `w` digits. */
  lemma {:induction false} NatToStringFixed(n: nat, w: nat)
    requires w >= 1 && Pow10(w - 1) <= n < Pow10(w)
    ensures NatToString(n) == FixedDigits(n, w)
  {
    if w == 1 {
      assert n / 10 == 0;
    } else {
      NatToStringFixed(n / 10, w - 1);
    }
  }

  /** Numbers below 100 pad to their two-digit rendering. */
  lemma PadTwoDigits(n: nat)
    requires n < 100
    ensures PadStart(NatToString(n), 2, '0') == FixedDigits(n, 2)
  {
    if n < 10 {
      assert n / 10 == 0 && n % 10 == n;
      assert FixedDigits(n, 2) == [DigitChar(0), DigitChar(n)];
    } else {
      NatToStringFixed(n, 2);
    }
  }

  // ---------------------------------------------------------------------------
  // String order.
  // ---------------------------------------------------------------------------

  lemma {:induction false} StrLessIrreflexive(a: string)
    ensures !StrLess(a, a)
  {
    if a != [] {
      StrLessIrreflexive(a[1..]);
    }
  }

  /** Two strings with prefixes of the same length compare by the prefixes first. */
  lemma {:induction false} StrLessConcat(a1: string, a2: string, b1: string, b2: string)
    requires |a1| == |b1|
    ensures StrLess(a1 + a2, b1 + b2) <==> StrLess(a1, b1) || (a1 == b1 && StrLess(a2, b2))
  {
    if a1 == [] {
      assert a1 + a2 == a2 && b1 + b2 == b2;
    } else {
      assert (a1 + a2)[0] == a1[0] && (b1 + b2)[0] == b1[0];
      assert (a1 + a2)[1..] == a1[1..] + a2 && (b1 + b2)[1..] == b1[1..] + b2;
      StrLessConcat(a1[1..], a2, b1[1..], b2);
      if a1[0] == b1[0] {
        assert a1 == b1 <==> a1[1..] == b1[1..] by {
          if a1[1..] == b1[1..] {
            assert a1 == [a1[0]] + a1[1..] && b1 == [b1[0]] + b1[1..];
          }
        }
      }
    }
  }

  /** On fixed-width digit strings, string order is numeric order. */
  lemma {:induction false} FixedDigitsOrder(n: nat, m: nat, w: nat)
    requires n < Pow10(w) && m < Pow10(w)
    ensures StrLess(FixedDigits(n, w), FixedDigits(m, w)) <==> n < m
  {
    if w == 0 {
    } else {
      var hn, hm := FixedDigits(n / 10, w - 1), FixedDigits(m / 10, w - 1);
      StrLessConcat(hn, [DigitChar(n % 10)], hm, [DigitChar(m % 10)]);
      DivPow10(n, w);
      DivPow10(m, w);
      FixedDigitsOrder(n / 10, m / 10, w - 1);
      FixedDigitsValue(n / 10, w - 1);
      FixedDigitsValue(m / 10, w - 1);
      DivModSmall(n / 10, Pow10(w - 1));
      DivModSmall(m / 10, Pow10(w - 1));
      assert hn == hm <==> n / 10 == m / 10;
      assert StrLess([DigitChar(n % 10)], [DigitChar(m % 10)]) <==> n % 10 < m % 10;
      DecimalOrder(n, m);
    }
  }

  lemma DivPow10(n: nat, w: nat)
    requires w > 0 && n < Pow10(w)
    ensures n / 10 < Pow10(w - 1)
  {
  }

  lemma DivModSmall(n: nat, p: nat)
    requires 0 <= n < p
    ensures n % p == n
  {
    DivModUnique(n, p, 0, n);
  }

  /** Numbers compare by their quotient by ten first, then by their last digit. */
  lemma DecimalOrder(n: nat, m: nat)
    ensures n < m <==> n / 10 < m / 10 || (n / 10 == m / 10 && n % 10 < m % 10)
  {
    var qn, qm := n / 10, m / 10;
    assert n == 10 * qn + n % 10 && m == 10 * qm + m % 10;
    if qn < qm {
      MulMonotone(10, qn + 1, qm);
    } else if qm < qn {
      MulMonotone(10, qm + 1, qn);
    }
  }

  /** Fixed-width renderings of numbers that fit are equal only for equal numbers. */
  lemma FixedDigitsInjective(n: nat, m: nat, w: nat)
    requires n < Pow10(w) && m < Pow10(w)
    ensures FixedDigits(n, w) == FixedDigits(m, w) <==> n == m
  {
    FixedDigitsValue(n, w);
    FixedDigitsValue(m, w);
    DivModUnique(n, Pow10(w), 0, n);
    DivModUnique(m, Pow10(w), 0, m);
  }

  /** The leading digit of a fixed-width rendering is `0` exactly when the number
      has fewer digits. */
  lemma {:induction false} FixedDigitsLeading(n: nat, w: nat)
    requires 1 <= w && n < Pow10(w)
    ensures FixedDigits(n, w)[0] == '0' <==> n < Pow10(w - 1)
  {
    if w > 1 {
      assert FixedDigits(n, w)[0] == FixedDigits(n / 10, w - 1)[0];
      DivPow10(n, w);
      FixedDigitsLeading(n / 10, w - 1);
      assert n / 10 < Pow10(w - 2) <==> n < Pow10(w - 1) by {
        DivModUnique(n, 10, n / 10, n % 10);
        if n / 10 < Pow10(w - 2) {
          MulMonotone(10, n / 10 + 1, Pow10(w - 2));
        } else {
          MulMonotone(10, Pow10(w - 2), n / 10);
        }
      }
    } else {
      assert n / 10 == 0;
    }
  }
}
