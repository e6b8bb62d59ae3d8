/** Decimal text as the front end builds it: `String(n)`, `padStart(2, '0')`,
    fixed-width zero-padded digit fields, and the code-unit order that the
    default `Array.prototype.sort` uses on strings. */
module Text {

  predicate IsDigit(c: char) {
    '0' <= c <= '9'
  }

  function DigitChar(d: int): (c: char)
    requires 0 <= d < 10
    ensures IsDigit(c)
  {
    ('0' as int + d) as char
  }

  function DigitValue(c: char): int
    requires IsDigit(c)
  {
    c as int - '0' as int
  }

  function Pow10(k: nat): (r: nat)
    ensures r >= 1
  {
    if k == 0 then 1 else 10 * Pow10(k - 1)
  }

  /** `n` written with exactly `k` digits, zero-padded on the left. */
  function Digits(n: nat, k: nat): (s: string)
    requires n < Pow10(k)
    ensures |s| == k
    ensures forall i :: 0 <= i < |s| ==> IsDigit(s[i])
  {
    if k == 0 then [] else Digits(n / 10, k - 1) + [DigitChar(n % 10)]
  }

  /** The numeric value of a string of decimal digits. */
  function DigitsValue(s: string): nat
    requires forall i :: 0 <= i < |s| ==> IsDigit(s[i])
  {
    if |s| == 0 then 0 else 10 * DigitsValue(s[..|s| - 1]) + DigitValue(s[|s| - 1])
  }

  /** JavaScript's `String(n)` for an integer: no padding, a leading minus for negatives. */
  function Decimal(n: int): string
    decreases if n < 0 then 1 - n else n
  {
    if n < 0 then "-" + Decimal(-n)
    else if n < 10 then [DigitChar(n)]
    else Decimal(n / 10) + [DigitChar(n % 10)]
  }

  /** JavaScript's `s.padStart(len, c)` for a one-character pad string. */
  function PadStart(s: string, len: nat, c: char): (r: string)
    ensures |r| == if |s| >= len then |s| else len
    ensures |s| <= |r| && r[|r| - |s|..] == s
    ensures forall i :: 0 <= i < |r| - |s| ==> r[i] == c
  {
    if |s| >= len then s else seq(len - |s|, _ => c) + s
  }

  /** Reading the digits back gives the number that was written. */
  lemma {:induction false} DigitsRoundTrip(n: nat, k: nat)
    requires n < Pow10(k)
    ensures DigitsValue(Digits(n, k)) == n
  {
    if k > 0 {
      var p := Digits(n / 10, k - 1);
      var s := p + [DigitChar(n % 10)];
      assert s[..|s| - 1] == p;
      DigitsRoundTrip(n / 10, k - 1);
    }
  }

  lemma DigitsInjective(x: nat, y: nat, k: nat)
    requires x < Pow10(k) && y < Pow10(k)
    requires Digits(x, k) == Digits(y, k)
    ensures x == y
  {
    DigitsRoundTrip(x, k);
    DigitsRoundTrip(y, k);
  }

  /** For a number with exactly `k` digits, `String(n)` is its `k`-digit field. */
  lemma {:induction false} DecimalIsDigits(n: nat, k: nat)
    requires k >= 1 && Pow10(k - 1) <= n < Pow10(k)
    ensures Decimal(n) == Digits(n, k)
  {
    if k == 1 {
      assert Digits(n / 10, 0) == [];
    } else {
      assert n >= 10;
      assert Pow10(k - 2) <= n / 10 < Pow10(k - 1);
      DecimalIsDigits(n / 10, k - 1);
    }
  }

  /** `String(n).padStart(2, '0')` is the two-digit field of any `n` below 100. */
  lemma PadTwoDigits(n: nat)
    requires n < 100
    ensures PadStart(Decimal(n), 2, '0') == Digits(n, 2)
  {
    if n < 10 {
      assert Digits(n, 2) == Digits(0, 1) + [DigitChar(n)];
      assert Digits(0, 1) == Digits(0, 0) + [DigitChar(0)];
    } else {
      DecimalIsDigits(n, 2);
    }
  }

  /** `a <= b` in the order JavaScript's default sort uses for strings of
      code units below U+D800 (every string this model sorts is ASCII). */
  predicate LexLe(a: string, b: string) {
    |a| == 0 || (|b| > 0 && (a[0] < b[0] || (a[0] == b[0] && LexLe(a[1..], b[1..]))))
  }

  lemma {:induction false} LexLeReflexive(a: string)
    ensures LexLe(a, a)
  {
    if |a| > 0 {
      LexLeReflexive(a[1..]);
    }
  }

  lemma {:induction false} LexLeTotal(a: string, b: string)
    ensures LexLe(a, b) || LexLe(b, a)
  {
    if |a| > 0 && |b| > 0 && a[0] == b[0] {
      LexLeTotal(a[1..], b[1..]);
    }
  }

  lemma {:induction false} LexLeAntisymmetric(a: string, b: string)
    requires LexLe(a, b) && LexLe(b, a)
    ensures a == b
  {
    if |a| > 0 {
      LexLeAntisymmetric(a[1..], b[1..]);
      assert a == [a[0]] + a[1..];
      assert b == [b[0]] + b[1..];
    }
  }

  lemma {:induction false} LexLeTransitive(a: string, b: string, c: string)
    requires LexLe(a, b) && LexLe(b, c)
    ensures LexLe(a, c)
  {
    if |a| > 0 && a[0] == b[0] && b[0] == c[0] {
      LexLeTransitive(a[1..], b[1..], c[1..]);
    }
  }

  /** Comparing two strings that start with prefixes of equal length: the
      prefixes decide unless they are equal. */
  lemma {:induction false} LexLeConcat(p1: string, s1: string, p2: string, s2: string)
    requires |p1| == |p2|
    ensures LexLe(p1 + s1, p2 + s2) <==> if p1 == p2 then LexLe(s1, s2) else LexLe(p1, p2)
  {
    if |p1| > 0 {
      assert (p1 + s1)[0] == p1[0] && (p2 + s2)[0] == p2[0];
      assert (p1 + s1)[1..] == p1[1..] + s1;
      assert (p2 + s2)[1..] == p2[1..] + s2;
      LexLeConcat(p1[1..], s1, p2[1..], s2);
      if p1[0] == p2[0] && p1[1..] == p2[1..] {
        assert p1 == [p1[0]] + p1[1..] && p2 == [p2[0]] + p2[1..];
      }
      if p1 == p2 {
        assert p1[1..] == p2[1..];
      }
    } else {
      assert p1 + s1 == s1 && p2 + s2 == s2;
    }
  }

  /** A `-`-separated text whose first fields have equal widths compares by that field first. */
  lemma FieldThenRest(a: string, restA: string, b: string, restB: string)
    requires |a| == |b|
    ensures LexLe(a + "-" + restA, b + "-" + restB) <==> if a == b then LexLe(restA, restB) else LexLe(a, b)
  {
    assert a + "-" + restA == a + ("-" + restA);
    assert b + "-" + restB == b + ("-" + restB);
    LexLeConcat(a, "-" + restA, b, "-" + restB);
    LexLeConcat("-", restA, "-", restB);
  }

  lemma LexLeSingle(c: char, d: char)
    ensures LexLe([c], [d]) <==> c <= d
  {
    assert [c][1..] == [];
  }

  /** The order of quotient and last digit decides the order of two naturals. */
  lemma DecimalSplitOrder(x: nat, y: nat)
    ensures x <= y <==> x / 10 < y / 10 || (x / 10 == y / 10 && x % 10 <= y % 10)
  {
  }

  /** Equal-width digit fields sort in numeric order. */
  lemma {:induction false} DigitsOrder(x: nat, y: nat, k: nat)
    requires x < Pow10(k) && y < Pow10(k)
    ensures LexLe(Digits(x, k), Digits(y, k)) <==> x <= y
  {
    if k == 0 {
      assert x == 0 && y == 0;
    } else {
      var px, py := Digits(x / 10, k - 1), Digits(y / 10, k - 1);
      var cx, cy := DigitChar(x % 10), DigitChar(y % 10);
      LexLeConcat(px, [cx], py, [cy]);
      LexLeSingle(cx, cy);
      DigitsOrder(x / 10, y / 10, k - 1);
      if px == py {
        DigitsInjective(x / 10, y / 10, k - 1);
      }
      DecimalSplitOrder(x, y);
    }
  }
}
