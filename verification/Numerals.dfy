/** Positional numerals: printing, reading back and left padding. */
module Numerals {
  function DigitChar(d: nat): char
    requires d < 16
  {
    if d < 10 then '0' + d as char else 'a' + (d - 10) as char
  }

  predicate IsDigit(c: char, base: nat) {
    && ('0' <= c <= '9' || 'a' <= c <= 'f')
    && (if c <= '9' then c as int - '0' as int else c as int - 'a' as int + 10) < base
  }

  function DigitValue(c: char): nat
    requires IsDigit(c, 16)
  {
    if c <= '9' then c as int - '0' as int else c as int - 'a' as int + 10
  }

  predicate AllDigits(s: string, base: nat) {
    forall c | c in s :: IsDigit(c, base)
  }

  function Quotient(n: nat, base: nat): (q: nat)
    requires 2 <= base
    ensures q * base <= n < q * base + base
    ensures n > 0 ==> q < n
    ensures n >= base ==> q > 0
  {
    QuotientAndRest(n, base);
    QuotientBounds(n, base, n / base, n % base);
    n / base
  }

  lemma QuotientBounds(n: nat, base: nat, q: nat, r: nat)
    requires 2 <= base && n == r + q * base && r < base
    ensures q * base <= n < q * base + base
    ensures n > 0 ==> q < n
    ensures n >= base ==> q > 0
  {
    MulMonotone(2, base, q);
  }

  function LastDigit(n: nat, base: nat): (r: nat)
    requires 2 <= base
    ensures r < base && Quotient(n, base) * base + r == n
  {
    n % base
  }

  function Print(n: nat, base: nat): string
    requires 2 <= base <= 16
  {
    if n < base then [DigitChar(n)] else Print(Quotient(n, base), base) + [DigitChar(LastDigit(n, base))]
  }

  function Value(s: string, base: nat): nat
    requires 2 <= base <= 16 && AllDigits(s, base)
  {
    if s == [] then 0
    else
      assert s[|s| - 1] in s;
      Value(s[..|s| - 1], base) * base + DigitValue(s[|s| - 1])
  }

  function Pow(base: nat, k: nat): nat {
    if k == 0 then 1 else base * Pow(base, k - 1)
  }

  function Repeat(c: char, k: nat): string {
    seq(k, _ => c)
  }

  /** Left padding to a width; a longer string is left alone. */
  function PadStart(s: string, width: nat, c: char): string {
    if |s| >= width then s else Repeat(c, width - |s|) + s
  }

  lemma DigitRoundTrip(d: nat, base: nat)
    requires d < base <= 16
    ensures IsDigit(DigitChar(d), base) && DigitValue(DigitChar(d)) == d
  {
  }

  lemma ValueSnoc(s: string, c: char, base: nat)
    requires 2 <= base <= 16 && AllDigits(s, base) && IsDigit(c, base)
    ensures AllDigits(s + [c], base) && Value(s + [c], base) == Value(s, base) * base + DigitValue(c)
  {
    assert (s + [c])[..|s|] == s;
  }

  /** Reading what was printed gives the number back, at any size. */
  lemma {:induction false} ValuePrint(n: nat, base: nat)
    requires 2 <= base <= 16
    ensures AllDigits(Print(n, base), base) && Value(Print(n, base), base) == n
    ensures Print(n, base) != []
  {
    hide Quotient, LastDigit;
    if n < base {
      DigitRoundTrip(n, base);
      ValueSnoc([], DigitChar(n), base);
      assert [] + [DigitChar(n)] == [DigitChar(n)];
    } else {
      var q, r := Quotient(n, base), LastDigit(n, base);
      assert Print(n, base) == Print(q, base) + [DigitChar(r)];
      hide *;
      ValuePrint(q, base);
      DigitRoundTrip(r, base);
      ValueSnoc(Print(q, base), DigitChar(r), base);
    }
  }

  lemma {:induction false} PrintLength(n: nat, base: nat, k: nat)
    requires 2 <= base <= 16 && k >= 1 && n < Pow(base, k)
    ensures |Print(n, base)| <= k
  {
    hide Quotient, LastDigit;
    if n >= base {
      QuotientBelow(n, base, k);
      PrintLength(Quotient(n, base), base, k - 1);
    }
  }

  lemma QuotientBelow(n: nat, base: nat, k: nat)
    requires 2 <= base <= n && k >= 1 && n < Pow(base, k)
    ensures k >= 2 && Quotient(n, base) < Pow(base, k - 1)
  {
    hide Quotient;
    var q, p := Quotient(n, base), Pow(base, k - 1);
    assert Pow(base, 0) == 1;
    assert q * base < p * base;
    if q >= p { MulMonotone(p, q, base); }
  }

  lemma MulMonotone(a: nat, b: nat, c: nat)
    requires a <= b
    ensures a * c <= b * c
  {
    assert b * c - a * c == (b - a) * c;
  }

  lemma {:induction false} ValueLeadingZeros(k: nat, s: string, base: nat)
    requires 2 <= base <= 16 && AllDigits(s, base)
    ensures AllDigits(Repeat('0', k) + s, base) && Value(Repeat('0', k) + s, base) == Value(s, base)
  {
    var t := Repeat('0', k) + s;
    if s == [] {
      ZerosValue(k, base);
      assert t == Repeat('0', k);
    } else {
      assert t[..|t| - 1] == Repeat('0', k) + s[..|s| - 1];
      ValueLeadingZeros(k, s[..|s| - 1], base);
    }
  }

  lemma {:induction false} ZerosValue(k: nat, base: nat)
    requires 2 <= base <= 16
    ensures AllDigits(Repeat('0', k), base) && Value(Repeat('0', k), base) == 0
  {
    if k > 0 {
      ZerosValue(k - 1, base);
      assert Repeat('0', k)[..k - 1] == Repeat('0', k - 1);
    }
  }

  /** A zero-padded numeral still reads back to its number. */
  lemma PaddedValue(n: nat, base: nat, width: nat)
    requires 2 <= base <= 16
    ensures var s := PadStart(Print(n, base), width, '0');
            s != [] && AllDigits(s, base) && Value(s, base) == n
  {
    ValuePrint(n, base);
    var s := Print(n, base);
    if |s| < width { ValueLeadingZeros(width - |s|, s, base); }
  }

  /** Padding keeps distinct numbers apart, also beyond the padded width. */
  lemma PaddedInjective(m: nat, n: nat, base: nat, width: nat)
    requires 2 <= base <= 16
    requires PadStart(Print(m, base), width, '0') == PadStart(Print(n, base), width, '0')
    ensures m == n
  {
    PaddedValue(m, base, width);
    PaddedValue(n, base, width);
  }

  lemma PaddedLength(n: nat, base: nat, width: nat)
    requires 2 <= base <= 16 && width >= 1 && n < Pow(base, width)
    ensures |PadStart(Print(n, base), width, '0')| == width
  {
    PrintLength(n, base, width);
  }

  lemma DivisionUnique(v: int, d: nat, q: int, s: int)
    requires d > 0 && v == d * q + s && 0 <= s < d
    ensures v / d == q
  {
    var t := v / d;
    assert v == d * t + v % d;
    assert d * q - d * t == d * (q - t);
    Multiple(d, q - t);
  }

  lemma Multiple(d: nat, x: int)
    ensures x >= 1 ==> d * x >= d
    ensures x <= -1 ==> d * x + d <= 0
  {
  }

  lemma QuotientAndRest(n: nat, d: nat)
    requires d > 0
    ensures n == n % d + n / d * d && n % d < d && n / d >= 0
  {
    var q: int := n / d;
    assert n == d * q + n % d;
    Multiple(d, q);
  }

  /** A division's rest is the one that fits. */
  lemma RestUnique(n: nat, d: nat, q: nat, r: nat)
    requires d > 0 && n == d * q + r && r < d
    ensures n % d == r
  {
    DivisionUnique(n, d, q, r);
    QuotientAndRest(n, d);
  }
}
