/**
 Decimal digit strings: what BigInt prints, what a run of digits is worth, and
 the padding and trimming the console's money printers are built from.
 */
module Digits {

  predicate IsDigit(c: char) {
    '0' <= c <= '9'
  }

  predicate AllDigits(s: string) {
    forall i | 0 <= i < |s| :: IsDigit(s[i])
  }

  function DigitValue(c: char): nat
    requires IsDigit(c)
  {
    c as int - '0' as int
  }

  function DigitChar(d: nat): (c: char)
    requires d < 10
    ensures IsDigit(c) && DigitValue(c) == d
  {
    ('0' as int + d) as char
  }

  /** The number a digit string denotes; the empty string denotes zero. */
  function Value(s: string): nat
    requires AllDigits(s)
  {
    if s == "" then 0 else 10 * Value(s[..|s| - 1]) + DigitValue(s[|s| - 1])
  }

  function Pow10(k: nat): (p: nat)
    ensures p > 0
  {
    if k == 0 then 1 else 10 * Pow10(k - 1)
  }

  /** No superfluous leading zero. */
  predicate Canonical(s: string) {
    s != "" && (s[0] == '0' ==> |s| == 1)
  }

  /** `BigInt.prototype.toString` on a natural number. */
  function Numeral(n: nat): (s: string)
    ensures AllDigits(s) && Canonical(s) && Value(s) == n
  {
    if n < 10 then [DigitChar(n)]
    else
      var front := Numeral(n / 10);
      assert front != "0" by { assert Value("0") == 0; }
      var s := front + [DigitChar(n % 10)];
      assert s[..|s| - 1] == front;
      s
  }

  lemma {:induction false} ValueConcat(a: string, b: string)
    requires AllDigits(a) && AllDigits(b)
    ensures AllDigits(a + b)
    ensures Value(a + b) == Value(a) * Pow10(|b|) + Value(b)
  {
    if b == "" {
      assert a + b == a;
    } else {
      var front := b[..|b| - 1];
      assert (a + b)[..|a + b| - 1] == a + front;
      ValueConcat(a, front);
      ShiftSum(Value(a), Pow10(|front|), Value(front), DigitValue(b[|b| - 1]));
    }
  }

  lemma ShiftSum(x: int, p: int, f: int, d: int)
    ensures 10 * (x * p + f) + d == x * (10 * p) + (10 * f + d)
  {
  }

  lemma {:induction false} ValueBound(s: string)
    requires AllDigits(s)
    ensures Value(s) < Pow10(|s|)
  {
    if s != "" {
      ValueBound(s[..|s| - 1]);
    }
  }

  lemma {:induction false} ValueInjective(a: string, b: string)
    requires AllDigits(a) && AllDigits(b) && |a| == |b|
    requires Value(a) == Value(b)
    ensures a == b
  {
    if a != "" {
      var n := |a| - 1;
      ValueInjective(a[..n], b[..n]);
      assert a == a[..n] + [a[n]] && b == b[..n] + [b[n]];
    }
  }

  /** The numeral of a value is its unique shortest digit string. */
  lemma {:induction false} NumeralShortest(s: string)
    requires AllDigits(s) && s != ""
    ensures |Numeral(Value(s))| <= |s|
    ensures |Numeral(Value(s))| == |s| ==> s == Numeral(Value(s))
    ensures Canonical(s) ==> s == Numeral(Value(s))
  {
    if Canonical(s) {
      NumeralOfCanonical(s);
    } else {
      LeadingZero(s[1..]);
      assert s == "0" + s[1..];
      NumeralShortest(s[1..]);
    }
  }

  lemma LeadingZero(s: string)
    requires AllDigits(s)
    ensures AllDigits("0" + s) && Value("0" + s) == Value(s)
  {
    assert Value("0") == 0;
    ValueConcat("0", s);
  }

  lemma {:induction false} NumeralOfCanonical(s: string)
    requires AllDigits(s) && Canonical(s)
    ensures Numeral(Value(s)) == s
  {
    var n := |s| - 1;
    if n == 0 {
      assert s[..0] == "";
      assert s == [s[0]];
    } else {
      var front := s[..n];
      NumeralOfCanonical(front);
      assert Value(front) != 0 by { assert Numeral(0) == "0"; }
      NumeralSnoc(Value(front), s[n]);
      assert s == front + [s[n]];
    }
  }

  lemma NumeralSnoc(v: nat, c: char)
    requires v > 0 && IsDigit(c)
    ensures Numeral(10 * v + DigitValue(c)) == Numeral(v) + [c]
  {
    var n := 10 * v + DigitValue(c);
    assert n / 10 == v && n % 10 == DigitValue(c);
  }

  lemma {:induction false} NumeralLength(n: nat, k: nat)
    requires k >= 1 && n < Pow10(k)
    ensures |Numeral(n)| <= k
  {
    if n >= 10 {
      NumeralLength(n / 10, k - 1);
    }
  }

  function Zeros(k: nat): (s: string)
    ensures |s| == k && forall i | 0 <= i < k :: s[i] == '0'
  {
    seq(k, _ => '0')
  }

  lemma {:induction false} ZerosValue(k: nat)
    ensures AllDigits(Zeros(k)) && Value(Zeros(k)) == 0
  {
    if k > 0 {
      ZerosValue(k - 1);
      assert Zeros(k)[..k - 1] == Zeros(k - 1);
    }
  }

  /** `padStart(k, "0")`: never truncates. */
  function PadStart(s: string, k: nat): string {
    if |s| >= k then s else Zeros(k - |s|) + s
  }

  /** `padEnd(k, "0")`: never truncates. */
  function PadEnd(s: string, k: nat): string {
    if |s| >= k then s else s + Zeros(k - |s|)
  }

  lemma PadStartValue(s: string, k: nat)
    requires AllDigits(s)
    ensures AllDigits(PadStart(s, k)) && Value(PadStart(s, k)) == Value(s)
  {
    if |s| < k {
      ZerosValue(k - |s|);
      ValueConcat(Zeros(k - |s|), s);
    }
  }

  /** `replace(/0+$/, "")`. */
  function StripZeros(s: string): (r: string)
    ensures |r| <= |s| && s == r + Zeros(|s| - |r|)
    ensures r == "" || r[|r| - 1] != '0'
  {
    if s != "" && s[|s| - 1] == '0' then StripZeros(s[..|s| - 1]) else s
  }

  /** The number that f denotes when written after a decimal point. */
  function FracValue(f: string): real
    requires AllDigits(f)
  {
    if f == "" then 0.0 else (DigitValue(f[0]) as real + FracValue(f[1..])) / 10.0
  }

  lemma {:induction false} FracValueRange(f: string)
    requires AllDigits(f)
    ensures 0.0 <= FracValue(f) < 1.0
    ensures FracValue(f) == 0.0 && f != "" ==> f[|f| - 1] == '0'
  {
    if f != "" {
      FracValueRange(f[1..]);
      assert f[1..] != "" ==> f[1..][|f| - 2] == f[|f| - 1];
    }
  }

  /**
   Two equal fractions .a and .b, b without trailing zeros: a is at least as long
   as b, and is b when it is no longer.
   */
  lemma {:induction false} FractionShortest(a: string, b: string)
    requires AllDigits(a) && AllDigits(b)
    requires b == "" || b[|b| - 1] != '0'
    requires FracValue(a) == FracValue(b)
    ensures |b| <= |a|
    ensures |b| == |a| ==> a == b
  {
    FracValueRange(b);
    if a != "" && b != "" {
      FracValueRange(a[1..]);
      FracValueRange(b[1..]);
      assert DigitValue(a[0]) == DigitValue(b[0]);
      assert |b| > 1 ==> b[1..][|b| - 2] == b[|b| - 1];
      FractionShortest(a[1..], b[1..]);
      assert a == [a[0]] + a[1..] && b == [b[0]] + b[1..];
    }
  }

  /** x times 10^k. */
  function Shift(x: real, k: nat): real
    decreases k
  {
    if k == 0 then x else Shift(10.0 * x, k - 1)
  }

  lemma PadEndDigits(f: string, k: nat)
    requires AllDigits(f) && |f| <= k
    ensures AllDigits(PadEnd(f, k)) && |PadEnd(f, k)| == k
  {
  }

  lemma ValueSnoc(w: string, c: char)
    requires AllDigits(w) && IsDigit(c)
    ensures AllDigits(w + [c]) && Value(w + [c]) == 10 * Value(w) + DigitValue(c)
  {
    assert (w + [c])[..|w|] == w;
  }

  /** The digits of w.f, the fraction padded to k places, count units of 10^-k. */
  lemma {:induction false} ShiftDecimal(w: string, f: string, k: nat)
    requires AllDigits(w) && AllDigits(f) && |f| <= k
    ensures AllDigits(w + PadEnd(f, k))
    ensures Shift(Value(w) as real + FracValue(f), k) == Value(w + PadEnd(f, k)) as real
    decreases k
  {
    PadEndDigits(f, k);
    if k == 0 {
      assert w + PadEnd(f, k) == w;
    } else {
      var d, t := First(f), Rest(f);
      ValueSnoc(w, d);
      ShiftDecimal(w + [d], t, k - 1);
      PadEndStep(w, f, k);
    }
  }

  function First(f: string): char {
    if f == "" then '0' else f[0]
  }

  function Rest(f: string): string {
    if f == "" then "" else f[1..]
  }

  lemma PadEndStep(w: string, f: string, k: nat)
    requires |f| <= k && k > 0
    ensures w + [First(f)] + PadEnd(Rest(f), k - 1) == w + PadEnd(f, k)
  {
    assert [First(f)] + PadEnd(Rest(f), k - 1) == PadEnd(f, k);
  }
}
