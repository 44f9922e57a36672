/**
 Decimal strings and the fixed-point integers behind them.

 A decimal string is a non-empty run of digits, optionally followed by a point
 and more digits; `Amount` is the number it denotes. The console keeps amounts
 as integers counting units of 10^-k (k = 6 for USD micros, k = 2 for percents
 held as basis points) and goes between the two in several places.
 */
module FixedPoint {
  import opened Digits
  import opened Text

  function PointAt(s: string): (p: nat)
    ensures p <= |s| && '.' !in s[..p]
    ensures p < |s| ==> s[p] == '.'
  {
    if s == "" || s[0] == '.' then 0
    else
      var p := PointAt(s[1..]);
      assert s[..p + 1] == [s[0]] + s[1..][..p];
      p + 1
  }

  function Whole(s: string): string {
    s[..PointAt(s)]
  }

  function HasPoint(s: string): bool {
    PointAt(s) < |s|
  }

  function Frac(s: string): string {
    if HasPoint(s) then s[PointAt(s) + 1..] else ""
  }

  predicate IsDecimal(s: string) {
    Whole(s) != "" && AllDigits(Whole(s)) && AllDigits(Frac(s))
  }

  /** The regular expression `^\d+(?:\.\d{lo,hi})?$`. */
  predicate MatchesDecimal(s: string, lo: nat, hi: nat) {
    IsDecimal(s) && (HasPoint(s) ==> lo <= |Frac(s)| <= hi)
  }

  /** What the expression says: a digit run, alone or followed by a point and lo to hi more digits. */
  ghost predicate Splits(s: string, lo: nat, hi: nat) {
    exists w: string, f: string ::
      && w != "" && AllDigits(w) && AllDigits(f)
      && (s == w || (s == w + "." + f && lo <= |f| <= hi))
  }

  /** `MatchesDecimal` is that expression. */
  lemma MatchesDecimalIffSplits(s: string, lo: nat, hi: nat)
    ensures MatchesDecimal(s, lo, hi) <==> Splits(s, lo, hi)
  {
    if MatchesDecimal(s, lo, hi) {
      var w, f := Whole(s), Frac(s);
      assert s == if HasPoint(s) then w + "." + f else w;
    }
    forall w: string, f: string | AllDigits(w) && AllDigits(f) && s == w + "." + f
      ensures Whole(s) == w && HasPoint(s) && Frac(s) == f
    {
      SplitAtPoint(w, f);
    }
    forall w: string | AllDigits(w) && s == w ensures Whole(s) == w && !HasPoint(s) {
      NoPoint(w);
    }
  }

  lemma Parts(s: string)
    ensures s == Whole(s) + (if HasPoint(s) then "." + Frac(s) else "")
  {
  }

  lemma SplitAtPoint(w: string, f: string)
    requires AllDigits(w)
    ensures Whole(w + "." + f) == w && HasPoint(w + "." + f) && Frac(w + "." + f) == f
  {
    var s := w + "." + f;
    PointAfterDigits(w, f);
    assert s[..|w|] == w && s[|w| + 1..] == f;
  }

  lemma {:induction false} PointAfterDigits(w: string, f: string)
    requires AllDigits(w)
    ensures PointAt(w + "." + f) == |w|
  {
    if w != "" {
      assert (w + "." + f)[1..] == w[1..] + "." + f;
      PointAfterDigits(w[1..], f);
    }
  }

  lemma NoPoint(w: string)
    requires AllDigits(w)
    ensures Whole(w) == w && !HasPoint(w) && Frac(w) == ""
  {
  }

  lemma DecimalChars(s: string)
    requires IsDecimal(s)
    ensures s != "" && forall c | c in s :: IsDigit(c) || c == '.'
  {
    Parts(s);
  }

  lemma DecimalTrimmed(s: string)
    requires IsDecimal(s)
    ensures Trim(s) == s
  {
    DecimalChars(s);
    assert s[0] in s && s[|s| - 1] in s;
  }

  /** A text holding a minus sign is no decimal string, with white space around it or without. */
  lemma MinusNotDecimal(s: string)
    requires '-' in s
    ensures !IsDecimal(Trim(s))
  {
    var left, right := TrimSplits(s);
    assert '-' in Trim(s);
    if IsDecimal(Trim(s)) {
      DecimalChars(Trim(s));
      assert false;
    }
  }

  /** The number a decimal string denotes. */
  function Amount(s: string): real
    requires IsDecimal(s)
  {
    Value(Whole(s)) as real + FracValue(Frac(s))
  }

  /** The digits of a decimal string, its fraction padded to k places, as one integer. */
  function Scaled(s: string, k: nat): nat
    requires IsDecimal(s) && |Frac(s)| <= k
  {
    PadEndDigits(Frac(s), k);
    Value(Whole(s) + PadEnd(Frac(s), k))
  }

  /** Scaling is exact: the integer is the denoted number times 10^k. */
  lemma ScaledExact(s: string, k: nat)
    requires IsDecimal(s) && |Frac(s)| <= k
    ensures Scaled(s, k) as real == Shift(Amount(s), k)
  {
    ShiftDecimal(Whole(s), Frac(s), k);
  }

  /** A fraction part printed after a point, or nothing when it is empty. */
  function Point(frac: string): string {
    if frac == "" then "" else "." + frac
  }

  /** A whole part and r units of 10^-k, without trailing fraction zeros or a bare point. */
  function Printed(whole: nat, r: nat, k: nat): string {
    Numeral(whole) + Point(StripZeros(PadStart(Numeral(r), k)))
  }

  lemma PadExact(r: nat, k: nat)
    requires k >= 1 && r < Pow10(k)
    ensures var s := PadStart(Numeral(r), k); AllDigits(s) && |s| == k && Value(s) == r
  {
    NumeralLength(r, k);
    PadStartValue(Numeral(r), k);
  }

  lemma StripThenPad(s: string)
    requires AllDigits(s)
    ensures AllDigits(StripZeros(s)) && PadEnd(StripZeros(s), |s|) == s
  {
    var r := StripZeros(s);
    assert r == s[..|r|];
  }

  lemma PrintedShape(w: string, g: string)
    requires w != "" && AllDigits(w) && AllDigits(g)
    ensures var s := w + Point(g);
            IsDecimal(s) && Whole(s) == w && Frac(s) == g && (HasPoint(s) <==> g != "")
  {
    if g == "" {
      assert w + Point(g) == w;
      NoPoint(w);
    } else {
      assert w + Point(g) == w + "." + g;
      SplitAtPoint(w, g);
    }
  }

  /** No leading zero, no trailing fraction zero, no bare point. */
  predicate NormalForm(s: string) {
    && IsDecimal(s) && Canonical(Whole(s))
    && (Frac(s) == "" || Frac(s)[|Frac(s)| - 1] != '0')
    && (HasPoint(s) ==> Frac(s) != "")
  }

  lemma TrimmedNormal(w: string, f: string)
    requires AllDigits(w) && Canonical(w) && AllDigits(f)
    ensures var s := w + Point(StripZeros(f)); NormalForm(s) && MatchesDecimal(s, 1, |f|)
  {
    StripThenPad(f);
    ShapeNormal(w, StripZeros(f));
  }

  lemma ShapeNormal(w: string, g: string)
    requires AllDigits(w) && Canonical(w) && AllDigits(g) && (g == "" || g[|g| - 1] != '0')
    ensures NormalForm(w + Point(g)) && HasPoint(w + Point(g)) == (g != "") && Frac(w + Point(g)) == g
  {
    PrintedShape(w, g);
  }

  /** Printing gives the normal form. */
  lemma PrintedNormal(whole: nat, r: nat, k: nat)
    requires k >= 1 && r < Pow10(k)
    ensures NormalForm(Printed(whole, r, k)) && MatchesDecimal(Printed(whole, r, k), 1, k)
  {
    PadExact(r, k);
    TrimmedNormal(Numeral(whole), PadStart(Numeral(r), k));
  }

  /** Parsing at the printing scale reads the printed digits back, those trimmed included. */
  lemma PrintedScaled(whole: nat, r: nat, k: nat)
    requires k >= 1 && r < Pow10(k)
    requires NormalForm(Printed(whole, r, k)) && |Frac(Printed(whole, r, k))| <= k
    ensures Scaled(Printed(whole, r, k), k) == whole * Pow10(k) + r
  {
    var w, f := Numeral(whole), PadStart(Numeral(r), k);
    PadExact(r, k);
    StripThenPad(f);
    PrintedShape(w, StripZeros(f));
    ValueConcat(w, f);
  }

  /**
   A normal form is canonical: among all decimal strings denoting the same
   number, with any number of fraction digits, it is the only shortest.
   */
  lemma NormalFormShortest(t: string, s: string)
    requires NormalForm(t) && IsDecimal(s) && Amount(s) == Amount(t)
    ensures |t| <= |s|
    ensures |t| == |s| ==> s == t
  {
    FracValueRange(Frac(s));
    FracValueRange(Frac(t));
    MixedEqual(Value(Whole(s)), FracValue(Frac(s)), Value(Whole(t)), FracValue(Frac(t)));
    FractionShortest(Frac(s), Frac(t));
    NumeralShortest(Whole(s));
    NumeralShortest(Whole(t));
    Parts(s);
    Parts(t);
    PartsShortest(Whole(t), Frac(t), HasPoint(t), Whole(s), Frac(s), HasPoint(s));
  }

  lemma MixedEqual(w: nat, x: real, v: nat, y: real)
    requires w as real + x == v as real + y && 0.0 <= x < 1.0 && 0.0 <= y < 1.0
    ensures w == v && x == y
  {
    assert -1.0 < (w - v) as real < 1.0;
  }

  lemma PartsShortest(w: string, f: string, p: bool, v: string, g: string, q: bool)
    requires |w| <= |v| && (|w| == |v| ==> w == v)
    requires |f| <= |g| && (|f| == |g| ==> f == g)
    requires (q || g == "") && (p <==> f != "")
    ensures var t, s := w + (if p then "." + f else ""), v + (if q then "." + g else "");
            |t| <= |s| && (|t| == |s| ==> s == t)
  {
  }
}
