/**
 The byte formatter: scaling by 1024 to the largest fitting unit, and rounding
 for display. Amounts are exact reals, so not-a-number and infinity do not arise.
 */
module ByteScale {
  import opened Digits
  import opened FixedPoint

  const UNITS: seq<string> := ["B", "KB", "MB", "GB", "TB"]

  function Pow1024(k: nat): (p: real)
    ensures p >= 1.0
  {
    if k == 0 then 1.0 else 1024.0 * Pow1024(k - 1)
  }

  /** The least unit in which the value is below 1024, or terabytes. */
  function UnitOf(value: real): (index: nat)
    ensures index < |UNITS|
  {
    if value < Pow1024(1) then 0
    else if value < Pow1024(2) then 1
    else if value < Pow1024(3) then 2
    else if value < Pow1024(4) then 3
    else 4
  }

  function AmountIn(value: real, index: nat): real {
    value / Pow1024(index)
  }

  /** `toFixed` on a non-negative number: to the nearest, halves up. */
  function Nearest(x: real): (n: int)
    ensures n as real - 0.5 <= x < n as real + 0.5
    ensures x >= 0.0 ==> n >= 0
  {
    (x + 0.5).Floor
  }

  /** What is shown, in tenths of the unit: whole units from 100 up, tenths below. */
  function Tenths(amount: real): int {
    if amount >= 100.0 then 10 * Nearest(amount) else Nearest(10.0 * amount)
  }

  /** `toFixed(0)` or `toFixed(1)`. */
  function AmountText(amount: real): string
    requires amount >= 0.0
  {
    if amount >= 100.0 then Numeral(Nearest(amount))
    else
      var t := Nearest(10.0 * amount);
      Numeral(t / 10) + "." + Numeral(t % 10)
  }

  function BytesText(value: real): string {
    if value <= 0.0 then "0 B"
    else
      AmountPositive(value);
      AmountText(AmountIn(value, UnitOf(value))) + " " + UNITS[UnitOf(value)]
  }

  lemma AmountPositive(value: real)
    requires value > 0.0
    ensures AmountIn(value, UnitOf(value)) > 0.0
  {
    var a, p := AmountIn(value, UnitOf(value)), Pow1024(UnitOf(value));
    assert a * p == value;
    assert a <= 0.0 ==> a * p <= 0.0;
  }

  lemma PowLiterals()
    ensures Pow1024(0) == 1.0 && Pow1024(1) == 1024.0 && Pow1024(2) == 1048576.0
    ensures Pow1024(3) == 1073741824.0 && Pow1024(4) == 1099511627776.0
  {
    assert Pow1024(1) == 1024.0 * Pow1024(0);
    assert Pow1024(2) == 1024.0 * Pow1024(1);
    assert Pow1024(3) == 1024.0 * Pow1024(2);
    assert Pow1024(4) == 1024.0 * Pow1024(3);
  }

  /** `bytes`: the scaling loop divides exactly, stops at the least fitting unit, and prints that. */
  method Bytes(value: real) returns (text: string)
    ensures text == BytesText(value)
  {
    if value <= 0.0 {
      return "0 B";
    }
    var index := 0;
    var amount := value;
    while amount >= 1024.0 && index < |UNITS| - 1
      invariant 0 <= index < |UNITS|
      invariant amount * Pow1024(index) == value
      invariant amount > 0.0
      invariant index > 0 ==> amount >= 1.0
    {
      amount := amount / 1024.0;
      index := index + 1;
    }
    LoopUnit(value, amount, index);
    text := AmountText(amount) + " " + UNITS[index];
  }

  /** Any scaling that is exact and stops no earlier and no later than the loop does finds the same unit and amount. */
  lemma LoopUnit(value: real, amount: real, index: nat)
    requires amount > 0.0 && amount * Pow1024(index) == value
    requires index < |UNITS| && (index > 0 ==> amount >= 1.0) && (index < |UNITS| - 1 ==> amount < 1024.0)
    ensures index == UnitOf(value) && amount == AmountIn(value, index)
  {
    PowLiterals();
    assert AmountIn(value, index) * Pow1024(index) == value;
  }

  lemma Scaled(value: real)
    requires value > 0.0
    ensures var a, i := AmountIn(value, UnitOf(value)), UnitOf(value);
            && a * Pow1024(i) == value && a > 0.0
            && (i > 0 ==> a >= 1.0) && (i < |UNITS| - 1 ==> a < 1024.0)
            && forall k | 0 <= k < i :: value >= 1024.0 * Pow1024(k)
  {
    PowLiterals();
    AmountPositive(value);
    var i := UnitOf(value);
    forall k | 0 <= k < i ensures value >= 1024.0 * Pow1024(k) {
      assert k == 0 || k == 1 || k == 2 || k == 3;
    }
  }

  /** Values compare as their (unit, amount) pairs do, unit first. */
  lemma OrderIsLexicographic(v: real, w: real)
    requires v > 0.0 && w > 0.0
    ensures v < w <==>
            || UnitOf(v) < UnitOf(w)
            || (UnitOf(v) == UnitOf(w) && AmountIn(v, UnitOf(v)) < AmountIn(w, UnitOf(w)))
  {
    PowLiterals();
  }

  /** The printed amount is a decimal numeral for exactly that many tenths. */
  lemma AmountTextShows(amount: real)
    requires amount >= 0.0
    ensures IsDecimal(AmountText(amount)) && Amount(AmountText(amount)) * 10.0 == Tenths(amount) as real
  {
    if amount >= 100.0 {
      NoPoint(Numeral(Nearest(amount)));
    } else {
      var t := Nearest(10.0 * amount);
      SplitAtPoint(Numeral(t / 10), Numeral(t % 10));
      OneDigit(t % 10);
    }
  }

  lemma OneDigit(d: nat)
    requires d < 10
    ensures FracValue(Numeral(d)) * 10.0 == d as real
  {
    assert Numeral(d) == [DigitChar(d)];
    assert [DigitChar(d)][1..] == "";
  }

  /** The number the text shows. */
  function Displayed(value: real): real
    requires value > 0.0
  {
    Tenths(AmountIn(value, UnitOf(value))) as real / 10.0 * Pow1024(UnitOf(value))
  }

  lemma TenthsMonotone(a: real, b: real)
    requires 0.0 < a <= b
    ensures Tenths(a) <= Tenths(b)
  {
  }

  /** Rounding never swaps two sizes: what is shown grows with the value, across units too. */
  lemma DisplayMonotone(v: real, w: real)
    requires 0.0 < v <= w
    ensures Displayed(v) <= Displayed(w)
  {
    Scaled(v);
    Scaled(w);
    OrderIsLexicographic(v, w);
    OrderIsLexicographic(w, v);
    if UnitOf(v) == UnitOf(w) {
      SameUnitDisplay(v, w);
    } else {
      LargerUnitDisplay(v, w);
    }
  }

  lemma SameUnitDisplay(v: real, w: real)
    requires v > 0.0 && w > 0.0 && UnitOf(v) == UnitOf(w)
    requires 0.0 < AmountIn(v, UnitOf(v)) <= AmountIn(w, UnitOf(w))
    ensures Displayed(v) <= Displayed(w)
  {
    TenthsMonotone(AmountIn(v, UnitOf(v)), AmountIn(w, UnitOf(w)));
    TimesMonotone(Tenths(AmountIn(v, UnitOf(v))), Tenths(AmountIn(w, UnitOf(w))), Pow1024(UnitOf(v)));
  }

  lemma LargerUnitDisplay(v: real, w: real)
    requires v > 0.0 && w > 0.0 && UnitOf(v) < UnitOf(w)
    requires AmountIn(v, UnitOf(v)) < 1024.0 && AmountIn(w, UnitOf(w)) >= 1.0
    ensures Displayed(v) <= Displayed(w)
  {
    NextUnit(UnitOf(v), UnitOf(w));
    TenthsRange(AmountIn(v, UnitOf(v)), AmountIn(w, UnitOf(w)));
    AcrossUnits(Tenths(AmountIn(v, UnitOf(v))), Pow1024(UnitOf(v)), Tenths(AmountIn(w, UnitOf(w))), Pow1024(UnitOf(w)));
  }

  lemma TenthsRange(a: real, b: real)
    requires a < 1024.0 && b >= 1.0
    ensures Tenths(a) <= 10240 && Tenths(b) >= 10
  {
  }

  lemma TimesMonotone(s: int, t: int, p: real)
    requires s <= t && p > 0.0
    ensures s as real / 10.0 * p <= t as real / 10.0 * p
  {
    assert (t - s) as real * p >= 0.0;
  }

  lemma {:induction false} NextUnit(i: nat, k: nat)
    requires i < k
    ensures 1024.0 * Pow1024(i) <= Pow1024(k)
  {
    if k > i + 1 {
      NextUnit(i, k - 1);
    }
  }

  /** The most that can be shown in one unit is no more than the least shown in a larger one. */
  lemma AcrossUnits(s: int, p: real, t: int, q: real)
    requires s <= 10240 && t >= 10 && p > 0.0 && 1024.0 * p <= q
    ensures s as real / 10.0 * p <= t as real / 10.0 * q
  {
    assert (10240 - s) as real * p >= 0.0;
    assert (t - 10) as real * q >= 0.0;
  }

  /** What is shown is within half of its last shown digit. */
  lemma DisplayError(v: real)
    requires v > 0.0
    ensures var a, p := AmountIn(v, UnitOf(v)), Pow1024(UnitOf(v));
            var half := if a >= 100.0 then 0.5 * p else 0.05 * p;
            v - half <= Displayed(v) <= v + half
  {
    Scaled(v);
    PowLiterals();
  }

  /** Rounding can reach 1024 of a unit that has a larger one above it, exactly in the last half unit. */
  lemma ShowsFullUnitIff(v: real)
    requires v > 0.0 && UnitOf(v) < |UNITS| - 1
    ensures Tenths(AmountIn(v, UnitOf(v))) == 10240 <==> AmountIn(v, UnitOf(v)) >= 1023.5
  {
    Scaled(v);
  }

  /** A numeral and a unit; whole units from 100 up, one decimal below. */
  lemma BytesParts(value: real) returns (text: string, index: nat)
    requires value > 0.0
    ensures index == UnitOf(value) && BytesText(value) == text + " " + ["B", "KB", "MB", "GB", "TB"][index]
    ensures IsDecimal(text) && Amount(text) * 10.0 == Tenths(AmountIn(value, index)) as real
    ensures |Frac(text)| == if AmountIn(value, index) < 100.0 then 1 else 0
  {
    index := UnitOf(value);
    AmountPositive(value);
    text := AmountText(AmountIn(value, index));
    AmountTextShows(AmountIn(value, index));
    AmountTextPlaces(AmountIn(value, index));
  }

  /** The size such a text shows is the displayed one. */
  lemma SizeShown(value: real, a: real)
    requires value > 0.0 && a * 10.0 == Tenths(AmountIn(value, UnitOf(value))) as real
    ensures a * Pow1024(UnitOf(value)) == Displayed(value)
  {
    ShownSize(a, Tenths(AmountIn(value, UnitOf(value))), Pow1024(UnitOf(value)));
  }

  lemma ShownSize(a: real, t: int, p: real)
    requires a * 10.0 == t as real
    ensures a * p == t as real / 10.0 * p
  {
  }

  lemma AmountTextPlaces(amount: real)
    requires amount >= 0.0
    ensures |Frac(AmountText(amount))| == if amount < 100.0 then 1 else 0
  {
    if amount >= 100.0 {
      NoPoint(Numeral(Nearest(amount)));
    } else {
      var t := Nearest(10.0 * amount);
      SplitAtPoint(Numeral(t / 10), Numeral(t % 10));
    }
  }

  lemma NothingShown(value: real)
    requires value <= 0.0
    ensures BytesText(value) == "0 B"
  {
  }
}
