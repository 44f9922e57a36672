/**
 The console's USD and GLD amount codec. One parser turns typed dollars into
 integer micros; three printers, in three views, turn micros back into text.
 Micros are integers of any sign here, because the printers accept any BigInt.
 */
module Money {
  import opened Wrappers
  import opened Digits
  import opened FixedPoint
  import opened Text

  const PLACES: nat := 6
  const MICROS: nat := 1_000_000

  lemma MicrosScale()
    ensures Pow10(PLACES) == MICROS
    ensures forall x: real :: Shift(x, PLACES) == x * MICROS as real
  {
    assert Pow10(3) == 1000;
    forall x: real ensures Shift(x, PLACES) == x * MICROS as real {
      assert Shift(1000.0 * x, 3) == 1000000.0 * x;
    }
  }

  // ---------------------------------------------------------------- BigInt

  /** `BigInt.prototype.toString`. */
  function IntText(n: int): string {
    if n < 0 then "-" + Numeral(-n) else Numeral(n)
  }

  /** BigInt division and remainder by a million truncate toward zero. */
  function TruncDiv(n: int): int {
    if n < 0 then 0 - (-n) / MICROS else n / MICROS
  }

  function TruncMod(n: int): int {
    if n < 0 then 0 - (-n) % MICROS else n % MICROS
  }

  /** `BigInt(s)`; None where it throws. */
  function BigIntOf(s: string): Option<int> {
    BigIntLiteral(Trim(s))
  }

  /** Empty is zero; else a radix literal, or decimal digits after an optional sign. */
  function BigIntLiteral(t: string): Option<int> {
    if t == "" then Some(0)
    else if |t| > 2 && t[0] == '0' && t[1] in "xXoObB" then
      RadixValue(t[2..], if t[1] in "xX" then 16 else if t[1] in "oO" then 8 else 2)
    else if t[0] in "+-" && |t| > 1 && AllDigits(t[1..]) then
      Some(if t[0] == '-' then 0 - Value(t[1..]) else Value(t[1..]))
    else if AllDigits(t) then Some(Value(t))
    else None
  }

  function RadixValue(s: string, radix: nat): (r: Option<int>)
    ensures r.Some? ==> r.value >= 0
  {
    if s == "" then Some(0)
    else
      match (RadixValue(s[..|s| - 1], radix), RadixDigit(s[|s| - 1]))
      case (Some(high), Some(d)) => if d < radix then Some(high * radix + d) else None
      case _ => None
  }

  function RadixDigit(c: char): Option<nat> {
    if '0' <= c <= '9' then Some(c as int - '0' as int)
    else if 'a' <= c <= 'f' then Some(c as int - 'a' as int + 10)
    else if 'A' <= c <= 'F' then Some(c as int - 'A' as int + 10)
    else None
  }

  /** Amounts travel as BigInt text, and BigInt reads its own text back. */
  lemma BigIntReadsText(n: int)
    ensures BigIntOf(IntText(n)) == Some(n)
  {
    IntTextTrimmed(n);
    if n < 0 {
      LiteralOfNegative(Numeral(-n));
    } else {
      LiteralOfDigits(Numeral(n));
    }
  }

  lemma IntTextTrimmed(n: int)
    ensures Trimmed(IntText(n)) && IntText(n) != ""
  {
    DigitsTrimmed(Numeral(if n < 0 then -n else n));
  }

  lemma DigitsTrimmed(d: string)
    requires AllDigits(d) && d != ""
    ensures Trimmed(d) && Trimmed("-" + d)
  {
    var t := "-" + d;
    assert t[|t| - 1] == d[|d| - 1];
  }

  lemma LiteralOfDigits(d: string)
    requires AllDigits(d) && Canonical(d)
    ensures BigIntLiteral(d) == Some(Value(d))
  {
  }

  lemma LiteralOfNegative(d: string)
    requires AllDigits(d) && d != ""
    ensures BigIntLiteral("-" + d) == Some(0 - Value(d))
  {
    assert ("-" + d)[1..] == d;
  }

  /** An empty text is zero, and a plus sign changes nothing. */
  lemma BigIntForms(d: string)
    requires AllDigits(d) && d != ""
    ensures BigIntLiteral("") == Some(0) && BigIntLiteral("+" + d) == Some(Value(d))
  {
    assert ("+" + d)[1..] == d;
  }

  /** White space after a literal does not matter. */
  lemma BigIntIgnoresSpace(t: string, space: string)
    requires AllSpace(space)
    ensures BigIntOf(t + space) == BigIntOf(t)
  {
    TrimAbsorbsRight(t, space);
  }

  /** The digits of every radix, in either case. */
  lemma RadixDigits(i: nat)
    requires i < 16
    ensures RadixDigit("0123456789abcdef"[i]) == RadixDigit("0123456789ABCDEF"[i]) == Some(i)
  {
  }

  /** The prefix decides the radix. */
  lemma RadixPrefixes(digits: string)
    requires digits != ""
    ensures BigIntLiteral("0x" + digits) == BigIntLiteral("0X" + digits) == RadixValue(digits, 16)
    ensures BigIntLiteral("0o" + digits) == BigIntLiteral("0O" + digits) == RadixValue(digits, 8)
    ensures BigIntLiteral("0b" + digits) == BigIntLiteral("0B" + digits) == RadixValue(digits, 2)
  {
    AfterPrefix("0x", digits);
    AfterPrefix("0X", digits);
    AfterPrefix("0o", digits);
    AfterPrefix("0O", digits);
    AfterPrefix("0b", digits);
    AfterPrefix("0B", digits);
  }

  lemma AfterPrefix(prefix: string, digits: string)
    requires |prefix| == 2 && prefix[0] == '0' && prefix[1] in "xXoObB" && digits != ""
    ensures BigIntLiteral(prefix + digits)
         == RadixValue(digits, if prefix[1] in "xX" then 16 else if prefix[1] in "oO" then 8 else 2)
  {
    assert (prefix + digits)[2..] == digits;
  }

  /** At radix ten the radix reader is the decimal one. */
  lemma {:induction false} RadixTen(s: string)
    requires AllDigits(s)
    ensures RadixValue(s, 10) == Some(Value(s))
  {
    if s != "" {
      RadixTen(s[..|s| - 1]);
    }
  }

  /** Hexadecimal, octal and binary literals of two digits. */
  lemma RadixTwo(a: char, b: char, radix: nat)
    requires RadixDigit(a).Some? && RadixDigit(b).Some?
    requires RadixDigit(a).value < radix && RadixDigit(b).value < radix
    ensures RadixValue([a, b], radix) == Some(RadixDigit(a).value * radix + RadixDigit(b).value)
  {
    assert [a, b][..1] == [a] && [a][..0] == "";
    assert RadixValue([a], radix) == Some(RadixDigit(a).value);
  }

  // ---------------------------------------------------------------- parser

  datatype UsdError = InvalidUsdAmount

  /** `usdToMicros`: the micros, as BigInt text. */
  function UsdToMicros(value: string): Result<string, UsdError> {
    var s := Trim(value);
    if MatchesDecimal(s, 0, PLACES) then Success(Numeral(MicrosOf(s)))
    else Failure(InvalidUsdAmount)
  }

  function MicrosOf(s: string): nat
    requires MatchesDecimal(s, 0, PLACES)
  {
    PadEndDigits(Frac(s), PLACES);
    Value(Whole(s)) * MICROS + Value(PadEnd(Frac(s), PLACES))
  }

  lemma MicrosOfExact(s: string)
    requires MatchesDecimal(s, 0, PLACES)
    ensures MicrosOf(s) == Scaled(s, PLACES)
    ensures MicrosOf(s) as real == Amount(s) * MICROS as real
  {
    MicrosScale();
    ScaledExact(s, PLACES);
    PadEndDigits(Frac(s), PLACES);
    ValueConcat(Whole(s), PadEnd(Frac(s), PLACES));
  }

  /**
   The parser is exact: it accepts precisely the decimal strings with at most six
   fraction digits, white space around them aside, and what it returns is the
   canonical numeral of the denoted number times 10^6, nothing rounded away.
   */
  lemma UsdToMicrosExact(value: string)
    ensures UsdToMicros(value).Success? <==> MatchesDecimal(Trim(value), 0, PLACES)
    ensures UsdToMicros(value).Success? ==>
              var r := UsdToMicros(value).value;
              && AllDigits(r) && Canonical(r)
              && Value(r) as real == Amount(Trim(value)) * MICROS as real
  {
    if MatchesDecimal(Trim(value), 0, PLACES) {
      MicrosOfExact(Trim(value));
    }
  }

  /** Two accepted inputs give the same micros text exactly when they denote the same number. */
  lemma UsdToMicrosSameIffEqual(a: string, b: string)
    requires UsdToMicros(a).Success? && UsdToMicros(b).Success?
    ensures UsdToMicros(a) == UsdToMicros(b) <==> Amount(Trim(a)) == Amount(Trim(b))
  {
    UsdToMicrosExact(a);
    UsdToMicrosExact(b);
    NumeralOfCanonical(UsdToMicros(a).value);
    NumeralOfCanonical(UsdToMicros(b).value);
  }

  // -------------------------------------------------------------- printers

  /** `formatUsdMicros` past its parse: dollars with trailing fraction zeros trimmed. */
  function UsdText(micros: int): string {
    var whole := TruncDiv(micros);
    var fraction := StripZeros(PadStart(IntText(TruncMod(micros)), PLACES));
    "$" + IntText(whole) + (if fraction == "" then "" else "." + fraction)
  }

  /** `formatUsdMicros`: null for a missing, empty or unreadable value. */
  function FormatUsdMicros(value: Option<string>): Option<string> {
    if value.None? || value.value == "" then None
    else
      match BigIntOf(value.value)
      case None => None
      case Some(micros) => Some(UsdText(micros))
  }

  /** `bigintValue`: zero for a missing or unreadable value. */
  function BigintValue(value: Option<string>): int {
    BigIntOf(value.GetOr("0")).GetOr(0)
  }

  /** en-US digit grouping of a run of digits. */
  function Group3(s: string): string {
    if |s| <= 3 then s else Group3(s[..|s| - 3]) + "," + s[|s| - 3..]
  }

  /** `BigInt.prototype.toLocaleString`. */
  function LocaleText(n: int): string {
    if n < 0 then "-" + Group3(Numeral(-n)) else Group3(Numeral(n))
  }

  /** `usdValue`: grouped dollars, and a fraction padded to six and then to ten places. */
  function UsdValue(value: Option<string>): string {
    var micros := BigintValue(value);
    "$" + LocaleText(TruncDiv(micros)) + "."
    + TenDigits(TruncMod(micros))
  }

  function TenDigits(r: int): string {
    PadEnd(PadStart(IntText(r), PLACES), 10)
  }

  /** Sign, whole dollars, and six fraction digits. */
  function FixedText(negative: bool, micros: nat): string {
    (if negative then "-" else "")
    + Numeral(micros / MICROS) + "." + PadStart(Numeral(micros % MICROS), PLACES)
  }

  /** A non-negative amount in micros, to the nearest, halves up. */
  function NearestMicros(x: real): (n: nat)
    requires x >= 0.0
    ensures n as real - 0.5 <= x * 1000000.0 < n as real + 0.5
  {
    (x * 1000000.0 + 0.5).Floor
  }

  /** `toFixed(6)`, which takes the sign off before it rounds. */
  function ToFixed6(x: real): string {
    if x < 0.0 then FixedText(true, NearestMicros(-x)) else FixedText(false, NearestMicros(x))
  }

  function Magnitude(n: int): nat {
    if n < 0 then -n else n
  }

  predicate AllZero(s: string) {
    s != "" && forall i | 0 <= i < |s| :: s[i] == '0'
  }

  /** `\.?(0+)$` matches at index i. */
  predicate ZeroTailAt(s: string, i: nat)
    requires i <= |s|
  {
    AllZero(s[i..]) || (i < |s| && s[i] == '.' && AllZero(s[i + 1..]))
  }

  /** Where the leftmost match at or after i starts, or the end when there is none. */
  function FirstZeroTail(s: string, i: nat): (j: nat)
    requires i <= |s|
    ensures i <= j <= |s| && (j < |s| ==> ZeroTailAt(s, j))
    ensures forall k | i <= k < j :: !ZeroTailAt(s, k)
    decreases |s| - i
  {
    if i == |s| || ZeroTailAt(s, i) then i else FirstZeroTail(s, i + 1)
  }

  /** `replace(/\.?(0+)$/, "")`. */
  function DropZeroTail(s: string): string {
    s[..FirstZeroTail(s, 0)]
  }

  /** `Number.prototype.toFixed(6)`. */
  function FixedNumber(n: Number): string {
    match n
    case NaN => "NaN"
    case PosInf => "Infinity"
    case NegInf => "-Infinity"
    case Num(x) => ToFixed6(x)
  }

  /** `n * 2`. */
  function Twice(n: Number): Number {
    if n.Num? then Num(n.value * 2.0) else n
  }

  /** The winner-payout text: the stored payout, else twice the stake less twice the fee. */
  function WinnerPayout(payout: Option<string>, stake: string, fee: string, number: Reader): string {
    payout.GetOr(DropZeroTail(FixedNumber(Twice(number(stake)).Minus(Twice(number(fee))))))
  }
}
