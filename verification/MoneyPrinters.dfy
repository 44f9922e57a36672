/**
 What the three money printers show. Two of them split a BigInt with truncating
 division and lose the sign of a negative amount's cents; the third prints sign
 and magnitude. The theorems say exactly where each one is right and where they agree.
 */
module MoneyPrinters {
  import opened Wrappers
  import opened Digits
  import opened FixedPoint
  import opened Text
  import opened Money

  /** s is n micros in decimal notation, signed when n is negative. */
  ghost predicate Shows(s: string, n: int) {
    var digits := if n < 0 && s != "" && s[0] == '-' then s[1..] else s;
    && (n < 0 ==> s != "" && s[0] == '-')
    && IsDecimal(digits) && Amount(digits) * MICROS as real == Magnitude(n) as real
  }

  /** What the two BigInt printers can print: naturals, and whole negative dollars. */
  predicate Printable(n: int) {
    n >= 0 || -n % MICROS == 0
  }

  /** n micros in the shortest decimal form. */
  function Shortest(n: nat): string {
    Printed(n / MICROS, n % MICROS, PLACES)
  }

  /** The shortest form is a normal form, denotes n micros, and the parser reads n back from it. */
  lemma ShortestExact(n: nat)
    ensures var s := Shortest(n);
            && NormalForm(s) && MatchesDecimal(s, 1, PLACES)
            && MicrosOf(s) == n && Amount(s) * MICROS as real == n as real
  {
    MicrosScale();
    PrintedNormal(n / MICROS, n % MICROS, PLACES);
    PrintedScaled(n / MICROS, n % MICROS, PLACES);
    MicrosOfExact(Shortest(n));
  }

  /** Sign and magnitude, in the shortest decimal form. */
  function Canonical6(n: int): string {
    (if n < 0 then "-" else "") + Shortest(Magnitude(n))
  }

  lemma Canonical6Shows(n: int)
    ensures Shows(Canonical6(n), n)
    ensures '-' !in Shortest(Magnitude(n))
  {
    ShortestExact(Magnitude(n));
    SignedShows(Shortest(Magnitude(n)), n);
  }

  lemma SignedShows(s: string, n: int)
    requires IsDecimal(s) && Amount(s) * MICROS as real == Magnitude(n) as real
    ensures '-' !in s
    ensures Shows((if n < 0 then "-" else "") + s, n)
  {
    DecimalChars(s);
    assert ("-" + s)[1..] == s && "" + s == s;
  }

  /** The shortest form in terms of the six padded fraction digits. */
  lemma ShortestMicros(n: nat)
    ensures var w, f := Numeral(n / MICROS), PadStart(Numeral(n % MICROS), PLACES);
            && AllDigits(f) && |f| == PLACES
            && Shortest(n) == w + Point(StripZeros(f))
  {
    MicrosScale();
    PadExact(n % MICROS, PLACES);
  }

  lemma UsdTextNatural(n: nat)
    ensures UsdText(n) == "$" + Shortest(n)
  {
    ShortestMicros(n);
    ConcatAssoc("$", Numeral(n / MICROS), Point(StripZeros(PadStart(Numeral(n % MICROS), PLACES))));
  }

  lemma UsdTextWholeDollars(n: int)
    requires n < 0 && Printable(n)
    ensures UsdText(n) == "$" + Canonical6(n)
  {
    ShortestMicros(-n);
    ZeroFraction();
    AssembleWhole(Numeral((-n) / MICROS));
  }

  lemma AssembleWhole(w: string)
    ensures "$" + ("-" + w) + "" == "$" + ("-" + (w + ""))
  {
  }

  lemma ZeroFraction()
    ensures StripZeros(PadStart(Numeral(0), PLACES)) == ""
  {
    assert Numeral(0) == "0" == Zeros(1);
    assert PadStart(Numeral(0), PLACES) == Zeros(PLACES);
    StripAllZeros(PLACES);
  }

  lemma {:induction false} StripAllZeros(k: nat)
    ensures StripZeros(Zeros(k)) == ""
  {
    if k > 0 {
      assert Zeros(k)[..k - 1] == Zeros(k - 1);
      StripAllZeros(k - 1);
    }
  }

  /** Otherwise the remainder's own minus sign lands in the fraction. */
  lemma MinusInFraction(n: int)
    requires !Printable(n)
    ensures '-' in PadStart(IntText(TruncMod(n)), PLACES)
    ensures '-' in StripZeros(PadStart(IntText(TruncMod(n)), PLACES))
  {
    var t := IntText(TruncMod(n));
    var p := PadStart(t, PLACES);
    assert t[0] == '-';
    assert p[|p| - |t|] == '-';
    var r := StripZeros(p);
    assert p[|p| - |t|] == (r + Zeros(|p| - |r|))[|p| - |t|];
  }

  lemma MinusInUsdText(n: int)
    requires !Printable(n)
    ensures |UsdText(n)| >= 2 && '-' in UsdText(n)[2..]
  {
    MinusInFraction(n);
    var w := IntText(TruncDiv(n));
    var f := StripZeros(PadStart(IntText(TruncMod(n)), PLACES));
    TailHolds("$" + w + ".", f, '-');
    ConcatAssoc("$" + w, ".", f);
  }

  lemma TailHolds(front: string, f: string, c: char)
    requires c in f && |front| >= 2
    ensures c in (front + f)[2..]
  {
    var i :| 0 <= i < |f| && f[i] == c;
    assert (front + f)[2..][|front| - 2 + i] == c;
  }

  /**
   The trimming printer is right exactly on the printable amounts, and prints
   them canonically; on every other amount its text is not a decimal at all.
   */
  lemma UsdTextRightIff(n: int)
    ensures Shows(UsdText(n)[1..], n) <==> Printable(n)
    ensures UsdText(n) == "$" + Canonical6(n) <==> Printable(n)
  {
    if Printable(n) {
      UsdTextOnPrintable(n);
    } else {
      UsdTextOnOthers(n);
    }
  }

  lemma UsdTextOnPrintable(n: int)
    requires Printable(n)
    ensures UsdText(n) == "$" + Canonical6(n) && Shows(UsdText(n)[1..], n)
  {
    Canonical6Shows(n);
    UsdTextCanonical(n);
    DropDollar(Canonical6(n));
  }

  lemma UsdTextCanonical(n: int)
    requires Printable(n)
    ensures UsdText(n) == "$" + Canonical6(n)
  {
    if n < 0 {
      UsdTextWholeDollars(n);
    } else {
      UsdTextNatural(n);
      assert "" + Shortest(n) == Shortest(n);
    }
  }

  lemma DropDollar(s: string)
    ensures ("$" + s)[1..] == s
  {
  }

  lemma UsdTextOnOthers(n: int)
    requires !Printable(n)
    ensures UsdText(n) != "$" + Canonical6(n) && !Shows(UsdText(n)[1..], n)
  {
    MinusInUsdText(n);
    assert UsdText(n)[1..][1..] == UsdText(n)[2..];
    SecondMinusBreaks(UsdText(n)[1..], n);
    Canonical6Shows(n);
    SecondMinusDiffers(UsdText(n), Shortest(-n));
  }

  lemma SecondMinusDiffers(t: string, s: string)
    requires |t| >= 2 && '-' in t[2..] && '-' !in s
    ensures t != "$" + ("-" + s)
  {
    assert ("$" + ("-" + s))[2..] == s;
  }

  lemma SecondMinusBreaks(s: string, n: int)
    requires n < 0 && s != "" && '-' in s[1..]
    ensures !Shows(s, n)
  {
    if IsDecimal(s[1..]) {
      DecimalChars(s[1..]);
      assert false;
    }
  }

  /** Nothing is shown exactly for a missing, empty or unreadable amount, and otherwise a text with a dollar sign. */
  lemma FormatNullIff(value: Option<string>)
    ensures FormatUsdMicros(value) == None <==>
            value.None? || value.value == "" || BigIntOf(value.value).None?
    ensures FormatUsdMicros(value).Some? ==> "$" <= FormatUsdMicros(value).value
  {
  }

  /** A cost of one micro prints as "$0.0000-1". */
  lemma NegativeUsdExample()
    ensures UsdText(-1) == "$0.0000-1" && !Printable(-1)
  {
    assert IntText(-1) == "-1" && TruncMod(-1) == -1 && TruncDiv(-1) == 0;
    assert PadStart("-1", PLACES) == "0000-1";
    assert StripZeros("0000-1") == "0000-1";
  }

  /** Printing and then parsing is the identity exactly on natural micros. */
  lemma UsdRoundTrip(n: int)
    ensures var text := FormatUsdMicros(Some(IntText(n)));
            && text.Some? && text.value != "" && text.value[0] == '$'
            && UsdToMicros(text.value[1..])
               == if n >= 0 then Success(IntText(n)) else Failure(InvalidUsdAmount)
  {
    BigIntReadsText(n);
    assert IntText(n) != "";
    if n >= 0 {
      UsdTextNatural(n);
      ShortestParses(n);
      assert ("$" + Shortest(n))[1..] == Shortest(n);
    } else {
      MinusInText(n);
      MinusRejected(UsdText(n)[1..]);
    }
  }

  lemma ShortestParses(n: nat)
    ensures UsdToMicros(Shortest(n)) == Success(Numeral(n))
  {
    ShortestExact(n);
    DecimalTrimmed(Shortest(n));
  }

  lemma MinusInText(n: int)
    requires n < 0
    ensures '-' in UsdText(n)[1..]
  {
    if Printable(n) {
      UsdTextWholeDollars(n);
      assert ("$" + Canonical6(n))[1..][0] == '-';
    } else {
      MinusInUsdText(n);
      assert UsdText(n)[1..][1..] == UsdText(n)[2..];
    }
  }

  lemma MinusRejected(s: string)
    requires '-' in s
    ensures UsdToMicros(s) == Failure(InvalidUsdAmount)
  {
    MinusNotDecimal(s);
  }

  /**
   Reading an accepted amount and printing it gives the one shortest decimal
   string for that number; reading and printing again changes nothing.
   */
  lemma UsdReprint(value: string)
    requires UsdToMicros(value).Success?
    ensures var once := UsdText(MicrosOf(Trim(value)))[1..];
            && UsdToMicros(once) == UsdToMicros(value)
            && MatchesDecimal(Trim(once), 0, PLACES) && UsdText(MicrosOf(Trim(once)))[1..] == once
            && forall s | IsDecimal(s) && Amount(s) == Amount(Trim(value)) ::
                 |once| <= |s| && (|once| == |s| ==> s == once)
  {
    var n := MicrosOf(Trim(value));
    ReprintFixed(n);
    MicrosOfExact(Trim(value));
    forall s | IsDecimal(s) && Amount(s) == Amount(Trim(value))
      ensures |Shortest(n)| <= |s| && (|Shortest(n)| == |s| ==> s == Shortest(n))
    {
      ShortestOf(n, s);
    }
  }

  lemma ReprintFixed(n: nat)
    ensures var once := UsdText(n)[1..];
            && once == Shortest(n) && UsdToMicros(once) == Success(Numeral(n))
            && Trim(once) == once && MatchesDecimal(once, 0, PLACES) && MicrosOf(once) == n
  {
    var once := Shortest(n);
    UsdTextNatural(n);
    assert ("$" + once)[1..] == once;
    ShortestExact(n);
    DecimalTrimmed(once);
  }

  lemma ShortestOf(n: nat, s: string)
    requires IsDecimal(s) && Amount(s) * MICROS as real == n as real
    ensures |Shortest(n)| <= |s| && (|Shortest(n)| == |s| ==> s == Shortest(n))
  {
    ShortestExact(n);
    NormalFormShortest(Shortest(n), s);
  }

  // ------------------------------------------------- the fixed-point printer

  /** On a fixed-point text the regular expression trims the fraction, never the whole part. */
  lemma DropZeroTailTrimsFraction(w: string, f: string)
    requires '.' !in w && AllDigits(f) && f != ""
    ensures DropZeroTail(w + "." + f) == w + Point(StripZeros(f))
  {
    StripThenPad(f);
    var g, m := StripZeros(f), |f| - |StripZeros(f)|;
    DropZeroTailAfter(w, g, m);
    ConcatAssoc(w + ".", g, Zeros(m));
    assert g + Zeros(m) == f;
  }

  lemma DropZeroTailAfter(w: string, g: string, m: nat)
    requires '.' !in w && AllDigits(g) && |g| + m > 0
    requires g == "" || g[|g| - 1] != '0'
    ensures DropZeroTail(w + "." + g + Zeros(m)) == w + Point(g)
  {
    var s := w + "." + g + Zeros(m);
    var j := |w + Point(g)|;
    assert s[..j] == w + Point(g);
    forall k | 0 <= k < j ensures !ZeroTailAt(s, k) {
      NoTailBefore(w, g, m, k);
    }
    TailHere(w, g, m);
  }

  lemma TailHere(w: string, g: string, m: nat)
    requires |g| + m > 0
    ensures var s, j := w + "." + g + Zeros(m), |w + Point(g)|; j == |s| || ZeroTailAt(s, j)
  {
    var s := w + "." + g + Zeros(m);
    if g == "" {
      assert s[|w|] == '.' && s[|w| + 1..] == Zeros(m);
    } else {
      assert s[|w| + 1 + |g|..] == Zeros(m);
    }
  }

  lemma NoTailBefore(w: string, g: string, m: nat, k: nat)
    requires '.' !in w && AllDigits(g) && (g == "" || g[|g| - 1] != '0')
    requires k < |w + Point(g)|
    ensures !ZeroTailAt(w + "." + g + Zeros(m), k)
  {
    var s := w + "." + g + Zeros(m);
    var last := |w| + |g|;
    assert s[last] == if g == "" then '.' else g[|g| - 1];
    assert s[k..][last - k] == s[last];
    if k < |w| {
      assert s[k] == w[k];
    } else if k == |w| {
      assert s[k + 1..][last - k - 1] == s[last];
    } else {
      assert s[k] == g[k - |w| - 1];
    }
  }

  lemma FixedTextTrimmed(negative: bool, m: nat)
    ensures DropZeroTail(FixedText(negative, m)) == (if negative then "-" else "") + Shortest(m)
  {
    ShortestMicros(m);
    var sign := if negative then "-" else "";
    var w, f := Numeral(m / MICROS), PadStart(Numeral(m % MICROS), PLACES);
    DropZeroTailTrimsFraction(sign + w, f);
    ConcatAssoc(sign, w, Point(StripZeros(f)));
  }

  /** An amount in whole micros, to the nearest, halves away from zero. */
  function SignedMicros(x: real): int {
    if x < 0.0 then 0 - NearestMicros(-x) else NearestMicros(x)
  }

  /** Less than half a micro below zero: the sign is kept and the digits are not. */
  predicate NegativeZero(x: real) {
    -0.0000005 < x < 0.0
  }

  /**
   The payout printer shows every amount canonically to the nearest micro, negative
   ones included, except that amounts it rounds up to zero keep their minus sign.
   */
  lemma PayoutTextIff(x: real)
    ensures Shows(DropZeroTail(ToFixed6(x)), SignedMicros(x)) <==> !NegativeZero(x)
    ensures DropZeroTail(ToFixed6(x)) == if NegativeZero(x) then "-0" else Canonical6(SignedMicros(x))
    ensures -0.0000005 <= SignedMicros(x) as real / 1000000.0 - x <= 0.0000005
  {
    RoundsWithin(x);
    ToFixed6Parts(x);
    FixedTextTrimmed(x < 0.0, Magnitude(SignedMicros(x)));
    PayoutSign(x < 0.0, SignedMicros(x), DropZeroTail(ToFixed6(x)));
  }

  lemma RoundsWithin(x: real)
    ensures NegativeZero(x) <==> x < 0.0 && SignedMicros(x) == 0
    ensures (SignedMicros(x) < 0 ==> x < 0.0) && (SignedMicros(x) > 0 ==> x >= 0.0)
    ensures -0.0000005 <= SignedMicros(x) as real / 1000000.0 - x <= 0.0000005
  {
  }

  lemma ToFixed6Parts(x: real)
    ensures ToFixed6(x) == FixedText(x < 0.0, Magnitude(SignedMicros(x)))
  {
  }

  /** A fifth of a micro below zero. */
  lemma NegativeZeroExample()
    ensures DropZeroTail(ToFixed6(-0.0000002)) == "-0" && !Shows("-0", SignedMicros(-0.0000002))
  {
    PayoutTextIff(-0.0000002);
  }

  lemma PayoutSign(negative: bool, n: int, text: string)
    requires (n < 0 ==> negative) && (n > 0 ==> !negative)
    requires text == (if negative then "-" else "") + Shortest(Magnitude(n))
    ensures text == if negative && n == 0 then "-0" else Canonical6(n)
    ensures Shows(text, n) <==> !(negative && n == 0)
  {
    Canonical6Shows(n);
    if negative && n == 0 {
      ShortestZero();
      NegativeZeroText();
    }
  }

  lemma ShortestZero()
    ensures Shortest(0) == "0"
  {
    ZeroFraction();
    ShortestMicros(0);
    assert Numeral(0) == "0";
  }

  lemma NegativeZeroText()
    ensures "-" + "0" == "-0" && !IsDecimal("-0")
  {
    assert "-0"[0] == '-';
    assert '-' in "-0";
    if IsDecimal("-0") {
      DecimalChars("-0");
      assert false;
    }
  }

  /** Micros as an amount. */
  function Dollars(n: int): real {
    n as real / 1000000.0
  }

  lemma DollarsExact(n: int)
    ensures SignedMicros(Dollars(n)) == n && !NegativeZero(Dollars(n))
  {
    assert n < 0 ==> n <= -1;
  }

  lemma TwiceMinusTwice(a: real, b: real)
    ensures Twice(Num(a)).Minus(Twice(Num(b))) == Num(2.0 * (a - b))
  {
  }

  lemma WinnerPayoutIs(stake: string, fee: string, number: Reader, x: real)
    requires Twice(number(stake)).Minus(Twice(number(fee))) == Num(x)
    ensures WinnerPayout(None, stake, fee, number) == DropZeroTail(ToFixed6(x))
  {
  }

  /** A tier without a stored payout shows twice the stake less twice the fee, to the nearest micro. */
  lemma WinnerPayoutShows(stake: string, fee: string, number: Reader, a: real, b: real)
    requires number(stake) == Num(a) && number(fee) == Num(b)
    ensures Shows(WinnerPayout(None, stake, fee, number), SignedMicros(2.0 * (a - b))) <==> !NegativeZero(2.0 * (a - b))
  {
    TwiceMinusTwice(a, b);
    WinnerPayoutIs(stake, fee, number, 2.0 * (a - b));
    PayoutTextIff(2.0 * (a - b));
  }

  /** The reader takes a decimal text for the number it denotes. */
  ghost predicate ReadsDecimals(number: Reader) {
    forall s: string | IsDecimal(s) :: number(s) == Num(Amount(s))
  }

  /** For a stake and a fee typed with at most six decimals the payout is exact. */
  lemma WinnerPayoutExact(stake: string, fee: string, number: Reader)
    requires ReadsDecimals(number) && MatchesDecimal(stake, 0, PLACES) && MatchesDecimal(fee, 0, PLACES)
    ensures Shows(WinnerPayout(None, stake, fee, number), 2 * (MicrosOf(stake) - MicrosOf(fee)))
  {
    MicrosOfExact(stake);
    MicrosOfExact(fee);
    PayoutOfMicros(stake, fee, number, Amount(stake), Amount(fee), MicrosOf(stake), MicrosOf(fee));
  }

  lemma PayoutOfMicros(stake: string, fee: string, number: Reader, x: real, y: real, m: int, n: int)
    requires number(stake) == Num(x) && number(fee) == Num(y)
    requires m as real == x * MICROS as real && n as real == y * MICROS as real
    ensures Shows(WinnerPayout(None, stake, fee, number), 2 * (m - n))
  {
    WholeMicrosPayout(x, y, m, n);
    WinnerPayoutShows(stake, fee, number, x, y);
  }

  /** A stored payout is shown as it is. */
  lemma StoredPayoutShown(payout: string, stake: string, fee: string, number: Reader)
    ensures WinnerPayout(Some(payout), stake, fee, number) == payout
  {
  }

  /** A payout that is no finite number is shown by name. */
  lemma PayoutByName(stake: string, fee: string, number: Reader, payout: Number)
    requires payout == Twice(number(stake)).Minus(Twice(number(fee))) && !payout.Num?
    ensures WinnerPayout(None, stake, fee, number)
         == if payout.NaN? then "NaN" else if payout.PosInf? then "Infinity" else "-Infinity"
  {
    var name := FixedNumber(payout);
    NamesKept(payout, name);
    assert WinnerPayout(None, stake, fee, number) == DropZeroTail(name);
  }

  lemma NamesKept(n: Number, name: string)
    requires !n.Num? && name == FixedNumber(n)
    ensures DropZeroTail(name) == name
    ensures name == if n.NaN? then "NaN" else if n.PosInf? then "Infinity" else "-Infinity"
  {
    assert name[|name| - 1] == 'N' || name[|name| - 1] == 'y';
    NoZeroTail(name);
  }

  lemma NoZeroTail(s: string)
    requires s != "" && s[|s| - 1] != '0' && s[|s| - 1] != '.'
    ensures DropZeroTail(s) == s
  {
    forall k | 0 <= k < |s| ensures !ZeroTailAt(s, k) {
      assert s[k..][|s| - 1 - k] == s[|s| - 1];
      assert k < |s| - 1 ==> s[k + 1..][|s| - 2 - k] == s[|s| - 1];
    }
  }

  lemma WholeMicrosPayout(x: real, y: real, m: int, n: int)
    requires m as real == x * MICROS as real && n as real == y * MICROS as real
    ensures SignedMicros(2.0 * (x - y)) == 2 * (m - n) && !NegativeZero(2.0 * (x - y))
  {
    DoubleDifference(x, y, m, n);
    DollarsExact(2 * (m - n));
  }

  lemma DoubleDifference(x: real, y: real, m: int, n: int)
    requires m as real == x * MICROS as real && n as real == y * MICROS as real
    ensures 2.0 * (x - y) == Dollars(2 * (m - n))
  {
  }

  /** The two trimming printers agree exactly on the printable amounts. */
  lemma PrintersAgreeIff(n: int)
    ensures UsdText(n) == "$" + DropZeroTail(ToFixed6(Dollars(n))) <==> Printable(n)
  {
    DollarsExact(n);
    PayoutTextIff(Dollars(n));
    UsdTextRightIff(n);
  }

  // ------------------------------------------------- the grouping printer

  /** The text without its group separators. */
  function Ungroup(s: string): string {
    if s == "" then ""
    else if s[0] == ',' then Ungroup(s[1..])
    else [s[0]] + Ungroup(s[1..])
  }

  lemma {:induction false} UngroupConcat(a: string, b: string)
    ensures Ungroup(a + b) == Ungroup(a) + Ungroup(b)
  {
    if a == "" {
      assert a + b == b;
    } else {
      assert (a + b)[1..] == a[1..] + b;
      UngroupConcat(a[1..], b);
    }
  }

  lemma {:induction false} UngroupPlain(s: string)
    requires ',' !in s
    ensures Ungroup(s) == s
  {
    if s != "" {
      UngroupPlain(s[1..]);
      assert s == [s[0]] + s[1..];
    }
  }

  lemma {:induction false} UngroupGroup3(s: string)
    requires ',' !in s
    ensures Ungroup(Group3(s)) == s
  {
    if |s| <= 3 {
      UngroupPlain(s);
    } else {
      var n := |s| - 3;
      UngroupGroup3(s[..n]);
      UngroupJoined(Group3(s[..n]), s[n..]);
      assert s == s[..n] + s[n..];
    }
  }

  lemma UngroupJoined(front: string, last: string)
    requires ',' !in last
    ensures Ungroup(front + "," + last) == Ungroup(front) + last
  {
    UngroupPlain(last);
    UngroupConcat(front, "," + last);
    assert ("," + last)[1..] == last;
    ConcatAssoc(front, ",", last);
  }

  /** Separators stand at every fourth place from the right and nowhere else, never first. */
  lemma {:induction false} Group3Separators(s: string)
    requires AllDigits(s) && s != ""
    ensures var g := Group3(s);
            && g != "" && g[0] != ','
            && forall i | 0 <= i < |g| :: g[i] == ',' <==> (|g| - i) % 4 == 0
  {
    if |s| > 3 {
      Group3Separators(s[..|s| - 3]);
      SeparatorsExtend(Group3(s[..|s| - 3]), s[|s| - 3..]);
    }
  }

  lemma SeparatorsExtend(front: string, last: string)
    requires AllDigits(last) && |last| == 3
    requires forall i | 0 <= i < |front| :: front[i] == ',' <==> (|front| - i) % 4 == 0
    ensures var g := front + "," + last;
            forall i | 0 <= i < |g| :: g[i] == ',' <==> (|g| - i) % 4 == 0
  {
    var g := front + "," + last;
    forall i | 0 <= i < |g| ensures g[i] == ',' <==> (|g| - i) % 4 == 0 {
      if i < |front| {
        assert |g| - i == (|front| - i) + 4;
      } else if i > |front| {
        assert IsDigit(g[i]);
      }
    }
  }

  /** The grouped printer's text, separators removed. */
  function UsdValuePlain(n: int): string {
    Ungroup(UsdValue(Some(IntText(n)))[1..])
  }

  lemma UsdValuePlainIs(n: int)
    ensures UsdValuePlain(n) == IntText(TruncDiv(n)) + "." + TenDigits(TruncMod(n))
  {
    var r := TruncMod(n);
    BigIntReadsText(n);
    PadKeepsComma(IntText(r));
    UngroupLocale(TruncDiv(n));
    UngroupAssembled(LocaleText(TruncDiv(n)), TenDigits(r));
  }

  lemma UngroupAssembled(w: string, f: string)
    requires ',' !in f
    ensures Ungroup(("$" + w + "." + f)[1..]) == Ungroup(w) + "." + f
  {
    assert ("$" + w + "." + f)[1..] == w + ("." + f);
    UngroupConcat(w, "." + f);
    UngroupPlain("." + f);
    ConcatAssoc(Ungroup(w), ".", f);
  }

  lemma PadKeepsComma(t: string)
    requires ',' !in t
    ensures ',' !in PadEnd(PadStart(t, PLACES), 10)
  {
  }

  lemma UngroupLocale(q: int)
    ensures Ungroup(LocaleText(q)) == IntText(q)
  {
    var d := Numeral(Magnitude(q));
    UngroupGroup3(d);
    if q < 0 {
      UngroupConcat("-", Group3(d));
      UngroupPlain("-");
    }
  }

  /**
   The grouping printer is right exactly on the printable amounts, where it shows
   ten fraction digits; elsewhere the remainder's sign breaks the fraction.
   */
  lemma UsdValueRightIff(n: int)
    ensures Shows(UsdValuePlain(n), n) <==> Printable(n)
    ensures Printable(n) ==> |Frac(UsdValuePlain(n))| == 10
  {
    UsdValuePlainIs(n);
    if Printable(n) {
      UsdValueOnPrintable(n);
    } else {
      MinusInFraction(n);
      assert '-' in TenDigits(TruncMod(n));
      var w := IntText(TruncDiv(n));
      MinusAfterPoint(w, TenDigits(TruncMod(n)));
      SecondMinusBreaks(UsdValuePlain(n), n);
    }
  }

  /**
   After its sign the text holds digits, with a comma at every fourth place before
   the point and nowhere else, and not first; past the point there is none.
   */
  ghost predicate Grouped(s: string, sign: string, point: nat) {
    && |sign| < point < |s| && s[..|sign|] == sign && s[|sign|] != ',' && s[point] == '.'
    && (forall i | |sign| <= i < point ::
          (s[i] == ',' <==> (point - i) % 4 == 0) && (s[i] != ',' ==> IsDigit(s[i])))
    && ',' !in s[point + 1..]
  }

  lemma {:induction false} Group3Chars(s: string)
    requires AllDigits(s) && s != ""
    ensures forall i | 0 <= i < |Group3(s)| :: Group3(s)[i] == ',' || IsDigit(Group3(s)[i])
  {
    if |s| > 3 {
      Group3Chars(s[..|s| - 3]);
    }
  }

  /** Digits, with a comma at every fourth place from the right and nowhere else, and not first. */
  ghost predicate CommasPlaced(g: string) {
    && g != "" && g[0] != ','
    && forall i | 0 <= i < |g| :: (g[i] == ',' <==> (|g| - i) % 4 == 0) && (g[i] != ',' ==> IsDigit(g[i]))
  }

  lemma GroupPlaced(d: string)
    requires AllDigits(d) && d != ""
    ensures CommasPlaced(Group3(d))
  {
    Group3Separators(d);
    Group3Chars(d);
  }

  lemma GroupedText(s: string, sign: string, g: string, f: string)
    requires CommasPlaced(g) && ',' !in f && s == sign + g + "." + f
    ensures Grouped(s, sign, |sign| + |g|)
  {
    var point := |sign| + |g|;
    forall i | |sign| <= i < point ensures s[i] == g[i - |sign|] && point - i == |g| - (i - |sign|) {
    }
    assert s[point + 1..] == f;
  }

  lemma UsdValueIs(n: int)
    ensures UsdValue(Some(IntText(n))) == "$" + LocaleText(TruncDiv(n)) + "." + TenDigits(TruncMod(n))
  {
    BigIntReadsText(n);
  }

  lemma SignedLocale(q: int)
    ensures LocaleText(q) == (if q < 0 then "-" else "") + Group3(Numeral(Magnitude(q)))
  {
    assert q >= 0 ==> "" + Group3(Numeral(q)) == Group3(Numeral(q));
  }

  lemma SignFirst(sign: string, g: string, f: string)
    ensures "$" + (sign + g) + "." + f == ("$" + sign) + g + "." + f
  {
  }

  /**
   For every amount the grouping printer writes a dollar sign, the sign of the whole
   dollars, their digits in groups of three, the point, and a fraction without commas.
   */
  lemma UsdValueGrouped(n: int) returns (point: nat)
    ensures Grouped(UsdValue(Some(IntText(n))), "$" + (if TruncDiv(n) < 0 then "-" else ""), point)
  {
    var sign, d := if TruncDiv(n) < 0 then "-" else "", Numeral(Magnitude(TruncDiv(n)));
    var f := TenDigits(TruncMod(n));
    PadKeepsComma(IntText(TruncMod(n)));
    UsdValueIs(n);
    SignedLocale(TruncDiv(n));
    GroupPlaced(d);
    SignFirst(sign, Group3(d), f);
    GroupedText(UsdValue(Some(IntText(n))), "$" + sign, Group3(d), f);
    point := |"$" + sign| + |Group3(d)|;
  }

  lemma ZeroText()
    ensures BigIntOf("0") == Some(0)
  {
    assert Numeral(0) == "0" && IntText(0) == "0";
    BigIntReadsText(0);
  }

  /** What is missing or unreadable shows as nothing owed. */
  lemma UsdValueUnreadable(value: Option<string>)
    requires value.Some? ==> BigIntOf(value.value).None?
    ensures UsdValue(value) == UsdValue(Some("0"))
  {
    ZeroText();
    SameMicrosSameText(value, Some("0"));
  }

  lemma SameMicrosSameText(v: Option<string>, w: Option<string>)
    requires BigintValue(v) == BigintValue(w)
    ensures UsdValue(v) == UsdValue(w)
  {
  }

  lemma MinusAfterPoint(w: string, f: string)
    requires w != "" && '-' in f
    ensures '-' in (w + "." + f)[1..]
  {
    var i :| 0 <= i < |f| && f[i] == '-';
    assert (w + "." + f)[1..][|w| + i] == '-';
  }

  lemma UsdValueOnPrintable(n: int)
    requires Printable(n)
    ensures var s := IntText(TruncDiv(n)) + "." + TenDigits(TruncMod(n)); Shows(s, n) && |Frac(s)| == 10
  {
    var m := Magnitude(n);
    TenPlaces(m / MICROS, m % MICROS);
    SignedParts(n);
    SignedTenPlaces(Numeral(m / MICROS), TenDigits(m % MICROS), n);
  }

  lemma SignedParts(n: int)
    requires Printable(n)
    ensures var w := Numeral(Magnitude(n) / MICROS); IntText(TruncDiv(n)) == if n < 0 then "-" + w else w
    ensures TruncMod(n) == Magnitude(n) % MICROS
  {
  }

  lemma SignedTenPlaces(w: string, f: string, n: int)
    requires AllDigits(w) && w != "" && |f| == 10
    requires IsDecimal(w + "." + f) && Frac(w + "." + f) == f
    requires Amount(w + "." + f) * MICROS as real == Magnitude(n) as real
    ensures var s := (if n < 0 then "-" + w else w) + "." + f; Shows(s, n) && |Frac(s)| == 10
  {
    SignedShows(w + "." + f, n);
    SplitSigned(w, f);
    assert "" + (w + "." + f) == w + "." + f;
  }

  lemma SplitSigned(w: string, f: string)
    requires w != "" && AllDigits(w)
    ensures "-" + w + "." + f == "-" + (w + "." + f)
    ensures Frac("-" + (w + "." + f)) == f
  {
    PointAfterDigits(w, f);
    var s := "-" + (w + "." + f);
    assert s[1..] == w + "." + f;
    assert s[|w| + 2..] == f;
  }

  lemma TenPlaces(q: nat, r: nat)
    requires r < MICROS
    ensures var f, s := TenDigits(r), Numeral(q) + "." + TenDigits(r);
            && |f| == 10 && IsDecimal(s) && Frac(s) == f
            && Amount(s) * MICROS as real == (q * MICROS + r) as real
  {
    var w, f := Numeral(q), TenDigits(r);
    TenDigitsValue(r);
    SplitAtPoint(w, f);
    ValueConcat(w, f);
    Pow10Ten();
    TenPlacesAmount(w + "." + f, q * 10_000_000_000 + r * 10_000);
  }

  lemma TenDigitsValue(r: nat)
    requires r < MICROS
    ensures var f := TenDigits(r); AllDigits(f) && |f| == 10 && Value(f) == r * 10_000
  {
    MicrosScale();
    PadExact(r, PLACES);
    var f6 := PadStart(Numeral(r), PLACES);
    ZerosValue(4);
    ValueConcat(f6, Zeros(4));
    assert Pow10(4) == 10_000;
  }

  lemma Pow10Ten()
    ensures Pow10(10) == 10_000_000_000
  {
    assert Pow10(2) == 100;
    assert Pow10(4) == 10_000;
    assert Pow10(6) == 1_000_000;
    assert Pow10(8) == 100_000_000;
  }

  lemma TenPlacesAmount(s: string, n: nat)
    requires IsDecimal(s) && |Frac(s)| == 10 && Value(Whole(s) + Frac(s)) == n
    ensures Amount(s) * 10_000_000_000.0 == n as real
  {
    ScaledExact(s, 10);
    var a := Amount(s);
    assert Shift(a, 10) == Shift(100000.0 * a, 5) by {
      assert Shift(a, 10) == Shift(100.0 * a, 8);
    }
    assert Shift(100000.0 * a, 5) == 10000000000.0 * a;
  }
}
