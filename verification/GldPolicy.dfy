/**
 The GLD policy form: loading stored controls into text fields, and the gate that
 turns the fields back into the controls that are sent. Percents are shown with up
 to two decimals and stored as basis points; arithmetic on them is exact here.
 */
module GldPolicy {
  import opened Wrappers
  import opened Digits
  import opened FixedPoint
  import opened Money
  import opened Text

  /** The stored and sent settings. */
  datatype Controls = Controls(
    adDailyGldCap: string,
    adMaxValidatedAds: int,
    adMaxRewardPerClaim: string,
    giftBurnBps: int,
    paidRewardSafetyMarginBps: int,
    paidRewardDailyRequestLimit: int,
    playerBps: int,
    reserveBps: int,
    companyBps: int,
    guestBps: int)

  /** The form's text fields. */
  datatype PolicyForm = PolicyForm(
    adDailyGldCap: string,
    adMaxValidatedAds: string,
    adMaxRewardPerClaim: string,
    giftBurnBps: string,
    paidRewardSafetyMarginBps: string,
    paidRewardDailyRequestLimit: string,
    playerPercent: string,
    reservePercent: string,
    companyPercent: string,
    guestPercent: string)

  /** Settings the server may leave out. */
  datatype Stored = Stored(
    adDailyGldCap: Option<string>,
    adMaxValidatedAds: Option<int>,
    adMaxRewardPerClaim: Option<string>,
    giftBurnBps: Option<int>,
    paidRewardSafetyMarginBps: Option<int>,
    paidRewardDailyRequestLimit: Option<int>,
    playerBps: Option<int>,
    reserveBps: Option<int>,
    companyBps: Option<int>,
    guestBps: Option<int>)

  datatype PolicyError = NotNumbers | OutOfLimits | NotHundredPercent

  // ----------------------------------------------------------------------- loading

  /** `a ?? b ?? c`. */
  function Coalesce<T>(a: Option<T>, b: Option<T>, c: T): T {
    a.GetOr(b.GetOr(c))
  }

  /** The controls, else the configuration, else the defaults; the guest multiplier has no configuration. */
  function Effective(controls: Stored, config: Stored): Controls {
    Controls(
      Coalesce(controls.adDailyGldCap, config.adDailyGldCap, "25"),
      Coalesce(controls.adMaxValidatedAds, config.adMaxValidatedAds, 20),
      Coalesce(controls.adMaxRewardPerClaim, config.adMaxRewardPerClaim, "10"),
      Coalesce(controls.giftBurnBps, config.giftBurnBps, 10000),
      Coalesce(controls.paidRewardSafetyMarginBps, config.paidRewardSafetyMarginBps, 12000),
      Coalesce(controls.paidRewardDailyRequestLimit, config.paidRewardDailyRequestLimit, 3),
      Coalesce(controls.playerBps, config.playerBps, 3333),
      Coalesce(controls.reserveBps, config.reserveBps, 3333),
      Coalesce(controls.companyBps, config.companyBps, 3334),
      controls.guestBps.GetOr(2500))
  }

  /** Controls come first, then the configuration, then the default. */
  ghost predicate Chosen<T>(value: T, control: Option<T>, config: Option<T>, default: T) {
    && (control.Some? ==> value == control.value)
    && (control.None? && config.Some? ==> value == config.value)
    && (control.None? && config.None? ==> value == default)
  }

  /** Every setting is taken from its own fields in that order; the guest multiplier has no configuration. */
  lemma EffectiveChosen(controls: Stored, config: Stored)
    ensures var c := Effective(controls, config);
            && Chosen(c.adDailyGldCap, controls.adDailyGldCap, config.adDailyGldCap, "25")
            && Chosen(c.adMaxValidatedAds, controls.adMaxValidatedAds, config.adMaxValidatedAds, 20)
            && Chosen(c.adMaxRewardPerClaim, controls.adMaxRewardPerClaim, config.adMaxRewardPerClaim, "10")
            && Chosen(c.giftBurnBps, controls.giftBurnBps, config.giftBurnBps, 10000)
            && Chosen(c.paidRewardSafetyMarginBps,
                      controls.paidRewardSafetyMarginBps, config.paidRewardSafetyMarginBps, 12000)
            && Chosen(c.paidRewardDailyRequestLimit,
                      controls.paidRewardDailyRequestLimit, config.paidRewardDailyRequestLimit, 3)
            && Chosen(c.playerBps, controls.playerBps, config.playerBps, 3333)
            && Chosen(c.reserveBps, controls.reserveBps, config.reserveBps, 3333)
            && Chosen(c.companyBps, controls.companyBps, config.companyBps, 3334)
            && Chosen(c.guestBps, controls.guestBps, None, 2500)
  {
  }

  /** `(bps / 100).toString()`: the shortest decimal numeral, signed when negative. */
  function PercentText(bps: int): string {
    if bps < 0 then "-" + HundredthsText(-bps) else HundredthsText(bps)
  }

  function HundredthsText(n: nat): string {
    Printed(n / 100, n % 100, 2)
  }

  function FormOf(c: Controls): PolicyForm {
    PolicyForm(
      c.adDailyGldCap,
      IntText(c.adMaxValidatedAds),
      c.adMaxRewardPerClaim,
      IntText(c.giftBurnBps),
      IntText(c.paidRewardSafetyMarginBps),
      IntText(c.paidRewardDailyRequestLimit),
      PercentText(c.playerBps),
      PercentText(c.reserveBps),
      PercentText(c.companyBps),
      PercentText(c.guestBps))
  }

  // ------------------------------------------------------------------------ saving

  /** `/^\d+$/` on the trimmed text. */
  predicate IsWhole(s: string) {
    Trim(s) != "" && AllDigits(Trim(s))
  }

  /** `/^\d+(?:\.\d{1,2})?$/` on the trimmed text. */
  predicate Percent(s: string) {
    MatchesDecimal(Trim(s), 1, 2)
  }

  /** `Number` on a whole number's text. */
  function WholeValue(s: string): nat
    requires IsWhole(s)
  {
    Value(Trim(s))
  }

  /** `Number` on a percent's text. */
  function PercentValue(s: string): real
    requires Percent(s)
  {
    Amount(Trim(s))
  }

  /** `Math.round(percent * 100)`. */
  function Bps(percent: real): int {
    (percent * 100.0 + 0.5).Floor
  }

  predicate WholeFields(f: PolicyForm) {
    && IsWhole(f.adDailyGldCap) && IsWhole(f.adMaxRewardPerClaim) && IsWhole(f.adMaxValidatedAds)
    && IsWhole(f.giftBurnBps) && IsWhole(f.paidRewardSafetyMarginBps) && IsWhole(f.paidRewardDailyRequestLimit)
  }

  predicate PercentFields(f: PolicyForm) {
    && Percent(f.playerPercent) && Percent(f.reservePercent)
    && Percent(f.companyPercent) && Percent(f.guestPercent)
  }

  predicate WellFormed(f: PolicyForm) {
    WholeFields(f) && PercentFields(f)
  }

  /** The values read off a well-formed form: whole numbers, and percents as numbers. */
  datatype Readings = Readings(
    adDailyGldCap: string,
    adMaxRewardPerClaim: string,
    ads: int,
    burn: int,
    margin: int,
    requests: int,
    player: real,
    reserve: real,
    company: real,
    guest: real)

  function Read(f: PolicyForm): Readings
    requires WellFormed(f)
  {
    Readings(
      Trim(f.adDailyGldCap),
      Trim(f.adMaxRewardPerClaim),
      WholeValue(f.adMaxValidatedAds),
      WholeValue(f.giftBurnBps),
      WholeValue(f.paidRewardSafetyMarginBps),
      WholeValue(f.paidRewardDailyRequestLimit),
      PercentValue(f.playerPercent),
      PercentValue(f.reservePercent),
      PercentValue(f.companyPercent),
      PercentValue(f.guestPercent))
  }

  predicate NotAPercent(x: real) {
    x < 0.0 || x > 100.0
  }

  /** The limit checks. */
  predicate LimitsBroken(n: Readings) {
    || n.ads < 1 || n.ads > 1000
    || n.burn > 10000
    || n.margin < 10001 || n.margin > 100000
    || n.requests < 1 || n.requests > 1000
    || NotAPercent(n.player) || NotAPercent(n.reserve) || NotAPercent(n.company) || NotAPercent(n.guest)
  }

  function ControlsOf(n: Readings): Controls {
    Controls(
      n.adDailyGldCap, n.ads, n.adMaxRewardPerClaim, n.burn, n.margin, n.requests,
      Bps(n.player), Bps(n.reserve), Bps(n.company), Bps(n.guest))
  }

  /** The checks on the values, in order. */
  function Gate(n: Readings): Result<Controls, PolicyError> {
    if LimitsBroken(n) then Failure(OutOfLimits)
    else if Bps(n.player) + Bps(n.reserve) + Bps(n.company) != 10_000 then Failure(NotHundredPercent)
    else Success(ControlsOf(n))
  }

  /** `savePolicy` up to its request. */
  function Submitted(f: PolicyForm): Result<Controls, PolicyError> {
    if !WellFormed(f) then Failure(NotNumbers) else Gate(Read(f))
  }

  class GldPolicyPanel {
    var policy: PolicyForm
    var error: Option<PolicyError>
    var policySaving: bool

    constructor ()
      ensures policy == PolicyForm("25", "20", "10", "10000", "12000", "3", "33.33", "33.33", "33.34", "25")
      ensures error == None && !policySaving
    {
      policy := PolicyForm("25", "20", "10", "10000", "12000", "3", "33.33", "33.33", "33.34", "25");
      error, policySaving := None, false;
    }

    /** `load` received the economy; saving what it shows would send those settings exactly when they are valid. */
    method Load(controls: Stored, config: Stored)
      modifies this`policy, this`error
      ensures policy == FormOf(Effective(controls, config)) && error == None
      ensures Submitted(policy) == Success(Effective(controls, config)) <==> ValidControls(Effective(controls, config))
    {
      error := None;
      policy := FormOf(Effective(controls, config));
      LoadSaveIff(Effective(controls, config));
    }

    /** `savePolicy`: what is sent, or the error that is shown instead. */
    method SavePolicy() returns (answer: Result<Controls, PolicyError>)
      modifies this`error, this`policySaving
      ensures Outcome(policy, answer)
      ensures error == if answer.Success? then old(error) else Some(answer.error)
      ensures policySaving == (answer.Success? || old(policySaving))
    {
      answer := CheckForm(policy);
      Show(answer);
    }

    /** The error is shown, or the request begins. */
    method Show(answer: Result<Controls, PolicyError>)
      modifies this`error, this`policySaving
      ensures error == if answer.Success? then old(error) else Some(answer.error)
      ensures policySaving == (answer.Success? || old(policySaving))
    {
      match answer {
        case Failure(e) => error := Some(e);
        case Success(_) => policySaving := true;
      }
    }
  }

  // ------------------------------------------------------------ percents are exact

  /** A percent's digits as an integer number of hundredths. */
  function Hundredths(s: string): nat
    requires Percent(s)
  {
    Scaled(Trim(s), 2)
  }

  /** Past the white space around it, a percent is digits, alone or with a point and one or two more. */
  lemma PercentIff(s: string)
    ensures Percent(s) <==> Splits(Trim(s), 1, 2)
  {
    MatchesDecimalIffSplits(Trim(s), 1, 2);
  }

  /** An accepted percent is a whole number of hundredths. */
  lemma PercentIsHundredths(s: string)
    requires Percent(s)
    ensures PercentValue(s) * 100.0 == Hundredths(s) as real
  {
    ScaledExact(Trim(s), 2);
    ShiftTwo(PercentValue(s));
  }

  lemma ShiftTwo(x: real)
    ensures Shift(x, 2) == 100.0 * x
  {
    assert Shift(x, 2) == Shift(10.0 * x, 1);
  }

  /** The four percents are these numbers of hundredths. */
  ghost predicate Shares(n: Readings, p: int, r: int, c: int, g: int) {
    && n.player * 100.0 == p as real && n.reserve * 100.0 == r as real
    && n.company * 100.0 == c as real && n.guest * 100.0 == g as real
  }

  /** The limits on whole numbers alone. */
  predicate WholeLimits(ads: int, burn: int, margin: int, requests: int) {
    1 <= ads <= 1000 && burn <= 10000 && 10001 <= margin <= 100000 && 1 <= requests <= 1000
  }

  /**
   On whole hundredths the gate never rounds: it opens exactly when the limits hold,
   no share is negative or over 100.00, and the three shares make exactly 100.00.
   */
  lemma GateExact(n: Readings, p: int, r: int, c: int, g: int)
    requires Shares(n, p, r, c, g)
    ensures Gate(n).Success? <==>
            && WholeLimits(n.ads, n.burn, n.margin, n.requests)
            && 0 <= p && 0 <= r && 0 <= c && p + r + c == 10000 && 0 <= g <= 10000
    ensures Gate(n).Success? ==>
      Gate(n).value == Controls(n.adDailyGldCap, n.ads, n.adMaxRewardPerClaim, n.burn, n.margin, n.requests, p, r, c, g)
  {
    BpsOfHundredths(n.player, p);
    BpsOfHundredths(n.reserve, r);
    BpsOfHundredths(n.company, c);
    BpsOfHundredths(n.guest, g);
  }

  lemma BpsOfHundredths(x: real, k: int)
    requires x * 100.0 == k as real
    ensures Bps(x) == k
    ensures NotAPercent(x) <==> k < 0 || k > 10000
  {
  }

  lemma ReadShares(f: PolicyForm)
    requires WellFormed(f)
    ensures Shares(Read(f), Hundredths(f.playerPercent), Hundredths(f.reservePercent),
                   Hundredths(f.companyPercent), Hundredths(f.guestPercent))
  {
    PercentIsHundredths(f.playerPercent);
    PercentIsHundredths(f.reservePercent);
    PercentIsHundredths(f.companyPercent);
    PercentIsHundredths(f.guestPercent);
  }

  /** The form is accepted exactly when it is well formed, within limits, and its three percents make exactly 100.00. */
  lemma SubmittedIff(f: PolicyForm)
    ensures Submitted(f).Success? <==>
            && WellFormed(f)
            && WholeLimits(Read(f).ads, Read(f).burn, Read(f).margin, Read(f).requests)
            && Hundredths(f.guestPercent) <= 10000
            && Hundredths(f.playerPercent) + Hundredths(f.reservePercent) + Hundredths(f.companyPercent) == 10000
  {
    if WellFormed(f) {
      ReadShares(f);
      GateExact(Read(f), Hundredths(f.playerPercent), Hundredths(f.reservePercent),
                Hundredths(f.companyPercent), Hundredths(f.guestPercent));
    }
  }

  /**
   The outcome for readings whose percents are these whole hundredths, told without
   rounding: the first rule that fails names the error, and what is sent are the
   trimmed caps, the whole numbers, and the hundredths as basis points.
   */
  ghost predicate ValuesOutcome(n: Readings, p: int, r: int, c: int, g: int, out: Result<Controls, PolicyError>) {
    if !WholeLimits(n.ads, n.burn, n.margin, n.requests) || p > 10000 || r > 10000 || c > 10000 || g > 10000 then
      out == Failure(OutOfLimits)
    else if p + r + c != 10000 then
      out == Failure(NotHundredPercent)
    else
      out == Success(Controls(n.adDailyGldCap, n.ads, n.adMaxRewardPerClaim, n.burn, n.margin, n.requests, p, r, c, g))
  }

  /** The outcome for a form, told from its text. */
  ghost predicate Outcome(f: PolicyForm, out: Result<Controls, PolicyError>) {
    if !WellFormed(f) then out == Failure(NotNumbers)
    else ValuesOutcome(Read(f), Hundredths(f.playerPercent), Hundredths(f.reservePercent),
                       Hundredths(f.companyPercent), Hundredths(f.guestPercent), out)
  }

  /** The early returns of `savePolicy`. */
  method CheckForm(f: PolicyForm) returns (out: Result<Controls, PolicyError>)
    ensures Outcome(f, out)
  {
    if !WellFormed(f) {
      return Failure(NotNumbers);
    }
    ReadShares(f);
    out := CheckValues(Read(f), Hundredths(f.playerPercent), Hundredths(f.reservePercent),
                       Hundredths(f.companyPercent), Hundredths(f.guestPercent));
  }

  /** The checks on the values, in order. */
  method CheckValues(n: Readings, ghost p: nat, ghost r: nat, ghost c: nat, ghost g: nat)
    returns (out: Result<Controls, PolicyError>)
    requires Shares(n, p, r, c, g)
    ensures ValuesOutcome(n, p, r, c, g, out)
  {
    BpsOfHundredths(n.player, p);
    BpsOfHundredths(n.reserve, r);
    BpsOfHundredths(n.company, c);
    BpsOfHundredths(n.guest, g);
    if LimitsBroken(n) {
      return Failure(OutOfLimits);
    }
    var player, reserve, company := Bps(n.player), Bps(n.reserve), Bps(n.company);
    if player + reserve + company != 10_000 {
      return Failure(NotHundredPercent);
    }
    return Success(Controls(
      n.adDailyGldCap, n.ads, n.adMaxRewardPerClaim, n.burn, n.margin, n.requests,
      player, reserve, company, Bps(n.guest)));
  }

  lemma GateOutcome(n: Readings, p: nat, r: nat, c: nat, g: nat)
    requires Shares(n, p, r, c, g)
    ensures ValuesOutcome(n, p, r, c, g, Gate(n))
  {
    BpsOfHundredths(n.player, p);
    BpsOfHundredths(n.reserve, r);
    BpsOfHundredths(n.company, c);
    BpsOfHundredths(n.guest, g);
  }

  /** `Submitted` has that outcome, and nothing else does. */
  lemma SubmittedOutcome(f: PolicyForm, out: Result<Controls, PolicyError>)
    ensures Outcome(f, out) <==> out == Submitted(f)
  {
    if WellFormed(f) {
      ReadShares(f);
      SubmittedGate(f);
      GateOutcome(Read(f), Hundredths(f.playerPercent), Hundredths(f.reservePercent),
                  Hundredths(f.companyPercent), Hundredths(f.guestPercent));
      OutcomeUnique(Read(f), Hundredths(f.playerPercent), Hundredths(f.reservePercent),
                    Hundredths(f.companyPercent), Hundredths(f.guestPercent), Gate(Read(f)), out);
    }
  }

  lemma OutcomeUnique(n: Readings, p: int, r: int, c: int, g: int,
                      a: Result<Controls, PolicyError>, b: Result<Controls, PolicyError>)
    requires ValuesOutcome(n, p, r, c, g, a)
    ensures ValuesOutcome(n, p, r, c, g, b) <==> a == b
  {
  }

  // -------------------------------------------------------------------- round trip

  predicate DigitText(s: string) {
    s != "" && AllDigits(s)
  }

  /** Settings the gate lets through. */
  predicate ValidControls(c: Controls) {
    && DigitText(c.adDailyGldCap) && DigitText(c.adMaxRewardPerClaim)
    && 0 <= c.giftBurnBps
    && WholeLimits(c.adMaxValidatedAds, c.giftBurnBps, c.paidRewardSafetyMarginBps, c.paidRewardDailyRequestLimit)
    && 0 <= c.playerBps && 0 <= c.reserveBps && 0 <= c.companyBps && 0 <= c.guestBps <= 10000
    && c.playerBps + c.reserveBps + c.companyBps == 10000
  }

  lemma DigitTextTrimmed(s: string)
    requires DigitText(s)
    ensures Trim(s) == s
  {
    assert IsDigit(s[0]) && IsDigit(s[|s| - 1]);
  }

  /** An integer prints as a whole number exactly when it is not negative, and reads back. */
  lemma IntTextWholeIff(n: int)
    ensures IsWhole(IntText(n)) <==> n >= 0
    ensures n >= 0 ==> WholeValue(IntText(n)) == n
  {
    IntTextTrimmed(n);
    if n < 0 {
      assert IntText(n)[0] == '-';
    }
  }

  lemma HundredthsParse(n: nat)
    ensures var s := HundredthsText(n);
            NormalForm(s) && MatchesDecimal(s, 1, 2) && Scaled(s, 2) == n
  {
    assert Pow10(2) == 100;
    PrintedNormal(n / 100, n % 100, 2);
    PrintedScaled(n / 100, n % 100, 2);
  }

  lemma HundredthsAmount(n: nat)
    ensures IsDecimal(HundredthsText(n)) && Amount(HundredthsText(n)) * 100.0 == n as real
  {
    HundredthsParse(n);
    ScaledExact(HundredthsText(n), 2);
    ShiftTwo(Amount(HundredthsText(n)));
  }

  /** Basis points print as a percent exactly when they are not negative, and read back. */
  lemma PercentTextIff(bps: int)
    ensures Percent(PercentText(bps)) <==> bps >= 0
    ensures bps >= 0 ==> PercentValue(PercentText(bps)) * 100.0 == bps as real
  {
    if bps < 0 {
      assert PercentText(bps)[0] == '-';
      MinusNotDecimal(PercentText(bps));
    } else {
      HundredthsParse(bps);
      HundredthsAmount(bps);
      DecimalTrimmed(HundredthsText(bps));
    }
  }

  /** The text is a minus sign and then n hundredths. */
  ghost predicate ShowsNegative(s: string, n: nat) {
    s != "" && s[0] == '-' && IsDecimal(s[1..]) && Amount(s[1..]) * 100.0 == n as real
  }

  lemma MinusShows(s: string, digits: string, n: nat)
    requires s == "-" + digits && IsDecimal(digits) && Amount(digits) * 100.0 == n as real
    ensures ShowsNegative(s, n)
  {
    assert s[1..] == digits;
  }

  /** Negative basis points show as a minus sign and the percent of their magnitude. */
  lemma NegativePercentText(n: nat)
    requires n > 0
    ensures ShowsNegative(PercentText(0 - n), n)
  {
    HundredthsAmount(n);
    MinusShows(PercentText(0 - n), HundredthsText(n), n);
  }

  /** The percent shown is the only shortest decimal numeral for the stored basis points. */
  lemma PercentTextShortest(bps: nat, s: string)
    requires IsDecimal(s) && Amount(s) * 100.0 == bps as real
    ensures |PercentText(bps)| <= |s| && (|PercentText(bps)| == |s| ==> s == PercentText(bps))
  {
    HundredthsNormal(bps);
    ShortestHundredths(HundredthsText(bps), s, bps);
  }

  lemma HundredthsNormal(n: nat)
    ensures NormalForm(HundredthsText(n)) && Amount(HundredthsText(n)) * 100.0 == n as real
  {
    HundredthsParse(n);
    HundredthsAmount(n);
  }

  lemma ShortestHundredths(t: string, s: string, bps: nat)
    requires NormalForm(t) && Amount(t) * 100.0 == bps as real
    requires IsDecimal(s) && Amount(s) * 100.0 == bps as real
    ensures |t| <= |s| && (|t| == |s| ==> s == t)
  {
    SameHundredths(Amount(s), Amount(t));
    NormalFormShortest(t, s);
  }

  lemma SameHundredths(x: real, y: real)
    requires x * 100.0 == y * 100.0
    ensures x == y
  {
  }

  predicate NonNegative(c: Controls) {
    && 0 <= c.adMaxValidatedAds && 0 <= c.giftBurnBps
    && 0 <= c.paidRewardSafetyMarginBps && 0 <= c.paidRewardDailyRequestLimit
    && 0 <= c.playerBps && 0 <= c.reserveBps && 0 <= c.companyBps && 0 <= c.guestBps
  }

  lemma WholeFieldsIff(c: Controls)
    ensures WholeFields(FormOf(c)) <==>
            && IsWhole(c.adDailyGldCap) && IsWhole(c.adMaxRewardPerClaim)
            && 0 <= c.adMaxValidatedAds && 0 <= c.giftBurnBps
            && 0 <= c.paidRewardSafetyMarginBps && 0 <= c.paidRewardDailyRequestLimit
  {
    IntTextWholeIff(c.adMaxValidatedAds);
    IntTextWholeIff(c.giftBurnBps);
    IntTextWholeIff(c.paidRewardSafetyMarginBps);
    IntTextWholeIff(c.paidRewardDailyRequestLimit);
  }

  lemma PercentFieldsIff(c: Controls)
    ensures PercentFields(FormOf(c)) <==> 0 <= c.playerBps && 0 <= c.reserveBps && 0 <= c.companyBps && 0 <= c.guestBps
  {
    PercentTextIff(c.playerBps);
    PercentTextIff(c.reserveBps);
    PercentTextIff(c.companyBps);
    PercentTextIff(c.guestBps);
  }

  /** Loaded settings make a well-formed form exactly when the caps are numbers and nothing is negative. */
  lemma FormWellFormedIff(c: Controls)
    ensures WellFormed(FormOf(c)) <==> IsWhole(c.adDailyGldCap) && IsWhole(c.adMaxRewardPerClaim) && NonNegative(c)
  {
    WholeFieldsIff(c);
    PercentFieldsIff(c);
  }

  /** n holds these settings. */
  ghost predicate Holds(n: Readings, c: Controls) {
    && Shares(n, c.playerBps, c.reserveBps, c.companyBps, c.guestBps)
    && n.ads == c.adMaxValidatedAds && n.burn == c.giftBurnBps
    && n.margin == c.paidRewardSafetyMarginBps && n.requests == c.paidRewardDailyRequestLimit
    && n.adDailyGldCap == c.adDailyGldCap && n.adMaxRewardPerClaim == c.adMaxRewardPerClaim
  }

  /** The caps without white space around them. */
  function Tidy(c: Controls): Controls {
    c.(adDailyGldCap := Trim(c.adDailyGldCap), adMaxRewardPerClaim := Trim(c.adMaxRewardPerClaim))
  }

  /** Such a form reads back the settings it shows, the caps trimmed. */
  lemma FormReads(c: Controls)
    requires WellFormed(FormOf(c)) && NonNegative(c)
    ensures Holds(Read(FormOf(c)), Tidy(c))
  {
    IntTextWholeIff(c.adMaxValidatedAds);
    IntTextWholeIff(c.giftBurnBps);
    IntTextWholeIff(c.paidRewardSafetyMarginBps);
    IntTextWholeIff(c.paidRewardDailyRequestLimit);
    PercentTextIff(c.playerBps);
    PercentTextIff(c.reserveBps);
    PercentTextIff(c.companyBps);
    PercentTextIff(c.guestBps);
  }

  /** Loading settings and saving the form unchanged sends the same settings exactly when they are valid. */
  lemma LoadSaveIff(c: Controls)
    ensures Submitted(FormOf(c)) == Success(c) <==> ValidControls(c)
  {
    if ValidControls(c) {
      ValidRoundTrip(c);
    } else if Submitted(FormOf(c)) == Success(c) {
      SentIsValid(FormOf(c));
    }
  }

  lemma GateHeld(n: Readings, c: Controls)
    requires ValidControls(c) && Holds(n, c)
    ensures Gate(n) == Success(c)
  {
    GateExact(n, c.playerBps, c.reserveBps, c.companyBps, c.guestBps);
  }

  lemma ValidTidy(c: Controls)
    requires ValidControls(c)
    ensures Tidy(c) == c && NonNegative(c) && IsWhole(c.adDailyGldCap) && IsWhole(c.adMaxRewardPerClaim)
  {
    DigitTextTrimmed(c.adDailyGldCap);
    DigitTextTrimmed(c.adMaxRewardPerClaim);
  }

  lemma ValidFormHeld(c: Controls)
    requires ValidControls(c)
    ensures WellFormed(FormOf(c)) && Holds(Read(FormOf(c)), c)
  {
    ValidTidy(c);
    FormWellFormedIff(c);
    FormReads(c);
  }

  lemma ValidRoundTrip(c: Controls)
    requires ValidControls(c)
    ensures Submitted(FormOf(c)) == Success(c)
  {
    ValidFormHeld(c);
    SubmittedGate(FormOf(c));
    GateHeld(Read(FormOf(c)), c);
  }

  lemma SubmittedGate(f: PolicyForm)
    requires WellFormed(f)
    ensures Submitted(f) == Gate(Read(f))
  {
  }

  /** Whatever is sent is valid. */
  lemma SentIsValid(f: PolicyForm)
    requires Submitted(f).Success?
    ensures ValidControls(Submitted(f).value)
  {
    ReadShares(f);
    GateExact(Read(f), Hundredths(f.playerPercent), Hundredths(f.reservePercent),
              Hundredths(f.companyPercent), Hundredths(f.guestPercent));
  }

  /** Saving, reloading what was stored and saving again sends the same settings. */
  lemma SaveStable(f: PolicyForm)
    requires Submitted(f).Success?
    ensures Submitted(FormOf(Submitted(f).value)) == Submitted(f)
  {
    SentIsValid(f);
    ValidRoundTrip(Submitted(f).value);
  }

  /** With nothing stored, the defaults load as a form the gate accepts. */
  lemma DefaultsAccepted(none: Stored)
    requires none == Stored(None, None, None, None, None, None, None, None, None, None)
    ensures Submitted(FormOf(Effective(none, none))).Success?
  {
    var c := Effective(none, none);
    assert AllDigits("25") && AllDigits("10");
    ValidRoundTrip(c);
  }
}
