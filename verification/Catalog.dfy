/**
 Catalog item submission: the form's prices and rewards are validated and
 rewritten into the payload that is sent, stopping at the first bad element.

 `lower` stands for `toLowerCase`, `number` for `Number` on text.
 */
module Catalog {
  import opened Digits
  import opened Text
  import opened Wrappers
  import StableKey

  // ------------------------------------------------------------ positive integers

  /** `replace(/^0+/, "")`. */
  function StripLeadingZeros(s: string): string {
    if s != "" && s[0] == '0' then StripLeadingZeros(s[1..]) else s
  }

  /** `/^\d+$/.test(value) && value.replace(/^0+/, "").length > 0`. */
  predicate IsPositiveInteger(value: string) {
    value != "" && AllDigits(value) && |StripLeadingZeros(value)| > 0
  }

  lemma {:induction false} LeadingZerosWorthless(s: string)
    requires AllDigits(s)
    ensures AllDigits(StripLeadingZeros(s)) && Value(StripLeadingZeros(s)) == Value(s)
    ensures StripLeadingZeros(s) != "" ==> Canonical(StripLeadingZeros(s)) && StripLeadingZeros(s) != "0"
  {
    if s != "" && s[0] == '0' {
      LeadingZero(s[1..]);
      assert s == "0" + s[1..];
      LeadingZerosWorthless(s[1..]);
    }
  }

  /** The check accepts exactly the digit strings worth more than zero, at any length. */
  lemma PositiveIntegerIff(value: string)
    ensures IsPositiveInteger(value) <==> AllDigits(value) && Value(value) > 0
  {
    if AllDigits(value) {
      LeadingZerosWorthless(value);
      var s := StripLeadingZeros(value);
      if s != "" {
        NumeralShortest(s);
        assert Numeral(0) == "0";
      }
    }
  }

  // -------------------------------------------------------------------- the form

  datatype PriceForm = PriceForm(currencyCode: string, amount: string, active: bool)

  datatype RewardForm = RewardForm(
    rewardType: string,
    assetKey: string,
    variationKey: string,
    currencyCode: string,
    progressionKey: string,
    targetKey: string,
    amount: string,
    quantity: string)

  datatype Kind = Asset | Currency | Points | Reset | Entitlement | OtherKind

  function KindOf(rewardType: string): Kind {
    if rewardType == "ASSET" then Asset
    else if rewardType == "CURRENCY" then Currency
    else if rewardType == "PROGRESSION_POINTS" then Points
    else if rewardType == "PROGRESSION_RESET" then Reset
    else if rewardType == "ENTITLEMENT" then Entitlement
    else OtherKind
  }

  /** The dialog's inputs; text fields as typed. */
  datatype ItemForm = ItemForm(
    editing: bool,
    catalogId: string,
    key: string,
    name: string,
    assetKey: string,
    description: string,
    imageAlt: string,
    gldPricingMode: string,
    gldCustomPrice: string,
    prices: seq<PriceForm>,
    rewards: seq<RewardForm>,
    metadata: map<string, string>,
    uploadedUrl: Option<string>,
    itemImageUrl: Option<string>)

  // ----------------------------------------------------------------- the payload

  datatype Price = Price(currencyCode: string, amount: string, active: bool)

  datatype Field =
    | RewardType | Quantity | SortOrder | AssetKey | VariationKey | CurrencyCode | ProgressionKey | TargetKey | Amount

  datatype Json = Str(text: string) | Int(n: int)

  type Payload = map<Field, Json>

  datatype ItemPayload = ItemPayload(
    catalogId: Option<string>,
    key: string,
    name: string,
    assetKey: Option<string>,
    description: Option<string>,
    imageUrl: Option<string>,
    imageAlt: Option<string>,
    prices: seq<Price>,
    rewards: seq<Payload>,
    active: bool,
    purchasable: bool,
    gldPricingMode: string,
    gldCustomPrice: Option<string>,
    metadata: map<string, string>)

  datatype SubmitError =
    | NoPrices | BadCustomPrice | BadPrice
    | BadQuantity
    | NoAsset | NoCurrency | BadCurrencyAmount | NoPointsProgression | BadPointsAmount | NoResetProgression
    | NoEntitlementKey

  const DROPPED: set<string> :=
    {"gift", "isGift", "kind", "type", "category", "giftFeePercent", "recipientRewardPercent"}

  // ------------------------------------------------------------------ what is valid

  predicate ValidPrice(p: PriceForm) {
    p.currencyCode != "" && IsPositiveInteger(Trim(p.amount))
  }

  /** `Number(quantity || "1")`. */
  function QuantityOf(r: RewardForm, number: Reader): Number {
    number(if r.quantity == "" then "1" else r.quantity)
  }

  /** An integer of at least one. */
  predicate ValidQuantity(q: Number) {
    q.Num? && q.value == q.value.Floor as real && q.value >= 1.0
  }

  /** What each kind of reward needs, over and above its quantity. */
  predicate ValidForKind(r: RewardForm) {
    match KindOf(r.rewardType)
    case Asset => r.assetKey != ""
    case Currency => r.currencyCode != "" && IsPositiveInteger(r.amount)
    case Points => r.progressionKey != "" && IsPositiveInteger(r.amount)
    case Reset => r.progressionKey != ""
    case Entitlement => Trim(r.targetKey) != ""
    case OtherKind => true
  }

  predicate ValidReward(r: RewardForm, number: Reader) {
    ValidQuantity(QuantityOf(r, number)) && ValidForKind(r)
  }

  /** The message for an invalid reward: the first of its checks to fail. */
  function RewardError(r: RewardForm, number: Reader): SubmitError
    requires !ValidReward(r, number)
  {
    if !ValidQuantity(QuantityOf(r, number)) then BadQuantity else KindError(r)
  }

  function KindError(r: RewardForm): SubmitError
    requires !ValidForKind(r)
  {
    match KindOf(r.rewardType)
    case Asset => NoAsset
    case Currency => if r.currencyCode == "" then NoCurrency else BadCurrencyAmount
    case Points => if r.progressionKey == "" then NoPointsProgression else BadPointsAmount
    case Reset => NoResetProgression
    case _ => NoEntitlementKey
  }

  predicate ValidCustomPrice(mode: string, custom: string) {
    mode == "FIXED" && custom != "" ==> IsPositiveInteger(custom)
  }

  ghost predicate ValidForm(form: ItemForm, number: Reader) {
    && form.prices != []
    && ValidCustomPrice(Trim(form.gldPricingMode), Trim(form.gldCustomPrice))
    && (forall i | 0 <= i < |form.prices| :: ValidPrice(form.prices[i]))
    && (forall i | 0 <= i < |form.rewards| :: ValidReward(form.rewards[i], number))
  }

  // ------------------------------------------------------------------ what is sent

  /** The price sent for one form row, given the trimmed pricing mode and custom price. */
  ghost predicate PriceFor(p: PriceForm, mode: string, custom: string, out: Price) {
    && out.currencyCode == p.currencyCode && out.active == p.active
    && (p.currencyCode != "GLD" ==> out.amount == Trim(p.amount))
    && (p.currencyCode == "GLD" ==>
          && (mode == "FIXED" && custom != "" ==> out.amount == custom)
          && (mode == "AUTO" ==> out.amount == "1")
          && (mode != "AUTO" && (mode != "FIXED" || custom == "") ==> out.amount == Trim(p.amount)))
  }

  /** The fields a reward's kind adds; an optional one only when it was filled in. */
  function KindFields(r: RewardForm): set<Field> {
    match KindOf(r.rewardType)
    case Asset => {AssetKey} + (if r.variationKey == "" then {} else {VariationKey})
    case Currency => {CurrencyCode, Amount}
    case Points => {ProgressionKey, Amount}
    case Reset => {ProgressionKey}
    case Entitlement => {TargetKey} + (if r.assetKey == "" then {} else {AssetKey})
    case OtherKind => {}
  }

  /** The value a field carries, given the reward's quantity and its normalised key. */
  function FieldValue(f: Field, r: RewardForm, index: nat, quantity: int, key: string): Json {
    match f
    case RewardType => Str(r.rewardType)
    case Quantity => Int(quantity)
    case SortOrder => Int(index)
    case AssetKey => Str(r.assetKey)
    case VariationKey => Str(r.variationKey)
    case CurrencyCode => Str(r.currencyCode)
    case ProgressionKey => Str(r.progressionKey)
    case TargetKey => Str(key)
    case Amount => Str(r.amount)
  }

  /** The payload holds the type, quantity, position and these fields, and nothing else. */
  ghost predicate Holds(payload: Payload, fields: set<Field>, r: RewardForm, index: nat, quantity: int, key: string) {
    && payload.Keys == {RewardType, Quantity, SortOrder} + fields
    && forall f | f in payload :: payload[f] == FieldValue(f, r, index, quantity, key)
  }

  lemma HoldsOne(payload: Payload, r: RewardForm, index: nat, quantity: int, key: string, f: Field)
    requires Holds(payload, {}, r, index, quantity, key)
    ensures Holds(payload[f := FieldValue(f, r, index, quantity, key)], {f}, r, index, quantity, key)
  {
  }

  lemma HoldsTwo(payload: Payload, r: RewardForm, index: nat, quantity: int, key: string, f: Field, g: Field)
    requires Holds(payload, {}, r, index, quantity, key)
    ensures Holds(payload[f := FieldValue(f, r, index, quantity, key)][g := FieldValue(g, r, index, quantity, key)],
                  {f, g}, r, index, quantity, key)
  {
  }

  /** The payload sent for the reward at this position. */
  ghost predicate PayloadFor(r: RewardForm, index: nat, number: Reader, lower: char -> string, payload: Payload)
    requires ValidReward(r, number)
  {
    Holds(payload, KindFields(r), r, index, QuantityOf(r, number).value.Floor, StableKey.StableKey(r.targetKey, lower))
  }

  // --------------------------------------------------------------------- the handler

  /** One price, or the error it throws. */
  method NormalizePrice(p: PriceForm, mode: string, custom: string) returns (r: Result<Price, SubmitError>)
    ensures r.Success? <==> ValidPrice(p)
    ensures r.Success? ==> PriceFor(p, mode, custom, r.value)
    ensures r.Failure? ==> r.error == BadPrice
  {
    var amount := Trim(p.amount);
    if p.currencyCode == "" || !IsPositiveInteger(amount) {
      return Failure(BadPrice);
    }
    var sent :=
      if p.currencyCode == "GLD" && mode == "FIXED" && custom != "" then custom
      else if p.currencyCode == "GLD" && mode == "AUTO" then "1"
      else amount;
    FixedIsNotAuto();
    return Success(Price(p.currencyCode, sent, p.active));
  }

  lemma FixedIsNotAuto()
    ensures "FIXED" != "AUTO"
  {
    assert |"FIXED"| != |"AUTO"|;
  }

  /** One result for each of the first n forms, in order, each by the rule. */
  ghost predicate Paired<A(!new), B(!new)>(forms: seq<A>, n: nat, sent: seq<B>, rule: (nat, A, B) -> bool) {
    n == |sent| <= |forms| && forall k: nat | k < n :: rule(k, forms[k], sent[k])
  }

  lemma PairedSnoc<A(!new), B(!new)>(forms: seq<A>, n: nat, sent: seq<B>, out: B, rule: (nat, A, B) -> bool)
    requires Paired(forms, n, sent, rule) && n < |forms| && rule(n, forms[n], out)
    ensures Paired(forms, n + 1, sent + [out], rule)
  {
  }

  /** The price is valid, and this is sent for it. */
  ghost function PriceRule(mode: string, custom: string): (nat, PriceForm, Price) -> bool {
    (k: nat, p: PriceForm, out: Price) => ValidPrice(p) && PriceFor(p, mode, custom, out)
  }

  /** The first n prices are valid, and what was sent for them is right. */
  ghost predicate PricesSent(prices: seq<PriceForm>, n: nat, mode: string, custom: string, sent: seq<Price>) {
    Paired(prices, n, sent, PriceRule(mode, custom))
  }

  method NormalizePrices(prices: seq<PriceForm>, mode: string, custom: string)
    returns (r: Result<seq<Price>, SubmitError>)
    ensures r.Success? <==> forall i | 0 <= i < |prices| :: ValidPrice(prices[i])
    ensures r.Success? ==> PricesSent(prices, |prices|, mode, custom, r.value)
    ensures r.Failure? ==> r.error == BadPrice
  {
    var sent := [];
    for i := 0 to |prices|
      invariant PricesSent(prices, i, mode, custom, sent)
    {
      var price := NormalizePrice(prices[i], mode, custom);
      if price.Failure? {
        return Failure(price.error);
      }
      PairedSnoc(prices, i, sent, price.value, PriceRule(mode, custom));
      sent := sent + [price.value];
    }
    return Success(sent);
  }

  /** One reward, its payload built up field by field, or the error it throws. */
  method NormalizeReward(reward: RewardForm, index: nat, number: Reader, lower: char -> string)
    returns (r: Result<Payload, SubmitError>)
    ensures r.Success? <==> ValidReward(reward, number)
    ensures r.Success? ==> PayloadFor(reward, index, number, lower, r.value)
    ensures r.Failure? ==> r.error == RewardError(reward, number)
  {
    var quantity := number(if reward.quantity == "" then "1" else reward.quantity);
    if !ValidQuantity(quantity) {
      return Failure(BadQuantity);
    }
    var n := quantity.value.Floor;
    var payload: Payload := map[
      RewardType := Str(reward.rewardType),
      Quantity := Int(n),
      SortOrder := Int(index)];
    var key := StableKey.StableKey(reward.targetKey, lower);
    CommonFields(reward, index, n, key);
    r := AddKindFields(reward, index, n, key, payload);
  }

  lemma CommonFields(r: RewardForm, index: nat, n: int, key: string)
    ensures Holds(map[RewardType := Str(r.rewardType), Quantity := Int(n), SortOrder := Int(index)],
                  {}, r, index, n, key)
  {
  }

  /** The fields of the reward's kind, added to the common ones. */
  method AddKindFields(reward: RewardForm, index: nat, n: int, key: string, common: Payload)
    returns (r: Result<Payload, SubmitError>)
    requires Holds(common, {}, reward, index, n, key)
    ensures r.Success? <==> ValidForKind(reward)
    ensures r.Success? ==> Holds(r.value, KindFields(reward), reward, index, n, key)
    ensures r.Failure? ==> r.error == KindError(reward)
  {
    var payload := common;
    match KindOf(reward.rewardType) {
      case Asset =>
        if reward.assetKey == "" { return Failure(NoAsset); }
        payload := payload[AssetKey := Str(reward.assetKey)];
        if reward.variationKey != "" { payload := payload[VariationKey := Str(reward.variationKey)]; }
        AssetFields(reward, index, n, key, common);
      case Currency =>
        if reward.currencyCode == "" { return Failure(NoCurrency); }
        if !IsPositiveInteger(reward.amount) { return Failure(BadCurrencyAmount); }
        payload := payload[CurrencyCode := Str(reward.currencyCode)];
        payload := payload[Amount := Str(reward.amount)];
        HoldsTwo(common, reward, index, n, key, CurrencyCode, Amount);
      case Points =>
        if reward.progressionKey == "" { return Failure(NoPointsProgression); }
        if !IsPositiveInteger(reward.amount) { return Failure(BadPointsAmount); }
        payload := payload[ProgressionKey := Str(reward.progressionKey)];
        payload := payload[Amount := Str(reward.amount)];
        HoldsTwo(common, reward, index, n, key, ProgressionKey, Amount);
      case Reset =>
        if reward.progressionKey == "" { return Failure(NoResetProgression); }
        payload := payload[ProgressionKey := Str(reward.progressionKey)];
        HoldsOne(common, reward, index, n, key, ProgressionKey);
      case Entitlement =>
        if Trim(reward.targetKey) == "" { return Failure(NoEntitlementKey); }
        payload := payload[TargetKey := Str(key)];
        if reward.assetKey != "" { payload := payload[AssetKey := Str(reward.assetKey)]; }
        EntitlementFields(reward, index, n, key, common);
      case OtherKind =>
    }
    return Success(payload);
  }

  lemma AssetFields(r: RewardForm, index: nat, n: int, key: string, common: Payload)
    requires KindOf(r.rewardType) == Asset && Holds(common, {}, r, index, n, key)
    ensures var payload := common[AssetKey := Str(r.assetKey)];
            Holds(if r.variationKey == "" then payload else payload[VariationKey := Str(r.variationKey)],
                  KindFields(r), r, index, n, key)
  {
    if r.variationKey == "" {
      HoldsOne(common, r, index, n, key, AssetKey);
      assert KindFields(r) == {AssetKey};
    } else {
      HoldsTwo(common, r, index, n, key, AssetKey, VariationKey);
      assert KindFields(r) == {AssetKey, VariationKey};
    }
  }

  lemma EntitlementFields(r: RewardForm, index: nat, n: int, key: string, common: Payload)
    requires KindOf(r.rewardType) == Entitlement && Holds(common, {}, r, index, n, key)
    ensures var payload := common[TargetKey := Str(key)];
            Holds(if r.assetKey == "" then payload else payload[AssetKey := Str(r.assetKey)],
                  KindFields(r), r, index, n, key)
  {
    if r.assetKey == "" {
      HoldsOne(common, r, index, n, key, TargetKey);
      assert KindFields(r) == {TargetKey};
    } else {
      HoldsTwo(common, r, index, n, key, TargetKey, AssetKey);
      assert KindFields(r) == {TargetKey, AssetKey};
    }
  }

  /** i is the first invalid reward. */
  ghost predicate FirstInvalid(rewards: seq<RewardForm>, number: Reader, i: nat) {
    && i < |rewards| && !ValidReward(rewards[i], number)
    && forall k | 0 <= k < i :: ValidReward(rewards[k], number)
  }

  /** The reward is valid, and this is sent for it at its position. */
  ghost function RewardRule(number: Reader, lower: char -> string): (nat, RewardForm, Payload) -> bool {
    (k: nat, r: RewardForm, out: Payload) => ValidReward(r, number) && PayloadFor(r, k, number, lower, out)
  }

  /** The first n rewards are valid, and what was sent for them is right. */
  ghost predicate AllSent(rewards: seq<RewardForm>, n: nat, number: Reader, lower: char -> string, sent: seq<Payload>) {
    Paired(rewards, n, sent, RewardRule(number, lower))
  }

  method NormalizeRewards(rewards: seq<RewardForm>, number: Reader, lower: char -> string)
    returns (r: Result<seq<Payload>, SubmitError>)
    ensures r.Success? <==> forall i | 0 <= i < |rewards| :: ValidReward(rewards[i], number)
    ensures r.Success? ==> AllSent(rewards, |rewards|, number, lower, r.value)
    ensures r.Failure? ==>
      exists i: nat :: FirstInvalid(rewards, number, i) && r.error == RewardError(rewards[i], number)
  {
    var sent := [];
    for i := 0 to |rewards|
      invariant AllSent(rewards, i, number, lower, sent)
    {
      var payload := NormalizeReward(rewards[i], i, number, lower);
      if payload.Failure? {
        assert FirstInvalid(rewards, number, i);
        return Failure(payload.error);
      }
      PairedSnoc(rewards, i, sent, payload.value, RewardRule(number, lower));
      sent := sent + [payload.value];
    }
    return Success(sent);
  }

  /** `field(...) || undefined`. */
  function OrUndefined(s: string): Option<string> {
    if s == "" then None else Some(s)
  }

  method StripGiftMetadata(metadata: map<string, string>) returns (next: map<string, string>)
    ensures next == metadata - DROPPED
  {
    next := metadata;
    next := next - {"gift"};
    next := next - {"isGift"};
    next := next - {"kind"};
    next := next - {"type"};
    next := next - {"category"};
    next := next - {"giftFeePercent"};
    next := next - {"recipientRewardPercent"};
  }

  /** Everything the payload holds besides its prices and rewards. */
  function BuildItem(form: ItemForm, lower: char -> string, prices: seq<Price>, rewards: seq<Payload>,
                     metadata: map<string, string>): ItemPayload
  {
    ItemPayload(
      if form.editing then None else Some(Trim(form.catalogId)),
      StableKey.StableKey(Trim(form.key), lower),
      Trim(form.name),
      OrUndefined(Trim(form.assetKey)),
      OrUndefined(Trim(form.description)),
      if form.uploadedUrl.Some? then form.uploadedUrl else form.itemImageUrl,
      OrUndefined(Trim(form.imageAlt)),
      prices,
      rewards,
      true,
      true,
      Trim(form.gldPricingMode),
      OrUndefined(Trim(form.gldCustomPrice)),
      metadata)
  }

  /** The form's first failing check decides the message. */
  ghost predicate FirstError(form: ItemForm, number: Reader, e: SubmitError) {
    if form.prices == [] then e == NoPrices
    else if !ValidCustomPrice(Trim(form.gldPricingMode), Trim(form.gldCustomPrice)) then e == BadCustomPrice
    else if exists i | 0 <= i < |form.prices| :: !ValidPrice(form.prices[i]) then e == BadPrice
    else exists i: nat :: FirstInvalid(form.rewards, number, i) && e == RewardError(form.rewards[i], number)
  }

  datatype Lists = Lists(prices: seq<Price>, rewards: seq<Payload>)

  ghost predicate ListsSent(form: ItemForm, number: Reader, lower: char -> string, lists: Lists) {
    && PricesSent(form.prices, |form.prices|, Trim(form.gldPricingMode), Trim(form.gldCustomPrice), lists.prices)
    && AllSent(form.rewards, |form.rewards|, number, lower, lists.rewards)
  }

  /** The checks, in order, and the two rewritten lists. */
  method NormalizeForm(form: ItemForm, number: Reader, lower: char -> string) returns (r: Result<Lists, SubmitError>)
    ensures r.Success? <==> ValidForm(form, number)
    ensures r.Success? ==> ListsSent(form, number, lower, r.value)
    ensures r.Failure? ==> FirstError(form, number, r.error)
  {
    if |form.prices| == 0 {
      return Failure(NoPrices);
    }
    var mode, custom := Trim(form.gldPricingMode), Trim(form.gldCustomPrice);
    if mode == "FIXED" && custom != "" && !IsPositiveInteger(custom) {
      return Failure(BadCustomPrice);
    }
    var prices := NormalizePrices(form.prices, mode, custom);
    if prices.Failure? {
      return Failure(prices.error);
    }
    var rewards := NormalizeRewards(form.rewards, number, lower);
    if rewards.Failure? {
      return Failure(rewards.error);
    }
    return Success(Lists(prices.value, rewards.value));
  }

  /** `ItemDialog`'s submit handler, up to the request. */
  method Submit(form: ItemForm, number: Reader, lower: char -> string) returns (r: Result<ItemPayload, SubmitError>)
    ensures r.Success? <==> ValidForm(form, number)
    ensures r.Success? ==>
              && ListsSent(form, number, lower, Lists(r.value.prices, r.value.rewards))
              && r.value == BuildItem(form, lower, r.value.prices, r.value.rewards, form.metadata - DROPPED)
    ensures r.Failure? ==> FirstError(form, number, r.error)
  {
    var lists := NormalizeForm(form, number, lower);
    if lists.Failure? {
      return Failure(lists.error);
    }
    var metadata := StripGiftMetadata(form.metadata);
    return Success(BuildItem(form, lower, lists.value.prices, lists.value.rewards, metadata));
  }

  // ---------------------------------------------------------------------- theorems

  lemma OneIsPositive()
    ensures IsPositiveInteger("1")
  {
    assert Value("1") == 1 by { assert Numeral(1) == "1"; }
    PositiveIntegerIff("1");
  }

  /** Every price that is sent is worth more than zero, whichever way its amount was chosen. */
  lemma SentPricePositive(p: PriceForm, mode: string, custom: string, out: Price)
    requires ValidPrice(p) && ValidCustomPrice(mode, custom) && PriceFor(p, mode, custom, out)
    ensures AllDigits(out.amount) && Value(out.amount) > 0
  {
    OneIsPositive();
    PositiveIntegerIff(out.amount);
    FixedIsNotAuto();
  }

  /** A price row determines what is sent for it. */
  lemma PriceForUnique(p: PriceForm, mode: string, custom: string, a: Price, b: Price)
    requires PriceFor(p, mode, custom, a) && PriceFor(p, mode, custom, b)
    ensures a == b
  {
    FixedIsNotAuto();
  }

  /** A reward row and its position determine what is sent for it. */
  lemma PayloadForUnique(r: RewardForm, index: nat, number: Reader, lower: char -> string, a: Payload, b: Payload)
    requires ValidReward(r, number) && PayloadFor(r, index, number, lower, a) && PayloadFor(r, index, number, lower, b)
    ensures a == b
  {
    assert a.Keys == b.Keys;
  }

  /** Sent quantities are at least one, and sent reward amounts are worth more than zero. */
  lemma SentRewardPositive(r: RewardForm, index: nat, number: Reader, lower: char -> string, payload: Payload)
    requires ValidReward(r, number) && PayloadFor(r, index, number, lower, payload)
    ensures Quantity in payload && payload[Quantity].Int? && payload[Quantity].n >= 1
    ensures Amount in payload ==>
              payload[Amount].Str? && AllDigits(payload[Amount].text) && Value(payload[Amount].text) > 0
    ensures SortOrder in payload && payload[SortOrder] == Int(index)
  {
    HeldFields(payload, r, index, QuantityOf(r, number).value.Floor, StableKey.StableKey(r.targetKey, lower));
    PositiveIntegerIff(r.amount);
    QuantityAtLeastOne(QuantityOf(r, number));
  }

  lemma HeldFields(payload: Payload, r: RewardForm, index: nat, quantity: int, key: string)
    requires Holds(payload, KindFields(r), r, index, quantity, key) && ValidForKind(r)
    ensures Quantity in payload && payload[Quantity] == Int(quantity)
    ensures SortOrder in payload && payload[SortOrder] == Int(index)
    ensures Amount in payload ==> payload[Amount] == Str(r.amount) && IsPositiveInteger(r.amount)
  {
    assert {RewardType, Quantity, SortOrder} <= payload.Keys;
    assert Amount in payload ==> Amount in KindFields(r);
  }

  lemma QuantityAtLeastOne(q: Number)
    requires ValidQuantity(q)
    ensures q.value.Floor >= 1
  {
  }

  /**
   The entitlement check looks at the key before it is normalised, so a sent
   entitlement key is empty exactly when the typed text has no key character.
   */
  lemma SentEntitlementKeyEmptyIff(r: RewardForm, index: nat, number: Reader, lower: char -> string, payload: Payload)
    requires StableKey.KeepsAscii(lower) && KindOf(r.rewardType) == Entitlement
    requires ValidReward(r, number) && PayloadFor(r, index, number, lower, payload)
    ensures TargetKey in payload
    ensures payload[TargetKey] == Str("") <==> StableKey.NoTokens(StableKey.Lower(r.targetKey, lower))
  {
    HeldTarget(payload, r, index, QuantityOf(r, number).value.Floor, StableKey.StableKey(r.targetKey, lower));
    StableKey.KeyEmptyIff(r.targetKey, lower);
  }

  lemma HeldTarget(payload: Payload, r: RewardForm, index: nat, quantity: int, key: string)
    requires Holds(payload, KindFields(r), r, index, quantity, key) && KindOf(r.rewardType) == Entitlement
    ensures TargetKey in payload && payload[TargetKey] == Str(key)
  {
    assert TargetKey in KindFields(r);
  }

  /** A lone hyphen passes the check and is sent as the empty key. */
  lemma EmptyEntitlementExample(r: RewardForm, index: nat, number: Reader, lower: char -> string, payload: Payload)
    requires StableKey.KeepsAscii(lower) && r.rewardType == "ENTITLEMENT" && r.targetKey == "-"
    requires ValidQuantity(QuantityOf(r, number))
    ensures KindOf(r.rewardType) == Entitlement && ValidReward(r, number)
    ensures PayloadFor(r, index, number, lower, payload) ==>
              TargetKey in payload && payload[TargetKey] == Str("")
  {
    HyphenValid(r);
    if PayloadFor(r, index, number, lower, payload) {
      HyphenEmpty(r, index, number, lower, payload);
    }
  }

  lemma HyphenEmpty(r: RewardForm, index: nat, number: Reader, lower: char -> string, payload: Payload)
    requires StableKey.KeepsAscii(lower) && KindOf(r.rewardType) == Entitlement && r.targetKey == "-"
    requires ValidReward(r, number) && PayloadFor(r, index, number, lower, payload)
    ensures TargetKey in payload && payload[TargetKey] == Str("")
  {
    HyphenNoTokens(lower);
    SentEntitlementKeyEmptyIff(r, index, number, lower, payload);
  }

  lemma HyphenNoTokens(lower: char -> string)
    requires StableKey.KeepsAscii(lower)
    ensures StableKey.NoTokens(StableKey.Lower("-", lower))
  {
    StableKey.LowerFixed("-", lower);
  }

  lemma HyphenValid(r: RewardForm)
    requires r.rewardType == "ENTITLEMENT" && r.targetKey == "-"
    ensures KindOf(r.rewardType) == Entitlement && ValidForKind(r)
  {
    EntitlementKind();
    assert Trim("-") == "-";
  }

  lemma EntitlementKind()
    ensures KindOf("ENTITLEMENT") == Entitlement
  {
    assert |"ENTITLEMENT"| == 11;
    assert |"ASSET"| == 5 && |"CURRENCY"| == 8 && |"PROGRESSION_POINTS"| == 18 && |"PROGRESSION_RESET"| == 17;
  }

  /** The five kinds go by these names. */
  lemma KindNames(rewardType: string)
    ensures KindOf(rewardType) == Asset <==> rewardType == "ASSET"
    ensures KindOf(rewardType) == Currency <==> rewardType == "CURRENCY"
    ensures KindOf(rewardType) == Points <==> rewardType == "PROGRESSION_POINTS"
    ensures KindOf(rewardType) == Reset <==> rewardType == "PROGRESSION_RESET"
    ensures KindOf(rewardType) == Entitlement <==> rewardType == "ENTITLEMENT"
  {
    assert |"ENTITLEMENT"| == 11;
    assert |"ASSET"| == 5 && |"CURRENCY"| == 8 && |"PROGRESSION_POINTS"| == 18 && |"PROGRESSION_RESET"| == 17;
  }

  predicate IsInteger(q: Number, n: int) {
    q == Num(n as real)
  }

  /** Valid quantities are the positive integers. */
  lemma ValidQuantityIff(q: Number)
    ensures ValidQuantity(q) <==> exists n: int :: IsInteger(q, n) && n >= 1
  {
    if ValidQuantity(q) {
      assert IsInteger(q, q.value.Floor) && q.value.Floor >= 1;
    }
  }

  /** Normalising a key does not depend on white space around it. */
  lemma KeyOfTrimmed(text: string, lower: char -> string)
    requires StableKey.KeepsAscii(lower)
    ensures StableKey.StableKey(Trim(text), lower) == StableKey.StableKey(text, lower)
  {
    StableKey.KeyIsJoinedTokens(Trim(text), lower);
    StableKey.KeyIsJoinedTokens(text, lower);
    StableKey.TrimRedundant(text, lower);
  }

  /** An optional text field is left out exactly when only white space was typed. */
  lemma OmittedIff(typed: string)
    ensures OrUndefined(Trim(typed)).None? <==> AllSpace(typed)
    ensures OrUndefined(Trim(typed)).Some? ==> OrUndefined(Trim(typed)).value == Trim(typed)
  {
    TrimEmptyIff(typed);
  }

  /** The item's own fields: a catalog only when new, the key normalised as typed, an upload before the old image. */
  lemma ItemFields(form: ItemForm, lower: char -> string, prices: seq<Price>, rewards: seq<Payload>,
                   metadata: map<string, string>)
    requires StableKey.KeepsAscii(lower)
    ensures var item := BuildItem(form, lower, prices, rewards, metadata);
            && item.prices == prices && item.rewards == rewards && item.metadata == metadata
            && (item.catalogId.None? <==> form.editing)
            && (item.catalogId.Some? ==> item.catalogId.value == Trim(form.catalogId))
            && item.key == StableKey.StableKey(form.key, lower)
            && item.name == Trim(form.name) && item.gldPricingMode == Trim(form.gldPricingMode)
            && (form.uploadedUrl.Some? ==> item.imageUrl == form.uploadedUrl)
            && (form.uploadedUrl.None? ==> item.imageUrl == form.itemImageUrl)
            && item.active && item.purchasable
  {
    KeyOfTrimmed(form.key, lower);
  }

  /** Its optional fields are left out exactly when only white space was typed. */
  lemma ItemOptionalFields(form: ItemForm, lower: char -> string, prices: seq<Price>, rewards: seq<Payload>,
                           metadata: map<string, string>)
    ensures var item := BuildItem(form, lower, prices, rewards, metadata);
            && item.assetKey == (if AllSpace(form.assetKey) then None else Some(Trim(form.assetKey)))
            && item.description == (if AllSpace(form.description) then None else Some(Trim(form.description)))
            && item.imageAlt == (if AllSpace(form.imageAlt) then None else Some(Trim(form.imageAlt)))
            && item.gldCustomPrice == (if AllSpace(form.gldCustomPrice) then None else Some(Trim(form.gldCustomPrice)))
  {
    OmittedIff(form.assetKey);
    OmittedIff(form.description);
    OmittedIff(form.imageAlt);
    OmittedIff(form.gldCustomPrice);
  }
}
