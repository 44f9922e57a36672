/**
 The ad-reward policy table: a list kept sorted by a concatenated key, upserted
 from the rows the server returns and filtered on deletion.

 `locale` stands for `a.localeCompare(b) <= 0`, `upper` for `toUpperCase`.
 */
module AdRewardPolicies {
  import opened Wrappers
  import opened FixedPoint
  import opened Runs
  import opened StableSort
  import opened Text

  datatype Policy = Policy(
    id: string,
    adFormat: string,
    eventType: string,
    regionCode: string,
    rewardAmount: string,
    enabled: bool)

  /** What a policy is about. */
  datatype Slot = Slot(adFormat: string, eventType: string, regionCode: string)

  function SlotOf(p: Policy): Slot {
    Slot(p.adFormat, p.eventType, p.regionCode)
  }

  function SortKey(p: Policy): string {
    p.adFormat + p.eventType + p.regionCode
  }

  type Ordering = (string, string) -> bool

  ghost predicate LocaleOrder(locale: Ordering) {
    && (forall a: string, b: string :: locale(a, b) || locale(b, a))
    && (forall a: string, b: string, c: string :: locale(a, b) && locale(b, c) ==> locale(a, c))
  }

  function ByKey(locale: Ordering): (Policy, Policy) -> bool {
    (a: Policy, b: Policy) => locale(SortKey(a), SortKey(b))
  }

  // ------------------------------------------------------------- list updates

  predicate Unrelated(p: Policy, saved: Policy) {
    p.id != saved.id && SlotOf(p) != SlotOf(saved)
  }

  function Kept(rows: seq<Policy>, saved: Policy): seq<Policy> {
    Filter(rows, (p: Policy) => Unrelated(p, saved))
  }

  /** A saved row replaces whatever shared its id or its slot, and the table is sorted again. */
  function Upsert(rows: seq<Policy>, saved: Policy, locale: Ordering): seq<Policy> {
    Sort(Kept(rows, saved) + [saved], ByKey(locale))
  }

  function Remove(rows: seq<Policy>, id: string): seq<Policy> {
    Filter(rows, (p: Policy) => p.id != id)
  }

  // ---------------------------------------------------------------- the panel

  datatype Form = Form(adFormat: string, eventType: string, regionCode: string, rewardAmount: string, enabled: bool)

  datatype PanelError = InvalidAmount | RequestFailed
  datatype PanelMessage = SavedMessage | DeletedMessage

  /** `/^\d+(?:\.\d{1,6})?$/` on the trimmed amount. */
  predicate ValidAmount(amount: string) {
    MatchesDecimal(Trim(amount), 1, 6)
  }

  function Upper(s: string, upper: char -> string): string {
    if s == "" then "" else upper(s[0]) + Upper(s[1..], upper)
  }

  /** The body that is PUT. */
  function Request(form: Form, upper: char -> string): Form {
    form.(rewardAmount := Trim(form.rewardAmount), regionCode := Upper(Trim(form.regionCode), upper))
  }

  /**
   The panel's state. A save and a delete each start a request and later receive
   its outcome; any number of other events may come in between.
   */
  class AdRewardPanel {
    var adRewardPolicies: seq<Policy>
    var adRewardForm: Form
    var adRewardSaving: bool
    var error: Option<PanelError>
    var message: Option<PanelMessage>
    const locale: Ordering
    const upper: char -> string

    constructor (locale: Ordering, upper: char -> string)
      ensures adRewardPolicies == [] && !adRewardSaving && error == None && message == None
      ensures adRewardForm == Form("banner", "impression", "DEFAULT", "1", true)
      ensures this.locale == locale && this.upper == upper
    {
      this.locale, this.upper := locale, upper;
      adRewardPolicies, adRewardSaving, error, message := [], false, None, None;
      adRewardForm := Form("banner", "impression", "DEFAULT", "1", true);
    }

    /** `load` received the table. */
    method Load(rows: seq<Policy>)
      modifies this`adRewardPolicies, this`error
      ensures adRewardPolicies == rows && error == None
    {
      error := None;
      adRewardPolicies := rows;
    }

    /** `saveAdRewardPolicy` up to its request: an ill-formed amount stops it. */
    method StartSave() returns (request: Option<Form>)
      modifies this`adRewardSaving, this`error
      ensures request.Some? <==> ValidAmount(adRewardForm.rewardAmount)
      ensures request.Some? ==> request.value == Request(adRewardForm, upper) && adRewardSaving && error == old(error)
      ensures request.None? ==> error == Some(InvalidAmount) && adRewardSaving == old(adRewardSaving)
    {
      if !MatchesDecimal(Trim(adRewardForm.rewardAmount), 1, 6) {
        error := Some(InvalidAmount);
        return None;
      }
      adRewardSaving := true;
      return Some(Request(adRewardForm, upper));
    }

    /** The save's outcome; None is a failed request. */
    method FinishSave(reply: Option<Policy>)
      modifies this`adRewardPolicies, this`adRewardSaving, this`error, this`message
      ensures !adRewardSaving
      ensures reply.Some? ==>
                && adRewardPolicies == Upsert(old(adRewardPolicies), reply.value, locale)
                && message == Some(SavedMessage) && error == old(error)
      ensures reply.None? ==>
                && adRewardPolicies == old(adRewardPolicies)
                && message == old(message) && error == Some(RequestFailed)
    {
      match reply {
        case Some(saved) =>
          adRewardPolicies := Sort(Kept(adRewardPolicies, saved) + [saved], ByKey(locale));
          message := Some(SavedMessage);
        case None =>
          error := Some(RequestFailed);
      }
      adRewardSaving := false;
    }

    /** The outcome of a confirmed delete of the policy with this id. */
    method FinishDelete(id: string, ok: bool)
      modifies this`adRewardPolicies, this`error, this`message
      ensures adRewardPolicies == if ok then Remove(old(adRewardPolicies), id) else old(adRewardPolicies)
      ensures ok ==> message == Some(DeletedMessage) && error == old(error)
      ensures !ok ==> message == old(message) && error == Some(RequestFailed)
    {
      if ok {
        adRewardPolicies := Filter(adRewardPolicies, (p: Policy) => p.id != id);
        message := Some(DeletedMessage);
      } else {
        error := Some(RequestFailed);
      }
    }

    /** `editAdRewardPolicy` copies a row into the form. */
    method Edit(policy: Policy)
      modifies this`adRewardForm
      ensures adRewardForm
           == Form(policy.adFormat, policy.eventType, policy.regionCode, policy.rewardAmount, policy.enabled)
    {
      adRewardForm := Form(policy.adFormat, policy.eventType, policy.regionCode, policy.rewardAmount, policy.enabled);
    }
  }

  // --------------------------------------------------------------- the request

  /** Past the white space around it, an amount is digits, alone or with a point and one to six more. */
  lemma ValidAmountIff(amount: string)
    ensures ValidAmount(amount) <==> Splits(Trim(amount), 1, 6)
  {
    MatchesDecimalIffSplits(Trim(amount), 1, 6);
  }

  lemma {:induction false} UpperConcat(a: string, b: string, upper: char -> string)
    ensures Upper(a + b, upper) == Upper(a, upper) + Upper(b, upper)
  {
    if a == "" {
      assert a + b == b;
    } else {
      assert (a + b)[1..] == a[1..] + b;
      UpperConcat(a[1..], b, upper);
      ConcatAssoc(upper(a[0]), Upper(a[1..], upper), Upper(b, upper));
    }
  }

  lemma UpperOne(c: char, upper: char -> string)
    ensures Upper([c], upper) == upper(c)
  {
    assert [c][1..] == "" && upper(c) + "" == upper(c);
  }

  /** Amount and region lose only white space at their ends; the region goes out upper-cased, the rest as typed. */
  lemma RequestFields(form: Form, upper: char -> string)
    returns (left: string, right: string, before: string, region: string, after: string)
    ensures var sent := Request(form, upper);
            && form.rewardAmount == left + sent.rewardAmount + right && Trimmed(sent.rewardAmount)
            && form.regionCode == before + region + after && Trimmed(region)
            && sent.regionCode == Upper(region, upper)
            && sent.adFormat == form.adFormat && sent.eventType == form.eventType && sent.enabled == form.enabled
    ensures AllSpace(left) && AllSpace(right) && AllSpace(before) && AllSpace(after)
  {
    left, right := TrimSplits(form.rewardAmount);
    before, after := TrimSplits(form.regionCode);
    region := Trim(form.regionCode);
  }

  // ---------------------------------------------------------------- uniqueness

  /** One row per id and one row per slot. */
  ghost predicate Unique(rows: seq<Policy>) {
    forall i, j | 0 <= i < j < |rows| :: Unrelated(rows[i], rows[j])
  }

  lemma {:induction false} FilterUnique(rows: seq<Policy>, keep: Policy -> bool)
    requires Unique(rows)
    ensures Unique(Filter(rows, keep))
  {
    if rows != [] {
      var n := |rows| - 1;
      FilterUnique(rows[..n], keep);
      var front := Filter(rows[..n], keep);
      forall i | 0 <= i < |front| ensures Unrelated(front[i], rows[n]) {
        assert front[i] in front;
      }
    }
  }

  lemma KeptMembers(rows: seq<Policy>, saved: Policy)
    ensures forall p :: p in Kept(rows, saved) <==> p in rows && Unrelated(p, saved)
  {
  }

  lemma ByKeyPreorder(rows: seq<Policy>, locale: Ordering)
    requires LocaleOrder(locale)
    ensures PreorderOn(rows, ByKey(locale))
  {
    var le := ByKey(locale);
    forall x, y ensures le(x, y) == locale(SortKey(x), SortKey(y)) {
    }
  }

  lemma UpsertContents(rows: seq<Policy>, saved: Policy, locale: Ordering)
    ensures multiset(Upsert(rows, saved, locale)) == multiset(Kept(rows, saved)) + multiset{saved}
    ensures forall p :: p in Upsert(rows, saved, locale) <==> p == saved || (p in rows && Unrelated(p, saved))
  {
    var unsorted := Kept(rows, saved) + [saved];
    SortContents(unsorted, ByKey(locale));
    SortMembers(unsorted, ByKey(locale));
    KeptMembers(rows, saved);
  }

  /** In order of format, event and region, written one after the other. */
  ghost predicate InOrder(p: Policy, q: Policy, locale: Ordering) {
    locale(p.adFormat + p.eventType + p.regionCode, q.adFormat + q.eventType + q.regionCode)
  }

  /**
   A save keeps the table unique; it holds the saved row once and, of the others,
   exactly those that share neither its id nor its format, event and region.
   */
  lemma UpsertSpec(rows: seq<Policy>, saved: Policy, locale: Ordering)
    requires LocaleOrder(locale)
    ensures var next := Upsert(rows, saved, locale);
            && IsStableSort(Kept(rows, saved) + [saved], next, ByKey(locale))
            && (forall p :: p in next <==>
                  p == saved
                  || (p in rows && p.id != saved.id
                      && !(p.adFormat == saved.adFormat && p.eventType == saved.eventType
                           && p.regionCode == saved.regionCode)))
            && multiset(next)[saved] == 1
            && (Unique(rows) ==> Unique(next))
  {
    var unsorted := Kept(rows, saved) + [saved];
    ByKeyPreorder(unsorted, locale);
    SortIsStable(unsorted, ByKey(locale));
    UpsertContents(rows, saved, locale);
    KeptMembers(rows, saved);
    assert saved !in Kept(rows, saved);
    if Unique(rows) {
      UpsertUnique(rows, saved, locale);
    }
  }

  /** A saved table is in ascending order of those texts, the saved row last among those level with it. */
  lemma UpsertOrder(rows: seq<Policy>, saved: Policy, locale: Ordering) returns (k: nat)
    requires LocaleOrder(locale)
    ensures var next := Upsert(rows, saved, locale);
            && (forall i, j | 0 <= i < j < |next| :: InOrder(next[i], next[j], locale))
            && k < |next| && next[k] == saved
            && forall j | k < j < |next| :: !InOrder(next[j], saved, locale)
  {
    var unsorted := Kept(rows, saved) + [saved];
    ByKeyPreorder(unsorted, locale);
    SortIsStable(unsorted, ByKey(locale));
    SortedInOrder(Upsert(rows, saved, locale), locale);
    k := SortPlacesLast(Kept(rows, saved), saved, ByKey(locale));
    AboveInOrder(Upsert(rows, saved, locale), k, saved, locale);
  }

  lemma ByKeyIsOrder(p: Policy, q: Policy, locale: Ordering)
    ensures ByKey(locale)(p, q) <==> InOrder(p, q, locale)
  {
    assert SortKey(p) == p.adFormat + p.eventType + p.regionCode;
    assert SortKey(q) == q.adFormat + q.eventType + q.regionCode;
  }

  lemma SortedInOrder(rows: seq<Policy>, locale: Ordering)
    requires Sorted(rows, ByKey(locale))
    ensures forall i, j | 0 <= i < j < |rows| :: InOrder(rows[i], rows[j], locale)
  {
    forall i, j | 0 <= i < j < |rows| ensures InOrder(rows[i], rows[j], locale) {
      ByKeyIsOrder(rows[i], rows[j], locale);
    }
  }

  lemma AboveInOrder(rows: seq<Policy>, k: nat, saved: Policy, locale: Ordering)
    requires forall j | k < j < |rows| :: !ByKey(locale)(rows[j], saved)
    ensures forall j | k < j < |rows| :: !InOrder(rows[j], saved, locale)
  {
    forall j | k < j < |rows| ensures !InOrder(rows[j], saved, locale) {
      ByKeyIsOrder(rows[j], saved, locale);
    }
  }

  lemma KeptUnique(rows: seq<Policy>, saved: Policy)
    requires Unique(rows)
    ensures Unique(Kept(rows, saved) + [saved])
  {
    var kept := Kept(rows, saved);
    FilterUnique(rows, (p: Policy) => Unrelated(p, saved));
    forall i | 0 <= i < |kept| ensures Unrelated(kept[i], saved) {
      assert kept[i] in kept;
    }
  }

  lemma UpsertUnique(rows: seq<Policy>, saved: Policy, locale: Ordering)
    requires Unique(rows)
    ensures Unique(Upsert(rows, saved, locale))
  {
    KeptUnique(rows, saved);
    SortContents(Kept(rows, saved) + [saved], ByKey(locale));
    UniqueForgetsOrder(Kept(rows, saved) + [saved], Upsert(rows, saved, locale));
  }

  lemma UniqueForgetsOrder(s: seq<Policy>, t: seq<Policy>)
    requires multiset(s) == multiset(t) && Unique(s)
    ensures Unique(t)
  {
    PairwiseForgetsOrder(s, t, Unrelated);
  }

  /** A delete drops the rows with that id and nothing else, keeping uniqueness and sortedness. */
  lemma RemoveSpec(rows: seq<Policy>, id: string, locale: Ordering)
    ensures forall p :: p in Remove(rows, id) <==> p in rows && p.id != id
    ensures Unique(rows) ==> Unique(Remove(rows, id))
    ensures Sorted(rows, ByKey(locale)) ==> Sorted(Remove(rows, id), ByKey(locale))
  {
    if Unique(rows) {
      FilterUnique(rows, (p: Policy) => p.id != id);
    }
    if Sorted(rows, ByKey(locale)) {
      FilterSorted(rows, (p: Policy) => p.id != id, ByKey(locale));
    }
  }

  lemma {:induction false} FilterSorted(rows: seq<Policy>, keep: Policy -> bool, le: (Policy, Policy) -> bool)
    requires Sorted(rows, le)
    ensures Sorted(Filter(rows, keep), le)
  {
    if rows != [] {
      var n := |rows| - 1;
      FilterSorted(rows[..n], keep, le);
      var front := Filter(rows[..n], keep);
      forall i | 0 <= i < |front| ensures le(front[i], rows[n]) {
        assert front[i] in front;
      }
    }
  }

  // -------------------------------------------------------- the table as a map

  /** m maps each row's slot to the row, and nothing else. */
  ghost predicate IsTable(m: map<Slot, Policy>, rows: seq<Policy>) {
    && (forall p | p in rows :: SlotOf(p) in m && m[SlotOf(p)] == p)
    && (forall s | s in m :: m[s] in rows && SlotOf(m[s]) == s)
  }

  ghost function SaveInMap(m: map<Slot, Policy>, saved: Policy): map<Slot, Policy> {
    (map s | s in m && m[s].id != saved.id :: m[s])[SlotOf(saved) := saved]
  }

  ghost function RemoveFromMap(m: map<Slot, Policy>, id: string): map<Slot, Policy> {
    map s | s in m && m[s].id != id :: m[s]
  }

  lemma SaveRefinesMap(rows: seq<Policy>, m: map<Slot, Policy>, saved: Policy, locale: Ordering)
    requires IsTable(m, rows)
    ensures IsTable(SaveInMap(m, saved), Upsert(rows, saved, locale))
  {
    UpsertContents(rows, saved, locale);
  }

  lemma RemoveRefinesMap(rows: seq<Policy>, m: map<Slot, Policy>, id: string)
    requires IsTable(m, rows)
    ensures IsTable(RemoveFromMap(m, id), Remove(rows, id))
  {
  }

  // ------------------------------------------------------------------ whole runs

  /** What changes the table: a load, a saved row's reply, a delete's reply. */
  datatype Event = Loaded(rows: seq<Policy>) | SavedRow(row: Policy) | Deleted(id: string)

  function Step(rows: seq<Policy>, e: Event, locale: Ordering): seq<Policy> {
    match e
    case Loaded(loaded) => loaded
    case SavedRow(row) => Upsert(rows, row, locale)
    case Deleted(id) => Remove(rows, id)
  }

  function Stepper(locale: Ordering): (seq<Policy>, Event) -> seq<Policy> {
    (rows, e) => Step(rows, e, locale)
  }

  ghost function StepMap(m: map<Slot, Policy>, e: Event): map<Slot, Policy>
    requires !e.Loaded?
  {
    match e
    case SavedRow(row) => SaveInMap(m, row)
    case Deleted(id) => RemoveFromMap(m, id)
  }

  ghost function RunMap(m: map<Slot, Policy>, es: seq<Event>): map<Slot, Policy>
    requires forall i | 0 <= i < |es| :: !es[i].Loaded?
  {
    if es == [] then m else StepMap(RunMap(m, es[..|es| - 1]), es[|es| - 1])
  }

  /** However replies arrive, the table stays unique as long as the server's own lists are. */
  lemma RunKeepsUnique(rows: seq<Policy>, es: seq<Event>, locale: Ordering)
    requires Unique(rows) && forall e | e in es && e.Loaded? :: Unique(e.rows)
    ensures Unique(Run(rows, es, Stepper(locale)))
  {
    forall t, e | Unique(t) && e in es ensures Unique(Step(t, e, locale)) {
      match e {
        case Loaded(_) =>
        case SavedRow(row) => UpsertUnique(t, row, locale);
        case Deleted(id) => RemoveSpec(t, id, locale);
      }
    }
    RunKeeps(rows, es, Stepper(locale), Unique);
  }

  /** Between loads the sorted list is, at every point of every run, exactly the map of the saves and deletes. */
  lemma {:induction false} RunRefinesMap(rows: seq<Policy>, m: map<Slot, Policy>, es: seq<Event>, locale: Ordering)
    requires IsTable(m, rows) && forall i | 0 <= i < |es| :: !es[i].Loaded?
    ensures IsTable(RunMap(m, es), Run(rows, es, Stepper(locale)))
  {
    if es != [] {
      var n := |es| - 1;
      RunRefinesMap(rows, m, es[..n], locale);
      StepRefinesMap(Run(rows, es[..n], Stepper(locale)), RunMap(m, es[..n]), es[n], locale);
    }
  }

  lemma StepRefinesMap(rows: seq<Policy>, m: map<Slot, Policy>, e: Event, locale: Ordering)
    requires IsTable(m, rows) && !e.Loaded?
    ensures IsTable(StepMap(m, e), Step(rows, e, locale))
  {
    match e {
      case SavedRow(row) => SaveRefinesMap(rows, m, row, locale);
      case Deleted(id) => RemoveRefinesMap(rows, m, id);
    }
  }

  // ------------------------------------------------------------- the sort key

  const FORMATS: seq<string> := ["banner", "native", "interstitial", "rewarded", "rewarded_interstitial"]
  const EVENTS: seq<string> := ["impression", "click", "rewarded"]

  predicate Offered(s: Slot) {
    s.adFormat in FORMATS && s.eventType in EVENTS
  }

  lemma FormatsPrefixFree(f: string, g: string, x: string, y: string)
    requires f in FORMATS && g in FORMATS && f + x == g + y
    requires x != "" && y != "" && x[0] != '_' && y[0] != '_'
    ensures f == g
  {
    assert (f + x)[0] == f[0] && (g + y)[0] == g[0];
    if f[0] == 'r' {
      assert f == "rewarded" ==> (f + x)[8] == x[0];
      assert g == "rewarded" ==> (g + y)[8] == y[0];
      assert f != "rewarded" ==> f == "rewarded_interstitial" && (f + x)[8] == f[8] == '_';
      assert g != "rewarded" ==> g == "rewarded_interstitial" && (g + y)[8] == g[8] == '_';
    }
  }

  lemma EventsPrefixFree(e: string, d: string, x: string, y: string)
    requires e in EVENTS && d in EVENTS && e + x == d + y
    ensures e == d && x == y
  {
    assert (e + x)[0] == e[0] && (d + y)[0] == d[0];
    assert x == (e + x)[|e|..] && y == (d + y)[|d|..];
  }

  /** Over the offered formats and events the concatenated key identifies the slot, whatever the regions. */
  lemma SortKeyInjective(p: Policy, q: Policy)
    requires Offered(SlotOf(p)) && Offered(SlotOf(q))
    ensures SortKey(p) == SortKey(q) <==> SlotOf(p) == SlotOf(q)
  {
    if SortKey(p) == SortKey(q) {
      var x, y := p.eventType + p.regionCode, q.eventType + q.regionCode;
      Regroup(p.adFormat, p.eventType, p.regionCode);
      Regroup(q.adFormat, q.eventType, q.regionCode);
      FormatsPrefixFree(p.adFormat, q.adFormat, x, y);
      DropPrefix(p.adFormat, x, y);
      EventsPrefixFree(p.eventType, q.eventType, p.regionCode, q.regionCode);
    }
  }

  lemma Regroup(f: string, e: string, r: string)
    requires e in EVENTS
    ensures f + e + r == f + (e + r)
    ensures e + r != "" && (e + r)[0] != '_'
  {
  }

  lemma DropPrefix(f: string, x: string, y: string)
    requires f + x == f + y
    ensures x == y
  {
    assert x == (f + x)[|f|..] && y == (f + y)[|f|..];
  }

  ghost predicate AllOffered(rows: seq<Policy>) {
    forall p | p in rows :: Offered(SlotOf(p))
  }

  /** Rows whose keys compare equal have the same key. */
  ghost predicate Discriminates(rows: seq<Policy>, locale: Ordering) {
    forall p, q | p in rows && q in rows && Same(p, q, ByKey(locale)) :: SortKey(p) == SortKey(q)
  }

  /** Two unique tables with the same rows sort to the same list. */
  lemma SortCanonical(s: seq<Policy>, t: seq<Policy>, locale: Ordering)
    requires LocaleOrder(locale) && Discriminates(s, locale)
    requires Unique(s) && AllOffered(s) && multiset(s) == multiset(t)
    ensures Sort(s, ByKey(locale)) == Sort(t, ByKey(locale))
  {
    ByKeyPreorder(s, locale);
    forall p, q | p in s && q in s && Same(p, q, ByKey(locale)) ensures p == q {
      SortKeyInjective(p, q);
      var i, j :| 0 <= i < |s| && 0 <= j < |s| && s[i] == p && s[j] == q;
    }
    SortForgetsOrder(s, t, ByKey(locale));
  }

  // ----------------------------------------------------- two saves in either order

  /** The rows that neither save replaces. */
  function Untouched(rows: seq<Policy>, p: Policy, q: Policy): seq<Policy> {
    Kept(Kept(rows, p), q)
  }

  /** Up to order, and in the order of equal keys, the second save sorts the untouched rows, then p, then q. */
  lemma SecondSave(rows: seq<Policy>, p: Policy, q: Policy, locale: Ordering)
    requires LocaleOrder(locale) && Unrelated(p, q)
    ensures var unsorted := Kept(Upsert(rows, p, locale), q) + [q];
            && multiset(unsorted) == multiset(Untouched(rows, p, q) + [p, q])
            && forall y :: Class(unsorted, y, ByKey(locale)) == Class(Untouched(rows, p, q) + [p, q], y, ByKey(locale))
  {
    var keep := (r: Policy) => Unrelated(r, q);
    var first := Kept(rows, p) + [p];
    FilterSnoc(Kept(rows, p), p, keep);
    TwoLast(Untouched(rows, p, q), p, q);
    assert Filter(first, keep) == Untouched(rows, p, q) + [p];
    SortThenFilter(first, keep, q, locale);
  }

  lemma TwoLast(k: seq<Policy>, p: Policy, q: Policy)
    ensures k + [p, q] == k + [p] + [q]
  {
  }

  lemma SortThenFilter(first: seq<Policy>, keep: Policy -> bool, q: Policy, locale: Ordering)
    requires LocaleOrder(locale)
    ensures var sorted := Filter(Sort(first, ByKey(locale)), keep) + [q];
            && multiset(sorted) == multiset(Filter(first, keep) + [q])
            && forall y :: Class(sorted, y, ByKey(locale)) == Class(Filter(first, keep) + [q], y, ByKey(locale))
  {
    SortContents(first, ByKey(locale));
    FilterForgetsOrder(Sort(first, ByKey(locale)), first, keep);
    forall y ensures Class(Filter(Sort(first, ByKey(locale)), keep) + [q], y, ByKey(locale))
                  == Class(Filter(first, keep) + [q], y, ByKey(locale)) {
      SecondSaveClass(first, keep, q, y, locale);
    }
  }

  lemma SecondSaveClass(first: seq<Policy>, keep: Policy -> bool, q: Policy, y: Policy, locale: Ordering)
    requires LocaleOrder(locale)
    ensures Class(Filter(Sort(first, ByKey(locale)), keep) + [q], y, ByKey(locale))
         == Class(Filter(first, keep) + [q], y, ByKey(locale))
  {
    var le := ByKey(locale);
    ByKeyPreorder(first + [y], locale);
    SortKeepsClass(first, first + [y], y, le);
    FilterClass(Sort(first, le), keep, y, le);
    FilterClass(first, keep, y, le);
    ClassSnoc(Filter(Sort(first, le), keep), q, y, le);
    ClassSnoc(Filter(first, keep), q, y, le);
  }

  lemma ClassOfTwo(k: seq<Policy>, p: Policy, q: Policy, y: Policy, le: (Policy, Policy) -> bool)
    ensures Class(k + [p, q], y, le)
         == Class(k, y, le) + (if Same(p, y, le) then [p] else []) + (if Same(q, y, le) then [q] else [])
  {
    assert k + [p, q] == k + [p] + [q];
    ClassSnoc(k + [p], q, y, le);
    ClassSnoc(k, p, y, le);
  }

  /** Swapping the last two elements leaves every class alone exactly when those two do not compare equal. */
  lemma SwapClassesIff(k: seq<Policy>, p: Policy, q: Policy, locale: Ordering)
    requires LocaleOrder(locale) && p != q
    ensures var le := ByKey(locale);
            (forall y | y in k + [p, q] :: Class(k + [p, q], y, le) == Class(k + [q, p], y, le)) <==> !Same(p, q, le)
  {
    var le := ByKey(locale);
    ByKeyPreorder(k + [p, q], locale);
    forall y | y in k + [p, q]
      ensures Class(k + [p, q], y, le) == Class(k + [q, p], y, le) <==> !(Same(p, y, le) && Same(q, y, le))
    {
      ClassOfTwo(k, p, q, y, le);
      ClassOfTwo(k, q, p, y, le);
      if Same(p, y, le) && Same(q, y, le) {
        assert (Class(k, y, le) + [p] + [q])[|Class(k, y, le)|] == p;
        assert (Class(k, y, le) + [q] + [p])[|Class(k, y, le)|] == q;
      }
    }
    assert p in k + [p, q] && q in k + [p, q] && le(p, p);
  }

  /** Replies to two saves of unrelated rows may arrive in either order exactly when their keys do not compare equal. */
  lemma SavesCommuteIff(rows: seq<Policy>, p: Policy, q: Policy, locale: Ordering)
    requires LocaleOrder(locale) && Unrelated(p, q)
    ensures Upsert(Upsert(rows, p, locale), q, locale) == Upsert(Upsert(rows, q, locale), p, locale) <==>
            !Same(p, q, ByKey(locale))
  {
    SecondSave(rows, p, q, locale);
    SecondSave(rows, q, p, locale);
    FilterCommutes(rows, (r: Policy) => Unrelated(r, p), (r: Policy) => Unrelated(r, q));
    SwappedSortIff(Untouched(rows, p, q), p, q, Kept(Upsert(rows, p, locale), q) + [q],
                   Kept(Upsert(rows, q, locale), p) + [p], locale);
  }

  lemma SwappedSortIff(k: seq<Policy>, p: Policy, q: Policy, pq: seq<Policy>, qp: seq<Policy>, locale: Ordering)
    requires LocaleOrder(locale) && p != q
    requires multiset(pq) == multiset(k + [p, q]) && multiset(qp) == multiset(k + [q, p])
    requires forall y :: Class(pq, y, ByKey(locale)) == Class(k + [p, q], y, ByKey(locale))
    requires forall y :: Class(qp, y, ByKey(locale)) == Class(k + [q, p], y, ByKey(locale))
    ensures Sort(pq, ByKey(locale)) == Sort(qp, ByKey(locale)) <==> !Same(p, q, ByKey(locale))
  {
    SwapClassesIff(k, p, q, locale);
    ByKeyPreorder(pq, locale);
    SameMembers(pq, k + [p, q]);
    SortSameIff(pq, qp, ByKey(locale));
  }
}
