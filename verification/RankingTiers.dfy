/**
 The ranking-tier list: a row is replaced or appended and the list sorted again
 by (sortOrder, stake). `number` stands for `Number` on a stake's text.
 */
module RankingTiers {
  import opened Runs
  import opened Wrappers
  import opened StableSort

  /** `sortOrder` holds a parsed JSON number or `Number(text) || 0`, so it is never NaN. */
  type Rank = n: Number | !n.NaN? witness Num(0.0)

  datatype Tier = Tier(
    id: string,
    key: string,
    name: string,
    stakeAmountGld: string,
    entryFeeGld: string,
    payoutAmountGld: Option<string>,
    enabled: bool,
    sortOrder: Rank)

  /** What the comparator returns: the sort orders' difference, or the stakes' where that is falsy. */
  function Compare(left: Tier, right: Tier, number: Reader): Number {
    left.sortOrder.Minus(right.sortOrder).Or(number(left.stakeAmountGld).Minus(number(right.stakeAmountGld)))
  }

  /** At most zero, where `sort` takes NaN for zero. */
  predicate AtMostZero(n: Number) {
    n.NaN? || n.NegInf? || (n.Num? && n.value <= 0.0)
  }

  function Comparator(number: Reader): (Tier, Tier) -> bool {
    (left: Tier, right: Tier) => AtMostZero(Compare(left, right, number))
  }

  function Replace(items: seq<Tier>, id: string, next: Tier): (r: seq<Tier>)
    ensures |r| == |items|
    ensures forall i | 0 <= i < |r| :: r[i] == if items[i].id == id then next else items[i]
  {
    seq(|items|, i requires 0 <= i < |items| => if items[i].id == id then next else items[i])
  }

  function Updated(items: seq<Tier>, id: string, next: Tier, number: Reader): seq<Tier> {
    Sort(Replace(items, id, next), Comparator(number))
  }

  function Created(items: seq<Tier>, next: Tier, number: Reader): seq<Tier> {
    Sort(items + [next], Comparator(number))
  }

  /** What can be typed into a listed tier. */
  datatype Change = Stake(text: string) | Fee(text: string) | Order(text: string)

  function Apply(t: Tier, change: Change, number: Reader): (r: Tier)
    ensures r.id == t.id
  {
    match change
    case Stake(text) => t.(stakeAmountGld := text)
    case Fee(text) => t.(entryFeeGld := text)
    case Order(text) => t.(sortOrder := number(text).Or(Num(0.0)))
  }

  /** Only the field that was typed into changes, and a sort order that is no number counts as zero. */
  lemma ApplyFields(t: Tier, text: string, number: Reader)
    ensures Apply(t, Stake(text), number)
         == Tier(t.id, t.key, t.name, text, t.entryFeeGld, t.payoutAmountGld, t.enabled, t.sortOrder)
    ensures Apply(t, Fee(text), number)
         == Tier(t.id, t.key, t.name, t.stakeAmountGld, text, t.payoutAmountGld, t.enabled, t.sortOrder)
    ensures Apply(t, Order(text), number)
         == Tier(t.id, t.key, t.name, t.stakeAmountGld, t.entryFeeGld, t.payoutAmountGld, t.enabled,
                 if number(text).NaN? then Num(0.0) else number(text))
  {
  }

  function Edited(items: seq<Tier>, id: string, change: Change, number: Reader): (r: seq<Tier>)
    ensures |r| == |items|
    ensures forall i | 0 <= i < |r| :: r[i] == if items[i].id == id then Apply(items[i], change, number) else items[i]
  {
    seq(|items|, i requires 0 <= i < |items| =>
      if items[i].id == id then Apply(items[i], change, number) else items[i])
  }

  // ------------------------------------------------------------------ the view

  /** The create form's fields. */
  datatype Draft = Draft(name: string, stakeAmountGld: string, entryFeeGld: string, sortOrder: string)

  const EMPTY_DRAFT := Draft("", "5", "1", "0")

  class RankingPanel {
    var tiers: seq<Tier>
    var saving: Option<string>
    var failed: bool
    var draft: Draft
    var showCreate: bool
    const number: Reader

    constructor (number: Reader)
      ensures tiers == [] && saving == None && !failed && this.number == number
      ensures draft == EMPTY_DRAFT && !showCreate
    {
      this.number := number;
      tiers, saving, failed := [], None, false;
      draft, showCreate := EMPTY_DRAFT, false;
    }

    /** `load` received both lists. */
    method Load(rows: seq<Tier>)
      modifies this`tiers, this`failed
      ensures tiers == rows && !failed
    {
      failed := false;
      tiers := rows;
    }

    /** The outcome of `update` on the tier with this id; None is a failed request. */
    method FinishUpdate(id: string, reply: Option<Tier>)
      modifies this`tiers, this`saving, this`failed
      ensures saving == None
      ensures reply.Some? ==> tiers == Updated(old(tiers), id, reply.value, number) && failed == old(failed)
      ensures reply.None? ==> tiers == old(tiers) && failed
    {
      match reply {
        case Some(next) => tiers := Sort(Replace(tiers, id, next), Comparator(number));
        case None => failed := true;
      }
      saving := None;
    }

    /** The outcome of `create`; the form is cleared and closed only on success. */
    method FinishCreate(reply: Option<Tier>)
      modifies this`tiers, this`saving, this`failed, this`draft, this`showCreate
      ensures saving == None
      ensures reply.Some? ==>
                && tiers == Created(old(tiers), reply.value, number) && failed == old(failed)
                && draft == EMPTY_DRAFT && !showCreate
      ensures reply.None? ==>
                && tiers == old(tiers) && failed
                && draft == old(draft) && showCreate == old(showCreate)
    {
      match reply {
        case Some(next) =>
          tiers := Sort(tiers + [next], Comparator(number));
          draft := EMPTY_DRAFT;
          showCreate := false;
        case None =>
          failed := true;
      }
      saving := None;
    }

    /** Typing into a listed tier changes that row in place, without sorting. */
    method Edit(id: string, change: Change)
      modifies this`tiers
      ensures tiers == Edited(old(tiers), id, change, number)
      ensures forall k: nat | k < |tiers| && UniqueIds(old(tiers)) && old(tiers)[k].id == id ::
                tiers == old(tiers)[k := Apply(old(tiers)[k], change, number)]
    {
      tiers := seq(|tiers|, i requires 0 <= i < |tiers| reads this =>
        if tiers[i].id == id then Apply(tiers[i], change, number) else tiers[i]);
    }
  }

  // -------------------------------------------------- when the comparator is consistent

  /** Beside a tier whose stake is not a number, equally ordered stakes must all be equal. */
  ghost predicate NoStakeClash(items: seq<Tier>, number: Reader) {
    forall a, b, c | a in items && b in items && c in items && a.sortOrder == b.sortOrder == c.sortOrder
                     && number(b.stakeAmountGld).NaN?
                     && !number(a.stakeAmountGld).NaN? && !number(c.stakeAmountGld).NaN? ::
      number(a.stakeAmountGld) == number(c.stakeAmountGld)
  }

  /** The comparator in terms of order: by sort order, then by stake, where what is no number is level with all. */
  predicate Below(a: Tier, b: Tier, x: Number, y: Number) {
    a.sortOrder.Less(b.sortOrder) || (a.sortOrder == b.sortOrder && !y.Less(x))
  }

  lemma CompareIs(a: Tier, b: Tier, number: Reader)
    ensures Comparator(number)(a, b) <==> Below(a, b, number(a.stakeAmountGld), number(b.stakeAmountGld))
  {
    MinusOrders(a.sortOrder, b.sortOrder);
    MinusOrders(number(a.stakeAmountGld), number(b.stakeAmountGld));
  }

  lemma ConsistentHasNoClash(items: seq<Tier>, number: Reader)
    requires PreorderOn(items, Comparator(number))
    ensures NoStakeClash(items, number)
  {
    var le := Comparator(number);
    forall a, b, c | a in items && b in items && c in items && a.sortOrder == b.sortOrder == c.sortOrder
                     && number(b.stakeAmountGld).NaN?
                     && !number(a.stakeAmountGld).NaN? && !number(c.stakeAmountGld).NaN?
      ensures number(a.stakeAmountGld) == number(c.stakeAmountGld)
    {
      CompareIs(a, b, number);
      CompareIs(b, a, number);
      CompareIs(b, c, number);
      CompareIs(c, b, number);
      assert le(a, c) && le(c, a);
      CompareIs(a, c, number);
      CompareIs(c, a, number);
    }
  }

  lemma NoClashConsistent(items: seq<Tier>, number: Reader)
    requires NoStakeClash(items, number)
    ensures PreorderOn(items, Comparator(number))
  {
    var le := Comparator(number);
    forall a, b ensures le(a, b) <==> Below(a, b, number(a.stakeAmountGld), number(b.stakeAmountGld)) {
      CompareIs(a, b, number);
    }
  }

  /** `a - b || c - d` is a total preorder on a list exactly when no such clash occurs in it. */
  lemma ComparatorConsistentIff(items: seq<Tier>, number: Reader)
    ensures PreorderOn(items, Comparator(number)) <==> NoStakeClash(items, number)
  {
    if PreorderOn(items, Comparator(number)) { ConsistentHasNoClash(items, number); }
    if NoStakeClash(items, number) { NoClashConsistent(items, number); }
  }

  /** One unreadable stake between two different ones makes the comparator inconsistent. */
  lemma UnreadableStakeExample(t: Tier, number: Reader)
    requires number("1") == Num(1.0) && number("2") == Num(2.0) && number("?") == NaN
    ensures !PreorderOn([t.(stakeAmountGld := "2"), t.(stakeAmountGld := "?"), t.(stakeAmountGld := "1")],
                        Comparator(number))
  {
    var a, b, c := t.(stakeAmountGld := "2"), t.(stakeAmountGld := "?"), t.(stakeAmountGld := "1");
    var items := [a, b, c];
    ComparatorConsistentIff(items, number);
    assert a in items && b in items && c in items;
    assert number(a.stakeAmountGld) != number(c.stakeAmountGld);
  }

  // ------------------------------------------------------------------- theorems

  ghost predicate UniqueIds(items: seq<Tier>) {
    forall i, j | 0 <= i < j < |items| :: items[i].id != items[j].id
  }

  /** With the row at position k, replacing by its id changes that row alone. */
  lemma ReplaceOne(items: seq<Tier>, k: nat, next: Tier)
    requires UniqueIds(items) && k < |items|
    ensures Replace(items, items[k].id, next) == items[k := next]
  {
  }

  /**
   An update gives the stable sorted rearrangement of the list with that one row
   replaced: the order is by (sortOrder, stake) and ties stay where they were.
   */
  lemma UpdatedSpec(items: seq<Tier>, k: nat, next: Tier, number: Reader)
    requires UniqueIds(items) && k < |items|
    requires NoStakeClash(items[k := next], number)
    ensures IsStableSort(items[k := next], Updated(items, items[k].id, next, number), Comparator(number))
    ensures multiset(Updated(items, items[k].id, next, number))
         == multiset(items) - multiset{items[k]} + multiset{next}
    ensures Ascending(Updated(items, items[k].id, next, number), number)
  {
    ReplaceOne(items, k, next);
    SortedStably(items[k := next], number);
    SortedAscends(items[k := next], number);
    SortContents(items[k := next], Comparator(number));
  }

  /** No tier comes before one of a lower sort order, or of the same sort order and a lower stake. */
  ghost predicate Ascending(items: seq<Tier>, number: Reader) {
    forall i, j | 0 <= i < j < |items| ::
      && !items[j].sortOrder.Less(items[i].sortOrder)
      && (items[i].sortOrder == items[j].sortOrder ==>
            !number(items[j].stakeAmountGld).Less(number(items[i].stakeAmountGld)))
  }

  lemma SortedAscends(items: seq<Tier>, number: Reader)
    requires IsStableSort(items, Sort(items, Comparator(number)), Comparator(number))
    ensures Ascending(Sort(items, Comparator(number)), number)
  {
    var sorted := Sort(items, Comparator(number));
    forall i, j | 0 <= i < j < |sorted|
      ensures Below(sorted[i], sorted[j], number(sorted[i].stakeAmountGld), number(sorted[j].stakeAmountGld))
    {
      CompareIs(sorted[i], sorted[j], number);
    }
  }

  lemma SortedStably(items: seq<Tier>, number: Reader)
    requires NoStakeClash(items, number)
    ensures IsStableSort(items, Sort(items, Comparator(number)), Comparator(number))
  {
    ComparatorConsistentIff(items, number);
    SortIsStable(items, Comparator(number));
  }

  /** A create gives the stable sorted rearrangement of the list with the row appended. */
  lemma CreatedSpec(items: seq<Tier>, next: Tier, number: Reader)
    requires NoStakeClash(items + [next], number)
    ensures IsStableSort(items + [next], Created(items, next, number), Comparator(number))
    ensures multiset(Created(items, next, number)) == multiset(items) + multiset{next}
    ensures Ascending(Created(items, next, number), number)
  {
    SortedStably(items + [next], number);
    SortedAscends(items + [next], number);
  }

  predicate DifferentIds(a: Tier, b: Tier) {
    a.id != b.id
  }

  /** Ids of a rearranged list are distinct exactly when they were before. */
  lemma UniqueIdsForgetsOrder(s: seq<Tier>, t: seq<Tier>)
    requires multiset(s) == multiset(t)
    ensures UniqueIds(s) <==> UniqueIds(t)
  {
    if UniqueIds(s) { PairwiseForgetsOrder(s, t, DifferentIds); }
    if UniqueIds(t) { PairwiseForgetsOrder(t, s, DifferentIds); }
  }

  /** After an update ids stay distinct exactly when the reply's id is no other row's. */
  lemma UpdatedUniqueIff(items: seq<Tier>, k: nat, next: Tier, number: Reader)
    requires UniqueIds(items) && k < |items|
    ensures UniqueIds(Updated(items, items[k].id, next, number)) <==>
            forall i | 0 <= i < |items| && i != k :: items[i].id != next.id
  {
    var replaced := items[k := next];
    ReplaceOne(items, k, next);
    SortContents(replaced, Comparator(number));
    UniqueIdsForgetsOrder(Updated(items, items[k].id, next, number), replaced);
    assert UniqueIds(replaced) <==> forall i | 0 <= i < |items| && i != k :: items[i].id != next.id by {
      assert replaced[k] == next && forall i | 0 <= i < |items| && i != k :: replaced[i] == items[i];
    }
  }

  /** After a create ids stay distinct exactly when the new row's id is new. */
  lemma CreatedUniqueIff(items: seq<Tier>, next: Tier, number: Reader)
    requires UniqueIds(items)
    ensures UniqueIds(Created(items, next, number)) <==> forall i | 0 <= i < |items| :: items[i].id != next.id
  {
    var extended := items + [next];
    SortContents(extended, Comparator(number));
    UniqueIdsForgetsOrder(Created(items, next, number), extended);
    assert extended[|items|] == next && forall i | 0 <= i < |items| :: extended[i] == items[i];
  }

  /** Applying the same reply again changes nothing. */
  lemma UpdateIdempotent(items: seq<Tier>, k: nat, next: Tier, number: Reader)
    requires UniqueIds(items) && k < |items| && next.id == items[k].id
    requires NoStakeClash(items[k := next], number)
    ensures var once := Updated(items, next.id, next, number);
            Updated(once, next.id, next, number) == once
  {
    var replaced := items[k := next];
    var once := Updated(items, next.id, next, number);
    ReplaceOne(items, k, next);
    SortedStably(replaced, number);
    SameMembers(once, replaced);
    assert replaced[k] == next;
    UpdatedUniqueIff(items, k, next, number);
    assert next in once;
    ReplaceByItself(once, next);
    SortOfSorted(replaced, once, number);
  }

  lemma ReplaceByItself(items: seq<Tier>, next: Tier)
    requires UniqueIds(items) && next in items
    ensures Replace(items, next.id, next) == items
  {
  }

  lemma SortOfSorted(items: seq<Tier>, sorted: seq<Tier>, number: Reader)
    requires NoStakeClash(items, number)
    requires IsStableSort(items, sorted, Comparator(number))
    ensures Sort(sorted, Comparator(number)) == sorted
  {
    SameMembers(items, sorted);
    ComparatorConsistentIff(sorted, number);
    StableSortUnique(sorted, sorted, Comparator(number));
  }

  // ---------------------------------------------------------- the table as a map

  /** Ids are distinct, and m maps each row's id to the row, and nothing else. */
  ghost predicate IsTable(m: map<string, Tier>, items: seq<Tier>) {
    && UniqueIds(items)
    && (forall t | t in items :: t.id in m && m[t.id] == t)
    && (forall id | id in m :: m[id] in items && m[id].id == id)
  }

  /** What changes the list between loads: the replies, and what is typed into a tier. */
  datatype Event =
    | UpdateReply(id: string, next: Tier)
    | CreateReply(next: Tier)
    | Typed(id: string, change: Change)

  function Step(items: seq<Tier>, e: Event, number: Reader): seq<Tier> {
    match e
    case UpdateReply(id, next) => Updated(items, id, next, number)
    case CreateReply(next) => Created(items, next, number)
    case Typed(id, change) => Edited(items, id, change, number)
  }

  function Stepper(number: Reader): (seq<Tier>, Event) -> seq<Tier> {
    (items, e) => Step(items, e, number)
  }

  ghost function StepMap(m: map<string, Tier>, e: Event, number: Reader): map<string, Tier> {
    match e
    case UpdateReply(id, next) => if id in m then (m - {id})[next.id := next] else m
    case CreateReply(next) => m[next.id := next]
    case Typed(id, change) => if id in m then m[id := Apply(m[id], change, number)] else m
  }

  /** A reply's id is not another row's. */
  ghost predicate Honest(m: map<string, Tier>, e: Event) {
    match e
    case UpdateReply(id, next) => id in m && next.id in m ==> next.id == id
    case CreateReply(next) => next.id !in m
    case Typed(_, _) => true
  }

  lemma TableForgetsOrder(m: map<string, Tier>, s: seq<Tier>, t: seq<Tier>)
    requires multiset(s) == multiset(t)
    ensures IsTable(m, s) <==> IsTable(m, t)
  {
    UniqueIdsForgetsOrder(s, t);
    SameMembers(s, t);
  }

  lemma PositionOf(m: map<string, Tier>, items: seq<Tier>, id: string) returns (k: nat)
    requires IsTable(m, items) && id in m
    ensures k < |items| && items[k] == m[id] && items[k].id == id
  {
    k :| 0 <= k < |items| && items[k] == m[id];
  }

  lemma ReplaceTableIff(m: map<string, Tier>, items: seq<Tier>, k: nat, next: Tier)
    requires IsTable(m, items) && k < |items|
    ensures IsTable((m - {items[k].id})[next.id := next], items[k := next]) <==>
            (next.id in m ==> next.id == items[k].id)
  {
    var id, after := items[k].id, items[k := next];
    assert after[k] == next && forall i | 0 <= i < |items| && i != k :: after[i] == items[i];
    if next.id in m && next.id != id {
      var j := PositionOf(m, items, next.id);
      assert after[j].id == after[k].id;
    } else {
      ReplaceTable(m, items, k, next);
    }
  }

  lemma ReplaceTable(m: map<string, Tier>, items: seq<Tier>, k: nat, next: Tier)
    requires IsTable(m, items) && k < |items|
    requires next.id in m ==> next.id == items[k].id
    ensures IsTable((m - {items[k].id})[next.id := next], items[k := next])
  {
    var after, m' := items[k := next], (m - {items[k].id})[next.id := next];
    assert after[k] == next && forall i | 0 <= i < |items| && i != k :: after[i] == items[i];
    forall id | id in m' ensures m'[id] in after && m'[id].id == id {
      if id != next.id {
        var j := PositionOf(m, items, id);
        assert after[j] == m'[id];
      }
    }
    assert forall i | 0 <= i < |items| && i != k :: items[i] in items && items[i].id != items[k].id;
  }

  lemma AbsentUnchanged(m: map<string, Tier>, items: seq<Tier>, id: string, next: Tier)
    requires IsTable(m, items) && id !in m
    ensures Replace(items, id, next) == items
  {
    assert forall i | 0 <= i < |items| :: items[i] in items;
  }

  lemma UpdateTableIff(m: map<string, Tier>, items: seq<Tier>, id: string, next: Tier, number: Reader)
    requires IsTable(m, items)
    ensures IsTable(StepMap(m, UpdateReply(id, next), number), Updated(items, id, next, number)) <==>
            Honest(m, UpdateReply(id, next))
  {
    SortContents(Replace(items, id, next), Comparator(number));
    TableForgetsOrder(
      StepMap(m, UpdateReply(id, next), number), Replace(items, id, next), Updated(items, id, next, number));
    if id in m {
      var k := PositionOf(m, items, id);
      ReplaceOne(items, k, next);
      ReplaceTableIff(m, items, k, next);
    } else {
      AbsentUnchanged(m, items, id, next);
    }
  }

  lemma AppendTableIff(m: map<string, Tier>, items: seq<Tier>, next: Tier)
    requires IsTable(m, items)
    ensures IsTable(m[next.id := next], items + [next]) <==> next.id !in m
  {
    var after := items + [next];
    assert after[|items|] == next && forall i | 0 <= i < |items| :: after[i] == items[i];
    if next.id in m {
      var j := PositionOf(m, items, next.id);
      assert after[j].id == after[|items|].id;
    } else {
      assert forall i | 0 <= i < |items| :: items[i] in items;
    }
  }

  lemma EditTable(m: map<string, Tier>, items: seq<Tier>, id: string, change: Change, number: Reader)
    requires IsTable(m, items)
    ensures IsTable(StepMap(m, Typed(id, change), number), Edited(items, id, change, number))
  {
    if id in m {
      var k := PositionOf(m, items, id);
      var next := Apply(m[id], change, number);
      ReplaceTable(m, items, k, next);
      assert Edited(items, id, change, number) == items[k := next];
      assert (m - {id})[id := next] == m[id := next];
    } else {
      AbsentUnchangedByEdit(m, items, id, change, number);
    }
  }

  lemma AbsentUnchangedByEdit(m: map<string, Tier>, items: seq<Tier>, id: string, change: Change, number: Reader)
    requires IsTable(m, items) && id !in m
    ensures Edited(items, id, change, number) == items
  {
    assert forall i | 0 <= i < |items| :: items[i] in items;
  }

  /** An event does to the list what it does to the map exactly when its reply's id is not another row's. */
  lemma StepRefinesMapIff(m: map<string, Tier>, items: seq<Tier>, e: Event, number: Reader)
    requires IsTable(m, items)
    ensures IsTable(StepMap(m, e, number), Step(items, e, number)) <==> Honest(m, e)
  {
    match e {
      case UpdateReply(id, next) => UpdateTableIff(m, items, id, next, number);
      case CreateReply(next) =>
        SortContents(items + [next], Comparator(number));
        TableForgetsOrder(m[next.id := next], items + [next], Created(items, next, number));
        AppendTableIff(m, items, next);
      case Typed(id, change) => EditTable(m, items, id, change, number);
    }
  }

  ghost function RunMap(m: map<string, Tier>, es: seq<Event>, number: Reader): map<string, Tier> {
    if es == [] then m else StepMap(RunMap(m, es[..|es| - 1], number), es[|es| - 1], number)
  }

  /** Every reply of the run is honest when it arrives. */
  ghost predicate HonestRun(m: map<string, Tier>, es: seq<Event>, number: Reader) {
    es == [] || (HonestRun(m, es[..|es| - 1], number) && Honest(RunMap(m, es[..|es| - 1], number), es[|es| - 1]))
  }

  /** The list and the map agree after every event of the run. */
  ghost predicate Tracks(m: map<string, Tier>, items: seq<Tier>, es: seq<Event>, number: Reader) {
    && IsTable(RunMap(m, es, number), Run(items, es, Stepper(number)))
    && (es == [] || Tracks(m, items, es[..|es| - 1], number))
  }

  /** Throughout a run between loads the list is the map of the run's events exactly when all its replies are honest. */
  lemma {:induction false} RunRefinesMapIff(m: map<string, Tier>, items: seq<Tier>, es: seq<Event>, number: Reader)
    requires IsTable(m, items)
    ensures Tracks(m, items, es, number) <==> HonestRun(m, es, number)
  {
    if es != [] {
      var front := es[..|es| - 1];
      RunRefinesMapIff(m, items, front, number);
      if Tracks(m, items, front, number) {
        StepRefinesMapIff(RunMap(m, front, number), Run(items, front, Stepper(number)), es[|es| - 1], number);
      }
    }
  }
}
