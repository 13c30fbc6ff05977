/** The card list orderings of the browser view (`sortCards`): six sort keys,
    each a comparator handed to the stable `Array.prototype.sort`. */
module Sorting {
  import opened Collections
  import opened Cards
  import Text
  import StableSort

  /** The six orderings; every unrecognised key sorts by collector number. */
  datatype SortKey = BinderOrder | ByName | PriceAsc | PriceDesc | ByRarity | BySetNumber

  /** The key named by the `sortBy` state. */
  function ParseSortKey(sortBy: string): (k: SortKey)
    ensures k == BinderOrder <==> sortBy == "binderOrder"
    ensures k == ByName <==> sortBy == "name"
    ensures k == PriceAsc <==> sortBy == "priceAsc"
    ensures k == PriceDesc <==> sortBy == "priceDesc"
    ensures k == ByRarity <==> sortBy == "rarity"
    ensures k == BySetNumber <==>
              !(sortBy in {"binderOrder", "name", "priceAsc", "priceDesc", "rarity"})
  {
    if sortBy == "binderOrder" then BinderOrder
    else if sortBy == "name" then ByName
    else if sortBy == "priceAsc" then PriceAsc
    else if sortBy == "priceDesc" then PriceDesc
    else if sortBy == "rarity" then ByRarity
    else BySetNumber
  }

  /** Position of a set in the binder: the seven known sets in a fixed order,
      anything else (including a card without a set) at 999. */
  function SetRank(setCode: Option<string>): (n: nat)
    ensures 1 <= n <= 7 || n == 999
    ensures n == 999 <==> setCode.None? || setCode.value !in {"SPM", "SPE", "MAR", "TSPM", "LMAR", "ASPM", "PSPM"}
  {
    match setCode
    case None => 999
    case Some(s) =>
      if s == "SPM" then 1
      else if s == "SPE" then 2
      else if s == "MAR" then 3
      else if s == "TSPM" then 4
      else if s == "LMAR" then 5
      else if s == "ASPM" then 6
      else if s == "PSPM" then 7
      else 999
  }

  /** The collector number as the comparators read it: `parseInt(setNumber) || 0`. */
  function Number(c: Card): int
  {
    Text.IntOrZero(c.setNumber)
  }

  /** `a.localeCompare(b)` with the locale order replaced by the
      lexicographic order of character codes. */
  function LocaleCompare(a: string, b: string): (r: int)
    ensures r == 0 <==> a == b
    ensures r < 0 <==> Text.Less(a, b)
  {
    Text.LessTotal(a, b);
    Text.LessIrreflexive(a);
    if a == b then 0 else if Text.Less(a, b) then -1 else 1
  }

  /** The comparator of each key: negative puts `a` first, positive puts `b`
      first, zero keeps their relative order. */
  function Compare(k: SortKey, a: Card, b: Card): int
  {
    match k
    case BinderOrder =>
      var setDiff := SetRank(a.setCode) - SetRank(b.setCode);
      if setDiff != 0 then setDiff else Number(a) - Number(b)
    case ByName => LocaleCompare(a.name, b.name)
    case PriceAsc => a.price - b.price
    case PriceDesc => b.price - a.price
    case ByRarity =>
      var orderDiff := RarityRank(b.rarity) - RarityRank(a.rarity);
      if orderDiff != 0 then orderDiff else LocaleCompare(a.name, b.name)
    case BySetNumber => Number(a) - Number(b)
  }

  /** `a` may come before `b`: the comparator does not put `b` first. */
  predicate Le(k: SortKey, a: Card, b: Card)
  {
    Compare(k, a, b) <= 0
  }

  /** What each comparator means as an order on cards. */
  lemma LeMeaning(k: SortKey, a: Card, b: Card)
    ensures k == BinderOrder ==> (Le(k, a, b) <==>
              SetRank(a.setCode) < SetRank(b.setCode)
              || (SetRank(a.setCode) == SetRank(b.setCode) && Number(a) <= Number(b)))
    ensures k == ByName ==> (Le(k, a, b) <==> Text.LessEq(a.name, b.name))
    ensures k == PriceAsc ==> (Le(k, a, b) <==> a.price <= b.price)
    ensures k == PriceDesc ==> (Le(k, a, b) <==> a.price >= b.price)
    ensures k == ByRarity ==> (Le(k, a, b) <==>
              RarityRank(a.rarity) > RarityRank(b.rarity)
              || (RarityRank(a.rarity) == RarityRank(b.rarity) && Text.LessEq(a.name, b.name)))
    ensures k == BySetNumber ==> (Le(k, a, b) <==> Number(a) <= Number(b))
  {
  }

  /** Any two cards are ordered one way or the other. */
  lemma LeTotal(k: SortKey, a: Card, b: Card)
    ensures Le(k, a, b) || Le(k, b, a)
  {
    LeMeaning(k, a, b);
    LeMeaning(k, b, a);
    Text.LessEqTotal(a.name, b.name);
  }

  /** Each comparator orders cards transitively. */
  lemma LeTransitive(k: SortKey, a: Card, b: Card, c: Card)
    requires Le(k, a, b) && Le(k, b, c)
    ensures Le(k, a, c)
  {
    LeMeaning(k, a, b);
    LeMeaning(k, b, c);
    LeMeaning(k, a, c);
    if k == ByName || k == ByRarity {
      if Text.LessEq(a.name, b.name) && Text.LessEq(b.name, c.name) {
        Text.LessEqTransitive(a.name, b.name, c.name);
      }
    }
  }

  /** The order on views that the sort of key `k` uses. */
  function Order(k: SortKey): (View, View) -> bool
  {
    (a: View, b: View) => Le(k, a.card, b.card)
  }

  /** Each comparator is a total preorder, so the stable sort applies. */
  lemma OrderIsTotalPreorder(k: SortKey)
    ensures StableSort.TotalPreorder(Order(k))
  {
    forall a: View, b: View ensures Order(k)(a, b) || Order(k)(b, a) {
      LeTotal(k, a.card, b.card);
    }
    forall a: View, b: View, c: View | Order(k)(a, b) && Order(k)(b, c) ensures Order(k)(a, c) {
      LeTransitive(k, a.card, b.card, c.card);
    }
  }

  /** `sortCards(cardsToSort)` for the current `sortBy`: a stable sort by the
      key's comparator. */
  function SortCards(sortBy: string, vs: seq<View>): (r: seq<View>)
    ensures multiset(r) == multiset(vs)
    ensures forall i, j :: 0 <= i < j < |r| ==> Le(ParseSortKey(sortBy), r[i].card, r[j].card)
    ensures forall y :: Filter(r, StableSort.SameRank(Order(ParseSortKey(sortBy)), y))
                        == Filter(vs, StableSort.SameRank(Order(ParseSortKey(sortBy)), y))
  {
    var k := ParseSortKey(sortBy);
    OrderIsTotalPreorder(k);
    var r := StableSort.Sort(Order(k), vs);
    forall y ensures Filter(r, StableSort.SameRank(Order(k), y)) == Filter(vs, StableSort.SameRank(Order(k), y)) {
      StableSort.SortStable(Order(k), vs, y);
    }
    r
  }

  // ----- What each ordering guarantees -----

  /** Binder order: set ranks never decrease, so unknown sets (999) come after
      every known one, and within a set collector numbers never decrease. */
  lemma BinderOrderSorted(vs: seq<View>)
    ensures forall i, j :: 0 <= i < j < |SortCards("binderOrder", vs)| ==>
              var a := SortCards("binderOrder", vs)[i].card;
              var b := SortCards("binderOrder", vs)[j].card;
              SetRank(a.setCode) <= SetRank(b.setCode)
              && (SetRank(a.setCode) == SetRank(b.setCode) ==> Number(a) <= Number(b))
  {
    var r := SortCards("binderOrder", vs);
    forall i, j | 0 <= i < j < |r|
      ensures SetRank(r[i].card.setCode) <= SetRank(r[j].card.setCode)
      ensures SetRank(r[i].card.setCode) == SetRank(r[j].card.setCode) ==> Number(r[i].card) <= Number(r[j].card)
    {
      LeMeaning(BinderOrder, r[i].card, r[j].card);
    }
  }

  /** `priceAsc` never decreases in price and `priceDesc` never increases. */
  lemma PriceSorted(vs: seq<View>)
    ensures forall i, j :: 0 <= i < j < |SortCards("priceAsc", vs)| ==>
              SortCards("priceAsc", vs)[i].card.price <= SortCards("priceAsc", vs)[j].card.price
    ensures forall i, j :: 0 <= i < j < |SortCards("priceDesc", vs)| ==>
              SortCards("priceDesc", vs)[i].card.price >= SortCards("priceDesc", vs)[j].card.price
  {
  }

  /** `rarity` never increases in rarity rank (unknown rarities rank 0, last),
      and cards of one rank are in name order. */
  lemma RaritySorted(vs: seq<View>)
    ensures forall i, j :: 0 <= i < j < |SortCards("rarity", vs)| ==>
              var a := SortCards("rarity", vs)[i].card;
              var b := SortCards("rarity", vs)[j].card;
              RarityRank(a.rarity) >= RarityRank(b.rarity)
              && (RarityRank(a.rarity) == RarityRank(b.rarity) ==> Text.LessEq(a.name, b.name))
  {
    var r := SortCards("rarity", vs);
    forall i, j | 0 <= i < j < |r|
      ensures RarityRank(r[i].card.rarity) >= RarityRank(r[j].card.rarity)
      ensures RarityRank(r[i].card.rarity) == RarityRank(r[j].card.rarity) ==> Text.LessEq(r[i].card.name, r[j].card.name)
    {
      LeMeaning(ByRarity, r[i].card, r[j].card);
    }
  }

  /** `name` puts names in order. */
  lemma NameSorted(vs: seq<View>)
    ensures forall i, j :: 0 <= i < j < |SortCards("name", vs)| ==>
              Text.LessEq(SortCards("name", vs)[i].card.name, SortCards("name", vs)[j].card.name)
  {
    var r := SortCards("name", vs);
    forall i, j | 0 <= i < j < |r| ensures Text.LessEq(r[i].card.name, r[j].card.name) {
      LeMeaning(ByName, r[i].card, r[j].card);
    }
  }

  /** `setNumber`, and any key the view does not know, sort by collector
      number (non-numeric numbers read as 0) ascending. */
  lemma SetNumberSorted(sortBy: string, vs: seq<View>)
    requires !(sortBy in {"binderOrder", "name", "priceAsc", "priceDesc", "rarity"})
    ensures forall i, j :: 0 <= i < j < |SortCards(sortBy, vs)| ==>
              Number(SortCards(sortBy, vs)[i].card) <= Number(SortCards(sortBy, vs)[j].card)
  {
  }

  /** Sorting again by the same key changes nothing. */
  lemma SortCardsIdempotent(sortBy: string, vs: seq<View>)
    ensures SortCards(sortBy, SortCards(sortBy, vs)) == SortCards(sortBy, vs)
  {
    var k := ParseSortKey(sortBy);
    OrderIsTotalPreorder(k);
    StableSort.SortSortedIsIdentity(Order(k), SortCards(sortBy, vs));
  }
}
