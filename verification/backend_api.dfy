/** The read routes of the optional HTTP server: the filtered card list
    joined with the list-based collection, the filter options, and the
    collection statistics. */
module BackendApi {
  import opened Collections
  import opened Cards
  import opened LegacyCollection
  import Text
  import Ownership
  import Stats

  // ----- GET /api/cards -----

  /** The query string of `/api/cards`; an empty string means the key is absent. */
  datatype Query = Query(subset: string, source: string, minPrice: Bound, maxPrice: Bound,
                         rarity: string, owned: string)

  /** The card with its membership in the two lists. */
  function JoinLists(col: Collection, c: Card): (v: View)
    ensures v.card == c && v.owned == (c.id in col.owned) && v.ownedFoil == (c.id in col.ownedFoil)
  {
    View(c, c.id in col.owned, c.id in col.ownedFoil)
  }

  /** The ownership filter: only the exact values `true` and `false` filter. */
  predicate OwnedKeeps(mode: string, v: View)
  {
    if mode == "true" then v.owned || v.ownedFoil
    else if mode == "false" then !v.owned && !v.ownedFoil
    else true
  }

  /** The route's structural filters, in the order it applies them. A
      source filter keeps the cards whose source list holds exactly that
      source. */
  function Narrow(catalog: seq<Card>, q: Query): seq<Card>
  {
    var bySubset := if q.subset != "" then Filter(catalog, (c: Card) => c.subset == q.subset) else catalog;
    var bySource := if q.source != "" then Filter(bySubset, (c: Card) => q.source in c.source) else bySubset;
    var byMin := if q.minPrice != Unset then Filter(bySource, (c: Card) => AboveMin(c.price, q.minPrice)) else bySource;
    var byMax := if q.maxPrice != Unset then Filter(byMin, (c: Card) => BelowMax(c.price, q.maxPrice)) else byMin;
    if q.rarity != "" then Filter(byMax, (c: Card) => c.rarity == q.rarity) else byMax
  }

  /** `GET /api/cards`: the structural filters, the join with the two lists,
      then the ownership filter. */
  function ListCards(catalog: seq<Card>, col: Collection, q: Query): seq<View>
  {
    var joined := Map(Narrow(catalog, q), (c: Card) => JoinLists(col, c));
    if q.owned == "true" || q.owned == "false" then Filter(joined, (v: View) => OwnedKeeps(q.owned, v)) else joined
  }

  /** The card passes every structural filter that is set. */
  predicate StructuralMatch(q: Query, c: Card)
  {
    && (q.subset == "" || c.subset == q.subset)
    && (q.source == "" || q.source in c.source)
    && AboveMin(c.price, q.minPrice)
    && BelowMax(c.price, q.maxPrice)
    && (q.rarity == "" || c.rarity == q.rarity)
  }

  /** The chained structural filters are one filter by their conjunction. */
  lemma NarrowCharacterization(catalog: seq<Card>, q: Query)
    ensures Narrow(catalog, q) == Filter(catalog, (c: Card) => StructuralMatch(q, c))
  {
    var p0 := (c: Card) => true;
    var p1 := (c: Card) => q.subset == "" || c.subset == q.subset;
    var p2 := (c: Card) => p1(c) && (q.source == "" || q.source in c.source);
    var p3 := (c: Card) => p2(c) && (q.minPrice == Unset || AboveMin(c.price, q.minPrice));
    var p4 := (c: Card) => p3(c) && (q.maxPrice == Unset || BelowMax(c.price, q.maxPrice));
    var p5 := (c: Card) => p4(c) && (q.rarity == "" || c.rarity == q.rarity);
    FilterAll(catalog, p0);
    var bySubset := if q.subset != "" then Filter(catalog, (c: Card) => c.subset == q.subset) else catalog;
    FilterStep(catalog, catalog, q.subset != "", (c: Card) => c.subset == q.subset, p0, p1);
    var bySource := if q.source != "" then Filter(bySubset, (c: Card) => q.source in c.source) else bySubset;
    FilterStep(catalog, bySubset, q.source != "", (c: Card) => q.source in c.source, p1, p2);
    var byMin := if q.minPrice != Unset then Filter(bySource, (c: Card) => AboveMin(c.price, q.minPrice)) else bySource;
    FilterStep(catalog, bySource, q.minPrice != Unset, (c: Card) => AboveMin(c.price, q.minPrice), p2, p3);
    var byMax := if q.maxPrice != Unset then Filter(byMin, (c: Card) => BelowMax(c.price, q.maxPrice)) else byMin;
    FilterStep(catalog, byMin, q.maxPrice != Unset, (c: Card) => BelowMax(c.price, q.maxPrice), p3, p4);
    FilterStep(catalog, byMax, q.rarity != "", (c: Card) => c.rarity == q.rarity, p4, p5);
    FilterExt(catalog, p5, (c: Card) => StructuralMatch(q, c));
  }

  /** Whether the route keeps a catalog card. */
  predicate Keeps(col: Collection, q: Query, c: Card)
  {
    StructuralMatch(q, c) && OwnedKeeps(q.owned, JoinLists(col, c))
  }

  /** The route keeps exactly the catalog cards that pass every filter, in
      catalog order, each joined with its list membership. */
  lemma ListCardsCharacterization(catalog: seq<Card>, col: Collection, q: Query)
    ensures ListCards(catalog, col, q)
            == Map(Filter(catalog, (c: Card) => Keeps(col, q, c)), (c: Card) => JoinLists(col, c))
  {
    var sm := (c: Card) => StructuralMatch(q, c);
    var join := (c: Card) => JoinLists(col, c);
    var keep := (c: Card) => Keeps(col, q, c);
    NarrowCharacterization(catalog, q);
    if q.owned == "true" || q.owned == "false" {
      var o := (v: View) => OwnedKeeps(q.owned, v);
      FilterMap(Narrow(catalog, q), join, o, (c: Card) => o(join(c)));
      FilterFilter(catalog, sm, (c: Card) => o(join(c)), keep);
    } else {
      FilterExt(catalog, sm, keep);
    }
  }

  /** A view is returned exactly when its card is a catalog card that passes
      every filter, flagged by its membership in the two lists; the result
      keeps catalog order. */
  lemma ListCardsMembers(catalog: seq<Card>, col: Collection, q: Query, v: View)
    ensures IsSubseq(CardsOf(ListCards(catalog, col, q)), catalog)
    ensures v in ListCards(catalog, col, q) <==>
              v.card in catalog && Keeps(col, q, v.card) && v == JoinLists(col, v.card)
  {
    var keep := (c: Card) => Keeps(col, q, c);
    var join := (c: Card) => JoinLists(col, c);
    ListCardsCharacterization(catalog, col, q);
    ListedInOrder(Filter(catalog, keep), catalog, col, keep);
    ListedMember(Filter(catalog, keep), col, v);
  }

  /** The cards of the joined views are the kept cards, a subsequence of the
      catalog. */
  lemma ListedInOrder(kept: seq<Card>, catalog: seq<Card>, col: Collection, keep: Card -> bool)
    requires kept == Filter(catalog, keep)
    ensures IsSubseq(CardsOf(Map(kept, (c: Card) => JoinLists(col, c))), catalog)
  {
    FilterIsSubseq(catalog, keep);
    assert CardsOf(Map(kept, (c: Card) => JoinLists(col, c))) == kept;
  }

  /** A joined view of a kept card is its card with its flags. */
  lemma ListedMember(kept: seq<Card>, col: Collection, v: View)
    ensures v in Map(kept, (c: Card) => JoinLists(col, c)) <==>
              v.card in kept && v == JoinLists(col, v.card)
  {
    var join := (c: Card) => JoinLists(col, c);
    MapMembers(kept, join, v);
    if v.card in kept && v == join(v.card) {
      var i :| 0 <= i < |kept| && kept[i] == v.card;
    }
  }

  // ----- GET /api/filters -----

  /** The three option lists of `/api/filters`. */
  datatype Options = Options(subsets: seq<string>, sources: seq<string>, rarities: seq<string>)

  /** Distinct subsets, sources and rarities of the catalog, each sorted. */
  function FilterOptions(catalog: seq<Card>): (o: Options)
    ensures Text.StrictlySorted(o.subsets) && Text.StrictlySorted(o.sources) && Text.StrictlySorted(o.rarities)
    ensures forall s :: s in o.subsets <==> exists c :: c in catalog && c.subset == s
    ensures forall s :: s in o.sources <==> exists c :: c in catalog && s in c.source
    ensures forall s :: s in o.rarities <==> exists c :: c in catalog && c.rarity == s
  {
    var subsets := Map(catalog, (c: Card) => c.subset);
    var sources := Flatten(Map(catalog, (c: Card) => c.source));
    var rarities := Map(catalog, (c: Card) => c.rarity);
    forall s ensures s in subsets <==> exists c :: c in catalog && c.subset == s {
      MapMembers(catalog, (c: Card) => c.subset, s);
    }
    forall s ensures s in rarities <==> exists c :: c in catalog && c.rarity == s {
      MapMembers(catalog, (c: Card) => c.rarity, s);
    }
    var m := Map(catalog, (c: Card) => c.source);
    forall s ensures s in sources <==> exists c :: c in catalog && s in c.source {
      if exists c :: c in catalog && s in c.source {
        var c :| c in catalog && s in c.source;
        var i :| 0 <= i < |catalog| && catalog[i] == c;
        var j :| 0 <= j < |c.source| && c.source[j] == s;
        assert m[i][j] == s;
      }
    }
    Options(Text.SortedUnique(subsets), Text.SortedUnique(sources), Text.SortedUnique(rarities))
  }

  /** Each option list is the one sorted, duplicate-free list of its values:
      any other strictly sorted list of the same values is equal to it. */
  lemma FilterOptionsUnique(catalog: seq<Card>, subsets: seq<string>, sources: seq<string>, rarities: seq<string>)
    ensures Text.StrictlySorted(subsets) && (forall s :: s in subsets <==> exists c :: c in catalog && c.subset == s)
            ==> FilterOptions(catalog).subsets == subsets
    ensures Text.StrictlySorted(sources) && (forall s :: s in sources <==> exists c :: c in catalog && s in c.source)
            ==> FilterOptions(catalog).sources == sources
    ensures Text.StrictlySorted(rarities) && (forall s :: s in rarities <==> exists c :: c in catalog && c.rarity == s)
            ==> FilterOptions(catalog).rarities == rarities
  {
    var o := FilterOptions(catalog);
    if Text.StrictlySorted(subsets) && (forall s :: s in subsets <==> exists c :: c in catalog && c.subset == s) {
      Text.StrictlySortedUnique(o.subsets, subsets);
    }
    if Text.StrictlySorted(sources) && (forall s :: s in sources <==> exists c :: c in catalog && s in c.source) {
      Text.StrictlySortedUnique(o.sources, sources);
    }
    if Text.StrictlySorted(rarities) && (forall s :: s in rarities <==> exists c :: c in catalog && c.rarity == s) {
      Text.StrictlySortedUnique(o.rarities, rarities);
    }
  }

  // ----- GET /api/stats -----

  /** The numbers of `/api/stats`, prices in cents; percentages before the
      display rounding. */
  datatype ServerStats = ServerStats(
    totalCards: nat,
    ownedCards: nat,
    ownedFoils: nat,
    uniqueOwned: nat,
    percentage: real,
    totalMasterCards: nat,
    ownedMasterCards: nat,
    masterPercentage: real,
    totalValue: int,
    ownedValue: int)

  /** The value the route gives an owned foil: its foil price, or the regular
      price when the foil price is zero or missing. */
  function FoilValue(c: Card): (v: int)
    ensures c.foilPrice != 0 ==> v == c.foilPrice
    ensures c.foilPrice == 0 ==> v == c.price
  {
    if c.foilPrice != 0 then c.foilPrice else c.price
  }

  /** Number of variant slots of the catalog: one per regular and one per foil
      printing on offer. */
  function TotalMaster(catalog: seq<Card>): (n: nat)
    ensures n <= 2 * |catalog|
  {
    Count(catalog, (c: Card) => c.hasNonfoil) + Count(catalog, (c: Card) => c.hasFoil)
  }

  /** What the route's owned value counts for one catalog card: its price when
      its id is in `owned`, plus its foil value when its id is in `ownedFoil`.
      An id listed twice in one list still counts once, since the route
      filters the catalog by `includes`. */
  function CardValue(col: Collection, c: Card): int
  {
    (if c.id in col.owned then c.price else 0) + (if c.id in col.ownedFoil then FoilValue(c) else 0)
  }

  /** The route's statistics. `ownedMasterCards` adds the two list lengths. */
  function GetStats(catalog: seq<Card>, col: Collection): (s: ServerStats)
    ensures s.totalCards == |catalog| && s.ownedCards == |col.owned| && s.ownedFoils == |col.ownedFoil|
    ensures s.uniqueOwned == |Elements(col.owned + col.ownedFoil)|
    ensures s.uniqueOwned <= s.ownedCards + s.ownedFoils
    ensures s.percentage == Percent(s.uniqueOwned, s.totalCards)
    ensures s.totalMasterCards == TotalMaster(catalog)
    ensures s.ownedMasterCards == s.ownedCards + s.ownedFoils
    ensures s.masterPercentage == Percent(s.ownedMasterCards, s.totalMasterCards)
    ensures s.totalValue == Sum(catalog, (c: Card) => c.price)
    ensures s.ownedValue == Sum(catalog, (c: Card) => CardValue(col, c))
  {
    var unique := Elements(col.owned + col.ownedFoil);
    ElementsBound(col.owned + col.ownedFoil);
    var totalMaster := TotalMaster(catalog);
    var ownedMaster := |col.owned| + |col.ownedFoil|;
    var totalValue := Sum(catalog, (c: Card) => c.price);
    var ownedValue := Sum(Filter(catalog, (c: Card) => c.id in col.owned), (c: Card) => c.price)
                      + Sum(Filter(catalog, (c: Card) => c.id in col.ownedFoil), FoilValue);
    OwnedValueByCard(catalog, col);
    ServerStats(|catalog|, |col.owned|, |col.ownedFoil|, |unique|, Percent(|unique|, |catalog|),
          totalMaster, ownedMaster, Percent(ownedMaster, totalMaster), totalValue, ownedValue)
  }

  /** The two filtered sums of the route are one sum over the catalog of each
      card's value. */
  lemma OwnedValueByCard(catalog: seq<Card>, col: Collection)
    ensures Sum(Filter(catalog, (c: Card) => c.id in col.owned), (c: Card) => c.price)
            + Sum(Filter(catalog, (c: Card) => c.id in col.ownedFoil), FoilValue)
            == Sum(catalog, (c: Card) => CardValue(col, c))
  {
    var regular := (c: Card) => if c.id in col.owned then c.price else 0;
    var foil := (c: Card) => if c.id in col.ownedFoil then FoilValue(c) else 0;
    SumFilter(catalog, (c: Card) => c.id in col.owned, (c: Card) => c.price, regular);
    SumFilter(catalog, (c: Card) => c.id in col.ownedFoil, FoilValue, foil);
    SumAdd(catalog, regular, foil, (c: Card) => CardValue(col, c));
  }

  /** The master total is the browser's slot count: one slot per regular and
      one per foil printing. */
  lemma {:induction false} TotalMasterIsSlots(catalog: seq<Card>)
    ensures TotalMaster(catalog) == Sum(catalog, Stats.Slots)
    decreases |catalog|
  {
    if |catalog| > 0 {
      TotalMasterIsSlots(catalog[1..]);
    }
  }

  /** The server and the browser agree on the catalog-wide numbers that do not
      depend on ownership: the card count, the master total and the total
      value, whatever either side holds as owned. */
  lemma CatalogTotalsAgree(catalog: seq<Card>, col: Collection, owned: Ownership.Owned)
    ensures GetStats(catalog, col).totalCards == Stats.Summarize(catalog, owned).totalCards
    ensures GetStats(catalog, col).totalMasterCards == Stats.Summarize(catalog, owned).totalMasterCards
    ensures GetStats(catalog, col).totalValue == Stats.Summarize(catalog, owned).totalValue
  {
    TotalMasterIsSlots(catalog);
  }

  /** A sequence has at most as many distinct elements as entries. */
  lemma {:induction false} ElementsBound(s: seq<string>)
    ensures |Elements(s)| <= |s|
    decreases |s|
  {
    if |s| > 0 {
      var t := s[..|s| - 1];
      ElementsBound(t);
      assert s == t + [s[|s| - 1]];
      assert Elements(s) == Elements(t) + {s[|s| - 1]};
    }
  }

  /** With duplicate-free lists the unique count is inclusion–exclusion:
      regular plus foil minus the ids owned in both finishes. */
  lemma UniqueOwnedInclusionExclusion(catalog: seq<Card>, col: Collection)
    requires WellFormed(col)
    ensures GetStats(catalog, col).uniqueOwned
            == |col.owned| + |col.ownedFoil| - |Elements(col.owned) * Elements(col.ownedFoil)|
  {
    NoDuplicatesCard(col.owned);
    NoDuplicatesCard(col.ownedFoil);
    assert Elements(col.owned + col.ownedFoil) == Elements(col.owned) + Elements(col.ownedFoil);
  }

  /** The route's master count can exceed the number of variant slots: a foil
      listed for a card without a foil printing still counts. */
  lemma OwnedMasterExceedsTotal()
    ensures var c := Card("x", "X", "1", None, "Main Set", "Common", 10, 0, [], "", false, true);
            var s := GetStats([c], Collection(["x"], ["x"]));
            s.ownedMasterCards == 2 && s.totalMasterCards == 1 && s.masterPercentage == 200.0
  {
    var c := Card("x", "X", "1", None, "Main Set", "Common", 10, 0, [], "", false, true);
    assert Count([c], (c: Card) => c.hasNonfoil) == 1;
    assert Count([c], (c: Card) => c.hasFoil) == 0;
  }

  /** The owned variant slots of the catalog: a regular copy counts when the
      card has a regular printing, a foil when it has a foil printing, and ids
      outside the catalog do not count. */
  function OwnedMasterCorrected(catalog: seq<Card>, col: Collection): (n: nat)
    ensures n <= TotalMaster(catalog)
  {
    CountMonotone(catalog, (c: Card) => c.id in col.owned && c.hasNonfoil, (c: Card) => c.hasNonfoil);
    CountMonotone(catalog, (c: Card) => c.id in col.ownedFoil && c.hasFoil, (c: Card) => c.hasFoil);
    Count(catalog, (c: Card) => c.id in col.owned && c.hasNonfoil)
    + Count(catalog, (c: Card) => c.id in col.ownedFoil && c.hasFoil)
  }

  /** The statistics with the master count corrected. */
  function GetStatsCorrected(catalog: seq<Card>, col: Collection): (s: ServerStats)
    ensures s.ownedMasterCards <= s.totalMasterCards
    ensures 0.0 <= s.masterPercentage <= 100.0
  {
    var s := GetStats(catalog, col);
    var owned := OwnedMasterCorrected(catalog, col);
    s.(ownedMasterCards := owned, masterPercentage := Percent(owned, s.totalMasterCards))
  }

  /** A list of ids whose every entry names a distinct catalog card with the
      printing `p`, counted over the catalog. */
  lemma ListedCount(catalog: seq<Card>, list: seq<string>, p: Card -> bool)
    requires NoDuplicates(Map(catalog, (c: Card) => c.id))
    requires NoDuplicates(list)
    requires forall id :: id in list ==> exists c :: c in catalog && c.id == id && p(c)
    ensures Count(catalog, (c: Card) => c.id in list && p(c)) == |list|
  {
    var q := (c: Card) => c.id in list && p(c);
    var key := (c: Card) => c.id;
    CountDistinctKeys(catalog, key, q);
    var keys := KeysWhere(catalog, key, q);
    assert keys <= Elements(list);
    forall id | id in Elements(list) ensures id in keys {
      var c :| c in catalog && c.id == id && p(c);
      var i :| 0 <= i < |catalog| && catalog[i] == c;
      assert q(catalog[i]) && key(catalog[i]) == id;
    }
    assert keys == Elements(list);
    NoDuplicatesCard(list);
  }

  /** When catalog ids are distinct, the lists hold no duplicate and every
      listed id is a catalog card with that printing, the route's master count
      and the corrected one agree. */
  lemma OwnedMasterAgrees(catalog: seq<Card>, col: Collection)
    requires NoDuplicates(Map(catalog, (c: Card) => c.id))
    requires WellFormed(col)
    requires forall id :: id in col.owned ==> exists c :: c in catalog && c.id == id && c.hasNonfoil
    requires forall id :: id in col.ownedFoil ==> exists c :: c in catalog && c.id == id && c.hasFoil
    ensures GetStatsCorrected(catalog, col) == GetStats(catalog, col)
  {
    var regular := (c: Card) => c.hasNonfoil;
    var foil := (c: Card) => c.hasFoil;
    ListedCount(catalog, col.owned, regular);
    ListedCount(catalog, col.ownedFoil, foil);
    FilterExt(catalog, (c: Card) => c.id in col.owned && regular(c), (c: Card) => c.id in col.owned && c.hasNonfoil);
    FilterExt(catalog, (c: Card) => c.id in col.ownedFoil && foil(c), (c: Card) => c.id in col.ownedFoil && c.hasFoil);
    CountFilter(catalog, (c: Card) => c.id in col.owned && regular(c));
    CountFilter(catalog, (c: Card) => c.id in col.owned && c.hasNonfoil);
    CountFilter(catalog, (c: Card) => c.id in col.ownedFoil && foil(c));
    CountFilter(catalog, (c: Card) => c.id in col.ownedFoil && c.hasFoil);
    var s := GetStats(catalog, col);
    assert OwnedMasterCorrected(catalog, col) == s.ownedMasterCards;
  }

  /** The two sides value an owned foil whose foil price is zero differently:
      the server falls back to the regular price, the browser adds nothing. */
  lemma FoilValueDiverges()
    ensures var c := Card("x", "X", "1", None, "Main Set", "Rare", 500, 0, [], "", true, true);
            && GetStats([c], Collection([], ["x"])).ownedValue == 500
            && Stats.Summarize([c], map["x" := Ownership.Entry(false, true)]).ownedValue == 0
  {
    var c := Card("x", "X", "1", None, "Main Set", "Rare", 500, 0, [], "", true, true);
    assert Filter([c], (c: Card) => c.id in []) == [];
    assert Filter([c], (c: Card) => c.id in ["x"]) == [c];
  }
}
