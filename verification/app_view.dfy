/** The browser view's own logic: the search box, the query-string state
    (filters, search term and sort key written to and read back from the
    URL), and the pipeline from catalog to the cards on screen. */
module AppView {
  import opened Collections
  import opened Cards
  import Text
  import Sorting
  import CardQuery
  import Ownership

  // ----- Search -----

  /** The search predicate: the lower-cased name or collector number
      contains the lower-cased term. */
  predicate Matches(term: string, v: View)
  {
    Text.Includes(Text.ToLower(v.card.name), Text.ToLower(term))
    || Text.Includes(Text.ToLower(v.card.setNumber), Text.ToLower(term))
  }

  /** The cards the search keeps, in their order. */
  function Search(term: string, vs: seq<View>): (r: seq<View>)
    ensures |r| <= |vs|
  {
    Filter(vs, (v: View) => Matches(term, v))
  }

  /** The search keeps exactly the cards whose lower-cased name or collector
      number has the lower-cased term at some position, and keeps their order. */
  lemma SearchMeaning(term: string, vs: seq<View>, v: View)
    ensures IsSubseq(Search(term, vs), vs)
    ensures v in Search(term, vs) <==>
              v in vs && ((exists i :: Text.OccursAt(Text.ToLower(v.card.name), Text.ToLower(term), i))
                          || (exists i :: Text.OccursAt(Text.ToLower(v.card.setNumber), Text.ToLower(term), i)))
  {
    FilterIsSubseq(vs, (v: View) => Matches(term, v));
  }

  /** An empty search term keeps every card. */
  lemma EmptySearchKeepsAll(vs: seq<View>)
    ensures Search("", vs) == vs
  {
    forall v: View ensures Matches("", v) {
      Text.IncludesEmpty(Text.ToLower(v.card.name));
    }
    FilterAll(vs, (v: View) => Matches("", v));
  }

  /** The search ignores the case of the term: a term and its lower-cased
      form keep the same cards. */
  lemma SearchIgnoresTermCase(term: string, vs: seq<View>)
    ensures Search(Text.ToLower(term), vs) == Search(term, vs)
  {
    Text.ToLowerIdempotent(term);
    FilterExt(vs, (v: View) => Matches(Text.ToLower(term), v), (v: View) => Matches(term, v));
  }

  /** Searching the search result again changes nothing. */
  lemma SearchIdempotent(term: string, vs: seq<View>)
    ensures Search(term, Search(term, vs)) == Search(term, vs)
  {
    FilterIdempotent(vs, (v: View) => Matches(term, v));
  }

  // ----- URL state -----

  /** The view state: the filter object, the search term and the sort key.
      Every value is a string except `sets`, a list of set codes. The filter
      panel changes `set` (here `setCode`) and `subset`; the URL holds `sets`, which nothing
      but the URL itself fills. */
  datatype UiState = UiState(sets: seq<string>, setCode: string, subset: string, rarity: string,
                             minPrice: string, maxPrice: string,
                             owned: string, search: string, sortBy: string)

  /** Query parameters by name; `URLSearchParams` encoding is not modelled. */
  type Params = map<string, string>

  /** `params.get(name) || ''`: a missing or empty parameter reads as empty. */
  function Get(p: Params, name: string): (v: string)
    ensures name in p ==> v == p[name]
    ensures name !in p ==> v == ""
  {
    if name in p then p[name] else ""
  }

  /** Adds `name=value` unless `cond` is false. */
  function SetIf(p: Params, cond: bool, name: string, value: string): Params
  {
    if cond then p[name := value] else p
  }

  /** The parameters the URL-writing effect sets: every non-empty value, the
      set list joined with commas when it is not empty, and the sort key
      unless it is the default `binderOrder`. */
  function WriteParams(st: UiState): (p: Params)
    ensures "sets" in p <==> |st.sets| > 0
    ensures "rarity" in p <==> st.rarity != ""
    ensures "minPrice" in p <==> st.minPrice != ""
    ensures "maxPrice" in p <==> st.maxPrice != ""
    ensures "owned" in p <==> st.owned != ""
    ensures "search" in p <==> st.search != ""
    ensures "sort" in p <==> st.sortBy != "binderOrder"
  {
    var p := SetIf(map[], |st.sets| > 0, "sets", Text.Join(st.sets, ','));
    var p := SetIf(p, st.rarity != "", "rarity", st.rarity);
    var p := SetIf(p, st.minPrice != "", "minPrice", st.minPrice);
    var p := SetIf(p, st.maxPrice != "", "maxPrice", st.maxPrice);
    var p := SetIf(p, st.owned != "", "owned", st.owned);
    var p := SetIf(p, st.search != "", "search", st.search);
    SetIf(p, st.sortBy != "binderOrder", "sort", st.sortBy)
  }

  /** Each parameter read back with the empty default is the value the state
      holds, the set list joined with commas, and no sort key for the default
      order. */
  lemma WriteParamsValues(st: UiState)
    ensures Get(WriteParams(st), "sets") == (if |st.sets| > 0 then Text.Join(st.sets, ',') else "")
    ensures Get(WriteParams(st), "rarity") == st.rarity
    ensures Get(WriteParams(st), "minPrice") == st.minPrice
    ensures Get(WriteParams(st), "maxPrice") == st.maxPrice
    ensures Get(WriteParams(st), "owned") == st.owned
    ensures Get(WriteParams(st), "search") == st.search
    ensures Get(WriteParams(st), "sort") == (if st.sortBy != "binderOrder" then st.sortBy else "")
  {
  }

  /** No other parameter is ever written. */
  lemma WriteParamsKeys(st: UiState)
    ensures WriteParams(st).Keys <= {"sets", "rarity", "minPrice", "maxPrice", "owned", "search", "sort"}
  {
  }

  /** `getFiltersFromURL`, `getSearchFromURL` and `getSortFromURL` together:
      a missing or empty `sets` gives no sets, a missing or empty `sort` gives
      `binderOrder`. */
  function ReadState(p: Params): (st: UiState)
    ensures Get(p, "sets") == "" ==> st.sets == []
    ensures Get(p, "sort") == "" ==> st.sortBy == "binderOrder"
    ensures st.setCode == "" && st.subset == ""
  {
    var sets := Get(p, "sets");
    var sortBy := Get(p, "sort");
    UiState(if sets != "" then Text.Split(sets, ',') else [], "", "",
            Get(p, "rarity"), Get(p, "minPrice"), Get(p, "maxPrice"), Get(p, "owned"),
            Get(p, "search"),
            if sortBy != "" then sortBy else "binderOrder")
  }

  /** Set codes the query string can carry: non-empty and free of commas. */
  predicate PlainCodes(sets: seq<string>)
  {
    forall i :: 0 <= i < |sets| ==> sets[i] != "" && ',' !in sets[i]
  }

  /** Writing the state and reading it back gives the same state, for set
      codes that are non-empty and comma-free and a non-empty sort key, except
      for the `setCode` and `subset` filters, which are never written and come
      back empty. */
  lemma UrlRoundTrip(st: UiState)
    requires PlainCodes(st.sets)
    requires st.sortBy != ""
    ensures ReadState(WriteParams(st)) == st.(setCode := "", subset := "")
    ensures st.setCode == "" && st.subset == "" ==> ReadState(WriteParams(st)) == st
  {
    WriteParamsValues(st);
    if |st.sets| > 0 {
      Text.SplitJoin(st.sets, ',');
      assert Text.Join(st.sets, ',') != "" by {
        JoinNonEmpty(st.sets);
      }
    }
  }

  /** The filter object `loadData` hands to `getCards`. Empty price text
      leaves the bound unset; other text goes through `parseFloat`, given as
      `parsePrice`. The `sets` list and `subset` are carried along but never
      read. */
  function QueryFilters(st: UiState, parsePrice: string -> Bound): (f: CardQuery.Filters)
    ensures f.setCode == st.setCode && f.rarity == st.rarity && f.owned == st.owned
    ensures st.minPrice == "" ==> f.minPrice == Unset
    ensures st.minPrice != "" ==> f.minPrice == parsePrice(st.minPrice)
    ensures st.maxPrice == "" ==> f.maxPrice == Unset
    ensures st.maxPrice != "" ==> f.maxPrice == parsePrice(st.maxPrice)
  {
    CardQuery.Filters(st.setCode, st.rarity,
                      if st.minPrice == "" then Unset else parsePrice(st.minPrice),
                      if st.maxPrice == "" then Unset else parsePrice(st.maxPrice),
                      st.owned)
  }

  /** What `getCards` receives does not depend on `sets` or `subset`. */
  lemma SetsAndSubsetNotQueried(st: UiState, sets: seq<string>, subset: string, parsePrice: string -> Bound)
    ensures QueryFilters(st.(sets := sets, subset := subset), parsePrice) == QueryFilters(st, parsePrice)
  {
  }

  /** After a reload the set filter is gone: the state read back from the URL
      has no set code, so `getCards` filters on no set code, and a page whose set
      filter was on does not come back as it was. */
  lemma ReloadDropsSetFilter(st: UiState, parsePrice: string -> Bound)
    ensures QueryFilters(ReadState(WriteParams(st)), parsePrice).setCode == ""
    ensures st.setCode != "" ==> ReadState(WriteParams(st)) != st
  {
  }

  /** A join whose first piece is non-empty is non-empty. */
  lemma JoinNonEmpty(xs: seq<string>)
    requires |xs| > 0 && xs[0] != ""
    ensures Text.Join(xs, ',') != ""
  {
    if |xs| > 1 {
      assert Text.Join(xs, ',')[0] == xs[0][0];
    }
  }

  /** A URL without a `sort` parameter shows the binder order, and the
      binder order is exactly the sort key that is never written. */
  lemma DefaultSortIsBinderOrder(p: Params, st: UiState)
    ensures "sort" !in p ==> ReadState(p).sortBy == "binderOrder"
    ensures "sort" !in WriteParams(st) <==> st.sortBy == "binderOrder"
  {
  }

  /** An empty sort key does not survive the round trip: it is written but
      read back as the default. */
  lemma EmptySortKeyReadsAsDefault(st: UiState)
    requires st.sortBy == ""
    ensures ReadState(WriteParams(st)).sortBy == "binderOrder"
  {
  }

  // ----- From catalog to screen -----

  /** The cards on screen: the filtered list, then the search, then the sort. */
  function Visible(catalog: seq<Card>, owned: Ownership.Owned, f: CardQuery.Filters,
                   term: string, sortBy: string): seq<View>
  {
    Sorting.SortCards(sortBy, Search(term, CardQuery.GetCards(catalog, owned, f)))
  }

  /** Every card on screen is a catalog card that passes the filters and the
      search, carrying its stored flags; and every such card is on screen. */
  lemma VisibleMembers(catalog: seq<Card>, owned: Ownership.Owned, f: CardQuery.Filters,
                       term: string, sortBy: string, v: View)
    ensures v in Visible(catalog, owned, f, term, sortBy) <==>
              v.card in catalog && CardQuery.Keeps(owned, f, v.card)
              && v == CardQuery.JoinCard(owned, v.card) && Matches(term, v)
  {
    var listed := CardQuery.GetCards(catalog, owned, f);
    var found := Search(term, listed);
    var shown := Visible(catalog, owned, f, term, sortBy);
    assert v in shown <==> v in found by {
      assert multiset(shown) == multiset(found);
      assert v in shown <==> v in multiset(shown);
      assert v in found <==> v in multiset(found);
    }
    SearchMeaning(term, listed, v);
    CardQuery.GetCardsMembers(catalog, owned, f, v);
  }
}
