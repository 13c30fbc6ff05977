# Spider-Man MTG checklist — a Dafny model

This project models the logic of a collection tracker for the Magic: The
Gathering "Marvel's Spider-Man" release. It covers:

- the browser app: the catalog query, the ownership record kept in local
  storage, the statistics, the search box, the six card orderings and the
  query-string state;
- the optional HTTP server: the card list route, the filter options, the
  statistics, and the list-based collection with its toggle;
- the catalog scripts: the classification of Scryfall records by the fetch
  script, the validation script, the foil analysis and the Art Series merge.

Prices are whole cents (`int`). Percentages are exact `real` ratios.
Everything is a pure function over immutable data, except three loops kept
as methods: the statistics pass, the structure check and the price tally.
I/O is left out or turned into parameters. The foil analysis `forEach` is a
method too.

Modules, one per file:

- `Collections`: generic sequence tools (`Filter`, `Map`, `Count`, `Sum`,
  `Percent`, `Option`, `Result`).
- `Text`: the string functions of the runtime that the code relies on
  (`toLowerCase`, `includes`, `split`/`join`, `padStart`, `parseInt`, default
  string order, sorted distinct lists).
- `Cards`: the catalog record.
- `Ownership`: the browser ownership record and its document.
- `CardQuery`: `getCards` and the filter options.
- `Stats`: the browser statistics.
- `StableSort` and `Sorting`: `Array.prototype.sort` and `sortCards`.
- `AppView`: search, URL state, catalog to screen.
- `LegacyCollection` and `BackendApi`: the server.
- `Classify`: the fetch script.
- `Grouping` and `Validation`: the validation script.
- `FoilAnalysis`: the foil analysis script.
- `ArtSeries`: the Art Series script.

Points where the model follows the code rather than what a reader might
expect:

- The browser `getCards` filters on `filters.set`, a single set code
  compared with the card's `set` field. The filter panel sets `set` and
  `subset` on the app's filter object, so the page's set choice does reach
  `getCards`; `subset` is never read there. The query string, though, holds
  only the list `sets`, which nothing but the query string fills and
  nothing reads. `set` and `subset` are never written to the query string,
  so a reload loses them (`AppView.ReloadDropsSetFilter`).
- Strings are ordered and measured as JavaScript does, by UTF-16 code units
  (`Text.Units`). Outside the Basic Multilingual Plane (BMP) this differs
  from code-point order and character count (`Text.AstralSortsBeforeHighBmp`,
  `Text.AstralPadStart`).
- The server's `source` filter keeps cards whose source array contains the
  exact tag (`Array.includes` on an array), not a substring match.
- The validation script's `inferSetCode` looks only at the subset label.
  Tokens, Art Series and promos are all counted as SPM.
- An empty sort key is written to the URL, because it differs from
  `binderOrder`, but it reads back as `binderOrder`
  (`AppView.EmptySortKeyReadsAsDefault`).
- The server toggle removes only the first copy of an id, so a duplicated id
  survives a toggle (`LegacyCollection.DuplicateSurvivesToggle`).
- An owned foil whose foil price is 0 adds its regular price on the server
  and nothing in the browser (`BackendApi.FoilValueDiverges`).
- Art Series ids pad the collector number to three characters, so "1" and
  "01" collide (`ArtSeries.LeadingZeroCollides`).

## Model

| member | source | states |
|---|---|---|
| Cards.RarityRank | frontend/src/App.js:228 | a rarity's rank is at most 4, and it is positive exactly for the four catalog rarities |
| Ownership.Lookup | frontend/src/services/cardService.js:33-34 | a card id without an entry reads as neither variant owned |
| Ownership.Toggle | frontend/src/services/storageService.js:32-51 | exactly the chosen flag of the card is inverted (a missing entry starting all-false); an all-false entry is deleted; every other card's entry is untouched; the returned entry is what the record now holds |
| Ownership.TogglePreservesPruned | frontend/src/services/storageService.js:45-47 | a record with no all-false entry keeps that property under every toggle |
| Ownership.ToggleTwiceRestoresCard | frontend/src/services/storageService.js:32-51 | toggling the same variant twice gives back the card's flags |
| Ownership.ToggleTwiceRestoresRecord | frontend/src/services/storageService.js:32-51 | when the card has no all-false entry, toggling twice gives back the whole record |
| Ownership.GetCollection | frontend/src/services/storageService.js:5-16 | an empty or missing slot, or text that fails to parse, yields the empty versioned document; parsed text is returned unchanged |
| Ownership.SaveCollection | frontend/src/services/storageService.js:18-30 | a save keeps the ownership record and stamps the current version and save time |
| Ownership.ToggleCard | frontend/src/services/storageService.js:32-51 | on an `owned` object the toggle is applied and saved, and the card's new entry is returned; on an array the document is saved unchanged and a fresh entry with the one flag set is returned; any other `owned` value is an error |
| Ownership.ImportCollection | frontend/src/services/storageService.js:73-99 | text that does not parse gives ParseFailed; a missing or non-object `owned` gives InvalidFormat; only a well-shaped import succeeds; it resolves with the parsed document as it was, and stores a copy stamped with the current version and save time |
| Ownership.ExportImportRoundTrip | frontend/src/services/storageService.js:58-99 | exporting the stored document, its `owned` an object or an array, and importing the file succeeds, resolves with exactly the document that was stored, and stores the same ownership record |
| CardQuery.JoinCard | frontend/src/services/cardService.js:31-35 | the joined view carries the card and exactly the flags stored for its id |
| CardQuery.JoinAll | frontend/src/services/cardService.js:31-35 | the join keeps length and order, joining each card |
| CardQuery.GetCardsCharacterization | frontend/src/services/cardService.js:9-93 | the chain of optional filters equals one filter of the catalog by "passes every set filter and the ownership mode", followed by the join |
| CardQuery.StructuralIsFilter | frontend/src/services/cardService.js:12-28 | the set, rarity and price filters applied one after another equal one filter by their conjunction |
| CardQuery.GetCardsNoFilters | frontend/src/services/cardService.js:9-37 | with no filter keys the whole catalog comes back in order, each card joined with its flags |
| CardQuery.JoinAllMembers | frontend/src/services/cardService.js:31-35 | a view is in the join exactly when it is the join of one of the cards |
| CardQuery.CardsOfJoinAll | frontend/src/services/cardService.js:31-35 | the cards under the joined views are the input cards |
| CardQuery.GetCardsMembers | frontend/src/services/cardService.js:9-93 | the result is a subsequence of the catalog; a view is in it exactly when its card passes every filter and carries its stored flags |
| CardQuery.GetCardsSound | frontend/src/services/cardService.js:12-90 | every returned card matches the set code and rarity, lies within the inclusive price bounds, carries its stored flags and satisfies the ownership mode |
| CardQuery.AllVariantsOwnedMeaning | frontend/src/services/cardService.js:51-60 | `all-variants-owned` holds exactly when the card offers some variant and every offered variant is owned |
| CardQuery.AllVariantsNotOwnedMeaning | frontend/src/services/cardService.js:62-71 | `all-variants-not-owned` holds exactly when the card offers some variant and no offered variant is owned |
| CardQuery.IncompleteVariantsMeaning | frontend/src/services/cardService.js:73-78 | `incomplete-variants` holds exactly for cards that offer both variants and own exactly one |
| CardQuery.LegacyModes | frontend/src/services/cardService.js:42-84 | `true` means `owned`, `false` means `not-owned`, and those two are complements |
| CardQuery.UnknownModeKeeps | frontend/src/services/cardService.js:86-87 | an unrecognised mode keeps every view |
| CardQuery.UnknownModeKeepsAll | frontend/src/services/cardService.js:37-90 | an unrecognised mode gives the same result as no mode |
| CardQuery.IncompleteVariantsResult | frontend/src/services/cardService.js:73-78 | under `incomplete-variants` every returned card offers both variants and owns exactly one |
| CardQuery.SetOptions | frontend/src/services/cardService.js:96 | the set options are the catalog's set codes, each once, the named codes in ascending default-sort order; the absent code comes last, if at all |
| CardQuery.SetCodes | frontend/src/services/cardService.js:96 | a code is listed exactly when some card carries it |
| CardQuery.RarityOptions | frontend/src/services/cardService.js:97 | the rarity options are the four catalog rarities in rank order |
| Collections.Percent | frontend/src/services/cardService.js:139-140 | an empty total gives 0; a part no larger than the total gives 0 to 100; the whole gives exactly 100; more than the whole gives over 100 |
| Stats.Slots | frontend/src/services/cardService.js:119-120 | a card contributes at most two master slots |
| Stats.OwnedSlots | frontend/src/services/cardService.js:127-128 | an owned variant counts only when the card is printed in that finish, so owned slots never exceed slots |
| Stats.Summarize | frontend/src/services/cardService.js:102-152 | the total counts the cards; unique owned is at most the total; owned slots are at most slots, which are at most twice the cards; both percentages lie in 0 to 100 |
| Stats.Visit | frontend/src/services/cardService.js:113-137 | one card adds one to the total, its price to the value, its slots and owned slots to the master counts, and one to unique owned exactly when a variant is owned |
| Stats.GetStats | frontend/src/services/cardService.js:102-152 | the loop over the given cards, or over the catalog when none are given, computes exactly the totals of `Summarize` |
| Stats.ReachedStep | frontend/src/services/cardService.js:113-137 | one visit extends the totals of a prefix to the next prefix |
| Stats.ReachedSummarize | frontend/src/services/cardService.js:139-151 | the totals over all the cards give the summary, percentages included |
| Stats.SummarizeAppend | frontend/src/services/cardService.js:113-137 | the counts and values of two runs of cards put together are the sums of their counts and values |
| Stats.UniqueOwnedIsOwnedView | frontend/src/services/cardService.js:122-125 | the unique-owned count is the length of the `owned` view of the card list |
| Stats.UniqueOwnedCountsEntries | frontend/src/services/cardService.js:122-125 | when no stored entry is all-false, unique owned is the number of cards that have an entry |
| Stats.CompleteCollection | frontend/src/services/cardService.js:139-140 | owning both variants of every card, with some slot offered, gives 100 percent on both percentages |
| LegacyCollection.Migrate | backend/server.js:35-45 | an absent or falsy (`null`, `false`, `0`, `""`) `ownedFoil` reads as an empty list; a list, even an empty one, is kept; `owned` is kept |
| LegacyCollection.Store | backend/server.js:47-49 | reading back a written collection gives the same collection |
| LegacyCollection.RemoveFirst | backend/server.js:169-172 | the list loses exactly one copy of the id when it has one, and is unchanged otherwise |
| LegacyCollection.FlipList | backend/server.js:168-175 | a present id loses one copy; an absent id is appended; other ids keep their counts |
| LegacyCollection.Toggle | backend/server.js:162-178 | only the list picked by `foil` changes, and it is flipped |
| LegacyCollection.FlipListInverts | backend/server.js:168-175 | for an id held at most once the flip inverts its membership and keeps every other id's |
| LegacyCollection.TogglePreservesWellFormed | backend/server.js:162-178 | duplicate-free lists stay duplicate-free |
| LegacyCollection.ToggleInvertsMembership | backend/server.js:162-178 | on duplicate-free lists the toggle inverts exactly the chosen flag of the card |
| LegacyCollection.ToggleTwiceFromAbsent | backend/server.js:168-175 | pushing an absent id and toggling it again gives back the list exactly |
| LegacyCollection.RemoveFirstAppend | backend/server.js:169-174 | removing an id whose only copy is at the end gives back the list before the push |
| LegacyCollection.ToggleTwiceRestoresMembership | backend/server.js:162-178 | on duplicate-free lists toggling twice restores every id's membership in both lists |
| LegacyCollection.DuplicateSurvivesToggle | backend/server.js:169-172 | with the id listed twice the toggle leaves it owned |
| LegacyCollection.ReplayWellFormed | backend/server.js:162-178 | any series of toggles keeps duplicate-free lists duplicate-free |
| LegacyCollection.ReachableWellFormed | backend/server.js:24-27 | every collection grown from the initial file by toggles is duplicate-free |
| BackendApi.JoinLists | backend/server.js:80-86 | the flags are membership of the id in each list |
| BackendApi.NarrowCharacterization | backend/server.js:59-78 | the five chained filters equal one filter by their conjunction |
| BackendApi.ListCardsCharacterization | backend/server.js:54-95 | the route returns the cards that pass every filter, in catalog order, joined with their list membership |
| BackendApi.ListCardsMembers | backend/server.js:54-95 | the result is a subsequence of the catalog; a view is in it exactly when its card passes every filter and carries its list flags |
| BackendApi.ListedInOrder | backend/server.js:80-86 | the cards under the joined kept views are a subsequence of the catalog |
| BackendApi.ListedMember | backend/server.js:80-86 | a view is among the joined kept cards exactly when it is the join of a kept card |
| BackendApi.FilterOptions | backend/server.js:103-116 | each option list is strictly ascending in UTF-16 code-unit order (so duplicate-free), and holds exactly the values found in the catalog |
| BackendApi.FilterOptionsUnique | backend/server.js:107-109 | each of the three lists is the only strictly ascending list of its values |
| BackendApi.FoilValue | backend/server.js:139-141 | an owned foil is worth its foil price, or the regular price when the foil price is 0 |
| BackendApi.TotalMaster | backend/server.js:132 | the master total is at most twice the number of cards |
| BackendApi.GetStats | backend/server.js:119-154 | the counts are the catalog size and the list lengths; unique owned is the number of distinct ids in the two lists, at most the sum of their lengths; the master total counts regular and foil printings on offer; owned master is the sum of the two list lengths; the percentages are unique over total and owned master over total master; the total value sums every price; the owned value sums, over catalog cards, the price of those in `owned` and the foil value of those in `ownedFoil` |
| BackendApi.ElementsBound | backend/server.js:129 | a list has no more distinct ids than entries |
| BackendApi.UniqueOwnedInclusionExclusion | backend/server.js:128-129 | for duplicate-free lists, unique owned is regular plus foil minus the ids in both |
| BackendApi.OwnedMasterExceedsTotal | backend/server.js:131-133 | a foil listed for a card without a foil printing gives 2 owned master cards of 1, i.e. 200 percent |
| BackendApi.OwnedMasterCorrected | backend/server.js:131-133 | the corrected owned master count never exceeds the master total |
| BackendApi.OwnedValueByCard | backend/server.js:135-141 | the route's two filtered sums equal one sum over the catalog of each card's price when owned plus its foil value when owned as foil |
| BackendApi.TotalMasterIsSlots | backend/server.js:132 | the master total is the sum over cards of the regular and foil printings on offer |
| BackendApi.CatalogTotalsAgree | backend/server.js:124-135 | the server and the browser statistics agree on the card count, the master total and the total value, whatever each holds as owned |
| BackendApi.GetStatsCorrected | backend/server.js:119-154 | with the corrected count the master percentage lies in 0 to 100 |
| BackendApi.ListedCount | backend/server.js:131-133 | a duplicate-free list of ids of distinct catalog cards with a printing counts as many catalog cards |
| BackendApi.OwnedMasterAgrees | backend/server.js:131-133 | on consistent data (distinct catalog ids, duplicate-free lists naming cards with that printing) the route's count equals the corrected one |
| BackendApi.FoilValueDiverges | backend/server.js:139-141 | a 0-priced foil is valued at its regular price by the server and at nothing by the browser |
| AppView.Search | frontend/src/App.js:174-177 | the search never adds cards |
| AppView.SearchMeaning | frontend/src/App.js:174-177 | the search keeps, in order, exactly the cards whose lower-cased name or collector number contains the lower-cased term |
| AppView.EmptySearchKeepsAll | frontend/src/App.js:174-177 | an empty term keeps every card |
| AppView.SearchIgnoresTermCase | frontend/src/App.js:174-177 | a term and its lower-cased form keep the same cards |
| AppView.SearchIdempotent | frontend/src/App.js:174-177 | searching the result again changes nothing |
| AppView.Get | frontend/src/App.js:12-32 | a missing parameter reads as empty |
| AppView.WriteParams | frontend/src/App.js:52-75 | each parameter is written exactly when its value is set, and `sort` exactly when the key differs from `binderOrder` |
| AppView.WriteParamsValues | frontend/src/App.js:52-75 | reading a written parameter gives the state's value, the set list joined with commas, and no sort key for the default order |
| AppView.WriteParamsKeys | frontend/src/App.js:52-75 | only the seven known parameters are ever written |
| AppView.ReadState | frontend/src/App.js:12-32 | a missing `sets` gives no sets; a missing `sort` gives `binderOrder`; the `set` and `subset` filters always come back empty |
| AppView.UrlRoundTrip | frontend/src/App.js:12-80 | writing the state to the URL and reading it back gives the same state except that `set` and `subset` come back empty, for non-empty comma-free set codes and a non-empty sort key; with those two filters empty it is the same state |
| AppView.QueryFilters | frontend/src/App.js:110 | the filter object handed to `getCards` carries the state's set code, rarity and ownership mode; an empty price text leaves its bound unset, any other is read by `parseFloat` |
| AppView.SetsAndSubsetNotQueried | frontend/src/App.js:110 | the filter object given to `getCards` does not depend on the `sets` list or on `subset` |
| AppView.ReloadDropsSetFilter | frontend/src/App.js:12-80 | after writing to the URL and reading back, `getCards` gets no set code, and a state with a set code does not come back as it was |
| AppView.DefaultSortIsBinderOrder | frontend/src/App.js:29-75 | a URL without `sort` shows the binder order, and `binderOrder` is exactly the key that is never written |
| AppView.EmptySortKeyReadsAsDefault | frontend/src/App.js:29-75 | an empty sort key does not survive the round trip: it reads back as `binderOrder` |
| AppView.VisibleMembers | frontend/src/App.js:174-245 | a view is on screen exactly when its card is a catalog card that passes the filters and the search, carrying its stored flags |
| Sorting.ParseSortKey | frontend/src/App.js:190-242 | the five named keys pick their orderings; every other key, `setNumber` included, sorts by collector number |
| Sorting.SetRank | frontend/src/App.js:194-205 | the seven known sets rank 1 to 7; any other set, or none, ranks 999 |
| Sorting.LocaleCompare | frontend/src/App.js:219 | the comparison is zero exactly for equal names and negative exactly when the first comes first |
| Sorting.LeMeaning | frontend/src/App.js:207-241 | what "may come before" means for each of the six comparators |
| Sorting.LeTotal | frontend/src/App.js:207-241 | any two cards are ordered one way or the other |
| Sorting.LeTransitive | frontend/src/App.js:207-241 | each comparator orders transitively |
| Sorting.OrderIsTotalPreorder | frontend/src/App.js:187-243 | each comparator is a total preorder on views |
| Sorting.SortCards | frontend/src/App.js:187-243 | the result is a permutation of the input, ordered by the key's comparator, and cards that compare equal keep their relative order |
| Sorting.BinderOrderSorted | frontend/src/App.js:207-216 | set ranks never decrease, and within a set collector numbers never decrease |
| Sorting.PriceSorted | frontend/src/App.js:221-225 | `priceAsc` never decreases in price and `priceDesc` never increases |
| Sorting.RaritySorted | frontend/src/App.js:227-233 | rarity rank never increases, and cards of equal rank are in name order |
| Sorting.NameSorted | frontend/src/App.js:218-219 | names are in order |
| Sorting.SetNumberSorted | frontend/src/App.js:235-241 | `setNumber` and unknown keys sort collector numbers ascending, non-numeric ones reading as 0 |
| Sorting.SortCardsIdempotent | frontend/src/App.js:187-243 | sorting again by the same key changes nothing |
| StableSort.Sort | frontend/src/App.js:187-243 | the sort returns a sorted permutation of its input |
| StableSort.SortStable | frontend/src/App.js:187-243 | elements ranked alike keep their relative order |
| StableSort.SortSortedIsIdentity | frontend/src/App.js:187-243 | an already sorted sequence is returned unchanged |
| Text.ToLower | frontend/src/App.js:175-176 | lower-casing keeps the length and maps each character |
| Text.Includes | frontend/src/App.js:175-176 | `includes` holds exactly when the needle occurs at some position |
| Text.SplitJoin | frontend/src/App.js:15 | splitting the comma-joined list gives the list back when no piece holds a comma |
| Text.JoinSplit | frontend/src/App.js:56 | joining the pieces of a split gives the string back |
| Text.PadStart | scripts/add-art-series.js:72 | the padded string ends with the original and is padded on the left with the pad character; a string already as long as the width in UTF-16 units is left alone, and otherwise a BMP pad brings it to exactly the width in units |
| Text.BmpPadStart | scripts/add-art-series.js:72 | on a string without characters outside the BMP, the width counts characters: the missing count of pad characters is prepended |
| Text.AstralPadStart | scripts/add-art-series.js:72 | a character outside the BMP counts as two units, so padding it to three adds one pad character |
| Text.ParseIntNatToString | frontend/src/App.js:213-215 | `parseInt` reads back the decimal rendering of every natural number |
| Text.ParseIntNonNumeric | frontend/src/App.js:213-214 | text that cannot start a number parses as NaN and reads as 0 |
| Text.ParseIntLeadingDigits | frontend/src/App.js:213-214 | text starting with a decimal digit parses as the value of its leading digits |
| Text.UnitsInjective | backend/server.js:107-109 | distinct strings have distinct UTF-16 units |
| Text.BmpUnits | backend/server.js:107-109 | a string without characters outside the BMP has one unit per character, its code |
| Text.LessTotal | backend/server.js:107-109 | the default sort order is total: distinct strings are ordered one way or the other |
| Text.LessTransitive | backend/server.js:107-109 | the default sort order is transitive |
| Text.LessAsymmetric | backend/server.js:107-109 | the default sort order is asymmetric |
| Text.BmpLessIsCodeOrder | backend/server.js:107-109 | on strings within the BMP the default sort order is lexicographic order of character codes |
| Text.AstralSortsBeforeHighBmp | backend/server.js:107-109 | U+10000 sorts before U+FFFF although its code point is larger |
| Text.SortedUnique | backend/server.js:107-109 | the result is strictly ascending in UTF-16 unit order and holds exactly the input's values |
| Text.StrictlySortedUnique | backend/server.js:107-109 | two strictly sorted lists with the same values are equal |
| Classify.CapitalizeRarity | scripts/fetch-cards.js:85-93 | the four Scryfall rarities map to their catalog spelling and anything else to Common |
| Classify.SubsetRules | scripts/fetch-cards.js:95-129 | the subset rules in order, for a given parsed collector number |
| Classify.SpecialSetSubsets | scripts/fetch-cards.js:96-107 | tokens, Marvel Universe, and Welcome Deck up to number 20 with Scene Box after it, decided by set code alone |
| Classify.SetSpecificSubsets | scripts/fetch-cards.js:96-107 | the Eternal and Marvel labels come only from their own sets |
| Classify.PromoTakesPrecedence | scripts/fetch-cards.js:112 | outside the special sets a promo flag or a number of 284 or more gives Promo, whatever else holds |
| Classify.InfinityStoneRule | scripts/fetch-cards.js:114 | Infinity Stone is exactly the numbers written "242" or "243" that are not claimed earlier |
| Classify.CostumeRule | scripts/fetch-cards.js:115 | Costume is exactly numbers 235 to 241 not claimed earlier |
| Classify.BorderlessSubsets | scripts/fetch-cards.js:117-123 | an unclaimed borderless or full-art card gets a borderless label by number range, plain Borderless outside 199 to 234 |
| Classify.MainSetFallThrough | scripts/fetch-cards.js:109-128 | Main Set is exactly the cards that no rule claims |
| Classify.GetSource | scripts/fetch-cards.js:131-176 | every card gets at least one source tag, and the special sets exactly one |
| Classify.SourceRules | scripts/fetch-cards.js:153-173 | for a given parsed number, each tag is present exactly when its condition holds, the booster pair standing in when none does; tags are known and never repeat |
| Classify.SourceTagsMeaning | scripts/fetch-cards.js:153-175 | each source tag of a non-special card is present exactly when its condition holds, the booster pair standing in when none does; no tag repeats |
| Classify.SpecialSetSource | scripts/fetch-cards.js:139-146 | in the Eternal set the one source tag is the subset label |
| Classify.HasFinish | scripts/fetch-cards.js:44-45 | a missing finishes list offers no finish |
| Classify.ToCatalogCard | scripts/fetch-cards.js:34-47 | the catalog record keeps id, name and number, carries the capitalized Scryfall rarity (a valid one), the subset label, the source tags of the record (at least one), the given prices and image address, and its finish flags |
| Classify.Catalog | scripts/fetch-cards.js:23-48 | one catalog record per fetched record, in order |
| FoilAnalysis.Visit | scripts/analyze-foils.js:8-10 | one card bumps the total and the counter of each finish it offers |
| FoilAnalysis.SubsetTally | scripts/analyze-foils.js:3-11 | a subset's finish counters never exceed its total, which never exceeds the catalog |
| FoilAnalysis.Master | scripts/analyze-foils.js:17 | a subset's master count is at most twice its total |
| FoilAnalysis.Analyze | scripts/analyze-foils.js:3-11 | the loop yields exactly the subsets that occur, each with the counters of `SubsetTally` |
| FoilAnalysis.AnalyzeStep | scripts/analyze-foils.js:4-11 | one card creates or bumps its own subset's counters and no other |
| FoilAnalysis.FreshSubsetIsEmpty | scripts/analyze-foils.js:5-7 | a subset first seen starts from zero counters |
| FoilAnalysis.ReportOrder | scripts/analyze-foils.js:15 | the report lists each occurring subset once, sorted |
| FoilAnalysis.OverallMaster | scripts/analyze-foils.js:26-32 | the overall master total is at most twice the number of cards |
| FoilAnalysis.AddsUp | scripts/analyze-foils.js:15-32 | over distinct keys covering every subset, totals add up to the cards and master counts to the overall total |
| FoilAnalysis.ReportAddsUp | scripts/analyze-foils.js:15-32 | the printed per-subset report adds up to the overall totals |
| Grouping.GroupBy | scripts/test-cards.js:55-64 | each occurring key maps to its elements in catalog order |
| Grouping.GroupMembers | scripts/test-cards.js:58-63 | a group holds exactly the elements with its key |
| Grouping.GroupsPartition | scripts/test-cards.js:58-63 | every element is in the group of its key and in no other |
| Validation.InferSetCode | scripts/test-cards.js:73-87 | Welcome Deck and Scene Box give SPE, Marvel Universe gives MAR, everything else SPM |
| Validation.InferSetCodeOfLabel | scripts/test-cards.js:73-87 | the inferred set of each subset label the fetch script writes |
| Validation.InferSetCodeOfFetched | scripts/test-cards.js:73-87 | on fetched cards the inferred set is SPE for the spe set, MAR for mar, and SPM for every other set, tokens included |
| Validation.GroupsOfCard | scripts/test-cards.js:55-64 | every card is in its own subset's group and no other, and in its inferred set's group |
| Validation.FinishGroups | scripts/test-cards.js:65-70 | the finish groups hold the cards offering each finish in catalog order; the names are the cards' names |
| Validation.MissingInMeaning | scripts/test-cards.js:109-114 | a record's failures name exactly the required fields it lacks |
| Validation.MissingMeaning | scripts/test-cards.js:108-115 | the failures are exactly the pairs of record and absent required field |
| Validation.CheckStructure | scripts/test-cards.js:104-119 | the nested loop reports exactly those failures, and passes exactly when every record has every required field |
| Validation.StructureValidIff | scripts/test-cards.js:105-119 | no failures exactly when every record has every required field |
| Validation.CollectorKeyInjective | scripts/test-cards.js:148 | two cards share a key exactly when they share inferred set and collector number |
| Validation.NamesOf | scripts/test-cards.js:159 | a name is listed exactly when some card of the group has it |
| Validation.DuplicateImpliesClash | scripts/test-cards.js:144-165 | a failing duplicate check has two cards under one key with different names |
| Validation.ClashImpliesDuplicate | scripts/test-cards.js:144-165 | two cards under one key with different names fail the duplicate check |
| Validation.DuplicateNumbersIff | scripts/test-cards.js:144-169 | the duplicate check fails exactly on a name clash; a number repeated under one name passes |
| Validation.InvalidRarities | scripts/test-cards.js:182-189 | exactly the cards with a rarity outside the four valid ones are reported, in order; none exactly when all are valid |
| Validation.MissingImages | scripts/test-cards.js:197-202 | the count is 0 exactly when every card has a non-placeholder image |
| Validation.PriceTally | scripts/test-cards.js:212-220 | priced and unpriced cards are counted, and every card once |
| Validation.SourceTags | scripts/test-cards.js:243-248 | a tag is collected exactly when some card lists it; some tag exists exactly when some card has a source |
| Validation.SourceCount | scripts/test-cards.js:252 | a tag's count is positive exactly when some card lists it |
| Validation.FinishTallies | scripts/test-cards.js:264-273 | the foil group is both-finish plus foil-only cards, the nonfoil group likewise, and the three tallies cover at most the catalog |
| Validation.Validate | scripts/test-cards.js:103-260 | structure passes on no failures, the rarity check fails on an invalid rarity, and sources are found when some card has one |
| Validation.FetchedCatalogPassesRarityAndSources | scripts/test-cards.js:182-260 | a non-empty catalog written by the fetch script passes the rarity and source checks |
| Validation.ExitCodeMeaning | scripts/test-cards.js:283-292 | the run exits 1 exactly when a record lacks a field, two cards clash, a rarity is invalid or no card has a source |
| ArtSeries.ArtCardIdShape | scripts/add-art-series.js:72 | the id is `aspm-`, zeros, then the number; a number shorter than three UTF-16 units is padded to exactly three units (three characters within the BMP); a longer one is kept as it is |
| ArtSeries.ArtCardIdInjective | scripts/add-art-series.js:72 | canonical collector numbers get equal ids exactly when they are equal |
| ArtSeries.DistinctIds | scripts/add-art-series.js:72 | different canonical numbers get different ids |
| ArtSeries.LeadingZeroCollides | scripts/add-art-series.js:72 | "1" and "01" get the same id |
| ArtSeries.EstimateFoil | scripts/add-art-series.js:79 | the foil estimate is one and a half times the price, rounded down to cents, never below the price |
| ArtSeries.BuildCard | scripts/add-art-series.js:71-85 | the built card's fields: padded id, the row's name, number and price, the ASPM set, Common, the placeholder image, both finishes |
| ArtSeries.PlaceholderIsMissing | scripts/add-art-series.js:81 | the image address contains "placeholder" whatever the encoded name |
| ArtSeries.BuiltCardUnderChecks | scripts/add-art-series.js:71-85 | a built card has a valid rarity, is counted as lacking an image, and is counted under SPM |
| ArtSeries.Generate | scripts/add-art-series.js:71-85 | one card per row, in order |
| ArtSeries.GeneratedIdsDistinct | scripts/add-art-series.js:71-85 | rows with distinct canonical numbers give distinct ids |
| ArtSeries.Merge | scripts/add-art-series.js:97-102 | the merge is the existing non-Art-Series cards in order followed by the new cards; its length drops the old Art Series cards |
| ArtSeries.MergeMembers | scripts/add-art-series.js:97-102 | a card is in the merge exactly when it is an existing non-Art-Series card or a new card |
| ArtSeries.MergeReplacesArtSeries | scripts/add-art-series.js:97-102 | after the merge the Art Series cards are exactly the new cards |
| ArtSeries.MergeIdempotent | scripts/add-art-series.js:97-102 | merging the same cards again changes nothing |
| ArtSeries.AddArtSeries | scripts/add-art-series.js:71-113 | the merged catalog loses the old Art Series cards and gains one card per row |
| ArtSeries.AddArtSeriesRerun | scripts/add-art-series.js:71-113 | running the script twice is running it once, and its cards are then the only Art Series cards |

## Left out

- File, network and storage I/O are left out or turned into parameters. This covers reading and writing `cards.json` and the collection file, `localStorage`, the HTTP server set-up, the routes' 500 error responses, `/api/collection` and `/health`, and the second write of the merged catalog to the frontend copy. A stored slot is `Option<string>`, and `JSON.parse` and `JSON.stringify` are function parameters.
- The Scryfall download loop (`fetchAllCards`, `fetchUrl`, `sleep`, paging) is left out, because it is network I/O. The price chain with `parseFloat` and the image-address chain are given per record (`Classify.Fetched`). The `type_line` field is not modelled, because nothing reads it.
- Console output is left out. The validation script's warnings (total count, main-set count, unique-name count, image count) do not affect the exit status. Only the checks that fail the run and the tallies are modelled.
- React state, effects and components are left out, and so are `exportCollection`'s download link and `clearCollection`. The export is modelled as the text `serialize` writes. Clearing leaves an empty slot, which `Ownership.GetCollection` reads as the empty document.
- `toFixed` rounding and floating-point prices are left out. Prices are whole cents and percentages exact ratios.
- `Text.ToLower`: only ASCII letters are lower-cased, because full Unicode case mapping is a runtime table outside this model.
- `Sorting.LocaleCompare`: the locale collation is replaced by the order of character codes, which is a total order as collation is.
- `Text.PadStart`: a pad character outside the BMP is prepended whole; JavaScript would cut the repeated pad at the unit width, possibly in the middle of a surrogate pair. The only pad the code uses is `'0'`.
- `LegacyCollection.Migrate`: a truthy `ownedFoil` that is not a list (a number, a string, an object) is not modelled.
- A failing `saveCollection` during an import (a full `localStorage`) is storage I/O and is left out.
- `ArtSeries.EstimateFoil`: the floating-point product `price * 1.5` is rounded down to whole cents.
- `ArtSeries.BuildCard`: `encodeURIComponent` is a parameter.
- `ArtSeries.AddArtSeries`: the hand-entered table of 50 rows (collector numbers 1 to 54, with 6, 24, 29 and 42 absent) is a parameter.
- `AppView.WriteParams`: the `URLSearchParams` text encoding and the `history.replaceState` call are left out. The parameters are a map from name to value.
- `parseFloat` of the price bounds is left out. A bound is already read (`Cards.Bound`), with `NotANumber` for text it cannot read.

## Findings

| source | as written | input that shows it | evidently intended | confidence | as-written member | corrected member |
|---|---|---|---|---|---|---|
| backend/server.js:133 | `ownedMasterCards` adds the lengths of the two lists, whatever the cards offer | a catalog of one card without a foil printing, with its id in both `owned` and `ownedFoil`: 2 owned master cards of 1, a 200 percent master completion | count an owned variant only when the card is printed in that finish, as the browser statistics do, so completion never passes 100 percent | medium, not executed | BackendApi.OwnedMasterExceedsTotal | BackendApi.GetStatsCorrected |
