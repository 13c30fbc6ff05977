/** The catalog validation script: groupings of the catalog, the checks that
    fail the run (record structure, duplicate collector numbers, rarities,
    source data) and the tallies it reports. */
module Validation {
  import opened Collections
  import opened Cards
  import Text
  import Grouping
  import Classify

  // ----- Set code and groupings -----

  /** The set a catalog card is counted under, inferred from its subset: the
      Welcome Deck and Scene Box cards are SPE, the Marvel Universe cards MAR,
      and every other card SPM. */
  function InferSetCode(c: Card): (code: string)
    ensures code in {"SPE", "MAR", "SPM"}
    ensures code == "SPE" <==> c.subset in {"Welcome Deck", "Scene Box"}
    ensures code == "MAR" <==> c.subset == "Marvel Universe"
  {
    if c.subset == "Welcome Deck" then "SPE"
    else if c.subset == "Scene Box" then "SPE"
    else if c.subset == "Marvel Universe" then "MAR"
    else "SPM"
  }

  /** A card labelled by the fetch script is inferred into SPE when the label
      is Welcome Deck or Scene Box, into MAR when it is Marvel Universe, and
      into SPM otherwise. */
  lemma InferSetCodeOfLabel(c: Card, s: Classify.Subset)
    requires c.subset == Classify.Label(s)
    ensures s.WelcomeDeck? || s.SceneBox? ==> InferSetCode(c) == "SPE"
    ensures s.MarvelUniverse? ==> InferSetCode(c) == "MAR"
    ensures !(s.WelcomeDeck? || s.SceneBox? || s.MarvelUniverse?) ==> InferSetCode(c) == "SPM"
  {
  }

  /** On the fetched catalog the inferred set is the Scryfall set for the
      Eternal and Marvel sets; every other set, tokens included, is counted
      as SPM. */
  lemma InferSetCodeOfFetched(f: Classify.Fetched)
    ensures f.record.setCode == "spe" ==> InferSetCode(Classify.ToCatalogCard(f)) == "SPE"
    ensures f.record.setCode == "mar" ==> InferSetCode(Classify.ToCatalogCard(f)) == "MAR"
    ensures f.record.setCode !in {"spe", "mar"} ==> InferSetCode(Classify.ToCatalogCard(f)) == "SPM"
  {
    var s := Classify.GetSubset(f.record);
    Classify.SpecialSetSubsets(f.record);
    Classify.SetSpecificSubsets(f.record);
    InferSetCodeOfLabel(Classify.ToCatalogCard(f), s);
  }

  /** The groupings built in one pass over the catalog: by inferred set, by
      subset, by finish, and the set of distinct names. */
  datatype Groups = Groups(bySet: map<string, seq<Card>>, bySubset: map<string, seq<Card>>,
                           foil: seq<Card>, nonfoil: seq<Card>, names: set<string>)

  function GroupCatalog(cards: seq<Card>): Groups
  {
    Groups(Grouping.GroupBy(cards, InferSetCode), Grouping.GroupBy(cards, SubsetOf),
           Filter(cards, OffersFoil), Filter(cards, OffersNonfoil),
           set i | 0 <= i < |cards| :: cards[i].name)
  }

  /** Every card is in the group of its own subset and of no other subset,
      and in the group of its inferred set. */
  lemma GroupsOfCard(cards: seq<Card>, i: nat, k: string)
    requires i < |cards|
    ensures cards[i].subset in GroupCatalog(cards).bySubset
    ensures cards[i] in GroupCatalog(cards).bySubset[cards[i].subset]
    ensures k in GroupCatalog(cards).bySubset && cards[i] in GroupCatalog(cards).bySubset[k] ==> k == cards[i].subset
    ensures InferSetCode(cards[i]) in GroupCatalog(cards).bySet
    ensures cards[i] in GroupCatalog(cards).bySet[InferSetCode(cards[i])]
  {
    Grouping.GroupsPartition(cards, SubsetOf, i, k);
    Grouping.GroupsPartition(cards, InferSetCode, i, k);
  }

  /** The finish groups hold the cards offering each finish, in catalog
      order, and the names are those of the cards. */
  lemma FinishGroups(cards: seq<Card>, c: Card, n: string)
    ensures c in GroupCatalog(cards).foil <==> c in cards && c.hasFoil
    ensures c in GroupCatalog(cards).nonfoil <==> c in cards && c.hasNonfoil
    ensures IsSubseq(GroupCatalog(cards).foil, cards) && IsSubseq(GroupCatalog(cards).nonfoil, cards)
    ensures n in GroupCatalog(cards).names <==> exists i :: 0 <= i < |cards| && cards[i].name == n
  {
    FilterIsSubseq(cards, OffersFoil);
    FilterIsSubseq(cards, OffersNonfoil);
    if c in cards {
      var i :| 0 <= i < |cards| && cards[i] == c;
      assert OffersFoil(cards[i]) <==> c.hasFoil;
      assert OffersNonfoil(cards[i]) <==> c.hasNonfoil;
    }
  }

  // ----- Record structure -----

  /** The fields every catalog record must have. */
  const RequiredFields: seq<string> := ["id", "name", "setNumber", "subset", "rarity", "price",
                                        "foilPrice", "source", "imageUrl", "hasFoil", "hasNonfoil"]

  /** A raw catalog record, as the names of the fields it has. */
  type Record = set<string>

  /** The failures for record `idx`, one per required field it lacks, in the
      order of `fields`. */
  function MissingIn(rec: Record, idx: nat, fields: seq<string>): (r: seq<(nat, string)>)
    decreases |fields|
  {
    if |fields| == 0 then []
    else
      var f := fields[|fields| - 1];
      MissingIn(rec, idx, fields[..|fields| - 1]) + (if f in rec then [] else [(idx, f)])
  }

  /** The failures for all records, record by record. */
  function Missing(records: seq<Record>): (r: seq<(nat, string)>)
    decreases |records|
  {
    if |records| == 0 then []
    else Missing(records[..|records| - 1]) + MissingIn(records[|records| - 1], |records| - 1, RequiredFields)
  }

  /** A failure names a field the record lacks, and each lacking field of a
      record is named. */
  lemma {:induction false} MissingInMeaning(rec: Record, idx: nat, fields: seq<string>, i: nat, f: string)
    ensures (i, f) in MissingIn(rec, idx, fields) <==> i == idx && f in fields && f !in rec
    decreases |fields|
  {
    if |fields| > 0 {
      var init := fields[..|fields| - 1];
      MissingInMeaning(rec, idx, init, i, f);
      assert fields == init + [fields[|fields| - 1]];
    }
  }

  /** The failures of all records: exactly the (record, field) pairs where a
      required field is absent. */
  lemma {:induction false} MissingMeaning(records: seq<Record>, i: nat, f: string)
    ensures (i, f) in Missing(records) <==> i < |records| && f in RequiredFields && f !in records[i]
    decreases |records|
  {
    if |records| > 0 {
      var n := |records| - 1;
      MissingMeaning(records[..n], i, f);
      MissingInMeaning(records[n], n, RequiredFields, i, f);
    }
  }

  /** Every record has every required field. */
  ghost predicate StructureValid(records: seq<Record>)
  {
    forall i, f :: 0 <= i < |records| && f in RequiredFields ==> f in records[i]
  }

  /** The structure check: for each record and each required field, a failure
      when the field is absent. The check passes exactly when every record
      has every required field. */
  method CheckStructure(records: seq<Record>) returns (valid: bool, failures: seq<(nat, string)>)
    ensures failures == Missing(records)
    ensures valid <==> StructureValid(records)
  {
    valid := true;
    failures := [];
    var i := 0;
    while i < |records|
      invariant 0 <= i <= |records|
      invariant failures == Missing(records[..i])
      invariant valid <==> |failures| == 0
    {
      var j := 0;
      var before := failures;
      while j < |RequiredFields|
        invariant 0 <= j <= |RequiredFields|
        invariant failures == before + MissingIn(records[i], i, RequiredFields[..j])
        invariant valid <==> |failures| == 0
      {
        var field := RequiredFields[j];
        if field !in records[i] {
          valid := false;
          failures := failures + [(i, field)];
        }
        assert RequiredFields[..j + 1][..j] == RequiredFields[..j];
        j := j + 1;
      }
      assert RequiredFields[..j] == RequiredFields;
      assert records[..i + 1][..i] == records[..i];
      i := i + 1;
    }
    assert records[..i] == records;
    StructureValidIff(records);
  }

  /** No failures exactly when every record has every required field. */
  lemma StructureValidIff(records: seq<Record>)
    ensures |Missing(records)| == 0 <==> StructureValid(records)
  {
    if |Missing(records)| > 0 {
      var p := Missing(records)[0];
      MissingMeaning(records, p.0, p.1);
    }
    if !StructureValid(records) {
      var i, f :| 0 <= i < |records| && f in RequiredFields && f !in records[i];
      MissingMeaning(records, i, f);
    }
  }

  // ----- Duplicate collector numbers -----

  /** The key of the duplicate check: inferred set, a dash, collector number. */
  function CollectorKey(c: Card): string
  {
    InferSetCode(c) + "-" + c.setNumber
  }

  /** Two cards share a key exactly when they share the inferred set and the
      collector number: the set codes all have three letters. */
  lemma CollectorKeyInjective(a: Card, b: Card)
    ensures CollectorKey(a) == CollectorKey(b) <==>
              InferSetCode(a) == InferSetCode(b) && a.setNumber == b.setNumber
  {
    if CollectorKey(a) == CollectorKey(b) {
      assert CollectorKey(a)[..3] == InferSetCode(a);
      assert CollectorKey(b)[..3] == InferSetCode(b);
      assert CollectorKey(a)[4..] == a.setNumber;
      assert CollectorKey(b)[4..] == b.setNumber;
    }
  }

  function NameOf(c: Card): string { c.name }

  /** The names of a group of cards. */
  function NamesOf(cards: seq<Card>): (names: set<string>)
    ensures forall n :: n in names <==> exists i :: 0 <= i < |cards| && cards[i].name == n
  {
    set i | 0 <= i < |cards| :: cards[i].name
  }

  /** The duplicate check fails when some key holds more than one card and
      those cards carry more than one distinct name. */
  predicate DuplicateNumbers(cards: seq<Card>)
  {
    var g := Grouping.GroupBy(cards, CollectorKey);
    exists k :: k in g && |g[k]| > 1 && |NamesOf(g[k])| > 1
  }

  /** Two cards under one key with different names. */
  ghost predicate NameClash(cards: seq<Card>)
  {
    exists i, j :: 0 <= i < |cards| && 0 <= j < |cards|
                   && CollectorKey(cards[i]) == CollectorKey(cards[j]) && cards[i].name != cards[j].name
  }

  /** A set holds two different elements exactly when it has more than one. */
  lemma TwoElements<T>(s: set<T>)
    ensures |s| > 1 <==> exists x, y :: x in s && y in s && x != y
  {
    if |s| > 1 {
      var x :| x in s;
      assert |s - {x}| == |s| - 1;
      var y :| y in s - {x};
      assert x in s && y in s && x != y;
    }
    if exists x, y :: x in s && y in s && x != y {
      var x, y :| x in s && y in s && x != y;
      assert y in s - {x};
      assert |s - {x}| == |s| - 1;
    }
  }

  /** Two cards of a group with different names: the group has more than one
      card and both names. */
  lemma TwoNames(grp: seq<Card>, x: Card, y: Card)
    requires x in grp && y in grp && x.name != y.name
    ensures |grp| > 1 && x.name in NamesOf(grp) && y.name in NamesOf(grp)
  {
    var a :| 0 <= a < |grp| && grp[a] == x;
    var b :| 0 <= b < |grp| && grp[b] == y;
    assert a != b;
  }

  /** A failing duplicate check has found two cards under one key with
      different names. */
  lemma DuplicateImpliesClash(cards: seq<Card>)
    requires DuplicateNumbers(cards)
    ensures NameClash(cards)
  {
    var g := Grouping.GroupBy(cards, CollectorKey);
    var k :| k in g && |g[k]| > 1 && |NamesOf(g[k])| > 1;
    TwoElements(NamesOf(g[k]));
    var x, y :| x in NamesOf(g[k]) && y in NamesOf(g[k]) && x != y;
    var a :| 0 <= a < |g[k]| && g[k][a].name == x;
    var b :| 0 <= b < |g[k]| && g[k][b].name == y;
    Grouping.GroupMembers(cards, CollectorKey, k, g[k][a]);
    Grouping.GroupMembers(cards, CollectorKey, k, g[k][b]);
    var i :| 0 <= i < |cards| && cards[i] == g[k][a];
    var j :| 0 <= j < |cards| && cards[j] == g[k][b];
    assert CollectorKey(cards[i]) == CollectorKey(cards[j]) && cards[i].name != cards[j].name;
  }

  /** Two cards under one key with different names make the duplicate check
      fail. */
  lemma ClashImpliesDuplicate(cards: seq<Card>, i: nat, j: nat)
    requires i < |cards| && j < |cards|
    requires CollectorKey(cards[i]) == CollectorKey(cards[j]) && cards[i].name != cards[j].name
    ensures DuplicateNumbers(cards)
  {
    var g := Grouping.GroupBy(cards, CollectorKey);
    var k := CollectorKey(cards[i]);
    Grouping.GroupsPartition(cards, CollectorKey, i, k);
    Grouping.GroupMembers(cards, CollectorKey, k, cards[i]);
    Grouping.GroupMembers(cards, CollectorKey, k, cards[j]);
    TwoNames(g[k], cards[i], cards[j]);
    TwoElements(NamesOf(g[k]));
  }

  /** The duplicate check fails exactly when two cards with the same inferred
      set and collector number have different names; cards that repeat a
      number under one name pass. */
  lemma DuplicateNumbersIff(cards: seq<Card>)
    ensures DuplicateNumbers(cards) <==> NameClash(cards)
  {
    if DuplicateNumbers(cards) {
      DuplicateImpliesClash(cards);
    }
    if NameClash(cards) {
      var i, j :| 0 <= i < |cards| && 0 <= j < |cards|
                  && CollectorKey(cards[i]) == CollectorKey(cards[j]) && cards[i].name != cards[j].name;
      ClashImpliesDuplicate(cards, i, j);
    }
  }

  // ----- Rarities, images, prices, sources, finishes -----

  /** A rarity outside the four valid ones. */
  predicate InvalidRarity(c: Card) { c.rarity !in Rarities }

  /** The cards the rarity check reports: exactly those whose rarity is not
      one of the four valid ones, in catalog order. */
  function InvalidRarities(cards: seq<Card>): (bad: seq<Card>)
    ensures forall c :: c in bad <==> c in cards && c.rarity !in Rarities
    ensures IsSubseq(bad, cards)
    ensures |bad| == 0 <==> forall i :: 0 <= i < |cards| ==> cards[i].rarity in Rarities
  {
    FilterIsSubseq(cards, InvalidRarity);
    CountZero(cards, InvalidRarity);
    Filter(cards, InvalidRarity)
  }

  /** A card whose image is missing or a placeholder. */
  predicate MissingImage(c: Card)
  {
    c.imageUrl == "" || Text.Includes(c.imageUrl, "placeholder")
  }

  /** The image check's count of cards without a real image. */
  function MissingImages(cards: seq<Card>): (n: nat)
    ensures n <= |cards|
    ensures n == 0 <==> forall i :: 0 <= i < |cards| ==> !MissingImage(cards[i])
  {
    CountZero(cards, MissingImage);
    Count(cards, MissingImage)
  }

  /** A card with a regular or a foil price. */
  predicate Priced(c: Card) { c.price > 0 || c.foilPrice > 0 }
  predicate Unpriced(c: Card) { !Priced(c) }

  /** The price tally: every card is counted once, as priced or as unpriced. */
  method PriceTally(cards: seq<Card>) returns (withPrices: nat, withoutPrices: nat)
    ensures withPrices == Count(cards, Priced)
    ensures withoutPrices == Count(cards, Unpriced)
    ensures withPrices + withoutPrices == |cards|
  {
    withPrices, withoutPrices := 0, 0;
    var i := 0;
    while i < |cards|
      invariant 0 <= i <= |cards|
      invariant withPrices == Count(cards[..i], Priced)
      invariant withPrices + withoutPrices == i
    {
      CountPrefix(cards, i, Priced);
      if Priced(cards[i]) {
        withPrices := withPrices + 1;
      } else {
        withoutPrices := withoutPrices + 1;
      }
      i := i + 1;
    }
    assert cards[..i] == cards;
    CountComplement(cards, Priced, Unpriced);
  }

  function SourceOf(c: Card): seq<string> { c.source }

  /** The distinct source tags over the catalog: a tag is collected exactly
      when some card lists it, so there is one when some card has a tag. */
  function SourceTags(cards: seq<Card>): (tags: set<string>)
    ensures forall i, j :: 0 <= i < |cards| && 0 <= j < |cards[i].source| ==> cards[i].source[j] in tags
    ensures forall t :: t in tags ==> exists i :: 0 <= i < |cards| && t in cards[i].source
    ensures |tags| > 0 <==> exists i :: 0 <= i < |cards| && |cards[i].source| > 0
  {
    var tags := Elements(Flatten(Map(cards, SourceOf)));
    SourceTagsNonEmpty(cards, tags);
    tags
  }

  /** Tags are collected from the sources of the cards. */
  lemma SourceTagsNonEmpty(cards: seq<Card>, tags: set<string>)
    requires tags == Elements(Flatten(Map(cards, SourceOf)))
    ensures forall i, j :: 0 <= i < |cards| && 0 <= j < |cards[i].source| ==> cards[i].source[j] in tags
    ensures forall t :: t in tags ==> exists i :: 0 <= i < |cards| && t in cards[i].source
    ensures |tags| > 0 <==> exists i :: 0 <= i < |cards| && |cards[i].source| > 0
  {
    var ss := Map(cards, SourceOf);
    forall i, j | 0 <= i < |cards| && 0 <= j < |cards[i].source| ensures cards[i].source[j] in tags {
      assert ss[i][j] == cards[i].source[j];
    }
    forall t | t in tags ensures exists i :: 0 <= i < |cards| && t in cards[i].source {
      var k :| 0 <= k < |ss| && t in ss[k];
      assert ss[k] == cards[k].source;
    }
    if |tags| > 0 {
      var t :| t in tags;
      var i :| 0 <= i < |cards| && t in cards[i].source;
      assert |cards[i].source| > 0;
    }
    if exists i :: 0 <= i < |cards| && |cards[i].source| > 0 {
      var i :| 0 <= i < |cards| && |cards[i].source| > 0;
      assert cards[i].source[0] in tags;
    }
  }

  /** The number of cards listing a tag: positive exactly when some card
      lists it. */
  function SourceCount(cards: seq<Card>, tag: string): (n: nat)
    ensures n <= |cards|
    ensures n > 0 <==> exists i :: 0 <= i < |cards| && tag in cards[i].source
  {
    CountZero(cards, (c: Card) => tag in c.source);
    Count(cards, (c: Card) => tag in c.source)
  }

  predicate BothFinishes(c: Card) { c.hasFoil && c.hasNonfoil }
  predicate FoilOnly(c: Card) { c.hasFoil && !c.hasNonfoil }
  predicate NonfoilOnly(c: Card) { !c.hasFoil && c.hasNonfoil }
  predicate SomeFinish(c: Card) { c.hasFoil || c.hasNonfoil }
  predicate OneFinish(c: Card) { FoilOnly(c) || NonfoilOnly(c) }

  /** The finish tallies: the foil group is the cards with both finishes plus
      the foil-only cards, the nonfoil group likewise, and the three tallies
      cover no more than the catalog. */
  lemma FinishTallies(cards: seq<Card>)
    ensures |GroupCatalog(cards).foil| == Count(cards, BothFinishes) + Count(cards, FoilOnly)
    ensures |GroupCatalog(cards).nonfoil| == Count(cards, BothFinishes) + Count(cards, NonfoilOnly)
    ensures Count(cards, BothFinishes) + Count(cards, FoilOnly) + Count(cards, NonfoilOnly)
            <= |cards|
  {
    FoilSplit(cards);
    NonfoilSplit(cards);
    FinishesCovered(cards);
    CountFilter(cards, OffersFoil);
    CountFilter(cards, OffersNonfoil);
  }

  lemma FoilSplit(cards: seq<Card>)
    ensures Count(cards, OffersFoil) == Count(cards, BothFinishes) + Count(cards, FoilOnly)
  {
    CountDisjointUnion(cards, OffersFoil, BothFinishes, FoilOnly);
  }

  lemma NonfoilSplit(cards: seq<Card>)
    ensures Count(cards, OffersNonfoil) == Count(cards, BothFinishes) + Count(cards, NonfoilOnly)
  {
    CountDisjointUnion(cards, OffersNonfoil, BothFinishes, NonfoilOnly);
  }

  lemma FinishesCovered(cards: seq<Card>)
    ensures Count(cards, BothFinishes) + Count(cards, FoilOnly) + Count(cards, NonfoilOnly)
            <= |cards|
  {
    CountDisjointUnion(cards, SomeFinish, BothFinishes, OneFinish);
    CountDisjointUnion(cards, OneFinish, FoilOnly, NonfoilOnly);
  }

  // ----- Outcome -----

  /** The outcome of the failing checks. */
  datatype Outcome = Outcome(structureValid: bool, duplicateNumbers: bool, invalidRarity: bool,
                             sourcesFound: bool)

  /** The checks that fail the run; the count, name and image checks only
      warn. */
  function Validate(records: seq<Record>, cards: seq<Card>): (o: Outcome)
    ensures o.structureValid <==> |Missing(records)| == 0
    ensures o.invalidRarity <==> exists i :: 0 <= i < |cards| && cards[i].rarity !in Rarities
    ensures o.sourcesFound <==> exists i :: 0 <= i < |cards| && |cards[i].source| > 0
  {
    Outcome(|Missing(records)| == 0, DuplicateNumbers(cards), |InvalidRarities(cards)| > 0,
            |SourceTags(cards)| > 0)
  }

  /** The exit status: 1 when a failing check failed, else 0. */
  function ExitCode(o: Outcome): int
  {
    if !o.structureValid || o.duplicateNumbers || o.invalidRarity || !o.sourcesFound then 1 else 0
  }

  /** A non-empty catalog written by the fetch script passes the rarity and
      source checks: every rarity is normalised and every card has a tag. */
  lemma FetchedCatalogPassesRarityAndSources(records: seq<Record>, fetched: seq<Classify.Fetched>)
    requires |fetched| > 0
    ensures !Validate(records, Classify.Catalog(fetched)).invalidRarity
    ensures Validate(records, Classify.Catalog(fetched)).sourcesFound
  {
    var cards := Classify.Catalog(fetched);
    assert |cards[0].source| > 0;
    forall i | 0 <= i < |cards| ensures cards[i].rarity in Rarities {
      assert cards[i] == Classify.ToCatalogCard(fetched[i]);
    }
  }

  /** The run fails exactly when some record lacks a field, two cards clash
      on a collector number, a rarity is invalid, or no card has a source. */
  lemma ExitCodeMeaning(records: seq<Record>, cards: seq<Card>)
    ensures ExitCode(Validate(records, cards)) == 1 <==>
              !StructureValid(records) || NameClash(cards)
              || (exists i :: 0 <= i < |cards| && cards[i].rarity !in Rarities)
              || !(exists i :: 0 <= i < |cards| && |cards[i].source| > 0)
  {
    StructureValidIff(records);
    DuplicateNumbersIff(cards);
  }
}
