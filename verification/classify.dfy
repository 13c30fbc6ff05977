/** The catalog build script's classification of a Scryfall card record:
    the normalised rarity, the subset label, the source tags and the two
    finish flags. */
module Classify {
  import opened Collections
  import Text
  import Cards

  /** The fields of a Scryfall card record the classification reads. A
      missing `frame_effects` or `finishes` list is `None`; `promo`,
      `full_art` and `booster` are their truthiness. */
  datatype ScryfallCard = ScryfallCard(
    id: string,
    name: string,
    setCode: string,
    collectorNumber: string,
    rarity: string,
    promo: bool,
    frameEffects: Option<seq<string>>,
    borderColor: string,
    fullArt: bool,
    booster: bool,
    finishes: Option<seq<string>>)

  /** `capitalizeRarity`: the four Scryfall rarities spelled as the catalog
      spells them, and `Common` for anything else. */
  function CapitalizeRarity(rarity: string): (r: string)
    ensures r in Cards.Rarities
    ensures r == "Uncommon" <==> rarity == "uncommon"
    ensures r == "Rare" <==> rarity == "rare"
    ensures r == "Mythic Rare" <==> rarity == "mythic"
    ensures r == "Common" <==> rarity !in {"uncommon", "rare", "mythic"}
  {
    if rarity == "common" then "Common"
    else if rarity == "uncommon" then "Uncommon"
    else if rarity == "rare" then "Rare"
    else if rarity == "mythic" then "Mythic Rare"
    else "Common"
  }

  /** `parseInt(collector_number)`: `None` stands for `NaN`. */
  function CollectorNum(c: ScryfallCard): Option<int>
  {
    Text.ParseInt(c.collectorNumber)
  }

  /** `n <= k` in JavaScript: false when `n` is `NaN`. */
  predicate AtMost(n: Option<int>, k: int)
  {
    n.Some? && n.value <= k
  }

  /** `n >= k` in JavaScript: false when `n` is `NaN`. */
  predicate AtLeast(n: Option<int>, k: int)
  {
    n.Some? && n.value >= k
  }

  /** `n >= lo && n <= hi`: false when `n` is `NaN`. */
  predicate InRange(n: Option<int>, lo: int, hi: int)
  {
    AtLeast(n, lo) && AtMost(n, hi)
  }

  /** `card.frame_effects || []`. */
  function FrameEffects(c: ScryfallCard): seq<string>
  {
    c.frameEffects.GetOr([])
  }

  /** The Welcome Deck half of the Spider-Man Eternal set: collector numbers up
      to 20. A number that does not parse is not. */
  predicate WelcomeDeckNumber(c: ScryfallCard)
  {
    AtMost(CollectorNum(c), 20)
  }

  /** Promo by flag or by a collector number `n` of 284 and up. */
  predicate PromoFor(c: ScryfallCard, n: Option<int>)
  {
    c.promo || AtLeast(n, 284)
  }

  predicate PromoCard(c: ScryfallCard)
  {
    PromoFor(c, CollectorNum(c))
  }

  /** Borderless by border colour or full art. */
  predicate BorderlessCard(c: ScryfallCard)
  {
    c.borderColor == "borderless" || c.fullArt
  }

  /** The sets classified by set code alone. */
  predicate SpecialSet(c: ScryfallCard)
  {
    c.setCode in {"tspm", "spe", "mar"}
  }

  /** The subset labels `getSubset` can produce. */
  datatype Subset =
    | Tokens | WelcomeDeck | SceneBox | MarvelUniverse | Promo
    | InfinityStone | TexturedFoilCostume | ExtendedArt
    | ShowcaseScenes | BorderlessWebSlinger | BorderlessPanel
    | BorderlessClassicComic | Borderless | Showcase
    | SpiderwebLands | BasicLands | MainSet

  /** The label as the catalog spells it. */
  function Label(s: Subset): string
  {
    match s
    case Tokens => "Tokens"
    case WelcomeDeck => "Welcome Deck"
    case SceneBox => "Scene Box"
    case MarvelUniverse => "Marvel Universe"
    case Promo => "Promo"
    case InfinityStone => "Special Foil Infinity Stone"
    case TexturedFoilCostume => "Textured Foil Costume"
    case ExtendedArt => "Extended Art"
    case ShowcaseScenes => "Showcase Scenes"
    case BorderlessWebSlinger => "Borderless Web-Slinger"
    case BorderlessPanel => "Borderless Panel"
    case BorderlessClassicComic => "Borderless Classic Comic"
    case Borderless => "Borderless"
    case Showcase => "Showcase"
    case SpiderwebLands => "Full-Art Spiderweb Lands"
    case BasicLands => "Basic Lands"
    case MainSet => "Main Set"
  }

  /** `getSubset`: the first rule that applies decides. The collector number
      is parsed once, and the rules read the parsed number `n`. */
  function GetSubset(c: ScryfallCard): Subset
  {
    SubsetFor(c, CollectorNum(c))
  }

  function SubsetFor(c: ScryfallCard, n: Option<int>): Subset
  {
    if c.setCode == "tspm" then Tokens
    else if c.setCode == "spe" then (if AtMost(n, 20) then WelcomeDeck else SceneBox)
    else if c.setCode == "mar" then MarvelUniverse
    else if PromoFor(c, n) then Promo
    else if c.collectorNumber == "242" || c.collectorNumber == "243" then InfinityStone
    else if InRange(n, 235, 241) then TexturedFoilCostume
    else if "extendedart" in FrameEffects(c) then ExtendedArt
    else if BorderlessCard(c) then
      if InRange(n, 199, 207) then ShowcaseScenes
      else if InRange(n, 208, 217) then BorderlessWebSlinger
      else if InRange(n, 218, 231) then BorderlessPanel
      else if InRange(n, 232, 234) then BorderlessClassicComic
      else Borderless
    else if "showcase" in FrameEffects(c) then Showcase
    else if InRange(n, 189, 193) then SpiderwebLands
    else if InRange(n, 194, 198) then BasicLands
    else MainSet
  }

  /** The rules of `getSubset` for a parsed collector number `n`. */
  lemma SubsetRules(c: ScryfallCard, n: Option<int>)
    ensures c.setCode == "tspm" ==> SubsetFor(c, n) == Tokens
    ensures c.setCode == "mar" ==> SubsetFor(c, n) == MarvelUniverse
    ensures c.setCode == "spe" ==> (SubsetFor(c, n) == WelcomeDeck <==> AtMost(n, 20))
    ensures c.setCode == "spe" ==> (SubsetFor(c, n) == SceneBox <==> !AtMost(n, 20))
    ensures SubsetFor(c, n) == WelcomeDeck || SubsetFor(c, n) == SceneBox ==> c.setCode == "spe"
    ensures SubsetFor(c, n) == MarvelUniverse ==> c.setCode == "mar"
    ensures SubsetFor(c, n) == Promo <==> !SpecialSet(c) && PromoFor(c, n)
    ensures SubsetFor(c, n) == InfinityStone <==>
              !SpecialSet(c) && !PromoFor(c, n) && c.collectorNumber in {"242", "243"}
    ensures SubsetFor(c, n) == TexturedFoilCostume <==>
              !SpecialSet(c) && !PromoFor(c, n) && c.collectorNumber !in {"242", "243"}
              && InRange(n, 235, 241)
    ensures !SpecialSet(c) && !PromoFor(c, n) && c.collectorNumber !in {"242", "243"}
            && !InRange(n, 235, 241) && "extendedart" !in FrameEffects(c) && BorderlessCard(c)
            ==> SubsetFor(c, n) in {ShowcaseScenes, BorderlessWebSlinger, BorderlessPanel,
                                    BorderlessClassicComic, Borderless}
                && (SubsetFor(c, n) == Borderless <==> !InRange(n, 199, 234))
    ensures SubsetFor(c, n) == MainSet <==>
              !SpecialSet(c) && !PromoFor(c, n) && c.collectorNumber !in {"242", "243"}
              && !InRange(n, 235, 241) && "extendedart" !in FrameEffects(c)
              && !BorderlessCard(c) && "showcase" !in FrameEffects(c)
              && !InRange(n, 189, 198)
  {
  }

  /** The token, Eternal and Marvel sets are labelled by set code alone; the
      Eternal set splits at collector number 20. */
  lemma SpecialSetSubsets(c: ScryfallCard)
    ensures c.setCode == "tspm" ==> GetSubset(c) == Tokens
    ensures c.setCode == "mar" ==> GetSubset(c) == MarvelUniverse
    ensures c.setCode == "spe" ==> (GetSubset(c) == WelcomeDeck <==> WelcomeDeckNumber(c))
    ensures c.setCode == "spe" ==> (GetSubset(c) == SceneBox <==> !WelcomeDeckNumber(c))
  {
    SubsetRules(c, CollectorNum(c));
  }

  /** The Eternal and Marvel labels come only from their own sets. */
  lemma SetSpecificSubsets(c: ScryfallCard)
    ensures GetSubset(c) == WelcomeDeck || GetSubset(c) == SceneBox ==> c.setCode == "spe"
    ensures GetSubset(c) == MarvelUniverse ==> c.setCode == "mar"
  {
    SubsetRules(c, CollectorNum(c));
  }

  /** Outside the special sets, the promo rule wins over every later rule,
      and it is the only way to the Promo label. */
  lemma PromoTakesPrecedence(c: ScryfallCard)
    ensures GetSubset(c) == Promo <==> !SpecialSet(c) && PromoCard(c)
  {
    SubsetRules(c, CollectorNum(c));
  }

  /** The Infinity Stone numbers are matched by exact text, after the promo
      rule and before the Costume range. */
  lemma InfinityStoneRule(c: ScryfallCard)
    ensures GetSubset(c) == InfinityStone <==>
              !SpecialSet(c) && !PromoCard(c) && c.collectorNumber in {"242", "243"}
  {
    SubsetRules(c, CollectorNum(c));
  }

  /** The Costume range 235 to 241 applies only to cards the earlier rules
      leave unlabelled. */
  lemma CostumeRule(c: ScryfallCard)
    ensures GetSubset(c) == TexturedFoilCostume <==>
              !SpecialSet(c) && !PromoCard(c) && c.collectorNumber !in {"242", "243"}
              && InRange(CollectorNum(c), 235, 241)
  {
    SubsetRules(c, CollectorNum(c));
  }

  /** The borderless labels: a borderless card that no earlier rule claims is
      labelled by its number range. */
  lemma BorderlessSubsets(c: ScryfallCard)
    requires !SpecialSet(c) && !PromoCard(c) && c.collectorNumber !in {"242", "243"}
    requires !InRange(CollectorNum(c), 235, 241) && "extendedart" !in FrameEffects(c)
    requires BorderlessCard(c)
    ensures GetSubset(c) in {ShowcaseScenes, BorderlessWebSlinger, BorderlessPanel, BorderlessClassicComic, Borderless}
    ensures GetSubset(c) == Borderless <==> !InRange(CollectorNum(c), 199, 234)
  {
    SubsetRules(c, CollectorNum(c));
  }

  /** A card no rule claims falls through to the main set, and only such a
      card does. */
  lemma MainSetFallThrough(c: ScryfallCard)
    ensures GetSubset(c) == MainSet <==>
              !SpecialSet(c) && !PromoCard(c) && c.collectorNumber !in {"242", "243"}
              && !InRange(CollectorNum(c), 235, 241) && "extendedart" !in FrameEffects(c)
              && !BorderlessCard(c) && "showcase" !in FrameEffects(c)
              && !InRange(CollectorNum(c), 189, 198)
  {
    SubsetRules(c, CollectorNum(c));
  }

  /** `getSource`: the special sets get their one tag; other cards collect
      the booster, collection-booster and promo tags that apply, and a card
      with none of them gets the two booster tags. */
  function GetSource(c: ScryfallCard): (tags: seq<string>)
    ensures |tags| >= 1
    ensures SpecialSet(c) ==> |tags| == 1
  {
    SourceFor(c, CollectorNum(c))
  }

  function SourceFor(c: ScryfallCard, n: Option<int>): (tags: seq<string>)
    ensures |tags| >= 1
    ensures SpecialSet(c) ==> |tags| == 1
  {
    if c.setCode == "tspm" then ["Token Insert"]
    else if c.setCode == "spe" then (if AtMost(n, 20) then ["Welcome Deck"] else ["Scene Box"])
    else if c.setCode == "mar" then ["Special Insert"]
    else
      var tags := (if c.booster then ["Normal Boosters"] else [])
                  + (if CollectionBoosterFor(c, n) then ["Collection Boosters"] else [])
                  + (if PromoFor(c, n) then ["Promos"] else []);
      if |tags| == 0 then ["Normal Boosters", "Collection Boosters"] else tags
  }

  /** A card found in collection boosters: extended art, borderless, or
      numbered 199 to 243. */
  predicate CollectionBoosterFor(c: ScryfallCard, n: Option<int>)
  {
    "extendedart" in FrameEffects(c) || BorderlessCard(c) || InRange(n, 199, 243)
  }

  predicate CollectionBoosterCard(c: ScryfallCard)
  {
    CollectionBoosterFor(c, CollectorNum(c))
  }

  /** The tags of a non-special card for a parsed collector number `n`. */
  lemma SourceRules(c: ScryfallCard, n: Option<int>)
    requires !SpecialSet(c)
    ensures "Promos" in SourceFor(c, n) <==> PromoFor(c, n)
    ensures "Normal Boosters" in SourceFor(c, n) <==>
              c.booster || (!CollectionBoosterFor(c, n) && !PromoFor(c, n))
    ensures "Collection Boosters" in SourceFor(c, n) <==>
              CollectionBoosterFor(c, n) || (!c.booster && !PromoFor(c, n))
    ensures forall t :: t in SourceFor(c, n) ==> t in {"Normal Boosters", "Collection Boosters", "Promos"}
    ensures NoDuplicates(SourceFor(c, n))
  {
  }

  /** What each tag of a non-special card means: each tag is there exactly
      when its condition holds, or when no condition holds at all and the
      booster tags stand in. The tags never repeat and come in a fixed order. */
  lemma SourceTagsMeaning(c: ScryfallCard)
    requires !SpecialSet(c)
    ensures "Promos" in GetSource(c) <==> PromoCard(c)
    ensures "Normal Boosters" in GetSource(c) <==>
              c.booster || (!CollectionBoosterCard(c) && !PromoCard(c))
    ensures "Collection Boosters" in GetSource(c) <==>
              CollectionBoosterCard(c) || (!c.booster && !PromoCard(c))
    ensures forall t :: t in GetSource(c) ==> t in {"Normal Boosters", "Collection Boosters", "Promos"}
    ensures NoDuplicates(GetSource(c))
  {
    SourceRules(c, CollectorNum(c));
  }

  /** In the Eternal set the single source tag is the subset label. */
  lemma SpecialSetSource(c: ScryfallCard)
    requires c.setCode == "spe"
    ensures GetSource(c) == [Label(GetSubset(c))]
  {
    SubsetRules(c, CollectorNum(c));
  }

  /** `(card.finishes || []).includes(finish)`. */
  function HasFinish(c: ScryfallCard, finish: string): (b: bool)
    ensures c.finishes.None? ==> !b
    ensures c.finishes.Some? ==> (b <==> finish in c.finishes.value)
  {
    finish in c.finishes.GetOr([])
  }

  /** A fetched record with the values the model takes as given: the
      price and foil price in cents (the price-source chain and `parseFloat`
      are not modelled) and the image address (the image-source chain and the
      placeholder address are not modelled). */
  datatype Fetched = Fetched(record: ScryfallCard, price: int, foilPrice: int, imageUrl: string)

  /** The catalog entry written for a fetched record. */
  function ToCatalogCard(f: Fetched): (card: Cards.Card)
    ensures card.id == f.record.id && card.name == f.record.name
    ensures card.setNumber == f.record.collectorNumber && card.setCode.None?
    ensures card.rarity == CapitalizeRarity(f.record.rarity) && Cards.RarityRank(card.rarity) > 0
    ensures card.subset == Label(GetSubset(f.record))
    ensures card.source == GetSource(f.record) && |card.source| >= 1
    ensures card.price == f.price && card.foilPrice == f.foilPrice && card.imageUrl == f.imageUrl
    ensures card.hasFoil <==> f.record.finishes.Some? && "foil" in f.record.finishes.value
    ensures card.hasNonfoil <==> f.record.finishes.Some? && "nonfoil" in f.record.finishes.value
  {
    var c := f.record;
    Cards.Card(c.id, c.name, c.collectorNumber, None, Label(GetSubset(c)), CapitalizeRarity(c.rarity),
               f.price, f.foilPrice, GetSource(c), f.imageUrl,
               HasFinish(c, "foil"), HasFinish(c, "nonfoil"))
  }

  /** The catalog the fetch script writes: one entry per fetched record, in
      order. */
  function Catalog(fetched: seq<Fetched>): (cards: seq<Cards.Card>)
    ensures |cards| == |fetched|
    ensures forall i :: 0 <= i < |fetched| ==> cards[i] == ToCatalogCard(fetched[i])
  {
    Map(fetched, ToCatalogCard)
  }
}
