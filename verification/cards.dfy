/** The catalog's card record and the vocabulary shared by the frontend, the
    backend and the catalog scripts. Prices are whole cents. */
module Cards {
  import opened Collections

  /** One catalog entry; `setCode` is the JSON `set` field, absent for cards the catalog fetcher writes
      (only the Art Series builder sets it). */
  datatype Card = Card(
    id: string,
    name: string,
    setNumber: string,
    setCode: Option<string>,
    subset: string,
    rarity: string,
    price: int,
    foilPrice: int,
    source: seq<string>,
    imageUrl: string,
    hasFoil: bool,
    hasNonfoil: bool)

  /** A card joined with the two ownership flags of its id. */
  datatype View = View(card: Card, owned: bool, ownedFoil: bool)

  /** The card is printed in a regular finish. */
  predicate OffersNonfoil(c: Card) { c.hasNonfoil }

  /** The card is printed in a foil finish. */
  predicate OffersFoil(c: Card) { c.hasFoil }

  /** The subset label a card is grouped under. */
  function SubsetOf(c: Card): string { c.subset }

  /** The four rarity labels a catalog card may carry. */
  const Rarities: seq<string> := ["Common", "Uncommon", "Rare", "Mythic Rare"]

  /** Rank used by the rarity sort: Mythic Rare 4 down to Common 1, anything
      else 0. */
  function RarityRank(rarity: string): (n: nat)
    ensures n <= 4
    ensures n > 0 <==> rarity in Rarities
  {
    if rarity == "Common" then 1
    else if rarity == "Uncommon" then 2
    else if rarity == "Rare" then 3
    else if rarity == "Mythic Rare" then 4
    else 0
  }

  /** A price bound taken from a query string. `Unset` is the empty string (the
      bound is skipped); `NotANumber` is a string `parseFloat` cannot read, which
      every comparison rejects. */
  datatype Bound = Unset | Limit(cents: int) | NotANumber

  /** `price >= min` under JavaScript's comparison rules, skipped when unset. */
  predicate AboveMin(price: int, min: Bound)
  {
    match min
    case Unset => true
    case Limit(v) => price >= v
    case NotANumber => false
  }

  /** `price <= max` under JavaScript's comparison rules, skipped when unset. */
  predicate BelowMax(price: int, max: Bound)
  {
    match max
    case Unset => true
    case Limit(v) => price <= v
    case NotANumber => false
  }

  /** The cards underlying a sequence of views. */
  function CardsOf(vs: seq<View>): (cs: seq<Card>)
    ensures |cs| == |vs|
    ensures forall i :: 0 <= i < |vs| ==> cs[i] == vs[i].card
  {
    seq(|vs|, i requires 0 <= i < |vs| => vs[i].card)
  }
}
