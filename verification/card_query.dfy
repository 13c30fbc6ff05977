/** The browser-side catalog query (`getCards`): structural filters on the
    catalog, the join with the ownership record, and the variant-aware
    ownership modes; plus the filter options offered to the user. */
module CardQuery {
  import opened Collections
  import opened Cards
  import opened Ownership
  import Text

  /** The keys `getCards` reads. An empty string means the key is not set;
      price bounds are already read by `parseFloat`. */
  datatype Filters = Filters(setCode: string, rarity: string, minPrice: Bound, maxPrice: Bound, owned: string)

  /** `getCards()` called with no filter object. */
  const NoFilters: Filters := Filters("", "", Unset, Unset, "")

  /** The card passes every structural filter that is set. */
  predicate StructuralMatch(f: Filters, c: Card)
  {
    && (f.setCode == "" || c.setCode == Some(f.setCode))
    && (f.rarity == "" || c.rarity == f.rarity)
    && (f.minPrice == Unset || AboveMin(c.price, f.minPrice))
    && (f.maxPrice == Unset || BelowMax(c.price, f.maxPrice))
  }

  /** The card with the flags of its id; a missing entry owns neither variant. */
  function JoinCard(owned: Owned, c: Card): (v: View)
    ensures v.card == c
    ensures v.owned == (c.id in owned && owned[c.id].regular)
    ensures v.ownedFoil == (c.id in owned && owned[c.id].foil)
  {
    View(c, Lookup(owned, c.id).regular, Lookup(owned, c.id).foil)
  }

  /** Every card joined with its flags, in catalog order. */
  function JoinAll(cs: seq<Card>, owned: Owned): (vs: seq<View>)
    ensures |vs| == |cs|
    ensures forall i :: 0 <= i < |cs| ==> vs[i] == JoinCard(owned, cs[i])
  {
    Map(cs, (c: Card) => JoinCard(owned, c))
  }

  /** The ownership-mode predicate of `getCards` for a set `mode`. */
  predicate ModeKeeps(mode: string, v: View)
  {
    var any := v.owned || v.ownedFoil;
    var none := !v.owned && !v.ownedFoil;
    var c := v.card;
    if mode == "owned" then any
    else if mode == "not-owned" then none
    else if mode == "all-variants-owned" then
      if c.hasNonfoil && c.hasFoil then v.owned && v.ownedFoil
      else if c.hasNonfoil then v.owned
      else if c.hasFoil then v.ownedFoil
      else false
    else if mode == "all-variants-not-owned" then
      if c.hasNonfoil && c.hasFoil then !v.owned && !v.ownedFoil
      else if c.hasNonfoil then !v.owned
      else if c.hasFoil then !v.ownedFoil
      else false
    else if mode == "incomplete-variants" then
      if c.hasNonfoil && c.hasFoil then (v.owned && !v.ownedFoil) || (!v.owned && v.ownedFoil)
      else false
    else if mode == "true" then any
    else if mode == "false" then none
    else true
  }

  /** The ownership filter as a whole: skipped when no mode is set. */
  predicate OwnershipMatch(mode: string, v: View)
  {
    mode == "" || ModeKeeps(mode, v)
  }

  /** `getCards(filters)`, step by step as the source applies it. */
  function GetCards(catalog: seq<Card>, owned: Owned, f: Filters): seq<View>
  {
    var joined := JoinAll(Structural(catalog, f), owned);
    if f.owned != "" then Filter(joined, (v: View) => ModeKeeps(f.owned, v)) else joined
  }

  /** The structural filters of `getCards`, one after another. */
  function Structural(catalog: seq<Card>, f: Filters): seq<Card>
  {
    var bySet := if f.setCode != "" then Filter(catalog, (c: Card) => c.setCode == Some(f.setCode)) else catalog;
    var byRarity := if f.rarity != "" then Filter(bySet, (c: Card) => c.rarity == f.rarity) else bySet;
    var byMin := if f.minPrice != Unset then Filter(byRarity, (c: Card) => AboveMin(c.price, f.minPrice)) else byRarity;
    if f.maxPrice != Unset then Filter(byMin, (c: Card) => BelowMax(c.price, f.maxPrice)) else byMin
  }

  /** The structural filters as one predicate. */
  function Matching(f: Filters): Card -> bool
  {
    (c: Card) => StructuralMatch(f, c)
  }

  /** Whether `getCards` keeps a catalog card. */
  predicate Keeps(owned: Owned, f: Filters, c: Card)
  {
    StructuralMatch(f, c) && OwnershipMatch(f.owned, JoinCard(owned, c))
  }

  /** `getCards` keeps exactly the catalog cards that pass every structural
      filter and the ownership mode, in catalog order, each joined with its flags. */
  lemma GetCardsCharacterization(catalog: seq<Card>, owned: Owned, f: Filters)
    ensures GetCards(catalog, owned, f) == JoinAll(Filter(catalog, (c: Card) => Keeps(owned, f, c)), owned)
  {
    StructuralIsFilter(catalog, f);
    var byMax := Structural(catalog, f);
    var p4 := Matching(f);
    var keep := (c: Card) => Keeps(owned, f, c);
    var p5 := (c: Card) => p4(c) && OwnershipMatch(f.owned, JoinCard(owned, c));
    FilterExt(catalog, p5, keep);
    if f.owned != "" {
      var q := (v: View) => ModeKeeps(f.owned, v);
      FilterMap(byMax, (c: Card) => JoinCard(owned, c), q, (c: Card) => q(JoinCard(owned, c)));
      FilterFilter(catalog, p4, (c: Card) => q(JoinCard(owned, c)), p5);
    } else {
      FilterExt(catalog, p4, p5);
    }
  }

  /** Applying the set structural filters one after another is filtering by
      all of them at once. */
  lemma StructuralIsFilter(catalog: seq<Card>, f: Filters)
    ensures Structural(catalog, f) == Filter(catalog, Matching(f))
  {
    var p0 := (c: Card) => true;
    var p1 := (c: Card) => f.setCode == "" || c.setCode == Some(f.setCode);
    var p2 := (c: Card) => p1(c) && (f.rarity == "" || c.rarity == f.rarity);
    var p3 := (c: Card) => p2(c) && (f.minPrice == Unset || AboveMin(c.price, f.minPrice));
    var p4 := (c: Card) => p3(c) && (f.maxPrice == Unset || BelowMax(c.price, f.maxPrice));
    FilterAll(catalog, p0);
    var bySet := if f.setCode != "" then Filter(catalog, (c: Card) => c.setCode == Some(f.setCode)) else catalog;
    FilterStep(catalog, catalog, f.setCode != "", (c: Card) => c.setCode == Some(f.setCode), p0, p1);
    var byRarity := if f.rarity != "" then Filter(bySet, (c: Card) => c.rarity == f.rarity) else bySet;
    FilterStep(catalog, bySet, f.rarity != "", (c: Card) => c.rarity == f.rarity, p1, p2);
    var byMin := if f.minPrice != Unset then Filter(byRarity, (c: Card) => AboveMin(c.price, f.minPrice)) else byRarity;
    FilterStep(catalog, byRarity, f.minPrice != Unset, (c: Card) => AboveMin(c.price, f.minPrice), p2, p3);
    FilterStep(catalog, byMin, f.maxPrice != Unset, (c: Card) => BelowMax(c.price, f.maxPrice), p3, p4);
    FilterExt(catalog, p4, Matching(f));
  }

  /** With no filter keys set, `getCards` returns the whole catalog in order,
      each card carrying the flags stored for its id. */
  lemma GetCardsNoFilters(catalog: seq<Card>, owned: Owned)
    ensures GetCards(catalog, owned, NoFilters) == JoinAll(catalog, owned)
  {
    GetCardsCharacterization(catalog, owned, NoFilters);
    FilterAll(catalog, (c: Card) => Keeps(owned, NoFilters, c));
  }

  /** A view is in the join exactly when it is the join of one of the cards. */
  lemma JoinAllMembers(cs: seq<Card>, owned: Owned, v: View)
    ensures v in JoinAll(cs, owned) <==> v.card in cs && v == JoinCard(owned, v.card)
  {
    var js := JoinAll(cs, owned);
    if v in js {
      var i :| 0 <= i < |js| && js[i] == v;
      assert cs[i] == v.card;
    }
    if v.card in cs && v == JoinCard(owned, v.card) {
      var i :| 0 <= i < |cs| && cs[i] == v.card;
      assert js[i] == v;
    }
  }

  /** The cards under the join are the joined cards themselves. */
  lemma {:induction false} CardsOfJoinAll(cs: seq<Card>, owned: Owned)
    ensures CardsOf(JoinAll(cs, owned)) == cs
  {
    assert forall i :: 0 <= i < |cs| ==> CardsOf(JoinAll(cs, owned))[i] == cs[i];
  }

  /** The result is a subsequence of the catalog, and a view is in it exactly
      when its card is a catalog card that passes every filter, joined with the
      flags stored for its id. */
  lemma GetCardsMembers(catalog: seq<Card>, owned: Owned, f: Filters, v: View)
    ensures IsSubseq(CardsOf(GetCards(catalog, owned, f)), catalog)
    ensures v in GetCards(catalog, owned, f) <==>
              v.card in catalog && Keeps(owned, f, v.card) && v == JoinCard(owned, v.card)
  {
    var keep := (c: Card) => Keeps(owned, f, c);
    GetCardsCharacterization(catalog, owned, f);
    var kept := Filter(catalog, keep);
    FilterIsSubseq(catalog, keep);
    CardsOfJoinAll(kept, owned);
    JoinAllMembers(kept, owned, v);
    assert v.card in kept <==> v.card in catalog && keep(v.card);
  }

  /** Every returned card passes every filter that is set (price bounds
      inclusive, an unreadable bound rejecting everything) and carries the
      flags stored for its id. */
  lemma GetCardsSound(catalog: seq<Card>, owned: Owned, f: Filters, v: View)
    requires v in GetCards(catalog, owned, f)
    ensures v.card in catalog
    ensures f.setCode != "" ==> v.card.setCode == Some(f.setCode)
    ensures f.rarity != "" ==> v.card.rarity == f.rarity
    ensures f.minPrice.Limit? ==> v.card.price >= f.minPrice.cents
    ensures f.maxPrice.Limit? ==> v.card.price <= f.maxPrice.cents
    ensures f.minPrice != NotANumber && f.maxPrice != NotANumber
    ensures v.owned == Lookup(owned, v.card.id).regular
    ensures v.ownedFoil == Lookup(owned, v.card.id).foil
    ensures f.owned != "" ==> ModeKeeps(f.owned, v)
  {
    GetCardsMembers(catalog, owned, f, v);
  }

  // ----- The ownership modes -----

  /** `all-variants-owned` holds exactly when the card offers some variant and
      every variant it offers is owned; a foil-only card needs only the foil. */
  lemma AllVariantsOwnedMeaning(v: View)
    ensures ModeKeeps("all-variants-owned", v) <==>
              (v.card.hasNonfoil || v.card.hasFoil)
              && (v.card.hasNonfoil ==> v.owned)
              && (v.card.hasFoil ==> v.ownedFoil)
  {
  }

  /** `all-variants-not-owned` holds exactly when the card offers some variant
      and no variant it offers is owned. */
  lemma AllVariantsNotOwnedMeaning(v: View)
    ensures ModeKeeps("all-variants-not-owned", v) <==>
              (v.card.hasNonfoil || v.card.hasFoil)
              && (v.card.hasNonfoil ==> !v.owned)
              && (v.card.hasFoil ==> !v.ownedFoil)
  {
  }

  /** `incomplete-variants` keeps exactly the cards that offer both variants
      and own exactly one of them. */
  lemma IncompleteVariantsMeaning(v: View)
    ensures ModeKeeps("incomplete-variants", v) <==>
              v.card.hasNonfoil && v.card.hasFoil && v.owned != v.ownedFoil
  {
  }

  /** The legacy values `true` and `false` mean `owned` and `not-owned`, and
      those two modes are complementary. */
  lemma LegacyModes(v: View)
    ensures ModeKeeps("true", v) == ModeKeeps("owned", v)
    ensures ModeKeeps("false", v) == ModeKeeps("not-owned", v)
    ensures ModeKeeps("owned", v) == !ModeKeeps("not-owned", v)
  {
  }

  /** The modes the source knows. */
  const KnownModes: set<string> :=
    {"owned", "not-owned", "all-variants-owned", "all-variants-not-owned", "incomplete-variants", "true", "false"}

  /** An unrecognised mode keeps every view. */
  lemma UnknownModeKeeps(mode: string, v: View)
    requires mode !in KnownModes
    ensures ModeKeeps(mode, v)
  {
  }

  /** An unrecognised mode filters nothing. */
  lemma UnknownModeKeepsAll(catalog: seq<Card>, owned: Owned, f: Filters)
    requires f.owned !in KnownModes
    ensures GetCards(catalog, owned, f) == GetCards(catalog, owned, f.(owned := ""))
  {
    var g := f.(owned := "");
    forall c ensures Keeps(owned, f, c) == Keeps(owned, g, c) {
      UnknownModeKeeps(f.owned, JoinCard(owned, c));
    }
    GetCardsCharacterization(catalog, owned, f);
    GetCardsCharacterization(catalog, owned, g);
    FilterExt(catalog, (c: Card) => Keeps(owned, f, c), (c: Card) => Keeps(owned, g, c));
  }

  /** Under `incomplete-variants`, every returned card offers both variants and
      owns exactly one. */
  lemma IncompleteVariantsResult(catalog: seq<Card>, owned: Owned, f: Filters)
    requires f.owned == "incomplete-variants"
    ensures forall v :: v in GetCards(catalog, owned, f) ==>
              v.card.hasNonfoil && v.card.hasFoil && v.owned != v.ownedFoil
  {
    forall v | v in GetCards(catalog, owned, f)
      ensures v.card.hasNonfoil && v.card.hasFoil && v.owned != v.ownedFoil
    {
      GetCardsSound(catalog, owned, f, v);
    }
  }

  // ----- Filter options -----

  /** The set-code options: the distinct set codes of the catalog in ascending
      order, followed by the absent code when some card has none (the default
      sort places `undefined` last). */
  function SetOptions(catalog: seq<Card>): (r: seq<Option<string>>)
    ensures forall x :: x in r <==> exists c :: c in catalog && c.setCode == x
    ensures NoDuplicates(r)
    ensures forall i :: 0 <= i < |r| - 1 ==> r[i].Some?
    ensures forall i, j :: 0 <= i < j < |r| && r[j].Some? ==> r[i].Some? && Text.Less(r[i].value, r[j].value)
  {
    var named := Text.SortedUnique(SetCodes(catalog));
    Text.StrictlySortedNoDuplicates(named);
    var wrapped := seq(|named|, i requires 0 <= i < |named| => Some(named[i]));
    forall x ensures x in wrapped <==> x.Some? && x.value in named {
      if x.Some? && x.value in named {
        var i :| 0 <= i < |named| && named[i] == x.value;
        assert wrapped[i] == x;
      }
    }
    assert forall i, j :: 0 <= i < j < |wrapped| ==> Text.Less(wrapped[i].value, wrapped[j].value);
    if exists c :: c in catalog && c.setCode == None then wrapped + [None] else wrapped
  }

  /** The set codes that cards carry. */
  function SetCodes(catalog: seq<Card>): (codes: seq<string>)
    ensures forall s :: s in codes <==> exists c :: c in catalog && c.setCode == Some(s)
  {
    if |catalog| == 0 then []
    else
      var rest := SetCodes(catalog[1..]);
      assert forall c :: c in catalog <==> c == catalog[0] || c in catalog[1..];
      match catalog[0].setCode
      case Some(s) => [s] + rest
      case None => rest
  }

  /** The rarity options: always the four catalog rarities in rank order. */
  function RarityOptions(): (r: seq<string>)
    ensures r == Rarities
    ensures forall i :: 0 <= i < |r| ==> RarityRank(r[i]) == i + 1
  {
    ["Common", "Uncommon", "Rare", "Mythic Rare"]
  }
}
