/** The browser-side collection statistics (`getStats`): card and
    variant-slot counts, completion percentages and values, over the whole
    catalog or over the cards currently shown. */
module Stats {
  import opened Collections
  import opened Cards
  import opened Ownership
  import CardQuery

  /** The numbers `getStats` returns, prices in cents and percentages before
      the display rounding. */
  datatype Summary = Summary(
    totalCards: nat,
    uniqueOwned: nat,
    percentage: real,
    totalMasterCards: nat,
    ownedMasterCards: nat,
    masterPercentage: real,
    totalValue: int,
    ownedValue: int)

  /** Some variant of the card is owned. */
  predicate OwnsAny(owned: Owned, c: Card)
  {
    Lookup(owned, c.id).regular || Lookup(owned, c.id).foil
  }

  /** The card's variant slots: one for a regular printing, one for a foil. */
  function Slots(c: Card): (n: int)
    ensures 0 <= n <= 2
  {
    (if c.hasNonfoil then 1 else 0) + (if c.hasFoil then 1 else 0)
  }

  /** The owned slots of a card: an owned variant counts only when the card
      is printed in that finish. */
  function OwnedSlots(owned: Owned, c: Card): (n: int)
    ensures 0 <= n <= Slots(c)
  {
    var e := Lookup(owned, c.id);
    (if e.regular && c.hasNonfoil then 1 else 0) + (if e.foil && c.hasFoil then 1 else 0)
  }

  /** The value of a card's owned copies: its price for a regular copy, its
      foil price for a foil one (nothing when the foil price is zero or
      missing). */
  function OwnedValue(owned: Owned, c: Card): int
  {
    var e := Lookup(owned, c.id);
    (if e.regular then c.price else 0) + (if e.foil && c.foilPrice != 0 then c.foilPrice else 0)
  }

  /** The statistics as totals over the cards, independently of how they are
      accumulated. */
  function Summarize(cards: seq<Card>, owned: Owned): (s: Summary)
    ensures s.totalCards == |cards|
    ensures s.uniqueOwned <= s.totalCards
    ensures 0 <= s.ownedMasterCards <= s.totalMasterCards <= 2 * s.totalCards
    ensures 0.0 <= s.percentage <= 100.0 && 0.0 <= s.masterPercentage <= 100.0
  {
    var unique := Count(cards, (c: Card) => OwnsAny(owned, c));
    var totalMaster := Sum(cards, Slots);
    var ownedMaster := Sum(cards, (c: Card) => OwnedSlots(owned, c));
    SumMonotone(cards, (c: Card) => OwnedSlots(owned, c), Slots);
    SumNonNegative(cards, (c: Card) => OwnedSlots(owned, c));
    SumMonotone(cards, Slots, (c: Card) => 2);
    SumConstant(cards, 2);
    Summary(|cards|, unique, Percent(unique, |cards|),
            totalMaster, ownedMaster, Percent(ownedMaster, totalMaster),
            Sum(cards, (c: Card) => c.price), Sum(cards, (c: Card) => OwnedValue(owned, c)))
  }

  /** A constant term sums to the constant times the length. */
  lemma {:induction false} SumConstant(cards: seq<Card>, k: int)
    ensures Sum(cards, (c: Card) => k) == k * |cards|
    decreases |cards|
  {
    if |cards| > 0 {
      SumConstant(cards[1..], k);
    }
  }

  /** The six running totals of `getStats` after one card. */
  datatype Tally = Tally(totalCards: nat, uniqueOwned: nat, totalMaster: nat, ownedMaster: nat,
                         totalValue: int, ownedValue: int)

  /** The totals the loop has reached after the cards of `done`. */
  predicate Reached(t: Tally, done: seq<Card>, owned: Owned)
  {
    && t.totalCards == |done|
    && t.uniqueOwned == Count(done, (c: Card) => OwnsAny(owned, c))
    && t.totalMaster == Sum(done, Slots)
    && t.ownedMaster == Sum(done, (c: Card) => OwnedSlots(owned, c))
    && t.totalValue == Sum(done, (c: Card) => c.price)
    && t.ownedValue == Sum(done, (c: Card) => OwnedValue(owned, c))
  }

  /** The body of the loop: the totals updated for one card, reading the
      card's entry only when there is one. */
  method Visit(t: Tally, card: Card, owned: Owned) returns (u: Tally)
    ensures u.totalCards == t.totalCards + 1
    ensures u.uniqueOwned == t.uniqueOwned + (if OwnsAny(owned, card) then 1 else 0)
    ensures u.totalMaster == t.totalMaster + Slots(card)
    ensures u.ownedMaster == t.ownedMaster + OwnedSlots(owned, card)
    ensures u.totalValue == t.totalValue + card.price
    ensures u.ownedValue == t.ownedValue + OwnedValue(owned, card)
  {
    u := t.(totalCards := t.totalCards + 1, totalValue := t.totalValue + card.price);
    if card.hasNonfoil { u := u.(totalMaster := u.totalMaster + 1); }
    if card.hasFoil { u := u.(totalMaster := u.totalMaster + 1); }
    if card.id in owned {
      var ownership := owned[card.id];
      if ownership.regular || ownership.foil { u := u.(uniqueOwned := u.uniqueOwned + 1); }
      if ownership.regular && card.hasNonfoil { u := u.(ownedMaster := u.ownedMaster + 1); }
      if ownership.foil && card.hasFoil { u := u.(ownedMaster := u.ownedMaster + 1); }
      if ownership.regular { u := u.(ownedValue := u.ownedValue + card.price); }
      if ownership.foil && card.foilPrice != 0 { u := u.(ownedValue := u.ownedValue + card.foilPrice); }
    }
  }

  /** `getStats(filteredCards)`: one pass over the given cards, or over the
      catalog when none are given (an empty list is given, not absent). */
  method GetStats(filtered: Option<seq<Card>>, catalog: seq<Card>, owned: Owned) returns (s: Summary)
    ensures s == Summarize(if filtered.Some? then filtered.value else catalog, owned)
  {
    var cards := filtered.GetOr(catalog);
    var t := Tally(0, 0, 0, 0, 0, 0);
    var i := 0;
    while i < |cards|
      invariant 0 <= i <= |cards|
      invariant Reached(t, cards[..i], owned)
    {
      var u := Visit(t, cards[i], owned);
      ReachedStep(t, u, cards, i, owned);
      t, i := u, i + 1;
    }
    assert cards[..|cards|] == cards;
    s := Summary(t.totalCards, t.uniqueOwned, Percent(t.uniqueOwned, t.totalCards),
                 t.totalMaster, t.ownedMaster, Percent(t.ownedMaster, t.totalMaster),
                 t.totalValue, t.ownedValue);
    ReachedSummarize(t, cards, owned);
  }

  /** One visit extends the totals from a prefix to the next prefix. */
  lemma ReachedStep(t: Tally, u: Tally, cards: seq<Card>, i: nat, owned: Owned)
    requires i < |cards| && Reached(t, cards[..i], owned)
    requires u.totalCards == t.totalCards + 1
    requires u.uniqueOwned == t.uniqueOwned + (if OwnsAny(owned, cards[i]) then 1 else 0)
    requires u.totalMaster == t.totalMaster + Slots(cards[i])
    requires u.ownedMaster == t.ownedMaster + OwnedSlots(owned, cards[i])
    requires u.totalValue == t.totalValue + cards[i].price
    requires u.ownedValue == t.ownedValue + OwnedValue(owned, cards[i])
    ensures Reached(u, cards[..i + 1], owned)
  {
    CountPrefix(cards, i, (c: Card) => OwnsAny(owned, c));
    SumPrefix(cards, i, Slots);
    SumPrefix(cards, i, (c: Card) => OwnedSlots(owned, c));
    SumPrefix(cards, i, (c: Card) => c.price);
    SumPrefix(cards, i, (c: Card) => OwnedValue(owned, c));
  }

  /** Totals reached over all the cards give their summary. */
  lemma ReachedSummarize(t: Tally, cards: seq<Card>, owned: Owned)
    requires Reached(t, cards, owned)
    ensures Summary(t.totalCards, t.uniqueOwned, Percent(t.uniqueOwned, t.totalCards),
                    t.totalMaster, t.ownedMaster, Percent(t.ownedMaster, t.totalMaster),
                    t.totalValue, t.ownedValue) == Summarize(cards, owned)
  {
  }

  /** The statistics of two runs of cards put together are the sums of their
      counts and values. */
  lemma SummarizeAppend(a: seq<Card>, b: seq<Card>, owned: Owned)
    ensures Summarize(a + b, owned).uniqueOwned == Summarize(a, owned).uniqueOwned + Summarize(b, owned).uniqueOwned
    ensures Summarize(a + b, owned).totalMasterCards == Summarize(a, owned).totalMasterCards + Summarize(b, owned).totalMasterCards
    ensures Summarize(a + b, owned).ownedMasterCards == Summarize(a, owned).ownedMasterCards + Summarize(b, owned).ownedMasterCards
    ensures Summarize(a + b, owned).totalValue == Summarize(a, owned).totalValue + Summarize(b, owned).totalValue
    ensures Summarize(a + b, owned).ownedValue == Summarize(a, owned).ownedValue + Summarize(b, owned).ownedValue
  {
    CountAppend(a, b, (c: Card) => OwnsAny(owned, c));
    SumAppend(a, b, Slots);
    SumAppend(a, b, (c: Card) => OwnedSlots(owned, c));
    SumAppend(a, b, (c: Card) => c.price);
    SumAppend(a, b, (c: Card) => OwnedValue(owned, c));
  }

  /** The unique-owned count is the number of cards the `owned` view of the
      card list shows. */
  lemma UniqueOwnedIsOwnedView(catalog: seq<Card>, owned: Owned)
    ensures Summarize(catalog, owned).uniqueOwned
            == |CardQuery.GetCards(catalog, owned, CardQuery.NoFilters.(owned := "owned"))|
  {
    var f := CardQuery.NoFilters.(owned := "owned");
    CardQuery.GetCardsCharacterization(catalog, owned, f);
    FilterExt(catalog, (c: Card) => CardQuery.Keeps(owned, f, c), (c: Card) => OwnsAny(owned, c));
    CountFilter(catalog, (c: Card) => OwnsAny(owned, c));
  }

  /** With a pruned record every stored entry owns something, so the unique
      count is the number of catalog cards that have an entry. */
  lemma UniqueOwnedCountsEntries(cards: seq<Card>, owned: Owned)
    requires Pruned(owned)
    ensures Summarize(cards, owned).uniqueOwned == Count(cards, (c: Card) => c.id in owned)
  {
    FilterExt(cards, (c: Card) => OwnsAny(owned, c), (c: Card) => c.id in owned);
    CountFilter(cards, (c: Card) => OwnsAny(owned, c));
    CountFilter(cards, (c: Card) => c.id in owned);
  }

  /** Completing a card's variants raises its owned slots to its slots, and a
      catalog whose every variant is owned is at 100 percent. */
  lemma CompleteCollection(cards: seq<Card>, owned: Owned)
    requires |cards| > 0 && exists i :: 0 <= i < |cards| && Slots(cards[i]) > 0
    requires forall c :: c in cards ==> c.id in owned && owned[c.id] == Entry(true, true)
    ensures Summarize(cards, owned).masterPercentage == 100.0
    ensures Summarize(cards, owned).percentage == 100.0
  {
    SumExt(cards, (c: Card) => OwnedSlots(owned, c), Slots);
    FilterAll(cards, (c: Card) => OwnsAny(owned, c));
    CountFilter(cards, (c: Card) => OwnsAny(owned, c));
    var i :| 0 <= i < |cards| && Slots(cards[i]) > 0;
    SumPositive(cards, i);
  }

  /** Sums of terms that agree on the elements agree. */
  lemma {:induction false} SumExt(cards: seq<Card>, f: Card -> int, g: Card -> int)
    requires forall c :: c in cards ==> f(c) == g(c)
    ensures Sum(cards, f) == Sum(cards, g)
    decreases |cards|
  {
    if |cards| > 0 {
      SumExt(cards[1..], f, g);
    }
  }

  /** A card with a slot makes the slot total positive. */
  lemma {:induction false} SumPositive(cards: seq<Card>, i: nat)
    requires i < |cards| && Slots(cards[i]) > 0
    ensures Sum(cards, Slots) > 0
    decreases |cards|
  {
    SumNonNegative(cards[1..], Slots);
    if i > 0 {
      SumPositive(cards[1..], i - 1);
    }
  }
}
