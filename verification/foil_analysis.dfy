/** The foil analysis script: per subset, how many cards there are and how
    many offer each finish, and the "master set" sums over both finishes. */
module FoilAnalysis {
  import opened Collections
  import opened Cards
  import Text

  /** The counters kept for one subset. */
  datatype Tally = Tally(total: nat, nonfoil: nat, foil: nat)

  /** One card's contribution to its subset's counters. */
  function Visit(t: Tally, c: Card): (u: Tally)
    ensures u.total == t.total + 1
    ensures u.nonfoil == t.nonfoil + (if c.hasNonfoil then 1 else 0)
    ensures u.foil == t.foil + (if c.hasFoil then 1 else 0)
  {
    Tally(t.total + 1, if c.hasNonfoil then t.nonfoil + 1 else t.nonfoil,
          if c.hasFoil then t.foil + 1 else t.foil)
  }

  /** The counters of subset `k` over `cards`: its cards, and those of them
      that offer each finish, which can be no more than its cards. */
  function SubsetTally(cards: seq<Card>, k: string): (t: Tally)
    ensures t.nonfoil <= t.total && t.foil <= t.total
    ensures t.total <= |cards|
    decreases |cards|
  {
    if |cards| == 0 then Tally(0, 0, 0)
    else
      var t := SubsetTally(cards[..|cards| - 1], k);
      if cards[|cards| - 1].subset == k then Visit(t, cards[|cards| - 1]) else t
  }

  /** The subset's master-set count: one slot per finish offered. */
  function Master(t: Tally): (n: nat)
    ensures t.nonfoil <= t.total && t.foil <= t.total ==> n <= 2 * t.total
  {
    t.nonfoil + t.foil
  }

  /** The counters of the subsets seen in the first `i` cards. */
  ghost predicate Reached(cards: seq<Card>, i: nat, subsets: map<string, Tally>)
    requires i <= |cards|
  {
    && (forall k :: k in subsets <==> exists j :: 0 <= j < i && cards[j].subset == k)
    && (forall k :: k in subsets ==> subsets[k] == SubsetTally(cards[..i], k))
  }

  /** The `forEach` over the catalog: a subset gets zeroed counters the first
      time one of its cards is seen, then every card bumps its subset's
      counters. The result has exactly the subsets that occur, each with the
      counts of `SubsetTally`. */
  method Analyze(cards: seq<Card>) returns (subsets: map<string, Tally>)
    ensures forall k :: k in subsets <==> exists i :: 0 <= i < |cards| && cards[i].subset == k
    ensures forall k :: k in subsets ==> subsets[k] == SubsetTally(cards, k)
  {
    subsets := map[];
    var i := 0;
    while i < |cards|
      invariant 0 <= i <= |cards|
      invariant Reached(cards, i, subsets)
    {
      var c := cards[i];
      var before := subsets;
      if c.subset !in subsets {
        subsets := subsets[c.subset := Tally(0, 0, 0)];
      }
      subsets := subsets[c.subset := Visit(subsets[c.subset], c)];
      AnalyzeStep(cards, i, before, subsets);
      i := i + 1;
    }
    assert cards[..i] == cards;
  }

  /** Card `i` bumps the counters of its own subset, fresh or not, and
      nothing else. */
  lemma AnalyzeStep(cards: seq<Card>, i: nat, before: map<string, Tally>, after: map<string, Tally>)
    requires i < |cards|
    requires Reached(cards, i, before)
    requires after == before[cards[i].subset :=
               Visit(if cards[i].subset in before then before[cards[i].subset] else Tally(0, 0, 0), cards[i])]
    ensures Reached(cards, i + 1, after)
  {
    var k0 := cards[i].subset;
    if k0 !in before {
      FreshSubsetIsEmpty(cards[..i], k0);
    }
    assert cards[..i + 1][..i] == cards[..i];
    forall k ensures k in after <==> exists j :: 0 <= j < i + 1 && cards[j].subset == k {
      if k == k0 {
        assert cards[i].subset == k;
      }
    }
  }

  /** A subset none of whose cards occur has zero counters. */
  lemma {:induction false} FreshSubsetIsEmpty(cards: seq<Card>, k: string)
    requires forall j :: 0 <= j < |cards| ==> cards[j].subset != k
    ensures SubsetTally(cards, k) == Tally(0, 0, 0)
    decreases |cards|
  {
    if |cards| > 0 {
      FreshSubsetIsEmpty(cards[..|cards| - 1], k);
    }
  }

  /** The subsets in the order the report prints them: the distinct labels,
      sorted. */
  function ReportOrder(cards: seq<Card>): (ks: seq<string>)
    ensures Text.StrictlySorted(ks)
    ensures forall k :: k in ks <==> exists i :: 0 <= i < |cards| && cards[i].subset == k
  {
    var ks := Text.SortedUnique(Map(cards, SubsetOf));
    forall k ensures k in ks <==> exists i :: 0 <= i < |cards| && cards[i].subset == k {
      MapMembers(cards, SubsetOf, k);
    }
    ks
  }

  /** The subset totals added up over `ks`. */
  function TotalOver(ks: seq<string>, cards: seq<Card>): nat
  {
    if |ks| == 0 then 0 else SubsetTally(cards, ks[0]).total + TotalOver(ks[1..], cards)
  }

  /** The subset master counts added up over `ks`. */
  function MasterOver(ks: seq<string>, cards: seq<Card>): nat
  {
    if |ks| == 0 then 0 else Master(SubsetTally(cards, ks[0])) + MasterOver(ks[1..], cards)
  }

  /** The overall master-set total: one slot per card and offered finish. */
  function OverallMaster(cards: seq<Card>): (n: nat)
    ensures n <= 2 * |cards|
  {
    Count(cards, OffersNonfoil) + Count(cards, OffersFoil)
  }

  /** Before any card is seen every sum is zero. */
  lemma {:induction false} NothingOver(ks: seq<string>)
    ensures TotalOver(ks, []) == 0 && MasterOver(ks, []) == 0
    decreases |ks|
  {
    if |ks| > 0 {
      NothingOver(ks[1..]);
    }
  }

  /** One more card adds to the sums over distinct keys exactly once, when
      its subset is one of them. */
  lemma {:induction false} OverStep(ks: seq<string>, cards: seq<Card>, c: Card)
    requires NoDuplicates(ks)
    ensures TotalOver(ks, cards + [c]) == TotalOver(ks, cards) + (if c.subset in ks then 1 else 0)
    ensures MasterOver(ks, cards + [c]) == MasterOver(ks, cards)
              + (if c.subset in ks then (if c.hasNonfoil then 1 else 0) + (if c.hasFoil then 1 else 0) else 0)
    decreases |ks|
  {
    if |ks| > 0 {
      var rest := ks[1..];
      assert NoDuplicates(rest);
      OverStep(rest, cards, c);
      assert (cards + [c])[..|cards|] == cards;
      forall j | 0 <= j < |rest| ensures rest[j] != ks[0] {
        assert rest[j] == ks[j + 1];
      }
      assert c.subset in ks <==> c.subset == ks[0] || c.subset in rest by {
        assert ks == [ks[0]] + rest;
      }
    }
  }

  /** Over distinct keys that include every subset, the totals add up to the
      number of cards and the master counts to the overall master total. */
  lemma {:induction false} AddsUp(ks: seq<string>, cards: seq<Card>)
    requires NoDuplicates(ks)
    requires forall i :: 0 <= i < |cards| ==> cards[i].subset in ks
    ensures TotalOver(ks, cards) == |cards|
    ensures MasterOver(ks, cards) == OverallMaster(cards)
    decreases |cards|
  {
    if |cards| == 0 {
      NothingOver(ks);
    } else {
      var n := |cards| - 1;
      var init := cards[..n];
      assert init + [cards[n]] == cards;
      AddsUp(ks, init);
      OverStep(ks, init, cards[n]);
      CountPrefix(cards, n, OffersNonfoil);
      CountPrefix(cards, n, OffersFoil);
      assert cards[..n + 1] == cards;
    }
  }

  /** The printed report adds up: over the sorted distinct subsets the totals
      add up to the catalog size and the master counts to the overall master
      total, since every card is in exactly one printed subset. */
  lemma ReportAddsUp(cards: seq<Card>)
    ensures TotalOver(ReportOrder(cards), cards) == |cards|
    ensures MasterOver(ReportOrder(cards), cards) == OverallMaster(cards)
  {
    var ks := ReportOrder(cards);
    Text.StrictlySortedNoDuplicates(ks);
    AddsUp(ks, cards);
  }
}
