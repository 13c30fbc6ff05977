/** The Art Series script: catalog cards built from a hand-entered table and
    merged into the catalog in place of any earlier Art Series cards. */
module ArtSeries {
  import opened Collections
  import opened Cards
  import Text
  import Grouping
  import Validation

  /** One row of the hand-entered table: collector number, name, and price in
      cents. */
  datatype ArtEntry = ArtEntry(num: string, name: string, price: int)

  const IdPrefix: string := "aspm-"

  /** The placeholder image service; the URL-encoded name follows. */
  const PlaceholderPrefix: string := PlaceholderScheme + "placeholder" + PlaceholderPath
  const PlaceholderScheme: string := "https://via."
  const PlaceholderPath: string := ".com/250x350/1a1a2e/dc143c?text="

  /** The card id: `aspm-` and the collector number padded with zeros to three
      characters. */
  function ArtCardId(num: string): string
  {
    IdPrefix + Text.PadStart(num, 3, '0')
  }

  /** The id starts with the prefix and ends with the collector number, with
      only zeros between; numbers of three or more code units are not
      padded, shorter ones are padded to three units. */
  lemma ArtCardIdShape(num: string)
    ensures |ArtCardId(num)| >= |IdPrefix| + |num|
    ensures ArtCardId(num)[..|IdPrefix|] == IdPrefix
    ensures |Text.Units(num)| < 3 ==> |Text.Units(ArtCardId(num)[|IdPrefix|..])| == 3
    ensures Text.Bmp(num) && |num| < 3 ==> |ArtCardId(num)| == |IdPrefix| + 3
    ensures |Text.Units(num)| >= 3 ==> ArtCardId(num) == IdPrefix + num
    ensures ArtCardId(num)[|ArtCardId(num)| - |num|..] == num
    ensures forall i :: |IdPrefix| <= i < |ArtCardId(num)| - |num| ==> ArtCardId(num)[i] == '0'
  {
    var pad := Text.PadStart(num, 3, '0');
    assert ArtCardId(num)[|IdPrefix|..] == pad;
    if Text.Bmp(num) && |num| < 3 {
      Text.BmpPadStart(num, 3, '0');
    }
  }

  /** A collector number as the table writes it: non-empty, no leading zero. */
  predicate Canonical(num: string)
  {
    |num| > 0 && num[0] != '0'
  }

  /** Different canonical collector numbers get different ids. */
  lemma {:induction false} ArtCardIdInjective(a: string, b: string)
    requires Canonical(a) && Canonical(b)
    ensures ArtCardId(a) == ArtCardId(b) <==> a == b
  {
    ArtCardIdShape(a);
    ArtCardIdShape(b);
    if |a| < |b| {
      PaddedDiffer(a, b);
    } else if |b| < |a| {
      PaddedDiffer(b, a);
    }
  }

  /** A shorter canonical number is padded with a zero where the longer one
      has its leading digit, or the two ids differ in length. */
  lemma PaddedDiffer(a: string, b: string)
    requires Canonical(a) && Canonical(b) && |a| < |b|
    ensures ArtCardId(a) != ArtCardId(b)
  {
    var x, y := ArtCardId(a), ArtCardId(b);
    ArtCardIdShape(a);
    ArtCardIdShape(b);
    if |x| == |y| {
      var k := |y| - |b|;
      assert y[k] == b[0];
      assert x[k] == '0';
    }
  }

  /** Different canonical numbers, different ids. */
  lemma DistinctIds(a: string, b: string)
    requires Canonical(a) && Canonical(b) && a != b
    ensures ArtCardId(a) != ArtCardId(b)
  {
    ArtCardIdInjective(a, b);
  }

  /** Leading zeros collide: "1" and "01" get the same id. */
  lemma LeadingZeroCollides()
    ensures ArtCardId("1") == ArtCardId("01")
  {
    assert Text.PadStart("1", 3, '0') == "001";
    assert Text.PadStart("01", 3, '0') == "001";
  }

  /** The estimated foil price, one and a half times the price, rounded down
      to whole cents. */
  function EstimateFoil(price: int): (foil: int)
    ensures 2 * foil <= 3 * price < 2 * foil + 2
    ensures price >= 0 ==> price <= foil
  {
    (3 * price) / 2
  }

  /** The catalog card for one table row. The URL encoding of the name is
      a parameter. */
  function BuildCard(e: ArtEntry, encode: string -> string): (c: Card)
    ensures c.id == ArtCardId(e.num) && c.name == e.name && c.setNumber == e.num
    ensures c.setCode == Some("ASPM") && c.subset == "Art Series" && c.rarity == "Common"
    ensures c.price == e.price && c.foilPrice == EstimateFoil(e.price)
    ensures c.source == ["Art Series Packs"]
    ensures c.imageUrl == PlaceholderPrefix + encode(e.name)
    ensures c.hasFoil && c.hasNonfoil
  {
    Card(ArtCardId(e.num), e.name, e.num, Some("ASPM"), "Art Series", "Common", e.price,
         EstimateFoil(e.price), ["Art Series Packs"], PlaceholderPrefix + encode(e.name), true, true)
  }

  /** The placeholder URL names the placeholder service, so the image check
      counts it as missing whatever the encoded name. */
  lemma PlaceholderIsMissing(encoded: string)
    ensures Text.OccursAt(PlaceholderPrefix + encoded, "placeholder", |PlaceholderScheme|)
  {
    var url := PlaceholderScheme + "placeholder" + (PlaceholderPath + encoded);
    assert url == PlaceholderPrefix + encoded;
    assert url[|PlaceholderScheme|..|PlaceholderScheme| + |"placeholder"|] == "placeholder";
  }

  /** A built card passes the rarity check, is counted by the image check as
      lacking a real image, and is counted under SPM by the duplicate check. */
  lemma BuiltCardUnderChecks(e: ArtEntry, encode: string -> string)
    ensures RarityRank(BuildCard(e, encode).rarity) > 0
    ensures Validation.MissingImage(BuildCard(e, encode))
    ensures Validation.InferSetCode(BuildCard(e, encode)) == "SPM"
  {
    PlaceholderIsMissing(encode(e.name));
  }

  /** The built cards, one per row, in table order. */
  function Generate(entries: seq<ArtEntry>, encode: string -> string): (cards: seq<Card>)
    ensures |cards| == |entries|
    ensures forall i :: 0 <= i < |entries| ==> cards[i] == BuildCard(entries[i], encode)
  {
    Map(entries, (e: ArtEntry) => BuildCard(e, encode))
  }

  /** Rows with distinct canonical collector numbers give cards with distinct
      ids. */
  lemma GeneratedIdsDistinct(entries: seq<ArtEntry>, encode: string -> string)
    requires forall i :: 0 <= i < |entries| ==> Canonical(entries[i].num)
    requires forall i, j :: 0 <= i < j < |entries| ==> entries[i].num != entries[j].num
    ensures forall i, j :: 0 <= i < j < |entries| ==>
              Generate(entries, encode)[i].id != Generate(entries, encode)[j].id
  {
    forall i, j | 0 <= i < j < |entries|
      ensures Generate(entries, encode)[i].id != Generate(entries, encode)[j].id
    {
      DistinctIds(entries[i].num, entries[j].num);
    }
  }

  /** An Art Series card: its set code is ASPM. Cards written by the fetch
      script carry no set code and are never Art Series. */
  predicate IsArtSeries(c: Card) { c.setCode == Some("ASPM") }
  predicate NotArtSeries(c: Card) { !IsArtSeries(c) }

  /** The merge: the existing cards other than Art Series ones, in their
      order, then the generated cards. */
  function Merge(existing: seq<Card>, generated: seq<Card>): (merged: seq<Card>)
    ensures |merged| == |existing| - Count(existing, IsArtSeries) + |generated|
    ensures merged[|merged| - |generated|..] == generated
    ensures IsSubseq(merged[..|merged| - |generated|], existing)
    ensures forall i :: 0 <= i < |merged| - |generated| ==> !IsArtSeries(merged[i])
  {
    var kept := Filter(existing, NotArtSeries);
    CountComplement(existing, NotArtSeries, IsArtSeries);
    CountFilter(existing, NotArtSeries);
    FilterIsSubseq(existing, NotArtSeries);
    assert (kept + generated)[..|kept|] == kept;
    kept + generated
  }

  /** A card is in the merged catalog exactly when it was an existing card
      that is not Art Series, or is a generated card. */
  lemma MergeMembers(existing: seq<Card>, generated: seq<Card>, c: Card)
    ensures c in Merge(existing, generated) <==>
              (c in existing && !IsArtSeries(c)) || c in generated
  {
    var kept := Filter(existing, NotArtSeries);
    assert Merge(existing, generated) == kept + generated;
    if c in existing && !IsArtSeries(c) {
      var i :| 0 <= i < |existing| && existing[i] == c;
      assert NotArtSeries(existing[i]);
    }
  }

  /** After a merge of Art Series cards, the Art Series cards of the catalog
      are exactly the generated ones: none of the old ones survive. */
  lemma {:induction false} MergeReplacesArtSeries(existing: seq<Card>, generated: seq<Card>)
    requires forall i :: 0 <= i < |generated| ==> IsArtSeries(generated[i])
    ensures Filter(Merge(existing, generated), IsArtSeries) == generated
    ensures Count(Merge(existing, generated), IsArtSeries) == |generated|
  {
    var kept := Filter(existing, NotArtSeries);
    assert Merge(existing, generated) == kept + generated;
    FilterAppend(kept, generated, IsArtSeries);
    forall i | 0 <= i < |kept| ensures !IsArtSeries(kept[i]) {
      assert NotArtSeries(kept[i]);
    }
    Grouping.FilterNone(kept, IsArtSeries);
    FilterAll(generated, IsArtSeries);
    CountFilter(Merge(existing, generated), IsArtSeries);
  }

  /** Merging the same Art Series cards again changes nothing: a rerun of the
      script replaces its own output. */
  lemma {:induction false} MergeIdempotent(existing: seq<Card>, generated: seq<Card>)
    requires forall i :: 0 <= i < |generated| ==> IsArtSeries(generated[i])
    ensures Merge(Merge(existing, generated), generated) == Merge(existing, generated)
  {
    var kept := Filter(existing, NotArtSeries);
    assert Merge(existing, generated) == kept + generated;
    FilterAppend(kept, generated, NotArtSeries);
    FilterIdempotent(existing, NotArtSeries);
    Grouping.FilterNone(generated, NotArtSeries);
  }

  /** The whole script: generate the table's cards and merge them in. Running
      it twice is running it once, and its cards are the only Art Series
      cards afterwards. */
  function AddArtSeries(existing: seq<Card>, entries: seq<ArtEntry>, encode: string -> string): (merged: seq<Card>)
    ensures |merged| == |existing| - Count(existing, IsArtSeries) + |entries|
  {
    Merge(existing, Generate(entries, encode))
  }

  /** A second run of the script on its own output gives the catalog of one
      run, whose Art Series cards are exactly the generated ones. */
  lemma AddArtSeriesRerun(existing: seq<Card>, entries: seq<ArtEntry>, encode: string -> string)
    ensures AddArtSeries(AddArtSeries(existing, entries, encode), entries, encode)
            == AddArtSeries(existing, entries, encode)
    ensures Filter(AddArtSeries(existing, entries, encode), IsArtSeries) == Generate(entries, encode)
  {
    var generated := Generate(entries, encode);
    MergeIdempotent(existing, generated);
    MergeReplacesArtSeries(existing, generated);
  }
}
