/** The server-side ownership record: two lists of card ids, one for regular
    copies and one for foils, kept in one JSON file. */
module LegacyCollection {
  import opened Collections

  /** The `ownedFoil` field as the file holds it: absent in files written
      before foils were tracked, a falsy JSON value (`null`, `false`, `0` or
      `""`), or a list of ids. A truthy value other than a list is not
      modelled. */
  datatype FoilField = Absent | Falsy | Listed(ids: seq<string>)

  /** The collection file. */
  datatype StoredFile = StoredFile(owned: seq<string>, ownedFoil: FoilField)

  /** The collection as the routes see it after reading. */
  datatype Collection = Collection(owned: seq<string>, ownedFoil: seq<string>)

  /** The file written when none exists: two empty lists. */
  const InitialFile: StoredFile := StoredFile([], Listed([]))

  /** Reading the file: `!collection.ownedFoil` resets an absent or falsy
      field to an empty list; a list, even an empty one (arrays are truthy),
      is kept as it is. */
  function Migrate(file: StoredFile): (c: Collection)
    ensures c.owned == file.owned
    ensures file.ownedFoil.Listed? ==> c.ownedFoil == file.ownedFoil.ids
    ensures !file.ownedFoil.Listed? ==> c.ownedFoil == []
  {
    match file.ownedFoil
    case Listed(ids) => Collection(file.owned, ids)
    case _ => Collection(file.owned, [])
  }

  /** The file written back after a change. */
  function Store(c: Collection): (file: StoredFile)
    ensures Migrate(file) == c
  {
    StoredFile(c.owned, Listed(c.ownedFoil))
  }

  /** `s` without its first occurrence of `x` (`indexOf` then `splice(index, 1)`);
      `s` itself when `x` does not occur. */
  function RemoveFirst(s: seq<string>, x: string): (r: seq<string>)
    ensures x !in s ==> r == s
    ensures x in s ==> |r| == |s| - 1
    ensures forall y :: y != x ==> (y in r <==> y in s)
    ensures multiset(r) == multiset(s)[x := if x in s then multiset(s)[x] - 1 else 0]
  {
    if |s| == 0 then []
    else if s[0] == x then
      assert s == [s[0]] + s[1..];
      s[1..]
    else
      assert s == [s[0]] + s[1..];
      [s[0]] + RemoveFirst(s[1..], x)
  }

  /** The list toggle: remove the first occurrence of the id if there is one,
      otherwise append it. */
  function FlipList(s: seq<string>, id: string): (r: seq<string>)
    ensures id in s ==> multiset(r)[id] == multiset(s)[id] - 1
    ensures id !in s ==> r == s + [id]
    ensures forall y :: y != id ==> multiset(r)[y] == multiset(s)[y]
  {
    if id in s then RemoveFirst(s, id) else s + [id]
  }

  /** `POST /api/collection/toggle/:cardId`: flip the id in the foil list when
      `foil` is truthy, else in the regular list. */
  function Toggle(c: Collection, cardId: string, foil: bool): (r: Collection)
    ensures foil ==> r.owned == c.owned && r.ownedFoil == FlipList(c.ownedFoil, cardId)
    ensures !foil ==> r.ownedFoil == c.ownedFoil && r.owned == FlipList(c.owned, cardId)
  {
    if foil then c.(ownedFoil := FlipList(c.ownedFoil, cardId))
    else c.(owned := FlipList(c.owned, cardId))
  }

  /** Neither list holds an id twice. */
  predicate WellFormed(c: Collection)
  {
    NoDuplicates(c.owned) && NoDuplicates(c.ownedFoil)
  }

  /** A duplicate-free list has every element at most once. */
  lemma NoDuplicatesMultiset(s: seq<string>, x: string)
    requires NoDuplicates(s)
    ensures multiset(s)[x] <= 1
  {
    if x in s {
      var i :| 0 <= i < |s| && s[i] == x;
      assert s == s[..i] + [x] + s[i + 1..];
      assert x !in s[..i] && x !in s[i + 1..];
      assert multiset(s[..i])[x] == 0 && multiset(s[i + 1..])[x] == 0;
    }
  }

  /** A list whose element counts are at most one has no duplicates. */
  lemma {:induction false} MultisetNoDuplicates(s: seq<string>)
    requires forall x :: multiset(s)[x] <= 1
    ensures NoDuplicates(s)
  {
    forall i, j | 0 <= i < j < |s| ensures s[i] != s[j] {
      assert s == s[..i] + [s[i]] + s[i + 1..j] + [s[j]] + s[j + 1..];
      assert multiset(s)[s[i]] >= 1 + (if s[j] == s[i] then 1 else 0);
    }
  }

  /** When the id occurs at most once, the toggle inverts its membership in the
      chosen list and leaves every other id's membership alone. */
  lemma FlipListInverts(s: seq<string>, id: string, y: string)
    requires multiset(s)[id] <= 1
    ensures id in FlipList(s, id) <==> id !in s
    ensures y != id ==> (y in FlipList(s, id) <==> y in s)
  {
    var r := FlipList(s, id);
    assert y in r <==> multiset(r)[y] > 0;
    assert y in s <==> multiset(s)[y] > 0;
    assert id in r <==> multiset(r)[id] > 0;
    assert id in s <==> multiset(s)[id] > 0;
  }

  /** The toggle keeps both lists duplicate-free. */
  lemma TogglePreservesWellFormed(c: Collection, cardId: string, foil: bool)
    requires WellFormed(c)
    ensures WellFormed(Toggle(c, cardId, foil))
  {
    var s := if foil then c.ownedFoil else c.owned;
    var r := FlipList(s, cardId);
    forall x ensures multiset(r)[x] <= 1 {
      NoDuplicatesMultiset(s, x);
      if x == cardId && cardId !in s {
        assert multiset(s)[x] == 0;
      }
    }
    MultisetNoDuplicates(r);
  }

  /** On a well-formed collection the toggle inverts exactly the chosen flag of
      the card: membership of every id in the other list, and of every other id
      in the chosen list, is unchanged. */
  lemma ToggleInvertsMembership(c: Collection, cardId: string, foil: bool, y: string)
    requires WellFormed(c)
    ensures foil ==> (cardId in Toggle(c, cardId, foil).ownedFoil <==> cardId !in c.ownedFoil)
    ensures !foil ==> (cardId in Toggle(c, cardId, foil).owned <==> cardId !in c.owned)
    ensures y != cardId ==> (y in Toggle(c, cardId, foil).owned <==> y in c.owned)
    ensures y != cardId ==> (y in Toggle(c, cardId, foil).ownedFoil <==> y in c.ownedFoil)
  {
    var s := if foil then c.ownedFoil else c.owned;
    NoDuplicatesMultiset(s, cardId);
    FlipListInverts(s, cardId, y);
  }

  /** Toggling an id that is not in the list and toggling it again gives back
      the list exactly: the push is undone by the removal of its only copy. */
  lemma {:induction false} ToggleTwiceFromAbsent(s: seq<string>, id: string)
    requires id !in s
    ensures FlipList(FlipList(s, id), id) == s
  {
    RemoveFirstAppend(s, id);
  }

  /** Removing the first copy of an id that occurs only at the end. */
  lemma {:induction false} RemoveFirstAppend(s: seq<string>, id: string)
    requires id !in s
    ensures RemoveFirst(s + [id], id) == s
    decreases |s|
  {
    if |s| == 0 {
      assert s + [id] == [id];
    } else {
      var t := s + [id];
      assert t[0] == s[0] != id;
      assert t[1..] == s[1..] + [id];
      RemoveFirstAppend(s[1..], id);
      assert RemoveFirst(t, id) == [s[0]] + RemoveFirst(t[1..], id);
      assert s == [s[0]] + s[1..];
    }
  }

  /** On a well-formed collection toggling the same variant twice gives back
      the same set of owned ids in each list (a removed id comes back at the
      end of its list). */
  lemma ToggleTwiceRestoresMembership(c: Collection, cardId: string, foil: bool, y: string)
    requires WellFormed(c)
    ensures y in Toggle(Toggle(c, cardId, foil), cardId, foil).owned <==> y in c.owned
    ensures y in Toggle(Toggle(c, cardId, foil), cardId, foil).ownedFoil <==> y in c.ownedFoil
  {
    var once := Toggle(c, cardId, foil);
    ToggleInvertsMembership(c, cardId, foil, y);
    TogglePreservesWellFormed(c, cardId, foil);
    ToggleInvertsMembership(once, cardId, foil, y);
  }

  /** With a duplicated id the toggle does not remove ownership: one copy is
      spliced out and the other remains. */
  lemma DuplicateSurvivesToggle()
    ensures "a" in Toggle(Collection(["a", "a"], []), "a", false).owned
  {
    assert RemoveFirst(["a", "a"], "a") == ["a"];
  }

  /** The collection after a series of toggles, each an id and a foil flag. */
  function Replay(c: Collection, toggles: seq<(string, bool)>): Collection
    decreases |toggles|
  {
    if |toggles| == 0 then c else Replay(Toggle(c, toggles[0].0, toggles[0].1), toggles[1..])
  }

  /** Replaying toggles on a well-formed collection keeps it well-formed; in
      particular every collection grown from the initial file is. */
  lemma {:induction false} ReplayWellFormed(c: Collection, toggles: seq<(string, bool)>)
    requires WellFormed(c)
    ensures WellFormed(Replay(c, toggles))
    decreases |toggles|
  {
    if |toggles| > 0 {
      TogglePreservesWellFormed(c, toggles[0].0, toggles[0].1);
      ReplayWellFormed(Toggle(c, toggles[0].0, toggles[0].1), toggles[1..]);
    }
  }

  /** Every collection grown from the initial file by toggles is well-formed. */
  lemma ReachableWellFormed(toggles: seq<(string, bool)>)
    ensures WellFormed(Replay(Migrate(InitialFile), toggles))
  {
    ReplayWellFormed(Migrate(InitialFile), toggles);
  }
}
