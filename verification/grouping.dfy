/** Grouping a sequence by a key, the `if (!groups[k]) groups[k] = [];
    groups[k].push(x)` pattern of the catalog scripts. */
module Grouping {
  import opened Collections

  /** The elements whose key is `k`. */
  function KeyIs<T, K(==)>(key: T -> K, k: K): T -> bool
  {
    (x: T) => key(x) == k
  }

  /** A filter that keeps nothing of a sequence none of whose elements pass. */
  lemma {:induction false} FilterNone<T>(s: seq<T>, p: T -> bool)
    requires forall i :: 0 <= i < |s| ==> !p(s[i])
    ensures Filter(s, p) == []
    decreases |s|
  {
    if |s| > 0 {
      FilterNone(s[1..], p);
    }
  }

  /** Each key that occurs in `s`, mapped to the elements with that key in
      their order in `s`. */
  function GroupBy<T, K(!new)>(s: seq<T>, key: T -> K): (g: map<K, seq<T>>)
    ensures forall k :: k in g <==> exists i :: 0 <= i < |s| && key(s[i]) == k
    ensures forall k :: k in g ==> g[k] == Filter(s, KeyIs(key, k))
    decreases |s|
  {
    if |s| == 0 then map[]
    else
      var g := GroupBy(s[1..], key);
      var r := g[key(s[0]) := [s[0]] + (if key(s[0]) in g then g[key(s[0])] else [])];
      GroupStep(s, key, g, r);
      r
  }

  /** The step of `GroupBy` that puts the first element in front of its
      group. */
  lemma GroupStep<T, K(!new)>(s: seq<T>, key: T -> K, g: map<K, seq<T>>, r: map<K, seq<T>>)
    requires |s| > 0
    requires forall k :: k in g <==> exists i :: 0 <= i < |s[1..]| && key(s[1..][i]) == k
    requires forall k :: k in g ==> g[k] == Filter(s[1..], KeyIs(key, k))
    requires r == g[key(s[0]) := [s[0]] + (if key(s[0]) in g then g[key(s[0])] else [])]
    ensures forall k :: k in r <==> exists i :: 0 <= i < |s| && key(s[i]) == k
    ensures forall k :: k in r ==> r[k] == Filter(s, KeyIs(key, k))
  {
    forall k ensures k in r <==> exists i :: 0 <= i < |s| && key(s[i]) == k {
      GroupStepKey(s, key, g, k);
    }
    forall k | k in r ensures r[k] == Filter(s, KeyIs(key, k)) {
      GroupStepContents(s, key, g, k);
    }
  }

  /** The keys after the step: the old ones and the first element's. */
  lemma GroupStepKey<T, K(!new)>(s: seq<T>, key: T -> K, g: map<K, seq<T>>, k: K)
    requires |s| > 0
    requires forall k :: k in g <==> exists i :: 0 <= i < |s[1..]| && key(s[1..][i]) == k
    ensures k == key(s[0]) || k in g <==> exists i :: 0 <= i < |s| && key(s[i]) == k
  {
    var rest := s[1..];
    if k == key(s[0]) {
      assert key(s[0]) == k;
    } else if k in g {
      var i :| 0 <= i < |rest| && key(rest[i]) == k;
      assert key(s[i + 1]) == k;
    } else {
      forall i | 0 <= i < |s| ensures key(s[i]) != k {
        if i > 0 {
          assert s[i] == rest[i - 1];
        }
      }
    }
  }

  /** The group of one key after the step. */
  lemma GroupStepContents<T, K(!new)>(s: seq<T>, key: T -> K, g: map<K, seq<T>>, k: K)
    requires |s| > 0
    requires forall k :: k in g <==> exists i :: 0 <= i < |s[1..]| && key(s[1..][i]) == k
    requires forall k :: k in g ==> g[k] == Filter(s[1..], KeyIs(key, k))
    requires k == key(s[0]) || k in g
    ensures (if k == key(s[0]) then [s[0]] + (if k in g then g[k] else []) else g[k])
            == Filter(s, KeyIs(key, k))
  {
    var rest := s[1..];
    FilterCons(s[0], rest, KeyIs(key, k));
    assert [s[0]] + rest == s;
    if k !in g {
      forall i | 0 <= i < |rest| ensures !KeyIs(key, k)(rest[i]) {
      }
      FilterNone(rest, KeyIs(key, k));
    }
  }

  /** A group holds exactly the elements of `s` with its key. */
  lemma GroupMembers<T, K(!new)>(s: seq<T>, key: T -> K, k: K, x: T)
    requires k in GroupBy(s, key)
    ensures x in GroupBy(s, key)[k] <==> x in s && key(x) == k
  {
    var r := GroupBy(s, key)[k];
    if x in r {
      var i :| 0 <= i < |r| && r[i] == x;
      assert KeyIs(key, k)(r[i]);
    }
    if x in s && key(x) == k {
      var i :| 0 <= i < |s| && s[i] == x;
      assert KeyIs(key, k)(s[i]);
    }
  }

  /** Every element lands in the group of its own key and in no other. */
  lemma GroupsPartition<T, K(!new)>(s: seq<T>, key: T -> K, i: nat, k: K)
    requires i < |s|
    ensures key(s[i]) in GroupBy(s, key) && s[i] in GroupBy(s, key)[key(s[i])]
    ensures k in GroupBy(s, key) && s[i] in GroupBy(s, key)[k] ==> k == key(s[i])
  {
    assert KeyIs(key, key(s[i]))(s[i]);
  }
}
