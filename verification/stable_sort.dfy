/** A stable sort by a comparator that is a total preorder, the guarantee
    `Array.prototype.sort` gives since ECMAScript 2019. */
module StableSort {
  import opened Collections

  /** `le` orders any two elements one way or the other, transitively. */
  ghost predicate TotalPreorder<T(!new)>(le: (T, T) -> bool)
  {
    && (forall a, b :: le(a, b) || le(b, a))
    && (forall a, b, c :: le(a, b) && le(b, c) ==> le(a, c))
  }

  /** Every element may come before every later one. */
  predicate Sorted<T>(le: (T, T) -> bool, s: seq<T>)
  {
    forall i, j :: 0 <= i < j < |s| ==> le(s[i], s[j])
  }

  /** The elements ranked alike with `y`. */
  function SameRank<T>(le: (T, T) -> bool, y: T): T -> bool
  {
    (z: T) => le(z, y) && le(y, z)
  }

  /** Puts `x` before the first element it may precede. Placing it ahead of
      the elements ranked alike is what keeps the sort stable. */
  function Insert<T(!new)>(le: (T, T) -> bool, x: T, s: seq<T>): (r: seq<T>)
    requires TotalPreorder(le) && Sorted(le, s)
    ensures Sorted(le, r)
    ensures multiset(r) == multiset(s) + multiset{x}
  {
    if |s| == 0 then [x]
    else if le(x, s[0]) then
      [x] + s
    else
      var rest := Insert(le, x, s[1..]);
      HeadPrecedesInserted(le, x, s, rest);
      [s[0]] + rest
  }

  /** The head of a sorted sequence may precede everything the insertion of
      a larger element into its tail gives. */
  lemma HeadPrecedesInserted<T(!new)>(le: (T, T) -> bool, x: T, s: seq<T>, rest: seq<T>)
    requires TotalPreorder(le) && Sorted(le, s) && |s| > 0 && !le(x, s[0])
    requires Sorted(le, rest) && multiset(rest) == multiset(s[1..]) + multiset{x}
    ensures Sorted(le, [s[0]] + rest)
    ensures multiset([s[0]] + rest) == multiset(s) + multiset{x}
  {
    assert s == [s[0]] + s[1..];
    forall j | 0 <= j < |rest| ensures le(s[0], rest[j]) {
      assert rest[j] in multiset(rest);
      if rest[j] != x {
        var k :| 0 <= k < |s[1..]| && s[1..][k] == rest[j];
        assert s[k + 1] == rest[j];
      }
    }
    var r := [s[0]] + rest;
    forall i, j | 0 <= i < j < |r| ensures le(r[i], r[j]) {
      if i > 0 {
        assert r[i] == rest[i - 1] && r[j] == rest[j - 1];
      }
    }
  }

  /** Each element is inserted, from the back, into the sorted rest. */
  function Sort<T(!new)>(le: (T, T) -> bool, s: seq<T>): (r: seq<T>)
    requires TotalPreorder(le)
    ensures Sorted(le, r)
    ensures multiset(r) == multiset(s)
    ensures |r| == |s|
  {
    if |s| == 0 then []
    else
      assert s == [s[0]] + s[1..];
      var r := Insert(le, s[0], Sort(le, s[1..]));
      assert |r| == |multiset(r)| == |multiset(s)| == |s|;
      r
  }

  /** Putting `z` in front of both sides keeps a filter equation whose left
      side gained `x`, when `x` and `z` are not both kept. */
  lemma FilterConsSwap<T>(e: T -> bool, x: T, z: T, rest: seq<T>, tail: seq<T>)
    requires Filter(rest, e) == (if e(x) then [x] else []) + Filter(tail, e)
    requires e(x) ==> !e(z)
    ensures Filter([z] + rest, e) == (if e(x) then [x] else []) + Filter([z] + tail, e)
  {
    FilterCons(z, rest, e);
    FilterCons(z, tail, e);
    if e(x) {
      assert Filter([z] + rest, e) == Filter(rest, e);
      assert Filter([z] + tail, e) == Filter(tail, e);
    } else {
      assert Filter(rest, e) == Filter(tail, e);
    }
  }

  /** An element that `x` may not precede is not ranked alike with anything
      `x` is ranked alike with. */
  lemma NotSameRankAsBlocker<T(!new)>(le: (T, T) -> bool, x: T, z: T, y: T)
    requires TotalPreorder(le) && !le(x, z)
    ensures SameRank(le, y)(x) ==> !SameRank(le, y)(z)
  {
  }

  /** Inserting `x` puts it ahead of every element ranked alike with it and
      leaves the order of the others alone. */
  lemma {:induction false} InsertKeepsRankOrder<T(!new)>(le: (T, T) -> bool, x: T, s: seq<T>, y: T)
    requires TotalPreorder(le) && Sorted(le, s)
    ensures Filter(Insert(le, x, s), SameRank(le, y))
            == (if SameRank(le, y)(x) then [x] else []) + Filter(s, SameRank(le, y))
    decreases |s|
  {
    var e := SameRank(le, y);
    var r := Insert(le, x, s);
    if |s| == 0 {
      FilterCons(x, [], e);
    } else if le(x, s[0]) {
      FilterCons(x, s, e);
    } else {
      InsertKeepsRankOrder(le, x, s[1..], y);
      InsertBehindHead(le, x, s, y);
    }
  }

  /** The step of the previous lemma where `x` goes behind the head. */
  lemma InsertBehindHead<T(!new)>(le: (T, T) -> bool, x: T, s: seq<T>, y: T)
    requires TotalPreorder(le) && Sorted(le, s) && |s| > 0 && !le(x, s[0])
    requires Filter(Insert(le, x, s[1..]), SameRank(le, y))
             == (if SameRank(le, y)(x) then [x] else []) + Filter(s[1..], SameRank(le, y))
    ensures Filter(Insert(le, x, s), SameRank(le, y))
            == (if SameRank(le, y)(x) then [x] else []) + Filter(s, SameRank(le, y))
  {
    InsertBehind(le, x, s);
    NotSameRankAsBlocker(le, x, s[0], y);
    FilterConsSwap(SameRank(le, y), x, s[0], Insert(le, x, s[1..]), s[1..]);
  }

  /** An element that may not precede the head is inserted into the tail. */
  lemma InsertBehind<T(!new)>(le: (T, T) -> bool, x: T, s: seq<T>)
    requires TotalPreorder(le) && Sorted(le, s) && |s| > 0 && !le(x, s[0])
    ensures s == [s[0]] + s[1..]
    ensures Sorted(le, s[1..]) && Insert(le, x, s) == [s[0]] + Insert(le, x, s[1..])
  {
    assert s == [s[0]] + s[1..];
  }

  /** The sort is stable: the elements ranked alike with any `y` come out in
      the order they went in. */
  lemma {:induction false} SortStable<T(!new)>(le: (T, T) -> bool, s: seq<T>, y: T)
    requires TotalPreorder(le)
    ensures Filter(Sort(le, s), SameRank(le, y)) == Filter(s, SameRank(le, y))
    decreases |s|
  {
    if |s| > 0 {
      SortStable(le, s[1..], y);
      InsertKeepsRankOrder(le, s[0], Sort(le, s[1..]), y);
    }
  }

  /** Sorted input comes out unchanged. */
  lemma {:induction false} SortSortedIsIdentity<T(!new)>(le: (T, T) -> bool, s: seq<T>)
    requires TotalPreorder(le) && Sorted(le, s)
    ensures Sort(le, s) == s
    decreases |s|
  {
    if |s| > 0 {
      assert Sorted(le, s[1..]);
      SortSortedIsIdentity(le, s[1..]);
      if |s| > 1 {
        assert le(s[0], s[1]);
      }
    }
  }
}
