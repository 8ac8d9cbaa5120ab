/** Stable selection of the highest-valued entries of a list, the way `Counter.most_common(n)`
    and `sorted(items, key=..., reverse=True)[:n]` make it: positions are ordered by
    descending value, and among equal values the earlier position comes first. */
module Ranking {

  function Min(a: int, b: int): int {
    if a <= b then a else b
  }

  /** Position `i` comes before position `j` in a stable descending sort of `v`. */
  predicate Outranks(v: seq<real>, i: nat, j: nat)
    requires i < |v| && j < |v|
  {
    v[i] > v[j] || (v[i] == v[j] && i < j)
  }

  predicate InRange(v: seq<real>, s: seq<nat>) {
    forall a :: 0 <= a < |s| ==> s[a] < |v|
  }

  predicate Distinct<T(==)>(s: seq<T>) {
    forall a, b :: 0 <= a < b < |s| ==> s[a] != s[b]
  }

  /** `s` lists positions of `v` in the order a stable descending sort puts them. */
  predicate RankOrdered(v: seq<real>, s: seq<nat>) {
    InRange(v, s) && forall a, b :: 0 <= a < b < |s| ==> Outranks(v, s[a], s[b])
  }

  /** The positions `0, 1, ..., n - 1`, in the order the items were inserted. */
  function Range(n: nat): (r: seq<nat>)
    ensures |r| == n && forall a :: 0 <= a < n ==> r[a] == a
  {
    seq(n, a requires 0 <= a < n => a as nat)
  }

  /** Puts position `i` into a ranked list, behind every position that outranks it. */
  function Insert(v: seq<real>, i: nat, s: seq<nat>): (r: seq<nat>)
    requires i < |v| && InRange(v, s)
    ensures multiset(r) == multiset(s) + multiset{i}
    ensures InRange(v, r)
    decreases |s|
  {
    if s == [] then [i]
    else if Outranks(v, i, s[0]) then [i] + s
    else
      assert s == [s[0]] + s[1..];
      [s[0]] + Insert(v, i, s[1..])
  }

  /** Inserting keeps a list in rank order. */
  lemma {:induction false} InsertRanked(v: seq<real>, i: nat, s: seq<nat>)
    requires i < |v| && RankOrdered(v, s) && i !in s
    ensures RankOrdered(v, Insert(v, i, s))
    decreases |s|
  {
    var r := Insert(v, i, s);
    if s == [] {
    } else if Outranks(v, i, s[0]) {
      assert r == [i] + s;
      forall a, b | 0 <= a < b < |r|
        ensures Outranks(v, r[a], r[b])
      {
        if a == 0 {
          if b > 1 {
            assert Outranks(v, s[0], s[b - 1]);
          }
        } else {
          assert r[a] == s[a - 1] && r[b] == s[b - 1];
        }
      }
    } else {
      var tail := Insert(v, i, s[1..]);
      assert r == [s[0]] + tail;
      InsertRanked(v, i, s[1..]);
      forall a, b | 0 <= a < b < |r|
        ensures Outranks(v, r[a], r[b])
      {
        if a == 0 {
          var x := tail[b - 1];
          assert x in multiset(s[1..]) + multiset{i};
          if x != i {
            assert x in s[1..];
            var c :| 0 <= c < |s[1..]| && s[1..][c] == x;
            assert s[c + 1] == x;
          }
        } else {
          assert r[a] == tail[a - 1] && r[b] == tail[b - 1];
        }
      }
    }
  }

  /** Insertion sort of distinct positions into rank order. */
  function RankSort(v: seq<real>, s: seq<nat>): (r: seq<nat>)
    requires InRange(v, s)
    ensures multiset(r) == multiset(s)
    ensures InRange(v, r)
  {
    if s == [] then []
    else
      assert s == [s[0]] + s[1..];
      Insert(v, s[0], RankSort(v, s[1..]))
  }

  lemma {:induction false} RankSortRanked(v: seq<real>, s: seq<nat>)
    requires InRange(v, s) && Distinct(s)
    ensures RankOrdered(v, RankSort(v, s))
  {
    if s != [] {
      RankSortRanked(v, s[1..]);
      assert s == [s[0]] + s[1..];
      assert s[0] !in multiset(s[1..]);
      InsertRanked(v, s[0], RankSort(v, s[1..]));
    }
  }

  /** The positions of the `k` highest values of `v`, best first: as many as there are,
      up to `k`, each one outranking every position left out. */
  function TopRanked(v: seq<real>, k: nat): (r: seq<nat>)
    ensures |r| == Min(k, |v|)
    ensures RankOrdered(v, r)
    ensures Distinct(r)
    ensures forall a, j :: 0 <= a < |r| && 0 <= j < |v| && j !in r ==> Outranks(v, r[a], j)
    ensures k >= |v| ==> forall j :: 0 <= j < |v| ==> j in r
  {
    var order := RankSort(v, Range(|v|));
    RankSortRanked(v, Range(|v|));
    assert |order| == |v| by {
      assert |multiset(order)| == |multiset(Range(|v|))|;
    }
    var r := order[..Min(k, |v|)];
    assert forall j :: 0 <= j < |v| ==> j in order by {
      forall j | 0 <= j < |v|
        ensures j in order
      {
        assert Range(|v|)[j] == j;
        assert j in multiset(Range(|v|));
      }
    }
    assert forall a, j :: 0 <= a < |r| && 0 <= j < |v| && j !in r ==> Outranks(v, r[a], j) by {
      forall a, j | 0 <= a < |r| && 0 <= j < |v| && j !in r
        ensures Outranks(v, r[a], j)
      {
        assert j in order;
        var b :| 0 <= b < |order| && order[b] == j;
        assert b >= |r|;
      }
    }
    assert k >= |v| ==> r == order;
    r
  }

  predicate Ascending(s: seq<nat>) {
    forall a, b :: 0 <= a < b < |s| ==> s[a] < s[b]
  }

  /** Puts a new position into an ascending list. */
  function InsertAscending(x: nat, s: seq<nat>): (r: seq<nat>)
    requires Ascending(s) && x !in s
    ensures |r| == |s| + 1
    ensures forall y :: y in r <==> y == x || y in s
    ensures Ascending(r)
  {
    if s == [] then [x]
    else if x < s[0] then
      AscendingCons(x, s);
      [x] + s
    else
      var tail := InsertAscending(x, s[1..]);
      assert forall y :: y in s[1..] ==> s[0] < y;
      AscendingCons(s[0], tail);
      assert forall y :: y in s <==> y == s[0] || y in s[1..];
      [s[0]] + tail
  }

  lemma AscendingCons(h: nat, t: seq<nat>)
    requires Ascending(t) && forall y :: y in t ==> h < y
    ensures Ascending([h] + t)
  {
    var r := [h] + t;
    forall a, b | 0 <= a < b < |r|
      ensures r[a] < r[b]
    {
      assert r[b] == t[b - 1] && t[b - 1] in t;
      if a > 0 {
        assert r[a] == t[a - 1];
      }
    }
  }

  /** `sorted(s)` for distinct positions: the same positions in ascending order. */
  function SortAscending(s: seq<nat>): (r: seq<nat>)
    requires Distinct(s)
    ensures |r| == |s|
    ensures forall y :: y in r <==> y in s
    ensures Ascending(r)
  {
    if s == [] then []
    else
      var tail := SortAscending(s[1..]);
      assert forall y :: y in s <==> y == s[0] || y in s[1..];
      assert s[0] !in s[1..];
      InsertAscending(s[0], tail)
  }
}
