/**
  The two uses of Go's `slices` package: `slices.SortFunc` over an index list
  with a descending `cmp.Compare` key (TopK and TopP), and `slices.Sort` of a
  copy of the probabilities followed by reading its last element (MinP).
  The library sort is not stable, so the filters take the sort as a `Ranker`:
  any function answering a descending ranking of its keys. Equal keys may come
  out in any order.
 */
module Sorting {
  import opened Slots
  import opened Floats

  /** `order` lists every position of `keys` once, the largest key first (NaN counts as smallest). */
  ghost predicate IsDescendingRanking(order: seq<nat>, keys: seq<Slot>)
  {
    IsPermutation(order, |keys|) &&
    forall a, b :: 0 <= a < b < |order| ==> !Below(keys[order[a]], keys[order[b]])
  }

  /** Insert position `i` into the descending list `s`, after every position whose key is at least as large. */
  function Insert(keys: seq<Slot>, i: nat, s: seq<nat>): (r: seq<nat>)
    requires i < |keys|
    ensures |r| == |s| + 1
    ensures forall x :: x in r <==> x == i || x in s
  {
    if s == [] then [i]
    else if s[0] < |keys| && Below(keys[s[0]], keys[i]) then [i] + s
    else [s[0]] + Insert(keys, i, s[1..])
  }

  /** The positions below `n`, ranked by descending key. */
  function RankPrefix(keys: seq<Slot>, n: nat): (r: seq<nat>)
    requires n <= |keys|
    ensures |r| == n
    ensures forall x: nat :: x in r <==> x < n
  {
    if n == 0 then [] else Insert(keys, n - 1, RankPrefix(keys, n - 1))
  }

  /**
    One index list `slices.SortFunc` may produce from `0, 1, ..., len-1` with a
    descending key: a stable insertion sort, so equal keys keep index order.
   */
  function Rank(keys: seq<Slot>): (r: seq<nat>)
    ensures |r| == |keys|
    ensures forall j :: 0 <= j < |r| ==> r[j] < |keys|
    ensures forall x: nat :: x < |keys| ==> x in r
    ensures IsDescendingRanking(r, keys)
  {
    var r := RankPrefix(keys, |keys|);
    RankPrefixOrdered(keys, |keys|);
    assert forall j :: 0 <= j < |r| ==> r[j] in r;
    r
  }

  /**
    The sort as the filters see it: whatever index list it hands back for the
    keys is a descending ranking of them. The library sort is not stable, so
    the model accepts every such sort; `Rank` is one of them.
   */
  type Ranker = rank: seq<Slot> -> seq<nat>
    | forall keys :: IsDescendingRanking(rank(keys), keys)
    witness Rank

  ghost predicate DescendingDistinct(keys: seq<Slot>, s: seq<nat>)
  {
    (forall j :: 0 <= j < |s| ==> s[j] < |keys|) &&
    (forall a, b :: 0 <= a < b < |s| ==> s[a] != s[b]) &&
    (forall a, b :: 0 <= a < b < |s| ==> !Below(keys[s[a]], keys[s[b]]))
  }

  /** A key that is not above `y` is below anything `y` is below. */
  lemma BelowStep(x: Slot, y: Slot, z: Slot)
    requires Below(y, x) && !Below(y, z)
    ensures !Below(x, z) && x != z
  {
  }

  /** Putting `i` in front of keys no larger than its own keeps the list descending. */
  lemma PrependKeepsOrder(keys: seq<Slot>, i: nat, s: seq<nat>)
    requires i < |keys| && i !in s && DescendingDistinct(keys, s) && s != []
    requires Below(keys[s[0]], keys[i])
    ensures DescendingDistinct(keys, [i] + s)
  {
    var r := [i] + s;
    forall b | 0 < b < |r| ensures r[0] != r[b] && !Below(keys[r[0]], keys[r[b]]) {
      assert r[b] == s[b - 1];
      if b > 1 {
        BelowStep(keys[i], keys[s[0]], keys[s[b - 1]]);
      }
    }
    assert forall a, b :: 0 < a < b < |r| ==> r[a] == s[a - 1] && r[b] == s[b - 1];
  }

  /** Keeping the head in front of a descending list of elements it is not below keeps it descending. */
  lemma ConsKeepsOrder(keys: seq<Slot>, h: nat, t: seq<nat>)
    requires h < |keys| && h !in t && DescendingDistinct(keys, t)
    requires forall b :: 0 <= b < |t| ==> !Below(keys[h], keys[t[b]])
    ensures DescendingDistinct(keys, [h] + t)
  {
    var r := [h] + t;
    assert forall b :: 0 < b < |r| ==> r[b] == t[b - 1];
  }

  lemma {:induction false} InsertKeepsOrder(keys: seq<Slot>, i: nat, s: seq<nat>)
    requires i < |keys| && i !in s && DescendingDistinct(keys, s)
    ensures DescendingDistinct(keys, Insert(keys, i, s))
  {
    if s == [] {
    } else if Below(keys[s[0]], keys[i]) {
      PrependKeepsOrder(keys, i, s);
    } else {
      var tail := s[1..];
      assert DescendingDistinct(keys, tail);
      InsertKeepsOrder(keys, i, tail);
      var t := Insert(keys, i, tail);
      forall b | 0 <= b < |t| ensures !Below(keys[s[0]], keys[t[b]]) {
        assert t[b] in t;
        if t[b] != i {
          var c :| 0 <= c < |tail| && tail[c] == t[b];
          assert s[c + 1] == t[b];
        }
      }
      ConsKeepsOrder(keys, s[0], t);
    }
  }

  lemma {:induction false} RankPrefixOrdered(keys: seq<Slot>, n: nat)
    requires n <= |keys|
    ensures DescendingDistinct(keys, RankPrefix(keys, n))
  {
    if n > 0 {
      RankPrefixOrdered(keys, n - 1);
      InsertKeepsOrder(keys, n - 1, RankPrefix(keys, n - 1));
    }
  }

  /** Within a descending ranking, a position listed earlier never holds a key below one listed later. */
  lemma RankingOrder(order: seq<nat>, keys: seq<Slot>, a: nat, b: nat)
    requires IsDescendingRanking(order, keys) && a <= b < |order|
    ensures !Below(keys[order[a]], keys[order[b]])
  {
  }

  /** The last element of an ascending `slices.Sort` of `v`: its largest value, NaN only if all are NaN. */
  function Largest(v: seq<Slot>): (m: Slot)
    requires |v| > 0
    ensures m in v
    ensures forall j :: 0 <= j < |v| ==> !Below(m, v[j])
  {
    if |v| == 1 then v[0]
    else
      var m := Largest(v[..|v| - 1]);
      if Below(m, v[|v| - 1]) then v[|v| - 1] else m
  }
}
