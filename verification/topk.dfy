/**
  `TopK.Sample` (sample/sample.go): check k, leave the vector alone when k is
  at least its length, and otherwise rank the positions by descending score
  and write the excluded mark into every position after the first k.
 */
module TopKFilter {
  import opened Slots
  import opened Floats
  import opened Sorting
  import opened Outcomes

  /** What `TopK(k).Sample(v)` returns. */
  function Apply(v: seq<Slot>, k: int, rank: Ranker): (r: Result<seq<Slot>>)
    ensures r.Err? <==> k <= 0
    ensures r.Err? ==> r.error == KNotPositive
    ensures r.Ok? ==> OnlyExcludes(v, r.value)
  {
    if k <= 0 then Err(KNotPositive)
    else if k >= |v| then Ok(v)
    else Ok(ExcludeAt(v, rank(v)[k..]))
  }

  /** The stage in place: a rejected k leaves the slice untouched. */
  method Sample(logits: array<Slot>, k: int, rank: Ranker) returns (res: Result<array<Slot>>)
    modifies logits
    ensures k <= 0 ==> res == Err(KNotPositive) && logits[..] == old(logits[..])
    ensures k > 0 ==> res == Ok(logits) && logits[..] == Apply(old(logits[..]), k, rank).value
  {
    if k <= 0 {
      return Err(KNotPositive);
    }
    if k >= logits.Length {
      return Ok(logits);
    }
    var indices := rank(logits[..]);
    ExcludeRanked(logits, indices, k);
    return Ok(logits);
  }

  /** A k at least the vector's length leaves every score as it was. */
  lemma WholeVectorKept(v: seq<Slot>, k: int, rank: Ranker)
    requires k > 0 && k >= |v|
    ensures Apply(v, k, rank) == Ok(v)
  {
  }

  /** The positions TopK overwrites: those ranked after the first k. */
  ghost function Dropped(v: seq<Slot>, k: nat, rank: Ranker): set<nat>
    requires k <= |v|
  {
    set x: nat | x in rank(v)[k..]
  }

  /** Putting a new element in front of a list adds one element to its set. */
  lemma ConsElements(h: nat, t: seq<nat>)
    requires h !in t
    ensures (set x: nat | x in [h] + t) == (set x: nat | x in t) + {h}
    ensures |(set x: nat | x in t) + {h}| == |set x: nat | x in t| + 1
  {
    var st := set x: nat | x in t;
    assert h !in st;
  }

  /** A list without repeats has as many distinct elements as entries. */
  lemma {:induction false} DistinctCard(s: seq<nat>)
    requires forall a, b :: 0 <= a < b < |s| ==> s[a] != s[b]
    ensures |set x: nat | x in s| == |s|
  {
    if s != [] {
      var t := s[1..];
      assert forall a, b :: 0 <= a < b < |t| ==> t[a] == s[a + 1] && t[b] == s[b + 1];
      DistinctCard(t);
      assert s == [s[0]] + t;
      ConsElements(s[0], t);
    }
  }

  /** A slot TopK keeps is never below one it drops. */
  lemma KeptNotBelowDropped(v: seq<Slot>, k: nat, i: nat, j: nat, rank: Ranker)
    requires 0 < k < |v| && i < |v| && j < |v|
    requires i !in Dropped(v, k, rank) && j in Dropped(v, k, rank)
    ensures !Below(v[i], v[j])
  {
    var order := rank(v);
    var tail := order[k..];
    assert i in order;
    var a :| 0 <= a < |order| && order[a] == i;
    var b :| 0 <= b < |tail| && tail[b] == j;
    assert forall c :: k <= c < |order| ==> tail[c - k] == order[c];
    RankingOrder(order, v, a, b + k);
  }

  /**
    With 0 < k < len(v), TopK overwrites exactly len(v) - k positions, keeps
    every other slot as it was, and never keeps a slot below one it drops.
   */
  lemma TopKExcludesExactly(v: seq<Slot>, k: nat, rank: Ranker)
    requires 0 < k < |v|
    ensures |Dropped(v, k, rank)| == |v| - k
    ensures forall i :: 0 <= i < |v| ==> Apply(v, k, rank).value[i] == if i in Dropped(v, k, rank) then Excluded else v[i]
    ensures forall i, j :: 0 <= i < |v| && 0 <= j < |v| && i !in Dropped(v, k, rank) && j in Dropped(v, k, rank) ==> !Below(v[i], v[j])
  {
    var order := rank(v);
    var tail := order[k..];
    assert forall a, b :: 0 <= a < b < |tail| ==> tail[a] == order[a + k] && tail[b] == order[b + k];
    DistinctCard(tail);
    assert Dropped(v, k, rank) == set x: nat | x in tail;
    forall i, j | 0 <= i < |v| && 0 <= j < |v| && i !in Dropped(v, k, rank) && j in Dropped(v, k, rank) ensures !Below(v[i], v[j]) {
      KeptNotBelowDropped(v, k, i, j, rank);
    }
  }

  /** A slot survives TopK exactly when it is ranked among the first k. */
  lemma KeptIsHead(v: seq<Slot>, k: nat, i: nat, rank: Ranker)
    requires 0 < k < |v| && i < |v|
    ensures Apply(v, k, rank).value[i].Active? <==> v[i].Active? && i in rank(v)[..k]
  {
    var order := rank(v);
    assert i in order;
    var a :| 0 <= a < |order| && order[a] == i;
    if a < k {
      assert order[..k][a] == i;
      assert i !in order[k..] by {
        forall b | 0 <= b < |order| - k ensures order[k..][b] != i {
          assert order[k..][b] == order[b + k];
        }
      }
    } else {
      assert order[k..][a - k] == i;
      assert i !in order[..k] by {
        forall b | 0 <= b < k ensures order[..k][b] != i {
          assert order[..k][b] == order[b];
        }
      }
    }
  }

  /** With no NaN in the input, exactly k slots keep a score, and they are k largest ones. */
  lemma TopKKeepsLargest(v: seq<Slot>, k: nat, rank: Ranker)
    requires AllActive(v) && 0 < k < |v|
    ensures |set i | 0 <= i < |v| && Apply(v, k, rank).value[i].Active?| == k
    ensures forall i, j :: 0 <= i < |v| && 0 <= j < |v| && Apply(v, k, rank).value[i].Active? && Apply(v, k, rank).value[j].Excluded? ==>
              v[j].score <= v[i].score
  {
    TopKExcludesExactly(v, k, rank);
    var order := rank(v);
    var r := Apply(v, k, rank).value;
    var head := order[..k];
    var kept := set i | 0 <= i < |v| && r[i].Active?;
    forall i | 0 <= i < |v| ensures r[i].Active? <==> i in head {
      KeptIsHead(v, k, i, rank);
    }
    assert kept == set x: nat | x in head;
    assert forall a, b :: 0 <= a < b < |head| ==> head[a] == order[a] && head[b] == order[b];
    DistinctCard(head);
  }
}
