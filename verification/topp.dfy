/**
  `TopP.Sample` (sample/sample.go): check p, compute the probabilities, rank
  the positions by descending probability, add the probabilities up in that
  order, and once the running sum exceeds p write the excluded mark into every
  position ranked after the current one. Surviving slots keep their scores.
 */
module TopPFilter {
  import opened Slots
  import opened Floats
  import opened Sorting
  import opened Exponential
  import opened SoftmaxCore
  import opened Outcomes

  /** The running sum `cumSum` after the first m ranked positions. */
  function Mass(probs: seq<Slot>, order: seq<nat>, m: nat): Slot
    requires m <= |order| && forall j :: 0 <= j < |order| ==> order[j] < |probs|
  {
    Sum(Gather(probs, order[..m]))
  }

  /** One more ranked position adds its probability to the running sum. */
  lemma MassStep(probs: seq<Slot>, order: seq<nat>, m: nat)
    requires m < |order| && forall j :: 0 <= j < |order| ==> order[j] < |probs|
    ensures Mass(probs, order, m + 1) == Add(Mass(probs, order, m), probs[order[m]])
  {
    assert Gather(probs, order[..m + 1])[..m] == Gather(probs, order[..m]);
  }

  /** The running sum after the position of rank j exceeds p (false whenever it is NaN). */
  predicate Exceeds(probs: seq<Slot>, order: seq<nat>, p: real, j: nat)
    requires j < |order| && forall j :: 0 <= j < |order| ==> order[j] < |probs|
  {
    Greater(Mass(probs, order, j + 1), Active(p))
  }

  /**
    The first rank, from `from` on, at which the running sum exceeds p: the
    iteration at which the source's loop breaks. None when it never does.
   */
  function Cutoff(probs: seq<Slot>, order: seq<nat>, p: real, from: nat): (c: Option<nat>)
    requires from <= |order| && forall j :: 0 <= j < |order| ==> order[j] < |probs|
    decreases |order| - from
    ensures c.Some? ==> from <= c.value < |order| && Exceeds(probs, order, p, c.value)
    ensures c.Some? ==> forall j :: from <= j < c.value ==> !Exceeds(probs, order, p, j)
    ensures c.None? ==> forall j :: from <= j < |order| ==> !Exceeds(probs, order, p, j)
  {
    if from == |order| then None
    else if Exceeds(probs, order, p, from) then Some(from)
    else Cutoff(probs, order, p, from + 1)
  }

  /** The filtering TopP applies to the scores `v`, given their probabilities. */
  function Nucleus(v: seq<Slot>, probs: seq<Slot>, p: real, rank: Ranker): (r: seq<Slot>)
    requires |probs| == |v|
    ensures OnlyExcludes(v, r)
  {
    var order := rank(probs);
    match Cutoff(probs, order, p, 0)
    case None => v
    case Some(c) => ExcludeAt(v, order[c + 1..])
  }

  /** What `TopP(p).Sample(v)` returns. */
  function Apply(v: seq<Slot>, p: real, exp: ExpFn, rank: Ranker): (r: Result<seq<Slot>>)
    ensures r.Err? <==> p <= 0.0 || p >= 1.0
    ensures r.Err? ==> r.error == POutOfRange
    ensures r.Ok? ==> OnlyExcludes(v, r.value)
  {
    if p <= 0.0 || p >= 1.0 then Err(POutOfRange) else Ok(Nucleus(v, Softmax(exp, v), p, rank))
  }

  /** Where the search for the cut goes after looking at rank i. */
  lemma CutoffStep(probs: seq<Slot>, order: seq<nat>, p: real, i: nat)
    requires i < |order| && forall j :: 0 <= j < |order| ==> order[j] < |probs|
    ensures Cutoff(probs, order, p, i) == if Exceeds(probs, order, p, i) then Some(i) else Cutoff(probs, order, p, i + 1)
  {
  }

  /** Once the cut is known, the filtering excludes every position ranked after it. */
  lemma NucleusAtCut(v: seq<Slot>, probs: seq<Slot>, p: real, rank: Ranker, c: nat)
    requires |probs| == |v| && Cutoff(probs, rank(probs), p, 0) == Some(c)
    ensures Nucleus(v, probs, p, rank) == ExcludeAt(v, rank(probs)[c + 1..])
  {
  }

  /** The stage in place: a rejected p leaves the slice untouched. */
  method Sample(logits: array<Slot>, p: real, exp: ExpFn, rank: Ranker) returns (res: Result<array<Slot>>)
    modifies logits
    ensures p <= 0.0 || p >= 1.0 ==> res == Err(POutOfRange) && logits[..] == old(logits[..])
    ensures 0.0 < p < 1.0 ==> res == Ok(logits) && logits[..] == Apply(old(logits[..]), p, exp, rank).value
  {
    if p <= 0.0 || p >= 1.0 {
      return Err(POutOfRange);
    }
    var probs := ComputeSoftmax(logits, exp);
    ghost var v := logits[..];
    ghost var P := probs[..];
    var indices := rank(probs[..]);
    var cumSum := Active(0.0);
    var i := 0;
    while i < |indices|
      invariant 0 <= i <= |indices|
      invariant logits[..] == v && probs[..] == P
      invariant cumSum == Mass(P, indices, i)
      invariant Cutoff(P, indices, p, 0) == Cutoff(P, indices, p, i)
    {
      MassStep(P, indices, i);
      CutoffStep(P, indices, p, i);
      cumSum := Add(cumSum, probs[indices[i]]);
      if Greater(cumSum, Active(p)) {
        assert Cutoff(P, indices, p, 0) == Some(i);
        NucleusAtCut(v, P, p, rank, i);
        ExcludeRanked(logits, indices, i + 1);
        break;
      }
      i := i + 1;
    }
    assert i == |indices| ==> Cutoff(P, indices, p, 0) == None;
    return Ok(logits);
  }

  /** The position ranked first never lies after a cut, so it survives with its score. */
  lemma TopSurvives(v: seq<Slot>, probs: seq<Slot>, p: real, rank: Ranker)
    requires |v| > 0 && |probs| == |v|
    ensures Nucleus(v, probs, p, rank)[rank(probs)[0]] == v[rank(probs)[0]]
  {
    var order := rank(probs);
    var top := order[0];
    match Cutoff(probs, order, p, 0)
    case None =>
    case Some(c) =>
      var tail := order[c + 1..];
      forall b | 0 <= b < |tail| ensures tail[b] != top {
        assert tail[b] == order[b + c + 1];
        assert order[0] != order[b + c + 1];
      }
  }

  /** Without NaN in the input, the position ranked first by probability holds a largest score. */
  lemma TopHoldsLargestScore(v: seq<Slot>, exp: ExpFn, rank: Ranker)
    requires |v| > 0 && AllActive(v)
    ensures forall j :: 0 <= j < |v| ==> v[j].score <= v[rank(Softmax(exp, v))[0]].score
  {
    var probs := Softmax(exp, v);
    var order := rank(probs);
    var top := order[0];
    forall j | 0 <= j < |v| ensures v[j].score <= v[top].score {
      var j': nat := j;
      assert j' in order;
      var b :| 0 <= b < |order| && order[b] == j;
      RankingOrder(order, probs, 0, b);
      SoftmaxOrder(exp, v, j, top);
    }
  }

  /** Softmax of a vector holding NaN is all NaN, so every running sum is NaN and TopP excludes nothing. */
  lemma TopPWithNaN(v: seq<Slot>, p: real, exp: ExpFn, rank: Ranker)
    requires !AllActive(v)
    ensures Nucleus(v, Softmax(exp, v), p, rank) == v
  {
    var probs := Softmax(exp, v);
    var order := rank(probs);
    forall j | 0 <= j < |order| ensures !Exceeds(probs, order, p, j) {
      var g := Gather(probs, order[..j + 1]);
      assert g[0].Excluded?;
    }
    assert Cutoff(probs, order, p, 0).None?;
  }

  /** Over the whole ranking the running sum is the total probability, 1, so the cut always happens. */
  lemma CutoffExists(v: seq<Slot>, p: real, exp: ExpFn, rank: Ranker)
    requires AllActive(v) && |v| > 0 && p < 1.0
    ensures Cutoff(Softmax(exp, v), rank(Softmax(exp, v)), p, 0).Some?
  {
    var probs := Softmax(exp, v);
    var order := rank(probs);
    SumPermutation(probs, order);
    SoftmaxTotal(exp, v);
    assert order[..|v|] == order;
    assert Exceeds(probs, order, p, |v| - 1);
  }

  /**
    Without NaN in the input, TopP keeps exactly the shortest prefix of the
    ranking whose probability mass exceeds p (Cutoff's contract says the prefix
    is the shortest) and excludes every position ranked after it.
   */
  lemma TopPKeepsShortestPrefix(v: seq<Slot>, p: real, exp: ExpFn, rank: Ranker)
    requires AllActive(v) && |v| > 0 && 0.0 < p < 1.0
    ensures Cutoff(Softmax(exp, v), rank(Softmax(exp, v)), p, 0).Some?
    ensures forall i :: 0 <= i < |v| ==>
              Apply(v, p, exp, rank).value[i] == if i in rank(Softmax(exp, v))[Cutoff(Softmax(exp, v), rank(Softmax(exp, v)), p, 0).value + 1..] then Excluded else v[i]
  {
    CutoffExists(v, p, exp, rank);
    var probs := Softmax(exp, v);
    var order := rank(probs);
    var c := Cutoff(probs, order, p, 0).value;
  }

  /**
    Example: probabilities 0.5, 0.3, 0.15, 0.05 and p = 0.6 keep exactly the
    first two positions, whatever sort is used (the probabilities are distinct).
   */
  lemma NucleusExample(rank: Ranker)
    ensures Nucleus([Active(3.0), Active(2.5), Active(1.5), Active(0.5)],
                    [Active(0.5), Active(0.3), Active(0.15), Active(0.05)], 0.6, rank)
         == [Active(3.0), Active(2.5), Excluded, Excluded]
  {
    var probs := [Active(0.5), Active(0.3), Active(0.15), Active(0.05)];
    var order := rank(probs);
    assert 0 in order && 1 in order && 2 in order && 3 in order;
    assert order == [0, 1, 2, 3];
    assert Gather(probs, order[..1]) == [Active(0.5)];
    assert Gather(probs, order[..2]) == [Active(0.5), Active(0.3)];
    assert [Active(0.5), Active(0.3)][..1] == [Active(0.5)];
    SumSingle(Active(0.5));
    SumLast([Active(0.5), Active(0.3)]);
    assert !Exceeds(probs, order, 0.6, 0);
    assert Exceeds(probs, order, 0.6, 1);
    CutoffStep(probs, order, 0.6, 0);
    CutoffStep(probs, order, 0.6, 1);
  }
}
