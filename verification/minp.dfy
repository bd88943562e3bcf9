/**
  `MinP.Sample` (sample/sample.go): check p, compute the probabilities, take
  the largest one (the last element of a sorted copy), and write the excluded
  mark into every position whose probability is below p times that largest one.
 */
module MinPFilter {
  import opened Slots
  import opened Floats
  import opened Sorting
  import opened Exponential
  import opened SoftmaxCore
  import opened Outcomes

  /** `v` with every position whose probability is below `threshold` (IEEE `<`) excluded. */
  function Prune(v: seq<Slot>, probs: seq<Slot>, threshold: Slot): (r: seq<Slot>)
    requires |probs| == |v|
    ensures OnlyExcludes(v, r)
  {
    seq(|v|, i requires 0 <= i < |v| => if Less(probs[i], threshold) then Excluded else v[i])
  }

  /** The filtering MinP applies to the scores `v`, given their probabilities. */
  function KeepLikely(v: seq<Slot>, probs: seq<Slot>, p: real): (r: seq<Slot>)
    requires |probs| == |v| > 0
    ensures OnlyExcludes(v, r)
  {
    Prune(v, probs, Mul(Active(p), Largest(probs)))
  }

  /** What `MinP(p).Sample(v)` returns; it panics on an empty vector once p is accepted. */
  function Apply(v: seq<Slot>, p: real, exp: ExpFn): (r: Result<seq<Slot>>)
    requires |v| > 0 || p <= 0.0 || p >= 1.0
    ensures r.Err? <==> p <= 0.0 || p >= 1.0
    ensures r.Err? ==> r.error == POutOfRange
    ensures r.Ok? ==> OnlyExcludes(v, r.value)
  {
    if p <= 0.0 || p >= 1.0 then Err(POutOfRange) else Ok(KeepLikely(v, Softmax(exp, v), p))
  }

  /** The stage in place: a rejected p leaves the slice untouched. */
  method Sample(logits: array<Slot>, p: real, exp: ExpFn) returns (res: Result<array<Slot>>)
    requires logits.Length > 0 || p <= 0.0 || p >= 1.0
    modifies logits
    ensures p <= 0.0 || p >= 1.0 ==> res == Err(POutOfRange) && logits[..] == old(logits[..])
    ensures 0.0 < p < 1.0 ==> res == Ok(logits) && logits[..] == Apply(old(logits[..]), p, exp).value
  {
    if p <= 0.0 || p >= 1.0 {
      return Err(POutOfRange);
    }
    var probs := ComputeSoftmax(logits, exp);
    var maxProb := Largest(probs[..]);
    var probThreshold := Mul(Active(p), maxProb);
    ExcludeBelow(logits, probs[..], probThreshold);
    return Ok(logits);
  }

  /** The loop of `MinP.Sample`: exclude every position whose probability is below the threshold. */
  method ExcludeBelow(logits: array<Slot>, probs: seq<Slot>, threshold: Slot)
    requires |probs| == logits.Length
    modifies logits
    ensures logits[..] == Prune(old(logits[..]), probs, threshold)
  {
    ghost var v := logits[..];
    for i := 0 to logits.Length
      invariant forall j :: 0 <= j < i ==> logits[j] == if Less(probs[j], threshold) then Excluded else v[j]
      invariant forall j :: i <= j < logits.Length ==> logits[j] == v[j]
    {
      if Less(probs[i], threshold) {
        logits[i] := Excluded;
      }
    }
  }

  /** Without NaN in the input, the largest probability sits at the first maximal score. */
  lemma LargestAtMaxIdx(v: seq<Slot>, exp: ExpFn)
    requires AllActive(v) && |v| > 0
    ensures Softmax(exp, v)[MaxIdx(v)].Active?
    ensures Largest(Softmax(exp, v)) == Softmax(exp, v)[MaxIdx(v)]
    ensures forall j :: 0 <= j < |v| ==> Softmax(exp, v)[j].score <= Softmax(exp, v)[MaxIdx(v)].score
  {
    var probs := Softmax(exp, v);
    var g := MaxIdx(v);
    forall j | 0 <= j < |v| ensures probs[j].score <= probs[g].score {
      SoftmaxOrder(exp, v, g, j);
    }
    var m := Largest(probs);
    var k :| 0 <= k < |v| && probs[k] == m;
    assert !Below(m, probs[g]);
  }

  /** One slot of KeepLikely, once the largest probability is known to sit at `g`. */
  lemma KeepLikelyAt(v: seq<Slot>, probs: seq<Slot>, p: real, g: nat, i: nat)
    requires |probs| == |v| > 0 && i < |v| && g < |v|
    requires probs[g].Active? && Largest(probs) == probs[g]
    ensures KeepLikely(v, probs, p)[i] == if Less(probs[i], Mul(Active(p), probs[g])) then Excluded else v[i]
  {
  }

  /**
    Without NaN in the input, MinP excludes position i exactly when its
    probability is below p times the largest probability, which is the
    probability of the first maximal score.
   */
  lemma MinPThreshold(v: seq<Slot>, p: real, exp: ExpFn, i: nat)
    requires AllActive(v) && |v| > 0 && 0.0 < p < 1.0 && i < |v|
    ensures var probs := Softmax(exp, v);
            Apply(v, p, exp).value[i] == if Less(probs[i], Mul(Active(p), probs[MaxIdx(v)])) then Excluded else v[i]
  {
    LargestAtMaxIdx(v, exp);
    KeepLikelyAt(v, Softmax(exp, v), p, MaxIdx(v), i);
  }

  /** A positive probability is never below a fraction (below one) of itself. */
  lemma NotBelowOwnFraction(x: Slot, p: real)
    requires x.Active? && x.score > 0.0 && 0.0 < p < 1.0
    ensures !Less(x, Mul(Active(p), x))
  {
    assert x.score - p * x.score == (1.0 - p) * x.score;
  }

  /** The position holding the largest probability (the first maximal score) always survives. */
  lemma MinPKeepsTop(v: seq<Slot>, p: real, exp: ExpFn)
    requires AllActive(v) && |v| > 0 && 0.0 < p < 1.0
    ensures Apply(v, p, exp).value[MaxIdx(v)] == v[MaxIdx(v)]
  {
    var g := MaxIdx(v);
    MinPThreshold(v, p, exp, g);
    SoftmaxAt(exp, v, g);
    NotBelowOwnFraction(Softmax(exp, v)[g], p);
  }

  /** Without NaN in the input, a slot scoring at least as high as a surviving one survives too. */
  lemma MinPKeepsHigher(v: seq<Slot>, p: real, exp: ExpFn, i: nat, j: nat)
    requires AllActive(v) && 0.0 < p < 1.0 && i < |v| && j < |v|
    requires Apply(v, p, exp).value[i].Active? && v[i].score <= v[j].score
    ensures Apply(v, p, exp).value[j] == v[j]
  {
    MinPThreshold(v, p, exp, i);
    MinPThreshold(v, p, exp, j);
    SoftmaxOrder(exp, v, i, j);
    SoftmaxOrder(exp, v, i, MaxIdx(v));
  }

  /** Softmax of a vector holding NaN is all NaN, the threshold is NaN, and MinP excludes nothing. */
  lemma MinPWithNaN(v: seq<Slot>, p: real, exp: ExpFn)
    requires !AllActive(v) && |v| > 0
    ensures KeepLikely(v, Softmax(exp, v), p) == v
  {
  }
}
