/**
  `weighed.Sample` (sample/sample.go): keep the non-NaN scores together with
  their original positions, turn the kept scores into probabilities with
  `computeSoftmax`, let a weighted random draw pick one of them, and answer
  with the picked token's original position as a one-element vector.
 */
module WeighedSampler {
  import opened Slots
  import opened Floats
  import opened Exponential
  import opened SoftmaxCore
  import opened Outcomes

  /** `o` names a position below `n`, or nothing. */
  predicate InRange(o: Option<nat>, n: nat)
  {
    o.Some? ==> o.value < n
  }

  /**
    The weighted draw of `sampleuv.Weighted.Take`: given the weights it answers
    with one of their positions, or with None when it cannot draw. The draw is
    random; the model accepts every chooser that stays in range.
   */
  type Chooser = take: seq<real> -> Option<nat>
    | forall w :: InRange(take(w), |w|)
    witness (w: seq<real>) => None

  /** The non-NaN scores, in their original order, and the original position of each. */
  datatype Compacted = Compacted(scores: seq<real>, origins: seq<nat>)

  /** The compaction loop of `weighed.Sample`, one appended position at a time. */
  function Compact(v: seq<Slot>): (c: Compacted)
    ensures |c.scores| == |c.origins|
    ensures forall k :: 0 <= k < |c.origins| ==> c.origins[k] < |v| && v[c.origins[k]] == Active(c.scores[k])
    ensures forall k, l :: 0 <= k < l < |c.origins| ==> c.origins[k] < c.origins[l]
    ensures forall i :: 0 <= i < |v| && v[i].Active? ==> i in c.origins
  {
    if |v| == 0 then Compacted([], [])
    else
      var c := Compact(v[..|v| - 1]);
      var x := v[|v| - 1];
      if x.Active? then Compacted(c.scores + [x.score], c.origins + [|v| - 1]) else c
  }

  /** Numbers as non-NaN slots. */
  function Actives(xs: seq<real>): (v: seq<Slot>)
    ensures |v| == |xs| && AllActive(v)
  {
    seq(|xs|, k requires 0 <= k < |xs| => Active(xs[k]))
  }

  /** Non-NaN slots as the plain numbers the draw is given. */
  function Weights(probs: seq<Slot>): (w: seq<real>)
    requires AllActive(probs)
    ensures |w| == |probs|
  {
    seq(|probs|, k requires 0 <= k < |probs| => probs[k].score)
  }

  /** The weights the draw is given: the probabilities `computeSoftmax` assigns to the kept scores. */
  function Weighting(scores: seq<real>, exp: ExpFn): (w: seq<real>)
    ensures |w| == |scores|
  {
    Weights(Softmax(exp, Actives(scores)))
  }

  /** The draw over the kept scores `c`: a weighted pick among their probabilities. */
  function Draw(c: Compacted, exp: ExpFn, take: Chooser): (r: Result<seq<Slot>>)
    requires |c.scores| == |c.origins|
    ensures r.Err? ==> r.error == WeighedFailed
    ensures r.Ok? ==> exists k :: 0 <= k < |c.origins| && r.value == [Active(c.origins[k] as real)]
  {
    match take(Weighting(c.scores, exp))
    case None => Err(WeighedFailed)
    case Some(j) => Ok([Active(c.origins[j] as real)])
  }

  /** What `weighed{}.Sample(v)` returns when the draw behaves as `take`. */
  function Apply(v: seq<Slot>, exp: ExpFn, take: Chooser): (r: Result<seq<Slot>>)
    ensures r.Err? ==> r.error == NoValidTokens || r.error == WeighedFailed
    ensures r.Ok? ==> |r.value| == 1 && r.value[0].Active? && 0.0 <= r.value[0].score < |v| as real
  {
    var c := Compact(v);
    if |c.scores| == 0 then Err(NoValidTokens) else Draw(c, exp, take)
  }

  /** The compaction loop: the non-NaN scores and their positions, appended in order. */
  method Survivors(logits: array<Slot>) returns (c: Compacted)
    ensures c == Compact(logits[..])
  {
    var scores: seq<real> := [];
    var origins: seq<nat> := [];
    for i := 0 to logits.Length
      invariant Compact(logits[..i]) == Compacted(scores, origins)
    {
      assert logits[..i + 1][..i] == logits[..i];
      if logits[i].Active? {
        scores := scores + [logits[i].score];
        origins := origins + [i];
      }
    }
    assert logits[..logits.Length] == logits[..];
    return Compacted(scores, origins);
  }

  /** The weights of the kept scores: `computeSoftmax` on a vector holding just them. */
  method KeptWeights(scores: seq<real>, exp: ExpFn) returns (w: seq<real>)
    ensures w == Weighting(scores, exp)
  {
    var kept := new Slot[|scores|];
    forall k | 0 <= k < kept.Length {
      kept[k] := Active(scores[k]);
    }
    assert kept[..] == Actives(scores);
    var probs := ComputeSoftmax(kept, exp);
    w := Weights(probs[..]);
  }

  /** The sampler on the caller's slice, which it only reads; the answer is a fresh vector. */
  method Sample(logits: array<Slot>, exp: ExpFn, take: Chooser) returns (res: Result<array<Slot>>)
    ensures res.Ok? ==> fresh(res.value) && Apply(logits[..], exp, take) == Ok(res.value[..])
    ensures res.Err? ==> Apply(logits[..], exp, take) == Err(res.error)
  {
    var c := Survivors(logits);
    if |c.scores| == 0 {
      return Err(NoValidTokens);
    }
    var w := KeptWeights(c.scores, exp);
    match take(w) {
      case None =>
        return Err(WeighedFailed);
      case Some(j) =>
        var picked := new Slot[1];
        picked[0] := Active(c.origins[j] as real);
        assert picked[..] == [Active(c.origins[j] as real)];
        return Ok(picked);
    }
  }

  /** Without a single non-NaN slot the sampler reports that no token is valid, and only then. */
  lemma NoValidTokensExactly(v: seq<Slot>, exp: ExpFn, take: Chooser)
    ensures Apply(v, exp, take) == Err(NoValidTokens) <==> NoneActive(v)
  {
    var c := Compact(v);
    if |c.scores| > 0 {
      assert v[c.origins[0]].Active?;
    }
  }

  /** A successful draw answers with the original position of a token that was not excluded. */
  lemma PicksSurvivor(v: seq<Slot>, exp: ExpFn, take: Chooser)
    requires Apply(v, exp, take).Ok?
    ensures exists i :: 0 <= i < |v| && v[i].Active? && Apply(v, exp, take).value == [Active(i as real)]
  {
    var c := Compact(v);
    var j := take(Weighting(c.scores, exp)).value;
    assert v[c.origins[j]].Active?;
  }

  /**
    The draw is handed the softmax weights of the kept scores, and a drawn
    position `k` is answered as the original index `origins[k]` of that score.
    The draw fails exactly when some token is valid and the chooser cannot pick.
   */
  lemma DrawsBySoftmaxWeights(v: seq<Slot>, exp: ExpFn, take: Chooser, i: nat)
    ensures Apply(v, exp, take) == Ok([Active(i as real)]) <==>
              exists k :: 0 <= k < |Compact(v).origins| &&
                take(Weighting(Compact(v).scores, exp)) == Some(k) && Compact(v).origins[k] == i
    ensures Apply(v, exp, take) == Err(WeighedFailed) <==>
              !NoneActive(v) && take(Weighting(Compact(v).scores, exp)).None?
  {
    var c := Compact(v);
    NoValidTokensExactly(v, exp, take);
    if Apply(v, exp, take) == Ok([Active(i as real)]) {
      var k := take(Weighting(c.scores, exp)).value;
      assert [Active(c.origins[k] as real)][0] == [Active(i as real)][0];
    }
  }

  /** The weights form a probability distribution: each is positive and together they add up to one. */
  lemma WeightsAreDistribution(scores: seq<real>, exp: ExpFn)
    requires |scores| > 0
    ensures forall k :: 0 <= k < |scores| ==> Weighting(scores, exp)[k] > 0.0
    ensures Sum(Actives(Weighting(scores, exp))) == Active(1.0)
  {
    var probs := Softmax(exp, Actives(scores));
    SoftmaxTotal(exp, Actives(scores));
    assert Actives(Weighting(scores, exp)) == probs;
  }

  /** The weights rank the kept tokens as their scores do. */
  lemma WeightsFollowScores(v: seq<Slot>, exp: ExpFn, k: nat, l: nat)
    requires k < |Compact(v).scores| && l < |Compact(v).scores|
    ensures v[Compact(v).origins[k]].score < v[Compact(v).origins[l]].score <==>
            Weighting(Compact(v).scores, exp)[k] < Weighting(Compact(v).scores, exp)[l]
  {
    var c := Compact(v);
    SoftmaxOrder(exp, Actives(c.scores), k, l);
  }

  /** Every token that was not excluded can be the answer: some draw picks it. */
  lemma EverySurvivorReachable(v: seq<Slot>, exp: ExpFn, i: nat)
    requires i < |v| && v[i].Active?
    ensures exists take: Chooser :: Apply(v, exp, take) == Ok([Active(i as real)])
  {
    var c := Compact(v);
    assert i in c.origins;
    var k :| 0 <= k < |c.origins| && c.origins[k] == i;
    var take: Chooser := (w: seq<real>) => if k < |w| then Some(k) else None;
    assert Apply(v, exp, take) == Ok([Active(i as real)]);
  }
}
