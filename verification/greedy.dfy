/**
  `greedy.Sample` (sample/sample.go): answer with the position of the largest
  score, as a one-element vector. The position is the one `floats.MaxIdx`
  reports: the first maximum, skipping NaN, and 0 when every slot is NaN.
 */
module GreedySampler {
  import opened Slots
  import opened Floats

  /** The sampler never fails; it panics on an empty slice. */
  function Sample(v: seq<Slot>): (r: seq<Slot>)
    requires |v| > 0
    ensures |r| == 1 && r[0].Active? && 0.0 <= r[0].score < |v| as real
  {
    [Active(MaxIdx(v) as real)]
  }

  /** The sampler on a slice: the answer is a fresh one-element vector and the slice is only read. */
  method Pick(logits: array<Slot>) returns (picked: array<Slot>)
    requires logits.Length > 0
    ensures fresh(picked) && picked[..] == Sample(logits[..])
  {
    picked := new Slot[1];
    picked[0] := Active(MaxIdx(logits[..]) as real);
  }

  /** At most one position is the first maximum. */
  lemma FirstMaxUnique(v: seq<Slot>, i: nat, m: nat)
    requires IsFirstMax(v, i) && IsFirstMax(v, m)
    ensures i == m
  {
  }

  /**
    Greedy answers position i exactly when i holds the first largest non-NaN
    score, or when every slot is NaN and i is 0.
   */
  lemma PicksFirstMax(v: seq<Slot>, i: nat)
    requires i < |v|
    ensures Sample(v) == [Active(i as real)] <==> (if NoneActive(v) then i == 0 else IsFirstMax(v, i))
  {
    if !NoneActive(v) && IsFirstMax(v, i) {
      FirstMaxUnique(v, i, MaxIdx(v));
    }
  }

  /** Examples: the largest score wins, the first of equal maxima wins, and NaN never wins. */
  lemma Examples()
    ensures Sample([Active(1.0), Active(5.0), Active(3.0)]) == [Active(1.0)]
    ensures Sample([Active(4.0), Active(2.0), Active(4.0)]) == [Active(0.0)]
    ensures Sample([Excluded, Active(-2.0), Excluded]) == [Active(1.0)]
    ensures Sample([Excluded, Excluded]) == [Active(0.0)]
  {
    PicksFirstMax([Active(1.0), Active(5.0), Active(3.0)], 1);
    PicksFirstMax([Active(4.0), Active(2.0), Active(4.0)], 0);
    PicksFirstMax([Excluded, Active(-2.0), Excluded], 1);
    PicksFirstMax([Excluded, Excluded], 0);
  }
}
