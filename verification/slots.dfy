/**
  One position of a score vector. The source stores float64 values and marks an
  excluded token by writing NaN into its position; here the mark is explicit.
  The helpers reproduce the IEEE behaviour the samplers rely on: NaN absorbs
  every arithmetic operation, `<` and `>` are false when NaN is involved, and
  the ordering used by `cmp.Compare` and `slices.Sort` puts NaN below every number.
 */
module Slots {

  datatype Slot = Active(score: real) | Excluded

  predicate AllActive(v: seq<Slot>)
  {
    forall i :: 0 <= i < |v| ==> v[i].Active?
  }

  predicate NoneActive(v: seq<Slot>)
  {
    forall i :: 0 <= i < |v| ==> v[i].Excluded?
  }

  function Add(a: Slot, b: Slot): Slot
  {
    if a.Active? && b.Active? then Active(a.score + b.score) else Excluded
  }

  function Sub(a: Slot, b: Slot): Slot
  {
    if a.Active? && b.Active? then Active(a.score - b.score) else Excluded
  }

  function Mul(a: Slot, b: Slot): Slot
  {
    if a.Active? && b.Active? then Active(a.score * b.score) else Excluded
  }

  /** Division by a positive number (the temperature divisor is never below its floor). */
  function DivBy(a: Slot, d: real): Slot
    requires d > 0.0
  {
    if a.Active? then Active(a.score / d) else Excluded
  }

  /** IEEE `a < b`: false as soon as either side is NaN. */
  predicate Less(a: Slot, b: Slot)
  {
    a.Active? && b.Active? && a.score < b.score
  }

  /** IEEE `a > b`. */
  predicate Greater(a: Slot, b: Slot)
  {
    Less(b, a)
  }

  /** The strict order of `cmp.Compare` and `cmp.Less` on float64: NaN lies below every number. */
  predicate Below(a: Slot, b: Slot)
  {
    (a.Excluded? && b.Active?) || Less(a, b)
  }

  /** x/d and y/d compare as x and y do when d is positive. */
  lemma DivOrder(x: real, y: real, d: real)
    requires d > 0.0
    ensures x < y <==> x / d < y / d
    ensures x == y <==> x / d == y / d
  {
    assert x == (x / d) * d && y == (y / d) * d;
    if x / d < y / d {
      assert (x / d) * d < (y / d) * d;
    }
  }

  /** A positive number over a positive divisor stays positive. */
  lemma DivPositive(x: real, d: real)
    requires x > 0.0 && d > 0.0
    ensures x / d > 0.0
  {
    DivOrder(0.0, x, d);
  }

  /** Slot addition is associative, NaN included. */
  lemma AddAssoc(a: Slot, b: Slot, c: Slot)
    ensures Add(Add(a, b), c) == Add(a, Add(b, c))
  {
  }

  /** Moving one term of a NaN-absorbing sum to the end leaves the sum unchanged. */
  lemma AddMoveLast(a: Slot, x: Slot, b: Slot)
    ensures Add(a, Add(Add(Active(0.0), x), b)) == Add(Add(a, b), x)
  {
  }

  /** Every score raised by the same amount `c`; NaN stays NaN. */
  function Shift(v: seq<Slot>, c: real): (r: seq<Slot>)
    ensures |r| == |v|
  {
    seq(|v|, i requires 0 <= i < |v| => Add(v[i], Active(c)))
  }

  /** `r` is `v` with some slots overwritten by the excluded mark and nothing else changed. */
  predicate OnlyExcludes(v: seq<Slot>, r: seq<Slot>)
  {
    |r| == |v| && forall i :: 0 <= i < |v| ==> r[i] == v[i] || r[i] == Excluded
  }

  /**
    `v` with every position listed in `drop` overwritten by the excluded mark,
    in list order: the listed positions hold the mark and every other slot
    keeps its value.
   */
  function ExcludeAt(v: seq<Slot>, drop: seq<nat>): (r: seq<Slot>)
    requires forall j :: 0 <= j < |drop| ==> drop[j] < |v|
    ensures |r| == |v|
    ensures forall i :: 0 <= i < |v| ==> r[i] == if i in drop then Excluded else v[i]
  {
    if drop == [] then v
    else
      var init := drop[..|drop| - 1];
      assert drop == init + [drop[|drop| - 1]];
      ExcludeAt(v, init)[drop[|drop| - 1] := Excluded]
  }

  /** The loop `for _, idx := range indices[from:] { logits[idx] = math.NaN() }` shared by TopK and TopP. */
  method ExcludeRanked(logits: array<Slot>, indices: seq<nat>, from: nat)
    requires from <= |indices| && forall j :: 0 <= j < |indices| ==> indices[j] < logits.Length
    modifies logits
    ensures logits[..] == ExcludeAt(old(logits[..]), indices[from..])
  {
    ghost var v := logits[..];
    for j := from to |indices|
      invariant logits[..] == ExcludeAt(v, indices[from..j])
    {
      logits[indices[j]] := Excluded;
      assert indices[from..j + 1][..j - from] == indices[from..j];
    }
    assert indices[from..|indices|] == indices[from..];
  }
}
