/**
  The three gonum `floats` helpers the samplers call: `Sum` (used by the
  softmax normalisation), `MaxIdx` (used by Greedy) and `Max` (used by
  Temperature; it returns the value at `MaxIdx`).
 */
module Floats {
  import opened Slots

  /** `floats.Sum`: the sum of all slots; it is a number exactly when no slot is NaN. */
  function Sum(v: seq<Slot>): (s: Slot)
    ensures s.Active? <==> AllActive(v)
  {
    if v == [] then Active(0.0)
    else
      assert AllActive(v) <==> AllActive(v[..|v| - 1]) && v[|v| - 1].Active?;
      Add(Sum(v[..|v| - 1]), v[|v| - 1])
  }

  /** The sum of at least one positive number is positive. */
  lemma {:induction false} SumPositive(v: seq<Slot>)
    requires |v| > 0
    requires forall i :: 0 <= i < |v| ==> v[i].Active? && v[i].score > 0.0
    ensures Sum(v).Active? && Sum(v).score > 0.0
  {
    if |v| > 1 {
      SumPositive(v[..|v| - 1]);
    }
  }

  /** Summing a concatenation sums the parts. */
  lemma {:induction false} SumAppend(a: seq<Slot>, b: seq<Slot>)
    ensures Sum(a + b) == Add(Sum(a), Sum(b))
  {
    if b == [] {
      assert a + b == a;
    } else {
      var b', x := b[..|b| - 1], b[|b| - 1];
      assert (a + b)[..|a + b| - 1] == a + b';
      assert Sum(a + b) == Add(Sum(a + b'), x);
      assert Sum(b) == Add(Sum(b'), x);
      SumAppend(a, b');
      AddAssoc(Sum(a), Sum(b'), x);
    }
  }

  /** The fold's last step. */
  lemma SumLast(v: seq<Slot>)
    requires |v| > 0
    ensures Sum(v) == Add(Sum(v[..|v| - 1]), v[|v| - 1])
  {
  }

  /** The sum of one slot. */
  lemma SumSingle(x: Slot)
    ensures Sum([x]) == Add(Active(0.0), x)
  {
    assert [x][..0] == [];
  }

  /** The sum split around position q. */
  lemma SumAround(v: seq<Slot>, q: nat)
    requires q < |v|
    ensures Sum(v) == Add(Sum(v[..q]), Add(Add(Active(0.0), v[q]), Sum(v[q + 1..])))
  {
    var rest := [v[q]] + v[q + 1..];
    assert v == v[..q] + rest;
    SumAppend(v[..q], rest);
    SumAppend([v[q]], v[q + 1..]);
    SumSingle(v[q]);
  }

  /** Removing one slot from anywhere takes it out of the sum (commutativity of the fold). */
  lemma SumRemove(v: seq<Slot>, q: nat)
    requires q < |v|
    ensures Sum(v) == Add(Sum(v[..q] + v[q + 1..]), v[q])
  {
    SumAround(v, q);
    SumAppend(v[..q], v[q + 1..]);
    AddMoveLast(Sum(v[..q]), v[q], Sum(v[q + 1..]));
  }

  /** `v[order[0]], v[order[1]], ...`: the slots of `v` visited in the order `order` lists them. */
  function Gather(v: seq<Slot>, order: seq<nat>): (r: seq<Slot>)
    requires forall j :: 0 <= j < |order| ==> order[j] < |v|
    ensures |r| == |order|
    ensures forall j :: 0 <= j < |order| ==> r[j] == v[order[j]]
  {
    seq(|order|, j requires 0 <= j < |order| => v[order[j]])
  }

  /** `order` lists each position below `n` exactly once. */
  ghost predicate IsPermutation(order: seq<nat>, n: nat)
  {
    |order| == n &&
    (forall j :: 0 <= j < |order| ==> order[j] < n) &&
    (forall a, b :: 0 <= a < b < |order| ==> order[a] != order[b]) &&
    (forall i: nat :: i < n ==> i in order)
  }

  /** Taking the largest position out of a permutation leaves a permutation of the rest. */
  lemma DropLast(order: seq<nat>, n: nat, q: nat)
    requires n > 0 && IsPermutation(order, n) && q < |order| && order[q] == n - 1
    ensures IsPermutation(order[..q] + order[q + 1..], n - 1)
  {
    var rest := order[..q] + order[q + 1..];
    assert forall j :: 0 <= j < |rest| ==> rest[j] == if j < q then order[j] else order[j + 1];
    forall i: nat | i < n - 1 ensures i in rest {
      assert i in order;
      var j :| 0 <= j < |order| && order[j] == i;
      if j < q { assert rest[j] == i; } else { assert rest[j - 1] == i; }
    }
  }

  /** Gathering through the shortened permutation skips the dropped slot. */
  lemma GatherDrop(v: seq<Slot>, order: seq<nat>, q: nat, rest: seq<nat>)
    requires |v| > 0 && q < |order| && rest == order[..q] + order[q + 1..]
    requires forall j :: 0 <= j < |order| ==> order[j] < |v|
    requires forall j :: 0 <= j < |order| && j != q ==> order[j] < |v| - 1
    ensures forall j :: 0 <= j < |rest| ==> rest[j] < |v| - 1
    ensures Gather(v[..|v| - 1], rest) == Gather(v, order)[..q] + Gather(v, order)[q + 1..]
  {
    assert forall j :: 0 <= j < |rest| ==> rest[j] == if j < q then order[j] else order[j + 1];
  }

  /** Only the dropped position of a permutation points at the last slot. */
  lemma OthersBelowLast(order: seq<nat>, n: nat, q: nat)
    requires n > 0 && IsPermutation(order, n) && q < |order| && order[q] == n - 1
    ensures forall j :: 0 <= j < |order| && j != q ==> order[j] < n - 1
  {
    forall j | 0 <= j < |order| && j != q ensures order[j] < n - 1 {
      if j < q { assert order[j] != order[q]; } else { assert order[q] != order[j]; }
    }
  }

  /**
    One step of the permutation argument: the last slot of `v` sits somewhere
    in the gathered sequence, and the rest is gathered by a permutation of
    one fewer position.
   */
  lemma PermutationStep(v: seq<Slot>, order: seq<nat>) returns (rest: seq<nat>)
    requires |v| > 0 && IsPermutation(order, |v|)
    ensures IsPermutation(rest, |v| - 1)
    ensures Sum(Gather(v, order)) == Add(Sum(Gather(v[..|v| - 1], rest)), v[|v| - 1])
  {
    var n := |v|;
    var last: nat := n - 1;
    assert last in order;
    var q :| 0 <= q < |order| && order[q] == last;
    rest := order[..q] + order[q + 1..];
    DropLast(order, n, q);
    OthersBelowLast(order, n, q);
    GatherDrop(v, order, q, rest);
    var g := Gather(v, order);
    SumRemove(g, q);
    assert g[q] == v[order[q]];
  }

  /** Summing the slots in any order gives the same sum. */
  lemma {:induction false} SumPermutation(v: seq<Slot>, order: seq<nat>)
    requires IsPermutation(order, |v|)
    ensures Sum(Gather(v, order)) == Sum(v)
  {
    if |v| > 0 {
      var rest := PermutationStep(v, order);
      SumPermutation(v[..|v| - 1], rest);
      SumLast(v);
    }
  }

  /** `i` is the first position holding the largest number among the non-NaN slots. */
  ghost predicate IsFirstMax(v: seq<Slot>, i: nat)
  {
    i < |v| && v[i].Active? &&
    (forall j :: 0 <= j < |v| && v[j].Active? ==> v[j].score <= v[i].score) &&
    (forall j :: 0 <= j < i && v[j].Active? ==> v[j].score < v[i].score)
  }

  /**
    `floats.MaxIdx`: the index of the first maximum, skipping NaN; when every
    slot is NaN it stays at 0. It panics on an empty slice.
   */
  function MaxIdx(v: seq<Slot>): (i: nat)
    requires |v| > 0
    ensures i < |v|
    ensures if NoneActive(v) then i == 0 else IsFirstMax(v, i)
  {
    if |v| == 1 then 0
    else
      var m := MaxIdx(v[..|v| - 1]);
      var x := v[|v| - 1];
      if x.Active? && (v[m].Excluded? || x.score > v[m].score) then |v| - 1 else m
  }

  /**
    `floats.Max`: the value at MaxIdx, so a slot of the vector that is NaN only
    when every slot is, and otherwise at least every non-NaN slot.
   */
  function Max(v: seq<Slot>): (m: Slot)
    requires |v| > 0
    ensures m in v
    ensures m.Excluded? <==> NoneActive(v)
    ensures forall j :: 0 <= j < |v| && v[j].Active? ==> m.Active? && v[j].score <= m.score
  {
    v[MaxIdx(v)]
  }
}
