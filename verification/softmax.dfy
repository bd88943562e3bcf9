/**
  `computeSoftmax` (sample/sample.go): copy the scores, exponentiate the copy
  in place, and scale it by the reciprocal of its sum. The exponential is not
  computed here: `exp` is any positive, strictly increasing function, which is
  all the filters rely on.
 */
module SoftmaxCore {
  import opened Slots
  import opened Floats
  import opened Exponential

  /** `math.Exp` on one slot: NaN stays NaN. */
  function ExpOf(exp: ExpFn, a: Slot): Slot
  {
    if a.Active? then Active(exp(a.score)) else Excluded
  }

  /** One slot scaled by the reciprocal of the total. */
  function Normalize(e: Slot, total: Slot): Slot
  {
    // A zero total needs an empty vector (exp is positive), so no slot is ever divided by it.
    if e.Active? && total.Active? && total.score != 0.0 then Active(e.score / total.score) else Excluded
  }

  function Exps(exp: ExpFn, v: seq<Slot>): (e: seq<Slot>)
    ensures |e| == |v|
  {
    seq(|v|, i requires 0 <= i < |v| => ExpOf(exp, v[i]))
  }

  /**
    The probability vector `computeSoftmax` returns for `v`: a single NaN
    score makes every probability NaN, and otherwise every probability is a
    positive number.
   */
  function Softmax(exp: ExpFn, v: seq<Slot>): (p: seq<Slot>)
    ensures |p| == |v|
    ensures forall i :: 0 <= i < |v| ==> (p[i].Active? <==> AllActive(v))
    ensures forall i :: 0 <= i < |v| && p[i].Active? ==> p[i].score > 0.0
  {
    var e := Exps(exp, v);
    var total := Sum(e);
    NormalizedSlots(exp, v);
    seq(|v|, i requires 0 <= i < |v| => Normalize(e[i], total))
  }

  /** Each exponential scaled by the total: NaN when some score is, a positive number otherwise. */
  lemma NormalizedSlots(exp: ExpFn, v: seq<Slot>)
    ensures forall i :: 0 <= i < |v| ==>
              (Normalize(Exps(exp, v)[i], Sum(Exps(exp, v))).Active? <==> AllActive(v))
    ensures forall i :: 0 <= i < |v| && Normalize(Exps(exp, v)[i], Sum(Exps(exp, v))).Active? ==>
              Normalize(Exps(exp, v)[i], Sum(Exps(exp, v))).score > 0.0
  {
    var e := Exps(exp, v);
    var total := Sum(e);
    assert forall i :: 0 <= i < |v| ==> e[i] == ExpOf(exp, v[i]);
    assert AllActive(e) <==> AllActive(v);
    if |v| > 0 && AllActive(v) {
      SumPositive(e);
      forall i | 0 <= i < |v| ensures Normalize(e[i], total).Active? && Normalize(e[i], total).score > 0.0 {
        DivPositive(e[i].score, total.score);
      }
    }
  }

  /** Without NaN, the total of the exponentials is a positive number and each probability is one exponential over it. */
  lemma SoftmaxAt(exp: ExpFn, v: seq<Slot>, i: nat)
    requires AllActive(v) && i < |v|
    ensures Sum(Exps(exp, v)).Active? && Sum(Exps(exp, v)).score > 0.0
    ensures Softmax(exp, v)[i] == Active(exp(v[i].score) / Sum(Exps(exp, v)).score)
    ensures Softmax(exp, v)[i].score > 0.0
  {
    var e := Exps(exp, v);
    assert forall j :: 0 <= j < |e| ==> e[j] == Active(exp(v[j].score));
    SumPositive(e);
    var total := Sum(e).score;
    assert Softmax(exp, v)[i] == Normalize(e[i], Sum(e));
    DivPositive(e[i].score, total);
  }

  /** Without NaN in the input, the probabilities are ordered exactly as the scores are. */
  lemma SoftmaxOrder(exp: ExpFn, v: seq<Slot>, i: nat, j: nat)
    requires AllActive(v) && i < |v| && j < |v|
    ensures Softmax(exp, v)[i].Active? && Softmax(exp, v)[j].Active?
    ensures v[i].score < v[j].score <==> Softmax(exp, v)[i].score < Softmax(exp, v)[j].score
    ensures v[i].score == v[j].score <==> Softmax(exp, v)[i].score == Softmax(exp, v)[j].score
  {
    SoftmaxAt(exp, v, i);
    SoftmaxAt(exp, v, j);
    var x, y := v[i].score, v[j].score;
    assert IncreasingAt(exp, x, y) && IncreasingAt(exp, y, x);
    DivOrder(exp(x), exp(y), Sum(Exps(exp, v)).score);
  }

  /** Scaling every slot by the same positive total scales the sum. */
  lemma {:induction false} SumNormalized(e: seq<Slot>, total: real, p: seq<Slot>)
    requires total > 0.0 && AllActive(e) && |p| == |e|
    requires forall i :: 0 <= i < |e| ==> p[i] == Active(e[i].score / total)
    ensures Sum(e).Active? && Sum(p) == Active(Sum(e).score / total)
  {
    if e != [] {
      var n := |e|;
      SumNormalized(e[..n - 1], total, p[..n - 1]);
      var a := Sum(e[..n - 1]).score;
      assert a / total + e[n - 1].score / total == (a + e[n - 1].score) / total;
    }
  }

  lemma DivSelf(x: real)
    requires x > 0.0
    ensures x / x == 1.0
  {
  }

  /** Without NaN, the probabilities of a non-empty vector add up to exactly 1. */
  lemma SoftmaxTotal(exp: ExpFn, v: seq<Slot>)
    requires AllActive(v) && |v| > 0
    ensures Sum(Softmax(exp, v)) == Active(1.0)
  {
    var e := Exps(exp, v);
    SumPositive(e);
    var total := Sum(e).score;
    var p := Softmax(exp, v);
    forall i | 0 <= i < |e| ensures p[i] == Active(e[i].score / total) {
      SoftmaxAt(exp, v, i);
    }
    SumNormalized(e, total, p);
    DivSelf(total);
  }

  /** `q` is `e`, a vector without NaN, with every slot multiplied by `f`. */
  predicate ScaledBy(q: seq<Slot>, e: seq<Slot>, f: real)
  {
    |q| == |e| && forall i :: 0 <= i < |e| ==> e[i].Active? && q[i] == Mul(e[i], Active(f))
  }

  /** Scaling every slot by the same factor scales the sum. */
  lemma {:induction false} SumScaled(e: seq<Slot>, f: real, q: seq<Slot>)
    requires ScaledBy(q, e, f)
    ensures Sum(q) == Active(Sum(e).score * f)
  {
    if e != [] {
      var n := |e|;
      SumScaled(e[..n - 1], f, q[..n - 1]);
      var a := Sum(e[..n - 1]).score;
      assert a * f + e[n - 1].score * f == (a + e[n - 1].score) * f;
    }
  }

  /** A common positive factor cancels from a quotient. */
  lemma CancelFactor(a: real, b: real, f: real)
    requires b > 0.0 && f > 0.0
    ensures b * f > 0.0 && (a * f) / (b * f) == a / b
  {
    assert (a * f) / (b * f) * (b * f) == a * f;
    assert (a / b) * (b * f) == a * f;
  }

  /** One slot over the total, when both are scaled by the same positive factor. */
  lemma NormalizeScaledAt(a: Slot, t: Slot, f: real, scaled: Slot, total: Slot)
    requires a.Active? && t.Active? && t.score > 0.0 && f > 0.0
    requires scaled == Mul(a, Active(f)) && total == Active(t.score * f)
    ensures Normalize(scaled, total) == Normalize(a, t)
  {
    CancelFactor(a.score, t.score, f);
  }

  /** Every slot of `e` over `t` is the same as its scaled copy over the scaled total. */
  lemma NormalizeAllScaled(e: seq<Slot>, t: Slot, f: real, q: seq<Slot>, total: Slot)
    requires t.Active? && t.score > 0.0 && f > 0.0 && ScaledBy(q, e, f)
    requires total == Active(t.score * f)
    ensures forall i :: 0 <= i < |e| ==> Normalize(q[i], total) == Normalize(e[i], t)
  {
    forall i | 0 <= i < |e| ensures Normalize(q[i], total) == Normalize(e[i], t) {
      NormalizeScaledAt(e[i], t, f, q[i], total);
    }
  }

  /** Scaling positive slots by a common positive factor leaves each of them, over their total, as it was. */
  lemma NormalizeScaled(e: seq<Slot>, q: seq<Slot>, f: real)
    requires f > 0.0 && |e| > 0 && ScaledBy(q, e, f)
    requires forall i :: 0 <= i < |e| ==> e[i].score > 0.0
    ensures forall i :: 0 <= i < |e| ==> Normalize(q[i], Sum(q)) == Normalize(e[i], Sum(e))
  {
    SumPositive(e);
    SumScaled(e, f, q);
    NormalizeAllScaled(e, Sum(e), f, q, Sum(q));
  }

  /** Without NaN, the exponential of one score and of the same score raised by `c`. */
  lemma ShiftedExpAt(exp: ExpFn, v: seq<Slot>, c: real, i: nat)
    requires i < |v| && v[i].Active?
    ensures Exps(exp, v)[i] == Active(exp(v[i].score)) && exp(v[i].score) > 0.0
    ensures Exps(exp, Shift(v, c))[i] == Active(exp(v[i].score + c))
  {
    assert Shift(v, c)[i] == Active(v[i].score + c);
  }

  /** Where `f` turns `x + c` into a product, the slot for `f(x + c)` is the slot for `f(x)` times `f(c)`. */
  lemma ScaledAt(f: real -> real, x: real, c: real, a: Slot, b: Slot)
    requires AddsToProduct(f, x, c) && a == Active(f(x)) && b == Active(f(x + c))
    ensures b == Mul(a, Active(f(c)))
  {
  }

  /** Raising every score by `c` multiplies every exponential by `exp(c)`. */
  lemma ShiftedExps(exp: ExpFn, v: seq<Slot>, c: real)
    requires Multiplicative(exp) && AllActive(v)
    ensures forall i :: 0 <= i < |v| ==> Exps(exp, v)[i].score > 0.0
    ensures ScaledBy(Exps(exp, Shift(v, c)), Exps(exp, v), exp(c))
  {
    forall i | 0 <= i < |v|
      ensures Exps(exp, v)[i].Active? && Exps(exp, v)[i].score > 0.0
      ensures Exps(exp, Shift(v, c))[i] == Mul(Exps(exp, v)[i], Active(exp(c)))
    {
      ShiftedExpAt(exp, v, c, i);
      assert AddsToProduct(exp, v[i].score, c);
      ScaledAt(exp, v[i].score, c, Exps(exp, v)[i], Exps(exp, Shift(v, c))[i]);
    }
  }

  /** With a NaN score, the shifted scores hold NaN at the same position. */
  lemma ShiftKeepsNaN(v: seq<Slot>, c: real)
    requires !AllActive(v)
    ensures !AllActive(Shift(v, c))
  {
    var k :| 0 <= k < |v| && v[k].Excluded?;
    assert Shift(v, c)[k].Excluded?;
  }

  /**
    When the exponential turns sums into products, raising every score by the
    same amount leaves every probability as it was; with a NaN score both
    sides are all NaN.
   */
  lemma SoftmaxShift(exp: ExpFn, v: seq<Slot>, c: real)
    requires Multiplicative(exp)
    ensures Softmax(exp, Shift(v, c)) == Softmax(exp, v)
  {
    var w := Shift(v, c);
    if !AllActive(v) {
      ShiftKeepsNaN(v, c);
    } else if |v| > 0 {
      ShiftedExps(exp, v, c);
      NormalizeScaled(Exps(exp, v), Exps(exp, w), exp(c));
    }
  }

  /** `computeSoftmax`: a fresh vector; the caller's slice is only read. */
  method ComputeSoftmax(logits: array<Slot>, exp: ExpFn) returns (probs: array<Slot>)
    ensures fresh(probs)
    ensures probs[..] == Softmax(exp, logits[..])
  {
    var n := logits.Length;
    probs := new Slot[n];
    forall i | 0 <= i < n {
      probs[i] := logits[i];
    }
    ghost var e := Exps(exp, logits[..]);
    for i := 0 to n
      invariant forall j :: 0 <= j < i ==> probs[j] == e[j]
      invariant forall j :: i <= j < n ==> probs[j] == logits[j]
    {
      probs[i] := ExpOf(exp, probs[i]);
    }
    assert probs[..] == e;
    var total := Sum(probs[..]);
    for i := 0 to n
      invariant forall j :: 0 <= j < i ==> probs[j] == Normalize(e[j], total)
      invariant forall j :: i <= j < n ==> probs[j] == e[j]
    {
      probs[i] := Normalize(probs[i], total);
    }
  }
}
