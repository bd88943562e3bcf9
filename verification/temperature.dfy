/**
  `Temperature.Sample` (sample/sample.go): check the temperature, then shift
  every score by the maximum and divide it by the temperature (never by less
  than 1e-7), in place. NaN slots stay NaN.
 */
module TemperatureFilter {
  import opened Slots
  import opened Floats
  import opened Outcomes

  /** The smallest divisor used, so that a temperature of 0 never divides by zero. */
  const Floor: real := 0.0000001

  /** `math.Max(t, 1e-7)`. */
  function Divisor(t: real): (d: real)
    ensures d > 0.0 && d >= t && d >= Floor
    ensures d == t || d == Floor
  {
    if t > Floor then t else Floor
  }

  /** The rescaled vector: `(x - max) / Divisor(t)` in every slot. */
  function Scaled(v: seq<Slot>, t: real): (r: seq<Slot>)
    requires |v| > 0
    ensures |r| == |v|
  {
    var m := Max(v);
    seq(|v|, i requires 0 <= i < |v| => DivBy(Sub(v[i], m), Divisor(t)))
  }

  /** What `Temperature(t).Sample(v)` returns; it panics on an empty vector once t is accepted. */
  function Apply(v: seq<Slot>, t: real): (r: Result<seq<Slot>>)
    requires |v| > 0 || t < 0.0 || t > 2.0
    ensures r.Err? <==> t < 0.0 || t > 2.0
    ensures r.Err? ==> r.error == TemperatureOutOfRange
    ensures r.Ok? ==> |r.value| == |v| && forall i :: 0 <= i < |v| ==> (r.value[i].Excluded? <==> v[i].Excluded?)
  {
    if t < 0.0 || t > 2.0 then Err(TemperatureOutOfRange) else Ok(Scaled(v, t))
  }

  /** The stage in place: a rejected temperature leaves the slice untouched. */
  method Sample(logits: array<Slot>, t: real) returns (res: Result<array<Slot>>)
    requires logits.Length > 0 || t < 0.0 || t > 2.0
    modifies logits
    ensures t < 0.0 || t > 2.0 ==> res == Err(TemperatureOutOfRange) && logits[..] == old(logits[..])
    ensures 0.0 <= t <= 2.0 ==> res == Ok(logits) && logits[..] == Scaled(old(logits[..]), t)
  {
    if t < 0.0 || t > 2.0 {
      return Err(TemperatureOutOfRange);
    }
    ghost var v := logits[..];
    var maxLogit := Max(logits[..]);
    var temp := Divisor(t);
    for i := 0 to logits.Length
      invariant forall j :: 0 <= j < i ==> logits[j] == DivBy(Sub(v[j], maxLogit), temp)
      invariant forall j :: i <= j < logits.Length ==> logits[j] == v[j]
    {
      logits[i] := DivBy(Sub(logits[i], maxLogit), temp);
    }
    return Ok(logits);
  }

  /** Scaling keeps the order of the scores, strictly and with ties. */
  lemma ScaledKeepsOrder(v: seq<Slot>, t: real, i: nat, j: nat)
    requires |v| > 0 && i < |v| && j < |v| && v[i].Active? && v[j].Active?
    ensures Scaled(v, t)[i].Active? && Scaled(v, t)[j].Active?
    ensures v[i].score < v[j].score <==> Scaled(v, t)[i].score < Scaled(v, t)[j].score
    ensures v[i].score == v[j].score <==> Scaled(v, t)[i].score == Scaled(v, t)[j].score
  {
    var m := Max(v);
    assert m.Active?;
    DivOrder(v[i].score - m.score, v[j].score - m.score, Divisor(t));
  }

  /** After scaling, the first maximal slot holds 0 and every other number is at most 0. */
  lemma ScaledTopIsZero(v: seq<Slot>, t: real)
    requires |v| > 0 && !NoneActive(v)
    ensures Scaled(v, t)[MaxIdx(v)] == Active(0.0)
    ensures forall j :: 0 <= j < |v| && v[j].Active? ==> Scaled(v, t)[j].score <= 0.0
  {
    var m := Max(v);
    forall j | 0 <= j < |v| && v[j].Active? ensures Scaled(v, t)[j].score <= 0.0 {
      DivOrder(v[j].score - m.score, 0.0, Divisor(t));
    }
  }

  /** Adding a constant to every score does not move the first maximum. */
  lemma {:induction false} ShiftKeepsMaxIdx(v: seq<Slot>, c: real)
    requires |v| > 0
    ensures MaxIdx(Shift(v, c)) == MaxIdx(v)
  {
    if |v| > 1 {
      var n := |v|;
      var w := Shift(v, c);
      ShiftKeepsMaxIdx(v[..n - 1], c);
      assert w[..n - 1] == Shift(v[..n - 1], c);
      var m := MaxIdx(v[..n - 1]);
      assert MaxIdx(w[..n - 1]) == m;
      assert w[m] == Add(v[m], Active(c)) && w[n - 1] == Add(v[n - 1], Active(c));
    }
  }

  /** Scaling cancels a uniform shift of the scores: the maximum subtraction absorbs it. */
  lemma ScaledShiftInvariant(v: seq<Slot>, c: real, t: real)
    requires |v| > 0
    ensures Scaled(Shift(v, c), t) == Scaled(v, t)
  {
    ShiftKeepsMaxIdx(v, c);
  }
}
