/**
  The `Sample` driver (sample/sample.go): run the samplers in order, each on
  what the previous one returned, stop at the first error, and answer at once
  with the greedy pick when a sampler equals `Temperature(0)`.

  The filters (temperature, top-k, top-p, min-p) overwrite the slice they are
  given and hand that same slice on; softmax, weighed and greedy answer with a
  fresh vector. So the caller's own slice holds the result of the filters run
  before the first copying sampler, and nothing after it.

  The exponential (`exp`), the random draw (`take`) and the index sort
  (`rank`) are parameters that every member passes down unchanged.
 */
module Pipeline {
  import opened Slots
  import opened Outcomes
  import Exponential
  import Sorting
  import SoftmaxCore
  import TemperatureFilter
  import TopKFilter
  import TopPFilter
  import MinPFilter
  import WeighedSampler
  import GreedySampler

  /** The samplers the package offers, with their parameters. */
  datatype Sampler =
    | Temperature(t: real)
    | Softmax
    | TopK(k: int)
    | TopP(p: real)
    | MinP(p: real)
    | Weighed
    | Greedy

  /** Samplers that overwrite the slice they are given and return that same slice. */
  predicate InPlace(s: Sampler)
  {
    s.Temperature? || s.TopK? || s.TopP? || s.MinP?
  }

  /** The driver's `sampler == Temperature(0)` test. */
  predicate AsksGreedy(s: Sampler)
  {
    s == Temperature(0.0)
  }

  /** One sampler's `Sample`, on a non-empty vector. */
  function Step(s: Sampler, v: seq<Slot>, exp: Exponential.ExpFn, take: WeighedSampler.Chooser, rank: Sorting.Ranker): (r: Result<seq<Slot>>)
    requires |v| > 0
    ensures r.Ok? ==> |r.value| > 0
    ensures r.Ok? && InPlace(s) ==> |r.value| == |v|
  {
    match s
    case Temperature(t) => TemperatureFilter.Apply(v, t)
    case Softmax => Ok(SoftmaxCore.Softmax(exp, v))
    case TopK(k) => TopKFilter.Apply(v, k, rank)
    case TopP(p) => TopPFilter.Apply(v, p, exp, rank)
    case MinP(p) => MinPFilter.Apply(v, p, exp)
    case Weighed => WeighedSampler.Apply(v, exp, take)
    case Greedy => Ok(GreedySampler.Sample(v))
  }

  /** What `Sample(v, samplers...)` returns. */
  function Run(v: seq<Slot>, samplers: seq<Sampler>, exp: Exponential.ExpFn, take: WeighedSampler.Chooser, rank: Sorting.Ranker): (r: Result<seq<Slot>>)
    requires |v| > 0
    ensures r.Ok? ==> |r.value| > 0
    decreases |samplers|
  {
    if samplers == [] then Ok(v)
    else if AsksGreedy(samplers[0]) then Ok(GreedySampler.Sample(v))
    else
      match Step(samplers[0], v, exp, take, rank)
      case Err(e) => Err(e)
      case Ok(w) => Run(w, samplers[1..], exp, take, rank)
  }

  /** What the caller's own slice holds once `Sample(v, samplers...)` returns. */
  function CallerView(v: seq<Slot>, samplers: seq<Sampler>, exp: Exponential.ExpFn, take: WeighedSampler.Chooser, rank: Sorting.Ranker): (r: seq<Slot>)
    requires |v| > 0
    ensures |r| == |v|
    decreases |samplers|
  {
    if samplers == [] || AsksGreedy(samplers[0]) || !InPlace(samplers[0]) then v
    else
      match Step(samplers[0], v, exp, take, rank)
      case Err(_) => v
      case Ok(w) => CallerView(w, samplers[1..], exp, take, rank)
  }

  /** One sampler on a slice: a filter works in place, the others answer with a fresh vector. */
  method ApplyStage(s: Sampler, a: array<Slot>, exp: Exponential.ExpFn, take: WeighedSampler.Chooser, rank: Sorting.Ranker)
    returns (res: Result<array<Slot>>)
    requires a.Length > 0
    modifies a
    ensures res.Err? ==> Step(s, old(a[..]), exp, take, rank) == Err(res.error) && a[..] == old(a[..])
    ensures res.Ok? ==> Step(s, old(a[..]), exp, take, rank) == Ok(res.value[..])
    ensures res.Ok? && InPlace(s) ==> res.value == a
    ensures !InPlace(s) ==> a[..] == old(a[..]) && (res.Ok? ==> fresh(res.value))
  {
    match s {
      case Temperature(t) =>
        res := TemperatureFilter.Sample(a, t);
      case Softmax =>
        var probs := SoftmaxCore.ComputeSoftmax(a, exp);
        res := Ok(probs);
      case TopK(k) =>
        res := TopKFilter.Sample(a, k, rank);
      case TopP(p) =>
        res := TopPFilter.Sample(a, p, exp, rank);
      case MinP(p) =>
        res := MinPFilter.Sample(a, p, exp);
      case Weighed =>
        res := WeighedSampler.Sample(a, exp, take);
      case Greedy =>
        var picked := GreedySampler.Pick(a);
        res := Ok(picked);
    }
  }

  /**
    The driver. It panics on an empty slice, since the temperature, min-p and
    greedy samplers do. The answer is the caller's slice or a fresh vector, and
    the caller's slice ends up as CallerView says.
   */
  method Sample(logits: array<Slot>, samplers: seq<Sampler>, exp: Exponential.ExpFn, take: WeighedSampler.Chooser, rank: Sorting.Ranker)
    returns (res: Result<array<Slot>>)
    requires logits.Length > 0
    modifies logits
    ensures res.Err? ==> Run(old(logits[..]), samplers, exp, take, rank) == Err(res.error)
    ensures res.Ok? ==> Run(old(logits[..]), samplers, exp, take, rank) == Ok(res.value[..])
    ensures res.Ok? ==> res.value == logits || fresh(res.value)
    ensures logits[..] == CallerView(old(logits[..]), samplers, exp, take, rank)
  {
    ghost var v := logits[..];
    var cur := logits;
    var i := 0;
    while i < |samplers|
      invariant i <= |samplers|
      invariant cur.Length > 0
      invariant cur == logits || fresh(cur)
      invariant Run(v, samplers, exp, take, rank) == Run(cur[..], samplers[i..], exp, take, rank)
      invariant cur == logits ==> CallerView(v, samplers, exp, take, rank) == CallerView(cur[..], samplers[i..], exp, take, rank)
      invariant cur != logits ==> logits[..] == CallerView(v, samplers, exp, take, rank)
    {
      assert samplers[i..][0] == samplers[i] && samplers[i..][1..] == samplers[i + 1..];
      if AsksGreedy(samplers[i]) {
        var picked := GreedySampler.Pick(cur);
        return Ok(picked);
      }
      var r := ApplyStage(samplers[i], cur, exp, take, rank);
      if r.Err? {
        return Err(r.error);
      }
      cur := r.value;
      i := i + 1;
    }
    return Ok(cur);
  }

  /** With no sampler the driver answers with the vector it was given. */
  lemma NoSamplers(v: seq<Slot>, exp: Exponential.ExpFn, take: WeighedSampler.Chooser, rank: Sorting.Ranker)
    requires |v| > 0
    ensures Run(v, [], exp, take, rank) == Ok(v) && CallerView(v, [], exp, take, rank) == v
  {
  }

  /** Some sampler in `samplers` asks for greedy decoding. */
  predicate HasGreedyRequest(samplers: seq<Sampler>)
  {
    exists j :: 0 <= j < |samplers| && AsksGreedy(samplers[j])
  }

  /**
    Running `a` and then `b` is running `a` and, unless it failed or asked for
    greedy decoding, running `b` on its answer.
   */
  lemma {:induction false} RunCompose(v: seq<Slot>, a: seq<Sampler>, b: seq<Sampler>, exp: Exponential.ExpFn, take: WeighedSampler.Chooser, rank: Sorting.Ranker)
    requires |v| > 0
    ensures HasGreedyRequest(a) || Run(v, a, exp, take, rank).Err? ==> Run(v, a + b, exp, take, rank) == Run(v, a, exp, take, rank)
    ensures !HasGreedyRequest(a) && Run(v, a, exp, take, rank).Ok? ==>
              Run(v, a + b, exp, take, rank) == Run(Run(v, a, exp, take, rank).value, b, exp, take, rank)
    decreases |a|
  {
    if a == [] {
      assert a + b == b;
      assert !HasGreedyRequest(a);
    } else {
      assert (a + b)[0] == a[0] && (a + b)[1..] == a[1..] + b;
      if !AsksGreedy(a[0]) {
        match Step(a[0], v, exp, take, rank)
        case Err(_) =>
        case Ok(w) =>
          RunCompose(w, a[1..], b, exp, take, rank);
          GreedyRequestTail(a);
      } else {
        assert HasGreedyRequest(a);
      }
    }
  }

  /** A list whose head is not `Temperature(0)` asks for greedy decoding exactly when its tail does. */
  lemma GreedyRequestTail(a: seq<Sampler>)
    requires |a| > 0 && !AsksGreedy(a[0])
    ensures HasGreedyRequest(a) <==> HasGreedyRequest(a[1..])
  {
    if HasGreedyRequest(a) {
      var j :| 0 <= j < |a| && AsksGreedy(a[j]);
      assert a[1..][j - 1] == a[j];
    }
    if HasGreedyRequest(a[1..]) {
      var j :| 0 <= j < |a[1..]| && AsksGreedy(a[1..][j]);
      assert a[j + 1] == a[1..][j];
    }
  }

  /**
    Samplers after a failure, or after a `Temperature(0)`, never run, so they
    never write into the caller's slice either.
   */
  lemma {:induction false} CallerViewCompose(v: seq<Slot>, a: seq<Sampler>, b: seq<Sampler>, exp: Exponential.ExpFn, take: WeighedSampler.Chooser, rank: Sorting.Ranker)
    requires |v| > 0
    requires Run(v, a, exp, take, rank).Err? || HasGreedyRequest(a) || (|b| > 0 && AsksGreedy(b[0]))
    ensures CallerView(v, a + b, exp, take, rank) == CallerView(v, a, exp, take, rank)
    decreases |a|
  {
    if a == [] {
      assert a + b == b;
    } else {
      assert (a + b)[0] == a[0] && (a + b)[1..] == a[1..] + b;
      if !AsksGreedy(a[0]) && InPlace(a[0]) {
        match Step(a[0], v, exp, take, rank)
        case Err(_) =>
        case Ok(w) =>
          GreedyRequestTail(a);
          CallerViewCompose(w, a[1..], b, exp, take, rank);
      }
    }
  }

  /** The first error ends the run: nothing after the failing sampler changes the answer. */
  lemma ErrorIsFinal(v: seq<Slot>, a: seq<Sampler>, b: seq<Sampler>, exp: Exponential.ExpFn, take: WeighedSampler.Chooser, rank: Sorting.Ranker)
    requires |v| > 0 && Run(v, a, exp, take, rank).Err?
    ensures Run(v, a + b, exp, take, rank) == Run(v, a, exp, take, rank)
    ensures CallerView(v, a + b, exp, take, rank) == CallerView(v, a, exp, take, rank)
  {
    RunCompose(v, a, b, exp, take, rank);
    CallerViewCompose(v, a, b, exp, take, rank);
  }

  /**
    A `Temperature(0)` reached without an error answers with the greedy pick
    of the vector it is handed, whatever samplers follow it.
   */
  lemma GreedyShortCircuit(v: seq<Slot>, a: seq<Sampler>, rest: seq<Sampler>, exp: Exponential.ExpFn, take: WeighedSampler.Chooser, rank: Sorting.Ranker)
    requires |v| > 0 && !HasGreedyRequest(a) && Run(v, a, exp, take, rank).Ok?
    ensures Run(v, a + [Temperature(0.0)] + rest, exp, take, rank) == Ok(GreedySampler.Sample(Run(v, a, exp, take, rank).value))
    ensures CallerView(v, a + [Temperature(0.0)] + rest, exp, take, rank) == CallerView(v, a, exp, take, rank)
  {
    assert a + [Temperature(0.0)] + rest == a + ([Temperature(0.0)] + rest);
    RunCompose(v, a, [Temperature(0.0)] + rest, exp, take, rank);
    CallerViewCompose(v, a, [Temperature(0.0)] + rest, exp, take, rank);
  }

  /**
    Only a temperature of exactly 0 short-circuits: any other temperature is
    checked and applied as a filter, and the run goes on with what it returns.
   */
  lemma NonzeroTemperatureFilters(v: seq<Slot>, t: real, rest: seq<Sampler>, exp: Exponential.ExpFn, take: WeighedSampler.Chooser, rank: Sorting.Ranker)
    requires |v| > 0 && t != 0.0
    ensures Run(v, [Temperature(t)] + rest, exp, take, rank) ==
              if t < 0.0 || t > 2.0 then Err(TemperatureOutOfRange)
              else Run(TemperatureFilter.Scaled(v, t), rest, exp, take, rank)
  {
  }

  /**
    When every sampler works in place and the run succeeds, the caller's own
    slice holds the answer.
   */
  lemma {:induction false} InPlaceRunShares(v: seq<Slot>, samplers: seq<Sampler>, exp: Exponential.ExpFn, take: WeighedSampler.Chooser, rank: Sorting.Ranker)
    requires |v| > 0 && Run(v, samplers, exp, take, rank).Ok?
    requires forall j :: 0 <= j < |samplers| ==> InPlace(samplers[j]) && !AsksGreedy(samplers[j])
    ensures CallerView(v, samplers, exp, take, rank) == Run(v, samplers, exp, take, rank).value
    decreases |samplers|
  {
    if samplers != [] {
      var w := Step(samplers[0], v, exp, take, rank).value;
      InPlaceRunShares(w, samplers[1..], exp, take, rank);
    }
  }

  /** A copying sampler first in line leaves the caller's slice as it was, whatever follows. */
  lemma CopyShields(v: seq<Slot>, samplers: seq<Sampler>, exp: Exponential.ExpFn, take: WeighedSampler.Chooser, rank: Sorting.Ranker)
    requires |v| > 0 && |samplers| > 0 && !InPlace(samplers[0])
    ensures CallerView(v, samplers, exp, take, rank) == v
  {
  }

  /** Example: `Temperature(0)` answers with the greedy pick and never reaches the top-k that follows. */
  lemma ShortCircuitExample(exp: Exponential.ExpFn, take: WeighedSampler.Chooser, rank: Sorting.Ranker)
    ensures Run([Active(2.0), Active(9.0), Active(4.0)], [Temperature(0.0), TopK(1)], exp, take, rank) == Ok([Active(1.0)])
  {
    GreedySampler.PicksFirstMax([Active(2.0), Active(9.0), Active(4.0)], 1);
  }
}
