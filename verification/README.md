# Token sampling in ollama (`sample/sample.go`)

This project models the sampling package of ollama in Dafny and proves properties of the model. The package turns one vector of logits, one float per vocabulary token, into the next token. It does so through a chain of samplers, run in order by `Sample(logits, samplers...)`:

- **`Temperature(t)`** accepts `t` in [0, 2]. In place, it subtracts the largest logit from every logit and divides by `max(t, 1e-7)`.
- **`Softmax()` / `computeSoftmax`** returns a fresh vector of `exp(x) / sum(exp)`. The caller's slice is left as it was.
- **`TopK(k)`** accepts `k > 0` and leaves the vector alone when `k >= len`. Otherwise it ranks positions by descending logit (`cmp.Compare`) and writes NaN into every position after the first `k`.
- **`TopP(p)`** accepts `p` in (0, 1). It ranks positions by descending probability and adds the probabilities up in that order. As soon as the running sum exceeds `p`, it writes NaN into every position ranked after the current one.
- **`MinP(p)`** accepts `p` in (0, 1). It writes NaN into every position whose probability is below `p` times the largest probability.
- **`Weighed()`** drops the NaN positions and remembers where each survivor came from. It fails with "no valid tokens found" when nothing survives. Otherwise it draws one survivor with softmax weights and answers `[original index]`. If the draw fails, it answers "weighed sampler failed".
- **`Greedy()`** answers `[floats.MaxIdx(logits)]`.
- **The driver** stops at the first error. When a sampler equals `Temperature(0)`, the driver answers with the greedy pick straight away.

NaN is the package's mark for an excluded token. The model writes a float as `Slot = Active(score: real) | Excluded`, where `Excluded` stands for NaN, and its arithmetic follows IEEE behaviour for NaN:

- `Add`, `Sub` and `Mul` absorb NaN.
- `Less` and `Greater` are false whenever NaN is involved.
- `Below` is `cmp.Compare`'s order, which puts NaN lowest.

Because `floats.Sum` of a vector holding NaN is NaN, every probability of such a vector is NaN, not only the NaN position's own. For such input TopP and MinP therefore exclude nothing. The model keeps that behaviour (`TopPFilter.TopPWithNaN`, `MinPFilter.MinPWithNaN`) rather than excluding such inputs by a precondition.

Modules, leaves first:

- `Outcomes`: errors, `Result` and `Option`.
- `Slots`: floats with NaN, and writing NaN into positions.
- `Floats`: gonum's `Sum`, `Max` and `MaxIdx`.
- `Sorting`: `Ranker`, the sorts that answer a descending ranking as `slices.SortFunc` does, one such sort, and the maximum `slices.Sort` leaves last.
- `Exponential`: the exponential function as a parameter, and the multiplicativity that shift invariance needs.
- `SoftmaxCore`.
- `TemperatureFilter`, `TopKFilter`, `TopPFilter` and `MinPFilter`.
- `WeighedSampler` and `GreedySampler`.
- `Pipeline`: the sampler variants and the driver.

Each sampler has two forms:

- a function on sequences (`Apply` / `Sample`) giving what it returns;
- a method on an `array<Slot>` that does what the Go code does to the slice: in place for the four filters, into a fresh array for the others.

Each method's `ensures` ties its result and the new array contents to the function. The lemmas state the properties about the functions. Three things the package takes from outside are parameters: the exponential `exp`, the random draw `take` and the index sort `rank`. Every lemma holds for every choice of them that meets its type; the one exception is `SoftmaxCore.SoftmaxShift`, which also asks that `exp` turn sums into products.

## Model

| member | source | states |
|---|---|---|
| Slots.ExcludeAt | sample/sample.go:78-80 | after NaN is written into the listed positions, a position holds NaN exactly when it is listed, and otherwise keeps its old value |
| Slots.ExcludeRanked | sample/sample.go:111-113 | the loop writing NaN into the positions `indices[from:]` leaves exactly `ExcludeAt(old, indices[from..])` in the slice |
| Floats.Sum | sample/sample.go:52 | `floats.Sum` is a number exactly when no element is NaN; a single NaN makes it NaN |
| Floats.SumPositive | sample/sample.go:52 | the sum of positive numbers is a positive number, so the softmax divisor is never zero |
| Floats.SumAppend | sample/sample.go:107-110 | the sum of a concatenation is the sum of the sums, so a running sum is a prefix sum |
| Floats.SumPermutation | sample/sample.go:107-110 | summing the probabilities in any ranking order gives the same total as summing them in index order |
| Floats.MaxIdx | sample/sample.go:190 | `floats.MaxIdx` is a valid index: the first position of the largest non-NaN value, and 0 when every value is NaN |
| Floats.Max | sample/sample.go:25 | `floats.Max` is an element of the vector, NaN exactly when every element is NaN, and otherwise at least every non-NaN element |
| Sorting.Rank | sample/sample.go:74-76 | one index list the sort may produce: a permutation of the positions in descending `cmp.Compare` order of the keys, which shows that a sort as the filters assume it exists |
| Sorting.Largest | sample/sample.go:134-136 | the last element after `slices.Sort` is an element of the vector and no element is above it |
| SoftmaxCore.Softmax | sample/sample.go:45-56 | the probabilities have the input's length; one NaN logit makes every probability NaN, and otherwise every probability is a positive number |
| SoftmaxCore.SoftmaxAt | sample/sample.go:45-56 | without NaN, each probability is `exp(x_i) / sum_j exp(x_j)`, with a positive sum and a positive result |
| SoftmaxCore.SoftmaxOrder | sample/sample.go:48-53 | without NaN, probabilities are ordered exactly as the logits are, with ties where the logits tie, in both directions |
| SoftmaxCore.SoftmaxTotal | sample/sample.go:52-53 | without NaN, the probabilities of a non-empty vector add up to exactly 1 |
| SoftmaxCore.SoftmaxShift | sample/sample.go:45-56 | for an exponential that turns sums into products, adding the same constant to every logit leaves every probability as it was (all NaN stays all NaN) |
| SoftmaxCore.ComputeSoftmax | sample/sample.go:45-56 | `computeSoftmax` answers a fresh vector holding the softmax of the input |
| TemperatureFilter.Divisor | sample/sample.go:27 | `max(t, 1e-7)`: the larger of `t` and `1e-7`, so always positive |
| TemperatureFilter.Apply | sample/sample.go:19-33 | a temperature outside [0, 2] is the range error; otherwise the answer has the input's length and is NaN exactly where the input is |
| TemperatureFilter.Sample | sample/sample.go:19-33 | a temperature outside [0, 2] is an error that leaves the slice untouched; otherwise the slice becomes `(x - max) / max(t, 1e-7)` in every slot and is returned |
| TemperatureFilter.ScaledKeepsOrder | sample/sample.go:28-30 | without NaN, scaling keeps the order of and the ties between any two logits, in both directions |
| TemperatureFilter.ScaledTopIsZero | sample/sample.go:24-30 | after scaling, the largest logit is 0 and no logit is above 0 |
| TemperatureFilter.ShiftKeepsMaxIdx | sample/sample.go:25 | adding a constant to every logit does not move the position of the maximum |
| TemperatureFilter.ScaledShiftInvariant | sample/sample.go:24-30 | adding a constant to every logit does not change the scaled vector |
| TopKFilter.Apply | sample/sample.go:60-83 | k <= 0, and only that, is the k error; otherwise every position either keeps its own logit or becomes NaN |
| TopKFilter.Sample | sample/sample.go:60-83 | k <= 0 is an error that leaves the slice untouched; otherwise the slice is filtered in place as `Apply` says and returned |
| TopKFilter.WholeVectorKept | sample/sample.go:64-66 | k at least the length returns the vector unchanged |
| TopKFilter.TopKExcludesExactly | sample/sample.go:68-80 | for k below the length, exactly `len - k` positions get NaN, all others keep their value, and no kept value is below a dropped one in `cmp.Compare` order |
| TopKFilter.KeptIsHead | sample/sample.go:74-80 | a position keeps a number exactly when it held one and is among the first k of the ranking |
| TopKFilter.TopKKeepsLargest | sample/sample.go:60-83 | without NaN and with 0 < k < len, exactly k positions keep a logit, and each is at least every dropped logit |
| TopPFilter.MassStep | sample/sample.go:108-109 | each iteration adds the probability of the next ranked position to `cumSum` |
| TopPFilter.Cutoff | sample/sample.go:107-116 | the loop breaks at the first rank whose running sum exceeds p; None means it never does |
| TopPFilter.Nucleus | sample/sample.go:92-117 | every position either keeps its own logit or becomes NaN; no logit is replaced by a probability |
| TopPFilter.Apply | sample/sample.go:87-118 | p outside (0, 1), and only that, is the p error; otherwise every position either keeps its own logit or becomes NaN |
| TopPFilter.Sample | sample/sample.go:87-118 | p outside (0, 1) is an error that leaves the slice untouched; otherwise the slice is filtered in place as `Apply` says and returned |
| TopPFilter.TopSurvives | sample/sample.go:107-116 | the position ranked first always keeps its logit |
| TopPFilter.TopHoldsLargestScore | sample/sample.go:92-105 | without NaN, the position ranked first by probability holds a largest logit |
| TopPFilter.TopPWithNaN | sample/sample.go:92-116 | with a NaN logit, every running sum is NaN, the loop never breaks, and nothing is excluded |
| TopPFilter.CutoffExists | sample/sample.go:107-116 | without NaN and with p < 1, the running sum exceeds p at some rank, because the whole sum is 1 |
| TopPFilter.TopPKeepsShortestPrefix | sample/sample.go:87-118 | without NaN, TopP keeps exactly the shortest ranked prefix whose mass exceeds p and excludes every position ranked after it |
| TopPFilter.NucleusExample | sample/sample.go:107-116 | probabilities 0.5, 0.3, 0.15, 0.05 with p = 0.6 keep exactly the first two positions |
| MinPFilter.Prune | sample/sample.go:139-143 | every position either keeps its own logit or becomes NaN |
| MinPFilter.KeepLikely | sample/sample.go:131-143 | with the largest probability as the base of the threshold, every position either keeps its own logit or becomes NaN |
| MinPFilter.Apply | sample/sample.go:122-146 | p outside (0, 1), and only that, is the p error; otherwise every position either keeps its own logit or becomes NaN |
| MinPFilter.Sample | sample/sample.go:122-146 | p outside (0, 1) is an error that leaves the slice untouched; otherwise the slice is filtered in place as `Apply` says and returned |
| MinPFilter.ExcludeBelow | sample/sample.go:139-143 | the loop writes NaN exactly where the probability is below the threshold and leaves every other slot as it was |
| MinPFilter.LargestAtMaxIdx | sample/sample.go:131-136 | without NaN, the largest probability after sorting is the probability at the position of the largest logit |
| MinPFilter.MinPThreshold | sample/sample.go:127-143 | without NaN, position i becomes NaN exactly when its probability is strictly below p times the probability of the top logit; at the threshold it is kept |
| MinPFilter.MinPKeepsTop | sample/sample.go:122-146 | without NaN, the position of the largest logit always survives |
| MinPFilter.MinPKeepsHigher | sample/sample.go:139-143 | without NaN, a position whose logit is at least that of a surviving position survives too |
| MinPFilter.MinPWithNaN | sample/sample.go:127-143 | with a NaN logit, the threshold is NaN and nothing is excluded |
| WeighedSampler.Compact | sample/sample.go:155-163 | the compacted scores and indices are parallel, strictly increasing in the original index, each the logit at its original position, and every non-NaN position appears |
| WeighedSampler.Survivors | sample/sample.go:155-163 | the compaction loop builds exactly `Compact` of the slice |
| WeighedSampler.KeptWeights | sample/sample.go:169 | the weights are `computeSoftmax` of the compacted scores |
| WeighedSampler.Draw | sample/sample.go:169-179 | a failed draw is "weighed sampler failed"; a successful one answers the one-element vector holding the original index of some kept position |
| WeighedSampler.Apply | sample/sample.go:154-180 | the only errors are "no valid tokens found" and "weighed sampler failed"; an answer is one number, an index within the vector |
| WeighedSampler.Sample | sample/sample.go:154-180 | the answer, or the error, is the one `Apply` gives; an answer is a fresh vector |
| WeighedSampler.NoValidTokensExactly | sample/sample.go:165-167 | "no valid tokens found" is reported exactly when every logit is NaN |
| WeighedSampler.PicksSurvivor | sample/sample.go:174-178 | a successful draw answers the original index of a position that is not NaN |
| WeighedSampler.DrawsBySoftmaxWeights | sample/sample.go:169-179 | the draw is handed `computeSoftmax` of the kept scores, and the answer is `[i]` exactly when the draw picks a position whose original index is `i`; "weighed sampler failed" exactly when some token is valid and the draw picks nothing |
| WeighedSampler.WeightsAreDistribution | sample/sample.go:169-174 | the draw's weights are positive and add up to 1 |
| WeighedSampler.WeightsFollowScores | sample/sample.go:169 | one survivor weighs less than another exactly when its logit is lower |
| WeighedSampler.EverySurvivorReachable | sample/sample.go:174-178 | every non-NaN position is the answer of some draw |
| GreedySampler.Sample | sample/sample.go:189-191 | the answer is one number, an index within the vector |
| GreedySampler.Pick | sample/sample.go:189-191 | the answer is a fresh one-element vector, and the slice is only read |
| GreedySampler.PicksFirstMax | sample/sample.go:189-191 | greedy answers i exactly when i is the first position of the largest non-NaN logit, or i = 0 when every logit is NaN |
| GreedySampler.Examples | sample/sample.go:189-191 | [1, 5, 3] gives 1; a tie gives the first tied position; NaN never wins; all-NaN gives 0 |
| Pipeline.Step | sample/sample.go:204 | a successful sampler answers a non-empty vector, and a filter answers one of the same length |
| Pipeline.Run | sample/sample.go:193-210 | a successful run answers a non-empty vector |
| Pipeline.CallerView | sample/sample.go:193-210 | the caller's slice keeps its length through the run |
| Pipeline.ApplyStage | sample/sample.go:204 | one sampler on a slice: its answer is `Step`'s; a filter works in place, and any other sampler leaves the slice untouched and answers a fresh vector |
| Pipeline.Sample | sample/sample.go:193-210 | the driver's answer or error is `Run`'s; the answer is the caller's slice or a fresh vector; the caller's slice ends as `CallerView` says |
| Pipeline.NoSamplers | sample/sample.go:209 | with no samplers, the driver answers the input and leaves it untouched |
| Pipeline.RunCompose | sample/sample.go:195-208 | running `a + b` is running `a` and then `b` on its answer, unless `a` failed or holds `Temperature(0)`, in which case `b` is never reached |
| Pipeline.CallerViewCompose | sample/sample.go:196-207 | samplers after a failure or after a `Temperature(0)` never write into the caller's slice: it ends as if they were absent |
| Pipeline.ErrorIsFinal | sample/sample.go:205-207 | after the first error, no later sampler changes the outcome or writes into the caller's slice |
| Pipeline.GreedyShortCircuit | sample/sample.go:196-203 | a `Temperature(0)` reached without error answers the greedy pick of the vector it is handed, whatever follows it, and nothing after it writes into the caller's slice |
| Pipeline.NonzeroTemperatureFilters | sample/sample.go:196-204 | a temperature other than exactly 0 does not short-circuit: it is checked and applied as a filter, and the run goes on with its answer |
| Pipeline.InPlaceRunShares | sample/sample.go:193-210 | when every sampler is a filter and the run succeeds, the caller's slice holds the answer |
| Pipeline.CopyShields | sample/sample.go:204 | a copying sampler first in line leaves the caller's slice as it was, whatever follows |
| Pipeline.ShortCircuitExample | sample/sample.go:196-203 | `[Temperature(0), TopK(1)]` on [2, 9, 4] answers [1] |

## Left out

- Floating-point rounding, overflow and infinities: floats are exact reals or NaN. `SoftmaxCore.SoftmaxTotal` is an exact sum of 1, where float64 gives 1 only up to rounding. Overflow of `exp` to +Inf, and the Inf/Inf = NaN that can follow, is not modelled.
- `computeSoftmax` scales by `1.0/floatSum` through `floats.Scale`. Over exact reals, multiplying by the reciprocal equals dividing, so the model divides.
- `math.Exp` is a parameter `exp: ExpFn`: any function that is positive and strictly increasing. No particular values of the exponential are modelled.
- `SoftmaxCore.SoftmaxShift`: requires `exp` to turn sums into products (`Exponential.Multiplicative`). Positive and increasing alone do not give shift invariance. Multiplicativity is not part of `ExpFn` because no function over exact reals that the model can write down has it.
- The random draw of `sampleuv.NewWeighted(...).Take()` is a parameter `take: Chooser`: any function from weights to an in-range index or to failure. The distribution of the draw is not modelled. `WeighedSampler.EverySurvivorReachable` states that each survivor can be drawn, and `WeighedSampler.WeightsAreDistribution` states what the weights are.
- gonum's `floats.Sum`, `floats.Max`, `floats.MaxIdx` and `floats.Scale` follow their documented behaviour. gonum's code is not part of this model.
- `floats.MaxIdx` is modelled as the first maximum among non-NaN values, or 0 when all are NaN.
- `slices.SortFunc` is not stable, so equal keys may come out in any order. TopK, TopP and the driver take the sort as a parameter `rank: Sorting.Ranker`: any function answering a descending `cmp.Compare` ranking of its keys. Every TopK and TopP lemma holds for every such ranking. Which of several equal logits survives depends on the ranking and is not fixed by the model. `Sorting.Rank`, a stable insertion sort, only shows that such a ranking exists. How the library sort itself orders ties is not modelled.
- `slices.Sort` puts NaN first. MinP reads only the last element, the largest; `Sorting.Largest` models that element and not the whole sorted copy.
- Sampler parameters are exact reals or integers. NaN parameters are not modelled. Nor is the float32 type of `TopP` and `MinP`, whose `float64(p)` widening is exact but whose original literal is rounded to float32.
- `TemperatureFilter.Sample`: requires a non-empty slice once the temperature is accepted, because `floats.Max` panics on an empty slice. Panics are not modelled.
- `MinPFilter.Sample`: requires a non-empty slice once p is accepted, because indexing the sorted copy at `len - 1` panics on an empty slice.
- `GreedySampler.Sample`: requires a non-empty vector, because `floats.MaxIdx` panics on an empty slice.
- `Pipeline.Sample`: requires a non-empty slice, even for sampler lists that would accept an empty one, such as `TopK`, `TopP`, softmax or weighed alone. The model assumes its callers never pass an empty slice. It does not model the driver on an empty slice, nor the panics above.
- `TopKFilter.TopKKeepsLargest`, `TopPFilter.TopPKeepsShortestPrefix` and the MinP lemmas are stated for vectors without NaN. With NaN, the behaviour is stated separately by `TopKFilter.TopKExcludesExactly`, `TopPFilter.TopPWithNaN` and `MinPFilter.MinPWithNaN`.
- The `Sampler` interface and its `==` against `Temperature(0)` are a closed datatype `Pipeline.Sampler`. `Pipeline.AsksGreedy` compares with `Temperature(0.0)` exactly as the interface comparison does, so a `Temperature` of any other value, or a different sampler type, never short-circuits.
- The error texts are kept as `Outcomes.Message` but no property is stated about them.
- That running TopK and TopP in different orders can keep different sets is not stated as a lemma. `Pipeline.RunCompose` gives the composition that such a comparison would use.
