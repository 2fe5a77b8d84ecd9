# pyDVL core helpers in Dafny

This project models four groups of small helpers from pyDVL, a library for
data valuation, and proves what they promise.

- **Semi-value weighting** (`src/pydvl/value/semivalues.py`). The Shapley and
  Banzhaf coefficients and the weighted marginal utility of one sample. The
  utility is an abstract function from index sets to reals.
  - The Shapley weights of all subsets of D \ {i} add up to 1, and so do the
    Banzhaf weights.
  - The Shapley coefficient is symmetric.
  - The exact Shapley values built from `_marginal` satisfy efficiency: they
    add up to u(D) - u(∅).
- **Numeric helpers** (`src/pydvl/utils/numeric.py`).
  - `powerset`: its count, order, members and absence of repeats.
  - The three sampling helpers, with the random draws passed in as inputs.
  - `running_moments`: folding it over a sequence gives the mean and the
    population variance exactly.
  - `top_k_value_accuracy`, with the two `argsort` orders as inputs.
- **Argument adaptation and seeds** (`src/pydvl/utils/types.py`).
  - `call_fun_remove_arg`, `maybe_add_argument`, `NoPublicConstructor`,
    `ensure_seed_sequence` and `call_fn_multiple_seeds`.
  - These run over a small model of Python calls (module `PyRuntime`). A
    callable is a plain function, a `functools.partial`, the function
    `call_fun_remove_arg`, or a closure that drops one keyword. A plain
    function's parameters are ordered, so positional arguments fill them
    before keywords are bound.
- **Parameter acceptance** (`src/pydvl/utils/functional.py`,
  `src/pydvl/utils/parallel/check.py`).
  - Both implementations are modelled. Each unrolls nested partials into a
    set held by a class, because the source grows a `nonlocal` set.
  - Both are proved to decide exactly the same predicate, `AcceptsParam`,
    and to raise the same TypeError when a partial binds an unhashable
    positional value.
  - The decision compares the positional values a partial binds with the
    parameter name. A corrected decision, `AcceptsParamFixed`, counts the
    parameters those values fill instead, and is proved sound.

Floats are exact reals. Python integers are unbounded, as they are in Dafny.

Files:

- `combinatorics.dfy`: binomial coefficients (0 above the diagonal, as with
  `math.comb`) and powers of two.
- `subset_sums.dfy`: finite sums over the subsets of an index list.
- `semivalues.dfy`: the semi-value material.
- `numeric.dfy`: the numeric helpers.
- `pyruntime.dfy`: values, callables, exceptions and calls.
- `functional.dfy`, `check.dfy`, `types.dfy`: the three Python modules of the
  same names.

## Model

| member | source | states |
|---|---|---|
| Semivalues.ShapleyCoefficient | src/pydvl/value/semivalues.py:210-211 | for 0 < n and k < n, 1 / C(n-1, k) / n is strictly positive and at most 1/n |
| Semivalues.ShapleySymmetric | src/pydvl/value/semivalues.py:210-211 | the coefficient of size k equals that of size n-1-k |
| Semivalues.ShapleyNormalised | src/pydvl/value/semivalues.py:8-15 | the sum over k < n of C(n-1, k) times the Shapley coefficient is 1: the weights of all subsets of D \ {i} add up to 1, with the 1/n factor folded in |
| Semivalues.ShapleyValue | src/pydvl/value/semivalues.py:5-6 | the exact Shapley value of i, the sum of its weighted marginals over the subsets of D \ {i}, is 0 for a null point, one whose addition never changes the utility |
| Semivalues.ShapleyValues | src/pydvl/value/semivalues.py:5-6 | the values of all points as a function of the index: 0 outside D and 0 for every null point; Efficiency states what they add up to |
| Semivalues.BanzhafCoefficient | src/pydvl/value/semivalues.py:214-215 | positive, and for n ≥ 1 it times 2^(n-1) is 1; for n = 0 it is 2 |
| Semivalues.BanzhafSizeIndependent | src/pydvl/value/semivalues.py:214-215 | the Banzhaf coefficient does not depend on the subset size |
| Semivalues.BanzhafNormalised | src/pydvl/value/semivalues.py:8-10 | the Banzhaf weights of the 2^(n-1) subsets of D \ {i} add up to 1 |
| Semivalues.Marginal | src/pydvl/value/semivalues.py:102-118 | returns the sample's index unchanged; the marginal is 0 when the index is already in the subset; it is non-negative when adding the index does not lower the utility and the coefficient is non-negative |
| Semivalues.MarginalAt | src/pydvl/value/semivalues.py:115-118 | for a subset S of D \ {i}, the Shapley-weighted marginal is (u({i} ∪ S) - u(S)) · w(n, \|S\|) |
| Semivalues.Efficiency | src/pydvl/value/semivalues.py:5-6 | summing the exact Shapley values (marginals weighted by the Shapley coefficient, over all subsets of D \ {i}) over all points i gives u(D) - u(∅) |
| Combinatorics.BinomialAbove | src/pydvl/value/semivalues.py:211 | C(n, k) is 0 for k > n, as `math.comb` returns |
| Numeric.Combinations | src/pydvl/utils/numeric.py:47 | every combination of size r has r elements |
| Numeric.CombinationsCount | src/pydvl/utils/numeric.py:47 | there are C(\|s\|, r) combinations of size r |
| Numeric.CombinationsSound | src/pydvl/utils/numeric.py:47 | every combination is the selection of s by a mask with r entries set, so it keeps the order of s |
| Numeric.CombinationsComplete | src/pydvl/utils/numeric.py:47 | every order-preserving selection of r elements is among the combinations of size r |
| Numeric.CombinationsDistinct | src/pydvl/utils/numeric.py:47 | over distinct elements no combination is listed twice |
| Numeric.Powerset | src/pydvl/utils/numeric.py:30-47 | no subset is larger than s |
| Numeric.PowersetCount | src/pydvl/utils/numeric.py:47 | the power set has 2^\|s\| members |
| Numeric.PowersetGrowing | src/pydvl/utils/numeric.py:30-33 | subsets come in non-decreasing size |
| Numeric.PowersetMembers | src/pydvl/utils/numeric.py:47 | c is in the power set exactly when it is the selection of s by some mask |
| Numeric.PowersetDistinct | src/pydvl/utils/numeric.py:47 | over distinct elements every subset appears exactly once |
| Numeric.PowersetExample | src/pydvl/utils/numeric.py:36-39 | the power set of (1, 2) is [(), (1,), (2,), (1, 2)] |
| Numeric.AboveThreshold | src/pydvl/utils/numeric.py:82 | the mask has one entry per draw, true exactly when the draw exceeds q |
| Numeric.RandomSubset | src/pydvl/utils/numeric.py:70-83 | the subset keeps as many elements as there are draws above q, all taken from s |
| Numeric.RandomSubsetKeeps | src/pydvl/utils/numeric.py:82-83 | over distinct elements, s[j] is kept exactly when its draw exceeds q |
| Numeric.RandomSubsetInPowerset | src/pydvl/utils/numeric.py:81-83 | a random subset is a member of the power set |
| Numeric.RandomSubsetExtremes | src/pydvl/utils/numeric.py:82-83 | with draws in [0, 1), q ≥ 1 keeps nothing and q < 0 keeps everything |
| Numeric.SampleLimit | src/pydvl/utils/numeric.py:116-117 | no sample count means the int32 maximum 2147483647 |
| Numeric.RandomPowerset | src/pydvl/utils/numeric.py:112-120 | ValueError with the source's message exactly when q < 0 or q > 1; otherwise exactly max(n_samples, 0) subsets, the k-th being the random subset for the k-th row of draws, each one a member of the power set |
| Numeric.ChooseWithoutReplacement | src/pydvl/utils/numeric.py:139 | draws exactly `size` entries of the pool, with no repeats when the pool has none |
| Numeric.RandomSubsetOfSize | src/pydvl/utils/numeric.py:136-139 | ValueError with the source's message exactly when size > len(s); otherwise `size` elements of s taken at distinct positions |
| Numeric.RunningFold | src/pydvl/utils/numeric.py:276-308 | applying the update once per value, with count = i at step i, starting from zeros; one value x gives (x, 0) |
| Numeric.RunningMoments | src/pydvl/utils/numeric.py:304-307 | at count 0 the result is (new_value, 0) whatever the previous average and variance |
| Numeric.WelfordStep | src/pydvl/utils/numeric.py:304-307 | one update keeps "n · average = sum" and "n · variance = sum of squares - n · average²", with n one larger |
| Numeric.FoldInvariant | src/pydvl/utils/numeric.py:304-307 | after folding the update over a non-empty sequence, the invariant holds for its length, sum and sum of squares |
| Numeric.RunningMomentsAreMeanAndVariance | src/pydvl/utils/numeric.py:304-307 | folding the update over x0, ..., x(m-1) with count = i at step i gives the arithmetic mean and the population variance (1/m) Σ (xi - mean)² |
| Numeric.SquaredDeviationsExpand | src/pydvl/utils/numeric.py:305-307 | Σ (xi - c)² = Σ xi² - 2c Σ xi + m c² |
| Numeric.SliceStart | src/pydvl/utils/numeric.py:325-326 | where Python's `a[start:]` begins: start itself inside the sequence, n + start for a negative start down to -n, clamped to [0, n] |
| Numeric.LastK | src/pydvl/utils/numeric.py:325-326 | `order[-k:]` is the last k entries when 0 < k ≤ len, the whole order when k ≥ len, and never more than k entries for k > 0 |
| Numeric.TopKValueAccuracy | src/pydvl/utils/numeric.py:311-328 | ZeroDivisionError exactly when k = 0; otherwise the result times k is the size of the intersection of the two top-k index sets, lies in [0, 1] for k > 0 and is at most 0 for k < 0 |
| Numeric.Fraction | src/pydvl/utils/numeric.py:327 | the quotient c / k times k is c; it lies in [0, 1] when 0 ≤ c ≤ k, and is at most 0 for k < 0 |
| Numeric.TopKSameOrder | src/pydvl/utils/numeric.py:311-328 | an estimate that orders the points as the true values do has top-k accuracy 1 for 0 < k ≤ n |
| PyRuntime.SignatureOf | src/pydvl/utils/functional.py:21-22 | a plain function's signature is its own ordered parameter names and `**kwargs` flag; `call_fun_remove_arg` and the dropping closure take `**kwargs` |
| PyRuntime.Without | src/pydvl/utils/types.py:62-65 | `del kwargs[arg]` with a missing key ignored: TypeError exactly when `arg` is unhashable, otherwise exactly the keys other than `arg` remain, with their values |
| PyRuntime.Invoke | src/pydvl/utils/types.py:62-67 | a call raises only TypeError (or RecursionError when `call_fun_remove_arg` frames run out); a plain function succeeds exactly when its positional arguments fit, no keyword names a parameter they filled and every keyword is named or absorbed by `**kwargs`, and then receives exactly the arguments given; `call_fun_remove_arg` removes `arg`, then calls `fun` |
| PyRuntime.InvokePartialNested | src/pydvl/utils/types.py:89 | calling a partial of a partial is calling one partial with the inner keywords overridden by the outer ones and the positional arguments concatenated, as Python's flattening does |
| Functional.Innermost | src/pydvl/utils/functional.py:49-57 | the callable reached through all partial layers is not a partial, and a non-partial is its own innermost callable |
| Functional.BoundByPartials | src/pydvl/utils/functional.py:52-55 | empty for a non-partial; contains every keyword name and positional value of the outermost layer |
| Functional.BoundAtSomeDepth | src/pydvl/utils/functional.py:49-57 | a value is in the collected set exactly when some partial layer, at any depth, binds it |
| Functional.PartialUnroller.constructor | src/pydvl/utils/functional.py:47 | the collected set starts empty |
| Functional.PartialUnroller.RecUnroll | src/pydvl/utils/functional.py:49-57 | TypeError exactly when some layer binds an unhashable positional value; otherwise returns the innermost callable and adds to the set what every layer binds; the set only grows, within those bounds |
| Functional.UnrollPartialFn | src/pydvl/utils/functional.py:39-59 | TypeError exactly when some layer binds an unhashable positional value; otherwise the innermost non-partial callable and exactly the values bound by some layer |
| Functional.AcceptsParam | src/pydvl/utils/functional.py:19-36 | the decision: a yes means no layer at any depth binds the name; on a callable that is not a partial the answer is "names it or takes `**kwargs`" |
| Functional.FnAcceptsParamName | src/pydvl/utils/functional.py:10-36 | TypeError exactly when a layer binds an unhashable positional value; otherwise true exactly when the decision `AcceptsParam` holds |
| Functional.BoundRejects | src/pydvl/utils/functional.py:25-26 | a name bound as a keyword at any depth, or equal to a bound positional value, gives false whatever the innermost signature |
| Functional.FilledPositionally | src/pydvl/utils/functional.py:54 | the parameters that n positional arguments fill: exactly the first n of a plain function's parameters when there are at least n, always among its parameters, none for a callable that takes `*args` first |
| Functional.PositionalValueQuirk | src/pydvl/utils/functional.py:53-54 | for `def f(seed)` and `partial(f, 5)` the decision says yes, the corrected one says no, and calling with `seed=0` raises TypeError |
| Functional.PositionalNameQuirk | src/pydvl/utils/functional.py:53-54 | for `def g(x, seed)` and `partial(g, "seed")` the decision says no, the corrected one says yes, and calling with `seed=0` succeeds |
| Functional.UnhashableQuirk | src/pydvl/utils/functional.py:54 | for `partial(g, [])` the decision raises, while the corrected one accepts `seed` |
| Functional.AcceptedIsReceived | src/pydvl/utils/functional.py:19-36 | when a keyword reaches the innermost plain function (no layer binds it by keyword, no bound or passed positional argument fills it, and the function names it or takes `**kwargs`) and a call succeeds, the same call with the keyword added succeeds and the function receives its value |
| Functional.AcceptedByKeyword | src/pydvl/utils/functional.py:19-36 | the corrected decision is sound: when it says yes and a keyword-only call succeeds, adding the parameter keeps it successful and the function receives the value |
| Functional.RejectedRaises | src/pydvl/utils/functional.py:36 | when no layer binds the name and the answer is false, passing it raises TypeError |
| ParallelCheck.PartialChecker.constructor | src/pydvl/utils/parallel/check.py:15 | the collected set starts empty |
| ParallelCheck.PartialChecker.CheckPartial | src/pydvl/utils/parallel/check.py:18-27 | TypeError exactly when some layer binds an unhashable positional value; otherwise returns the original function and adds to the set what every nested partial binds |
| ParallelCheck.CheckFnAcceptsParameter | src/pydvl/utils/parallel/check.py:6-47 | gives the same answer, or the same TypeError, as `fn_accepts_param_name` on every input; a false answer means exactly that a layer binds the name or the original function neither names it nor takes `**kwargs` |
| Types.CallFunRemoveArg | src/pydvl/utils/types.py:49-67 | raises TypeError when `arg` is unhashable or `fun` is not callable; otherwise calls `fun` with the same positional arguments and the keywords minus `arg`; a plain function receives every other keyword unchanged; agrees with the interpreter's `call_fun_remove_arg` case |
| Types.MaybeAddArgument | src/pydvl/utils/types.py:70-89 | TypeError exactly when `fn_accepts_param_name` raises; otherwise `fun` itself when it accepts the name, else a partial of `call_fun_remove_arg` |
| Types.MaybeAddArgumentAccepts | src/pydvl/utils/types.py:86-89 | the result accepts the new name, unless the name is `fun` or `arg` |
| Types.MaybeAddArgumentIgnores | src/pydvl/utils/types.py:89 | called with keywords other than `fun` and `arg`, the wrapper calls `fun` without the new argument |
| Types.MaybeAddArgumentHijacksArg | src/pydvl/utils/types.py:89 | a caller keyword named `arg` replaces the name to remove: the wrapper raises TypeError where the intended call succeeds |
| Types.MaybeAddArgumentFixed | src/pydvl/utils/types.py:70-89 | the corrected wrapper, built on the corrected decision, always accepts the new name and is `fun` itself when `fun` already does |
| Types.MaybeAddArgumentFixedIgnores | src/pydvl/utils/types.py:74-76 | the corrected wrapper calls `fun` without the new argument, whatever other keywords are passed |
| Types.MaybeAddArgumentFixedKeepsArg | src/pydvl/utils/types.py:89 | on the input that defeats the written wrapper, the corrected one passes the caller's `arg` through |
| Types.DirectInstantiation | src/pydvl/utils/types.py:107-111 | a direct call always raises TypeError naming the module and the qualified class name |
| Types.Create | src/pydvl/utils/types.py:113-114 | TypeError for a class with unimplemented abstract methods; otherwise the error of the class's `__init__` when it rejects the arguments, and the instance built with them when it accepts |
| Types.FactoryOnly | src/pydvl/utils/types.py:107-114 | the direct call raises the same TypeError whatever the class's constructor and abstract methods, while `create` builds the instance whenever the class is concrete and its constructor accepts the arguments |
| Types.EnsureSeedSequence | src/pydvl/utils/types.py:134-139 | a seed sequence is returned unchanged, a generator gives its bit generator's seed sequence, and anything else becomes the entropy of a new seed sequence |
| Types.EnsureSeedSequenceIdempotent | src/pydvl/utils/types.py:134-135 | normalising twice gives the same seed sequence as normalising once |
| Types.SeededCall | src/pydvl/utils/types.py:158 | `fn(*args, **kwargs, seed=seed)`: TypeError when `seed` is already a keyword, otherwise the call with `seed` added |
| Types.CallFnMultipleSeeds | src/pydvl/utils/types.py:142-158 | succeeds exactly when every seeded call succeeds; then one result per seed, in seed order, the i-th being the call with seeds[i]; otherwise the error of the first failing call |
| Types.EachCallGetsItsSeed | src/pydvl/utils/types.py:158 | a plain function that names `seed` receives, on call i, the i-th seed and the same other keywords |

## Left out

- `num_samples_permutation_hoeffding`: needs a transcendental `log` and a float `ceil`.
- The linear-regression derivative helpers and `random_matrix_with_condition_number`: numpy linear algebra on floats.
- `beta_coefficient`: depends on scipy's Beta function.
- `compute_generic_semivalues`, the `compute_*_semivalues` wrappers, `compute_semivalues` and `SemiValueMode`: an executor and futures loop (concurrency) over samplers and result objects that are not part of this model.
- `src/pydvl/value/oob/oob.py`, the parallel back-end and futures modules, the build hook and the re-export modules: plumbing over sklearn, executors, git and mkdocs.
- Floating point: every float is an exact real, so rounding is not modelled.
- Numpy's random generator: uniform draws, `choice` picks and sample rows are inputs.
- `np.argsort` and its tie-breaking: top-k accuracy takes the two orders as inputs.
- `inspect.signature`: a callable carries its ordered parameter names and a `**kwargs` flag.
- Semivalues.ShapleyCoefficient: requires 0 < n and k < n; outside that range the source raises ZeroDivisionError or ValueError, and the model does not reproduce those errors.
- Semivalues.Marginal: training and scoring are abstracted into the utility function `eval`, and the utility's cache is not modelled.
- PyRuntime.Invoke: every named parameter of a plain function is positional-or-keyword. Positional-only and keyword-only parameters, a `*args` parameter, defaults and missing arguments are not modelled.
- Functional.AcceptedIsReceived: holds for positional-or-keyword parameters only. For a positional-only parameter, or a `*args` parameter named like the keyword, the source answers yes and a keyword call raises; the model cannot express those kinds.
- Functional.PartialUnroller.RecUnroll: the only unhashable value modelled is a list. After the TypeError, Python has added the hashable values before the list; the model states only that the set lies between its old contents and everything the layers bind, since the exception discards it.
- ParallelCheck.PartialChecker.CheckPartial: the same two limits as `RecUnroll` apply.
- PyRuntime.Invoke: Python flattens nested partials when they are built; the model keeps the layers. `InvokePartialNested` shows that both give the same call.
- Numeric.RandomPowerset: the source is a lazy generator, so it raises its ValueError only when the first sample is requested. The model returns the whole output at once.
- Numeric.RandomSubsetOfSize: `size` is a natural number. The negative sizes that numpy rejects are not modelled. The order in which `rng.choice` lists the chosen elements is stated only as "distinct positions".
- Numeric.RunningMoments: `count` is a natural number. The element-wise numpy-array form is not modelled.
- Numeric.TopKValueAccuracy: the two orders are not required to be permutations. `np.intersect1d` is modelled as a set intersection.
- Types.CallFnMultipleSeeds: `deepcopy` of the arguments is not modelled, since modelled values are immutable. A plain function's result is the record of what it received.
- Types.Create: a class's `__new__`, and an `__init__` with effects beyond accepting or rejecting its arguments, are not modelled; the constructor is a function from the arguments to an optional error.
- Types.EnsureSeedSequence: numpy's validation of the entropy, such as rejecting negative integers, is not modelled.
- Semivalues.BanzhafCoefficient: for n = 0 the model returns 2.0, as Python's `1 / 2 ** -1` does.

## Findings

| source | as written | input that shows it | evidently intended | confidence | as-written member | corrected member |
|---|---|---|---|---|---|---|
| src/pydvl/utils/functional.py:54 | `args_set_by_partial.update(g.args)` puts the positional VALUES a partial binds into the set of bound names (check.py:24 does the same) | `def f(seed)`, `p = partial(f, 5)`: the answer for `seed` is True, and `p(seed=0)` raises TypeError (multiple values); with `def g(x, seed)`, `partial(g, "seed")` gets False; `partial(g, [])` makes the check raise TypeError (unhashable) | a parameter filled positionally by a partial counts as set, and other positional values are not compared with names | not executed | Functional.PositionalValueQuirk, Functional.PositionalNameQuirk, Functional.UnhashableQuirk | Functional.AcceptedByKeyword, Types.MaybeAddArgumentFixed |
| src/pydvl/utils/types.py:89 | the wrapper is `partial(call_fun_remove_arg, fun=fun, arg=new_arg)`, so a caller keyword named `arg` (or `fun`) overrides the name to remove | f(arg) without `**kwargs`, wrapped for `seed`, called with arg=3, seed=0: `seed` is not removed and f raises TypeError | a wrapper that drops only `new_arg` and passes `arg=3` through to f | not executed | Types.MaybeAddArgumentHijacksArg | Types.MaybeAddArgumentFixed, Types.MaybeAddArgumentFixedKeepsArg |
