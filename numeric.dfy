/**
 * pydvl.utils.numeric: power-set enumeration, the sampling helpers with
 * their random draws passed in, Welford's running moments and top-k
 * accuracy. Floats are exact reals.
 */
module Numeric {
  import opened Combinatorics
  import opened PyRuntime
  import SubsetSums

  /** No value occurs twice. */
  predicate Distinct<T(==)>(xs: seq<T>)
  {
    forall i, j :: 0 <= i < j < |xs| ==> xs[i] != xs[j]
  }

  // ---------------------------------------------------------------------------
  // powerset
  // ---------------------------------------------------------------------------

  /** The elements of `s` at the positions where `mask` is true, in the order of `s`. */
  function Select<T>(s: seq<T>, mask: seq<bool>): (r: seq<T>)
    requires |mask| == |s|
    ensures |r| <= |s|
    ensures forall x :: x in r ==> x in s
  {
    if |s| == 0 then []
    else (if mask[0] then [s[0]] else []) + Select(s[1..], mask[1..])
  }

  /** The number of true entries of a mask. */
  function Count(mask: seq<bool>): (r: nat)
    ensures r <= |mask|
  {
    if |mask| == 0 then 0 else (if mask[0] then 1 else 0) + Count(mask[1..])
  }

  /** A selection keeps exactly the chosen number of elements. */
  lemma {:induction false} SelectLength<T>(s: seq<T>, mask: seq<bool>)
    requires |mask| == |s|
    ensures |Select(s, mask)| == Count(mask)
  {
    if |s| > 0 {
      SelectLength(s[1..], mask[1..]);
    }
  }

  /** On distinct elements, `s[j]` is selected exactly when `mask[j]` is true. */
  lemma {:induction false} SelectMember<T>(s: seq<T>, mask: seq<bool>, j: nat)
    requires |mask| == |s| && Distinct(s) && j < |s|
    ensures s[j] in Select(s, mask) <==> mask[j]
  {
    if j == 0 {
      assert s[0] !in s[1..] by {
        forall t | 0 <= t < |s[1..]| ensures s[1..][t] != s[0] {
          assert s[1..][t] == s[t + 1];
        }
      }
    } else {
      assert s[1..][j - 1] == s[j];
      assert Distinct(s[1..]) by {
        forall a, b | 0 <= a < b < |s[1..]| ensures s[1..][a] != s[1..][b] {
          assert s[1..][a] == s[a + 1] && s[1..][b] == s[b + 1];
        }
      }
      SelectMember(s[1..], mask[1..], j - 1);
      assert s[j] != s[0];
    }
  }

  /** `[x] + c` for every `c` in `xss`, in order. */
  function Prepend<T>(x: T, xss: seq<seq<T>>): (r: seq<seq<T>>)
    ensures |r| == |xss|
    ensures forall i :: 0 <= i < |r| ==> r[i] == [x] + xss[i]
  {
    seq(|xss|, i requires 0 <= i < |xss| => [x] + xss[i])
  }

  /**
   * `itertools.combinations(s, r)`: the `r`-element selections of `s`,
   * positions in lexicographic order.
   */
  function Combinations<T>(s: seq<T>, r: nat): (cs: seq<seq<T>>)
    ensures forall i :: 0 <= i < |cs| ==> |cs[i]| == r
    decreases |s|
  {
    if r == 0 then [[]]
    else if |s| == 0 then []
    else Prepend(s[0], Combinations(s[1..], r - 1)) + Combinations(s[1..], r)
  }

  /** The combinations of sizes 0, 1, ..., m - 1, one size after the other. */
  function PowersetUpTo<T>(s: seq<T>, m: nat): (ps: seq<seq<T>>)
    ensures forall i :: 0 <= i < |ps| ==> |ps[i]| < m
  {
    if m == 0 then [] else PowersetUpTo(s, m - 1) + Combinations(s, m - 1)
  }

  /** `powerset(s)`: `chain.from_iterable(combinations(s, r) for r in range(len(s) + 1))`. */
  function Powerset<T>(s: seq<T>): (ps: seq<seq<T>>)
    ensures forall i :: 0 <= i < |ps| ==> |ps[i]| <= |s|
  {
    PowersetUpTo(s, |s| + 1)
  }

  /** There are C(|s|, r) combinations of size r. */
  lemma {:induction false} CombinationsCount<T>(s: seq<T>, r: nat)
    ensures |Combinations(s, r)| == Binomial(|s|, r)
    decreases |s|
  {
    if r > 0 && |s| > 0 {
      CombinationsCount(s[1..], r - 1);
      CombinationsCount(s[1..], r);
    }
  }

  lemma {:induction false} PowersetUpToCount<T>(s: seq<T>, m: nat)
    ensures |PowersetUpTo(s, m)| == RowSum(|s|, m)
  {
    if m > 0 {
      PowersetUpToCount(s, m - 1);
      CombinationsCount(s, m - 1);
    }
  }

  /** The power set of `s` has 2^|s| members. */
  lemma PowersetCount<T>(s: seq<T>)
    ensures |Powerset(s)| == Pow2(|s|)
  {
    PowersetUpToCount(s, |s| + 1);
    RowSumIsPow2(|s|);
  }

  /** Subsets come by non-decreasing size. */
  lemma {:induction false} PowersetGrowing<T>(s: seq<T>, m: nat)
    ensures forall i, j :: 0 <= i <= j < |PowersetUpTo(s, m)| ==> |PowersetUpTo(s, m)[i]| <= |PowersetUpTo(s, m)[j]|
  {
    if m > 0 {
      PowersetGrowing(s, m - 1);
      var front := PowersetUpTo(s, m - 1);
      var ps := PowersetUpTo(s, m);
      forall i, j | 0 <= i <= j < |ps| ensures |ps[i]| <= |ps[j]| {
        if j >= |front| {
          assert |ps[j]| == m - 1;
          if i < |front| {
            assert ps[i] == front[i];
          }
        } else {
          assert ps[i] == front[i] && ps[j] == front[j];
        }
      }
    }
  }

  /** Selecting from `s` by `[b] + mask` decides about `s[0]` and selects from the rest by `mask`. */
  lemma SelectCons<T>(s: seq<T>, b: bool, mask: seq<bool>)
    requires |s| > 0 && |mask| == |s| - 1
    ensures Select(s, [b] + mask) == (if b then [s[0]] else []) + Select(s[1..], mask)
    ensures Count([b] + mask) == (if b then 1 else 0) + Count(mask)
  {
    assert ([b] + mask)[1..] == mask;
  }

  /** Every combination keeps the order of `s`: it is the selection by some mask with r entries set. */
  lemma {:induction false} CombinationsSound<T>(s: seq<T>, r: nat, c: seq<T>)
    requires c in Combinations(s, r)
    ensures exists mask :: |mask| == |s| && Count(mask) == r && c == Select(s, mask)
    decreases |s|
  {
    if r == 0 {
      var mask := seq(|s|, _ => false);
      NoneSelected(s, mask);
      assert c == [];
      SelectionWitness(s, mask, r, c);
    } else {
      var inner := Combinations(s[1..], r - 1);
      var front := Prepend(s[0], inner);
      if c in front {
        var i :| 0 <= i < |front| && front[i] == c;
        CombinationsSound(s[1..], r - 1, inner[i]);
        var mask :| |mask| == |s[1..]| && Count(mask) == r - 1 && inner[i] == Select(s[1..], mask);
        SelectCons(s, true, mask);
        SelectionWitness(s, [true] + mask, r, c);
      } else {
        assert c in Combinations(s[1..], r);
        CombinationsSound(s[1..], r, c);
        var mask :| |mask| == |s[1..]| && Count(mask) == r && c == Select(s[1..], mask);
        SelectCons(s, false, mask);
        SelectionWitness(s, [false] + mask, r, c);
      }
    }
  }

  lemma SelectionWitness<T>(s: seq<T>, mask: seq<bool>, r: nat, c: seq<T>)
    requires |mask| == |s| && Count(mask) == r && c == Select(s, mask)
    ensures exists mask :: |mask| == |s| && Count(mask) == r && c == Select(s, mask)
  {
  }

  lemma {:induction false} NoneSelected<T>(s: seq<T>, mask: seq<bool>)
    requires |mask| == |s| && forall j :: 0 <= j < |mask| ==> !mask[j]
    ensures Count(mask) == 0 && Select(s, mask) == []
  {
    if |s| > 0 {
      NoneSelected(s[1..], mask[1..]);
    }
  }

  /** Every selection of r elements of `s` is among the combinations of size r. */
  lemma {:induction false} CombinationsComplete<T>(s: seq<T>, mask: seq<bool>)
    requires |mask| == |s|
    ensures Select(s, mask) in Combinations(s, Count(mask))
  {
    if |s| == 0 {
      NoneSelected(s, mask);
    } else {
      CombinationsComplete(s[1..], mask[1..]);
      if mask[0] {
        CompleteWithHead(s, mask);
      } else if Count(mask) == 0 {
        SelectLength(s, mask);
      } else {
        CompleteWithoutHead(s, mask);
      }
    }
  }

  /** The step of `CombinationsComplete` when `s[0]` is selected. */
  lemma CompleteWithHead<T>(s: seq<T>, mask: seq<bool>)
    requires |s| > 0 && |mask| == |s| && mask[0]
    requires Select(s[1..], mask[1..]) in Combinations(s[1..], Count(mask[1..]))
    ensures Select(s, mask) in Combinations(s, Count(mask))
  {
    MaskHead(s, mask);
    HeadCombination(s, Count(mask[1..]), Select(s[1..], mask[1..]), Count(mask), Select(s, mask));
  }

  /** The step of `CombinationsComplete` when `s[0]` is left out but something is selected. */
  lemma CompleteWithoutHead<T>(s: seq<T>, mask: seq<bool>)
    requires |s| > 0 && |mask| == |s| && !mask[0] && Count(mask) > 0
    requires Select(s[1..], mask[1..]) in Combinations(s[1..], Count(mask[1..]))
    ensures Select(s, mask) in Combinations(s, Count(mask))
  {
    MaskHead(s, mask);
    TailCombination(s, Count(mask[1..]), Select(s[1..], mask[1..]), Count(mask), Select(s, mask));
  }

  /** Selecting by a mask: decide about `s[0]`, then select from the rest. */
  lemma MaskHead<T>(s: seq<T>, mask: seq<bool>)
    requires |s| > 0 && |mask| == |s|
    ensures mask[0] ==> Select(s, mask) == [s[0]] + Select(s[1..], mask[1..]) && Count(mask) == Count(mask[1..]) + 1
    ensures !mask[0] ==> Select(s, mask) == Select(s[1..], mask[1..]) && Count(mask) == Count(mask[1..])
  {
    assert mask == [mask[0]] + mask[1..];
    SelectCons(s, mask[0], mask[1..]);
    assert [] + Select(s[1..], mask[1..]) == Select(s[1..], mask[1..]);
  }

  /** A combination of the rest, with `s[0]` in front, is a combination of `s`. */
  lemma HeadCombination<T>(s: seq<T>, k: nat, c: seq<T>, n: nat, d: seq<T>)
    requires |s| > 0 && c in Combinations(s[1..], k)
    requires n == k + 1 && d == [s[0]] + c
    ensures d in Combinations(s, n)
  {
    PrependMember(s[0], Combinations(s[1..], k), c);
    CombinationsStep(s, k + 1);
    InFront(Prepend(s[0], Combinations(s[1..], k)), Combinations(s[1..], k + 1), [s[0]] + c);
  }

  /** A non-empty combination of the rest is a combination of `s`. */
  lemma TailCombination<T>(s: seq<T>, k: nat, c: seq<T>, n: nat, d: seq<T>)
    requires |s| > 0 && k > 0 && c in Combinations(s[1..], k)
    requires n == k && d == c
    ensures d in Combinations(s, n)
  {
    CombinationsStep(s, k);
    InBack(Prepend(s[0], Combinations(s[1..], k - 1)), Combinations(s[1..], k), c);
  }

  lemma CombinationsStep<T>(s: seq<T>, r: nat)
    requires r > 0 && |s| > 0
    ensures Combinations(s, r) == Prepend(s[0], Combinations(s[1..], r - 1)) + Combinations(s[1..], r)
  {
  }

  lemma PrependMember<T>(x: T, xss: seq<seq<T>>, c: seq<T>)
    requires c in xss
    ensures [x] + c in Prepend(x, xss)
  {
    var i :| 0 <= i < |xss| && xss[i] == c;
    assert Prepend(x, xss)[i] == [x] + c;
  }

  lemma InFront<T>(front: seq<T>, back: seq<T>, c: T)
    requires c in front
    ensures c in front + back
  {
    var i :| 0 <= i < |front| && front[i] == c;
    assert (front + back)[i] == c;
  }

  lemma InBack<T>(front: seq<T>, back: seq<T>, c: T)
    requires c in back
    ensures c in front + back
  {
    var i :| 0 <= i < |back| && back[i] == c;
    assert (front + back)[|front| + i] == c;
  }

  lemma {:induction false} PowersetUpToMembers<T>(s: seq<T>, m: nat, c: seq<T>)
    ensures c in PowersetUpTo(s, m) <==> exists r :: 0 <= r < m && c in Combinations(s, r)
  {
    if m > 0 {
      PowersetUpToMembers(s, m - 1, c);
      var front, back := PowersetUpTo(s, m - 1), Combinations(s, m - 1);
      assert PowersetUpTo(s, m) == front + back;
      if c in front + back {
        if c in back {
          SizeWitness(s, m, m - 1, c);
        } else {
          var r :| 0 <= r < m - 1 && c in Combinations(s, r);
          SizeWitness(s, m, r, c);
        }
      }
      if exists r :: 0 <= r < m && c in Combinations(s, r) {
        var r :| 0 <= r < m && c in Combinations(s, r);
        if r < m - 1 {
          SizeWitness(s, m - 1, r, c);
          assert c in front;
        }
        assert c in front + back;
      }
    }
  }

  lemma SizeWitness<T>(s: seq<T>, m: nat, r: nat, c: seq<T>)
    requires r < m && c in Combinations(s, r)
    ensures exists r :: 0 <= r < m && c in Combinations(s, r)
  {
  }

  /** The power set holds exactly the order-preserving selections of `s`. */
  lemma PowersetMembers<T>(s: seq<T>, c: seq<T>)
    ensures c in Powerset(s) <==> exists mask :: |mask| == |s| && c == Select(s, mask)
  {
    PowersetUpToMembers(s, |s| + 1, c);
    if c in Powerset(s) {
      var r :| 0 <= r < |s| + 1 && c in Combinations(s, r);
      CombinationsSound(s, r, c);
    }
    if exists mask :: |mask| == |s| && c == Select(s, mask) {
      var mask :| |mask| == |s| && c == Select(s, mask);
      CombinationsComplete(s, mask);
    }
  }

  /** Over distinct elements no combination is listed twice. */
  lemma {:induction false} CombinationsDistinct<T>(s: seq<T>, r: nat)
    requires Distinct(s)
    ensures Distinct(Combinations(s, r))
    decreases |s|
  {
    if r > 0 && |s| > 0 {
      var tail := s[1..];
      assert Distinct(tail) by {
        forall a, b | 0 <= a < b < |tail| ensures tail[a] != tail[b] {
          assert tail[a] == s[a + 1] && tail[b] == s[b + 1];
        }
      }
      assert s[0] !in tail by {
        forall t | 0 <= t < |tail| ensures tail[t] != s[0] {
          assert tail[t] == s[t + 1];
        }
      }
      CombinationsDistinct(tail, r - 1);
      CombinationsDistinct(tail, r);
      var inner := Combinations(tail, r - 1);
      var front := Prepend(s[0], inner);
      var back := Combinations(tail, r);
      var cs := Combinations(s, r);
      forall i, j | 0 <= i < j < |cs| ensures cs[i] != cs[j] {
        if j < |front| {
          assert cs[i] == [s[0]] + inner[i] && cs[j] == [s[0]] + inner[j];
          assert inner[i] == cs[i][1..] && inner[j] == cs[j][1..];
        } else if i >= |front| {
          assert cs[i] == back[i - |front|] && cs[j] == back[j - |front|];
        } else {
          assert cs[i] == [s[0]] + inner[i];
          assert cs[j] == back[j - |front|];
          CombinationsSound(tail, r, cs[j]);
          assert s[0] in cs[i];
        }
      }
    }
  }

  lemma {:induction false} PowersetUpToDistinct<T>(s: seq<T>, m: nat)
    requires Distinct(s)
    ensures Distinct(PowersetUpTo(s, m))
  {
    if m > 0 {
      PowersetUpToDistinct(s, m - 1);
      CombinationsDistinct(s, m - 1);
      DistinctBySize(PowersetUpTo(s, m - 1), Combinations(s, m - 1), m - 1);
    }
  }

  /** Lists of distinct sequences, all those of the first shorter than all those of the second, join without repeats. */
  lemma DistinctBySize<T>(front: seq<seq<T>>, back: seq<seq<T>>, size: nat)
    requires Distinct(front) && Distinct(back)
    requires forall i :: 0 <= i < |front| ==> |front[i]| < size
    requires forall i :: 0 <= i < |back| ==> |back[i]| == size
    ensures Distinct(front + back)
  {
    var both := front + back;
    forall i, j | 0 <= i < j < |both| ensures both[i] != both[j] {
      if j < |front| {
        assert both[i] == front[i] && both[j] == front[j];
      } else if i >= |front| {
        assert both[i] == back[i - |front|] && both[j] == back[j - |front|];
      } else {
        assert |both[i]| < size && |both[j]| == size;
      }
    }
  }

  /** Over distinct elements every subset appears exactly once. */
  lemma PowersetDistinct<T>(s: seq<T>)
    requires Distinct(s)
    ensures Distinct(Powerset(s))
  {
    PowersetUpToDistinct(s, |s| + 1);
  }

  /** The documented example: `list(powerset(np.array((1,2))))`. */
  lemma PowersetExample()
    ensures Powerset([1, 2]) == [[], [1], [2], [1, 2]]
  {
    var empty: seq<int> := [];
    CombinationsOfTwo();
    assert PowersetUpTo([1, 2], 1) == [empty];
    assert PowersetUpTo([1, 2], 2) == [empty] + [[1], [2]];
    assert PowersetUpTo([1, 2], 3) == [empty] + [[1], [2]] + [[1, 2]];
  }

  lemma CombinationsOfTwo()
    ensures Combinations([1, 2], 0) == [[]]
    ensures Combinations([1, 2], 1) == [[1], [2]]
    ensures Combinations([1, 2], 2) == [[1, 2]]
  {
    CombinationsOfOne();
    var empty: seq<int> := [];
    assert [1, 2][1..] == [2] && [1, 2][0] == 1;
    CombinationsStep([1, 2], 1);
    PrependOne(1, [empty]);
    assert [1] + empty == [1];
    assert Combinations([1, 2], 1) == [[1]] + [[2]];
    CombinationsStep([1, 2], 2);
    PrependOne(1, [[2]]);
    assert [1] + [2] == [1, 2];
    assert Combinations([1, 2], 2) == [[1, 2]] + [];
  }

  lemma CombinationsOfOne()
    ensures Combinations([2], 0) == [[]]
    ensures Combinations([2], 1) == [[2]]
    ensures Combinations([2], 2) == []
  {
    var empty: seq<int> := [];
    assert [2][1..] == empty && [2][0] == 2;
    CombinationsStep([2], 1);
    PrependOne(2, [empty]);
    assert [2] + empty == [2];
    assert Combinations([2], 1) == [[2]] + [];
    CombinationsStep([2], 2);
    assert Combinations(empty, 1) == [];
  }

  lemma PrependOne(x: int, xss: seq<seq<int>>)
    requires |xss| == 1
    ensures Prepend(x, xss) == [[x] + xss[0]]
  {
  }

  // ---------------------------------------------------------------------------
  // random_subset, random_powerset, random_subset_of_size
  // ---------------------------------------------------------------------------

  /** `draws > q`, element by element. */
  function AboveThreshold(draws: seq<real>, q: real): (mask: seq<bool>)
    ensures |mask| == |draws|
    ensures forall j :: 0 <= j < |draws| ==> (mask[j] <==> draws[j] > q)
  {
    seq(|draws|, j requires 0 <= j < |draws| => draws[j] > q)
  }

  /**
   * `random_subset(s, q)`, given the `len(s)` uniform draws in [0, 1) that
   * the generator would produce: `s[draws > q]`.
   */
  function RandomSubset<T>(s: seq<T>, draws: seq<real>, q: real): (r: seq<T>)
    requires |draws| == |s|
    ensures |r| == Count(AboveThreshold(draws, q))
    ensures forall x :: x in r ==> x in s
  {
    SelectLength(s, AboveThreshold(draws, q));
    Select(s, AboveThreshold(draws, q))
  }

  /** Over distinct elements, `s[j]` is kept exactly when its draw exceeds `q`. */
  lemma RandomSubsetKeeps<T>(s: seq<T>, draws: seq<real>, q: real, j: nat)
    requires |draws| == |s| && Distinct(s) && j < |s|
    ensures s[j] in RandomSubset(s, draws, q) <==> draws[j] > q
  {
    SelectMember(s, AboveThreshold(draws, q), j);
  }

  /** A random subset is one of the members of the power set. */
  lemma RandomSubsetInPowerset<T>(s: seq<T>, draws: seq<real>, q: real)
    requires |draws| == |s|
    ensures RandomSubset(s, draws, q) in Powerset(s)
  {
    PowersetMembers(s, RandomSubset(s, draws, q));
  }

  lemma {:induction false} AllSelected<T>(s: seq<T>, mask: seq<bool>)
    requires |mask| == |s| && forall j :: 0 <= j < |mask| ==> mask[j]
    ensures Select(s, mask) == s
  {
    if |s| > 0 {
      AllSelected(s[1..], mask[1..]);
    }
  }

  /** Draws lie in [0, 1): with q >= 1 nothing is kept, with q < 0 everything is. */
  lemma RandomSubsetExtremes<T>(s: seq<T>, draws: seq<real>, q: real)
    requires |draws| == |s|
    requires forall j :: 0 <= j < |draws| ==> 0.0 <= draws[j] < 1.0
    ensures q >= 1.0 ==> RandomSubset(s, draws, q) == []
    ensures q < 0.0 ==> RandomSubset(s, draws, q) == s
  {
    if q >= 1.0 {
      NoneSelected(s, AboveThreshold(draws, q));
    }
    if q < 0.0 {
      AllSelected(s, AboveThreshold(draws, q));
    }
  }

  /** The draws for the sample number `k`: `draw(k, 0), ..., draw(k, n - 1)`. */
  function DrawRow(draw: (nat, nat) -> real, k: nat, n: nat): (row: seq<real>)
    ensures |row| == n && forall j :: 0 <= j < n ==> row[j] == draw(k, j)
  {
    seq(n, j requires 0 <= j < n => draw(k, j))
  }

  /** `np.iinfo(np.int32).max`, the number of samples when none is given. */
  const Int32Max: int := 0x7fff_ffff

  /** The bound `total` is compared against. */
  function SampleLimit(nSamples: Option<int>): (limit: int)
    ensures nSamples.None? ==> limit == Int32Max
    ensures nSamples.Some? ==> limit == nSamples.value
  {
    if nSamples.None? then Int32Max else nSamples.value
  }

  /**
   * `random_powerset(s, n_samples, q)`: checks `q`, then yields one random
   * subset per step while `total <= n_samples`. The generator's output is
   * returned as a whole; `draw(k, j)` is the uniform draw for element `j`
   * of sample `k`.
   */
  method RandomPowerset<T>(s: seq<T>, nSamples: Option<int>, q: real, draw: (nat, nat) -> real)
    returns (r: Result<seq<seq<T>>>)
    ensures r.Err? <==> q < 0.0 || q > 1.0
    ensures r.Err? ==> r.error == ValueError("Element sampling probability must be in [0,1]")
    ensures r.Ok? ==> |r.value| == (if SampleLimit(nSamples) < 0 then 0 else SampleLimit(nSamples))
    ensures r.Ok? ==> forall k :: 0 <= k < |r.value| ==> r.value[k] == RandomSubset(s, DrawRow(draw, k, |s|), q)
    ensures r.Ok? ==> forall k :: 0 <= k < |r.value| ==> r.value[k] in Powerset(s)
  {
    if q < 0.0 || q > 1.0 {
      return Err(ValueError("Element sampling probability must be in [0,1]"));
    }
    var limit := SampleLimit(nSamples);
    var samples: seq<seq<T>> := [];
    var total := 1;
    while total <= limit
      invariant 1 <= total <= (if limit < 0 then 0 else limit) + 1
      invariant |samples| == total - 1
      invariant forall k :: 0 <= k < |samples| ==> samples[k] == RandomSubset(s, DrawRow(draw, k, |s|), q)
      invariant forall k :: 0 <= k < |samples| ==> samples[k] in Powerset(s)
      decreases limit - total
    {
      RandomSubsetInPowerset(s, DrawRow(draw, total - 1, |s|), q);
      samples := samples + [RandomSubset(s, DrawRow(draw, total - 1, |s|), q)];
      total := total + 1;
    }
    return Ok(samples);
  }

  /** `pool` with the entry at position `i` removed. */
  function RemoveAt<T>(pool: seq<T>, i: nat): (r: seq<T>)
    requires i < |pool|
    ensures |r| == |pool| - 1
    ensures forall x :: x in r ==> x in pool
    ensures Distinct(pool) ==> Distinct(r) && pool[i] !in r
  {
    var r := pool[..i] + pool[i + 1..];
    assert forall t :: 0 <= t < |r| ==> r[t] == if t < i then pool[t] else pool[t + 1];
    r
  }

  /**
   * Drawing `size` entries of `pool` without replacement: `pick(t)` is the
   * random choice made at step `t` among the entries still in the pool.
   */
  function ChooseWithoutReplacement(pool: seq<nat>, size: nat, pick: nat -> nat, t: nat): (r: seq<nat>)
    requires size <= |pool|
    ensures |r| == size
    ensures forall x :: x in r ==> x in pool
    ensures Distinct(pool) ==> Distinct(r)
    decreases size
  {
    if size == 0 then []
    else
      var i := pick(t) % |pool|;
      var rest := ChooseWithoutReplacement(RemoveAt(pool, i), size - 1, pick, t + 1);
      assert forall u :: 1 <= u < |[pool[i]] + rest| ==> ([pool[i]] + rest)[u] == rest[u - 1];
      [pool[i]] + rest
  }

  /** The positions 0, ..., n - 1. */
  function Positions(n: nat): (r: seq<nat>)
    ensures |r| == n && forall t :: 0 <= t < n ==> r[t] == t
  {
    seq(n, t requires 0 <= t < n => t)
  }

  /**
   * `random_subset_of_size(s, size)`: a ValueError when `size > len(s)`,
   * otherwise `rng.choice(s, size, replace=False)`, the elements at `size`
   * distinct positions of `s`.
   */
  function RandomSubsetOfSize<T>(s: seq<T>, size: nat, pick: nat -> nat): (r: Result<seq<T>>)
    ensures r.Err? <==> size > |s|
    ensures r.Err? ==> r.error == ValueError("Cannot sample subset larger than set")
    ensures r.Ok? ==> |r.value| == size
    ensures r.Ok? ==> exists positions: seq<nat> ::
              |positions| == size && Distinct(positions)
              && (forall t :: 0 <= t < size ==> positions[t] < |s| && r.value[t] == s[positions[t]])
  {
    if size > |s| then Err(ValueError("Cannot sample subset larger than set"))
    else
      var positions := ChooseWithoutReplacement(Positions(|s|), size, pick, 0);
      assert forall t :: 0 <= t < size ==> positions[t] in Positions(|s|);
      Ok(seq(size, t requires 0 <= t < size => s[positions[t]]))
  }

  // ---------------------------------------------------------------------------
  // running_moments
  // ---------------------------------------------------------------------------

  /** The sum of the values. */
  function Sum(xs: seq<real>): real
  {
    if |xs| == 0 then 0.0 else Sum(xs[..|xs| - 1]) + xs[|xs| - 1]
  }

  /** The sum of the squares of the values. */
  function SumSquares(xs: seq<real>): real
  {
    if |xs| == 0 then 0.0 else SumSquares(xs[..|xs| - 1]) + xs[|xs| - 1] * xs[|xs| - 1]
  }

  /** The arithmetic mean. */
  function Mean(xs: seq<real>): real
    requires |xs| > 0
  {
    Sum(xs) / (|xs| as real)
  }

  /** The sum of the squared distances of the values from `c`. */
  function SquaredDeviations(xs: seq<real>, c: real): (r: real)
  {
    if |xs| == 0 then 0.0
    else
      SquaredDeviations(xs[..|xs| - 1], c) + (xs[|xs| - 1] - c) * (xs[|xs| - 1] - c)
  }

  /** The population variance: the mean squared deviation from the mean. */
  function PopulationVariance(xs: seq<real>): real
    requires |xs| > 0
  {
    SquaredDeviations(xs, Mean(xs)) / (|xs| as real)
  }

  /**
   * `running_moments(previous_avg, previous_variance, count, new_value)`:
   * the average and variance after one more value, `count` being the number
   * of values seen before it.
   */
  function RunningMoments(previousAvg: real, previousVariance: real, count: nat, newValue: real): (r: (real, real))
    ensures count == 0 ==> r == (newValue, 0.0)
  {
    var n := count as real;
    var newAverage := (newValue + n * previousAvg) / (n + 1.0);
    var newVariance := previousVariance + ((newValue - previousAvg) * (newValue - newAverage) - previousVariance) / (n + 1.0);
    assert count == 0 ==> newAverage == newValue && (newValue - previousAvg) * (newValue - newAverage) == 0.0;
    (newAverage, newVariance)
  }

  /** `running_moments` folded over `xs`, starting from zeros, with count = i at step i. */
  function RunningFold(xs: seq<real>): (r: (real, real))
    ensures |xs| == 1 ==> r == (xs[0], 0.0)
  {
    if |xs| == 0 then (0.0, 0.0)
    else
      var previous := RunningFold(xs[..|xs| - 1]);
      RunningMoments(previous.0, previous.1, |xs| - 1, xs[|xs| - 1])
  }

  /** n * average = sum and n * variance = sum of squares - n * average^2. */
  predicate Invariant(n: real, a: real, v: real, total: real, squares: real)
  {
    n * a == total && n * v == squares - n * a * a
  }

  /** `(a2, v2)` is the update of `(a, v)` by `x` at count `count`. */
  predicate IsUpdate(a: real, v: real, count: real, x: real, a2: real, v2: real)
    requires count >= 0.0
  {
    a2 == (x + count * a) / (count + 1.0) && v2 == v + ((x - a) * (x - a2) - v) / (count + 1.0)
  }

  /** The lengths before and after a step. */
  predicate Lengths(n: real, count: real, m: real)
  {
    n >= 0.0 && count == n && m == n + 1.0
  }

  /** The sums before and after a step. */
  predicate SumsGrow(total: real, squares: real, x: real, total2: real, squares2: real)
  {
    total2 == total + x && squares2 == squares + x * x
  }

  /** One step of the update keeps the invariant; m = n + 1 is the length after the step. */
  lemma WelfordStep(n: real, count: real, m: real, a: real, v: real, x: real, total: real, squares: real,
                    total2: real, squares2: real, a2: real, v2: real)
    requires Lengths(n, count, m)
    requires Invariant(n, a, v, total, squares)
    requires SumsGrow(total, squares, x, total2, squares2)
    requires IsUpdate(a, v, count, x, a2, v2)
    ensures Invariant(m, a2, v2, total2, squares2)
  {
    WelfordAlgebra(n, m, a, v, x, total, squares, total2, squares2, a2, v2);
  }

  lemma WelfordAlgebra(n: real, m: real, a: real, v: real, x: real, total: real, squares: real,
                       total2: real, squares2: real, a2: real, v2: real)
    requires n >= 0.0 && m == n + 1.0
    requires n * a == total && n * v == squares - n * a * a
    requires total2 == total + x && squares2 == squares + x * x
    requires a2 == (x + n * a) / m && v2 == v + ((x - a) * (x - a2) - v) / m
    ensures m * a2 == total2 && m * v2 == squares2 - m * a2 * a2
  {
    assert m * a2 == x + n * a;
    assert m * v2 == m * v + (x - a) * (x - a2) - v;
    assert m * a2 * a2 == a2 * (x + n * a);
    assert (x - a) * (x - a2) == x * x - x * a2 - a * x + a * a2;
    assert a * (n * a + x - m * a2) == 0.0;
  }

  /** The sums and the length, one value further. */
  lemma SumsLast(xs: seq<real>)
    requires |xs| > 0
    ensures var prefix := xs[..|xs| - 1];
            && SumsGrow(Sum(prefix), SumSquares(prefix), xs[|xs| - 1], Sum(xs), SumSquares(xs))
            && Lengths(|prefix| as real, (|xs| - 1) as real, |xs| as real)
  {
  }

  /** The fold, one value further. */
  lemma FoldLast(xs: seq<real>)
    requires |xs| > 0
    ensures IsUpdate(RunningFold(xs[..|xs| - 1]).0, RunningFold(xs[..|xs| - 1]).1, (|xs| - 1) as real, xs[|xs| - 1],
                     RunningFold(xs).0, RunningFold(xs).1)
  {
    MomentsUpdate(RunningFold(xs[..|xs| - 1]).0, RunningFold(xs[..|xs| - 1]).1, |xs| - 1, xs[|xs| - 1]);
  }

  /** The update, its arguments abstracted. */
  lemma MomentsUpdate(pa: real, pv: real, count: nat, x: real)
    ensures IsUpdate(pa, pv, count as real, x, RunningMoments(pa, pv, count, x).0, RunningMoments(pa, pv, count, x).1)
  {
  }

  /** The invariant after the values of `xs`. */
  predicate FoldInvariantHolds(xs: seq<real>)
  {
    Invariant(|xs| as real, RunningFold(xs).0, RunningFold(xs).1, Sum(xs), SumSquares(xs))
  }

  lemma {:induction false} FoldInvariant(xs: seq<real>)
    requires |xs| >= 1
    ensures FoldInvariantHolds(xs)
  {
    if |xs| == 1 {
      FirstValue(xs);
    } else {
      FoldInvariant(xs[..|xs| - 1]);
      FoldStep(xs);
    }
  }

  lemma FoldStep(xs: seq<real>)
    requires |xs| >= 2
    requires FoldInvariantHolds(xs[..|xs| - 1])
    ensures FoldInvariantHolds(xs)
  {
    var prefix := xs[..|xs| - 1];
    SumsLast(xs);
    FoldLast(xs);
    WelfordStep(|prefix| as real, (|xs| - 1) as real, |xs| as real, RunningFold(prefix).0, RunningFold(prefix).1, xs[|xs| - 1],
                Sum(prefix), SumSquares(prefix), Sum(xs), SumSquares(xs), RunningFold(xs).0, RunningFold(xs).1);
  }

  lemma FirstValue(xs: seq<real>)
    requires |xs| == 1
    ensures FoldInvariantHolds(xs)
  {
    assert xs[..0] == [];
    assert RunningFold(xs) == (xs[0], 0.0);
  }

  /** The sum of squared deviations from `c`, expanded into the plain sums. */
  predicate Expanded(deviations: real, squares: real, total: real, n: real, c: real)
  {
    deviations == squares - 2.0 * c * total + n * c * c
  }

  lemma ExpandStep(deviations: real, deviations2: real, squares: real, squares2: real, total: real, total2: real,
                   n: real, count: real, m: real, x: real, c: real)
    requires Expanded(deviations, squares, total, n, c)
    requires DeviationsGrow(deviations, x, c, deviations2)
    requires SumsGrow(total, squares, x, total2, squares2) && Lengths(n, count, m)
    ensures Expanded(deviations2, squares2, total2, m, c)
  {
    ExpandAlgebra(deviations, deviations2, squares, squares2, total, total2, n, m, x, c);
  }

  lemma ExpandAlgebra(deviations: real, deviations2: real, squares: real, squares2: real, total: real, total2: real,
                      n: real, m: real, x: real, c: real)
    requires deviations == squares - 2.0 * c * total + n * c * c
    requires deviations2 == deviations + (x - c) * (x - c)
    requires squares2 == squares + x * x && total2 == total + x && m == n + 1.0
    ensures deviations2 == squares2 - 2.0 * c * total2 + m * c * c
  {
    assert (x - c) * (x - c) == x * x - 2.0 * c * x + c * c;
    assert m * c * c == n * c * c + c * c;
    assert 2.0 * c * total2 == 2.0 * c * total + 2.0 * c * x;
  }

  lemma {:induction false} SquaredDeviationsExpand(xs: seq<real>, c: real)
    ensures Expanded(SquaredDeviations(xs, c), SumSquares(xs), Sum(xs), |xs| as real, c)
  {
    if |xs| > 0 {
      SquaredDeviationsExpand(xs[..|xs| - 1], c);
      ExpandLast(xs, c);
    }
  }

  lemma ExpandLast(xs: seq<real>, c: real)
    requires |xs| > 0
    requires var prefix := xs[..|xs| - 1];
             Expanded(SquaredDeviations(prefix, c), SumSquares(prefix), Sum(prefix), |prefix| as real, c)
    ensures Expanded(SquaredDeviations(xs, c), SumSquares(xs), Sum(xs), |xs| as real, c)
  {
    var prefix := xs[..|xs| - 1];
    SumsLast(xs);
    DeviationsLast(xs, c);
    ExpandStep(SquaredDeviations(prefix, c), SquaredDeviations(xs, c), SumSquares(prefix), SumSquares(xs),
               Sum(prefix), Sum(xs), |prefix| as real, (|xs| - 1) as real, |xs| as real, xs[|xs| - 1], c);
  }

  /** The squared deviations, one value further. */
  predicate DeviationsGrow(deviations: real, x: real, c: real, deviations2: real)
  {
    deviations2 == deviations + (x - c) * (x - c)
  }

  lemma DeviationsLast(xs: seq<real>, c: real)
    requires |xs| > 0
    ensures DeviationsGrow(SquaredDeviations(xs[..|xs| - 1], c), xs[|xs| - 1], c, SquaredDeviations(xs, c))
  {
  }

  lemma MomentsFromSums(n: real, a: real, v: real, total: real, squares: real, deviations: real)
    requires n > 0.0
    requires Invariant(n, a, v, total, squares)
    requires Expanded(deviations, squares, total, n, a)
    ensures total / n == a && deviations / n == v
  {
    assert deviations == n * v;
  }

  /**
   * Welford's update is exact: folding `running_moments` over a non-empty
   * sequence gives its mean and its population variance.
   */
  lemma RunningMomentsAreMeanAndVariance(xs: seq<real>)
    requires |xs| >= 1
    ensures RunningFold(xs) == (Mean(xs), PopulationVariance(xs))
  {
    var r := RunningFold(xs);
    FoldInvariant(xs);
    SquaredDeviationsExpand(xs, r.0);
    MomentsFromSums(|xs| as real, r.0, r.1, Sum(xs), SumSquares(xs), SquaredDeviations(xs, r.0));
    assert Mean(xs) == r.0;
  }

  // ---------------------------------------------------------------------------
  // top_k_value_accuracy
  // ---------------------------------------------------------------------------

  /** Where Python's `a[start:]` begins on a sequence of length `n`. */
  function SliceStart(n: nat, start: int): (i: nat)
    ensures i <= n
    ensures 0 <= start <= n ==> i == start
    ensures -(n as int) <= start < 0 ==> i == n + start
  {
    if start < 0 then (if n + start < 0 then 0 else n + start)
    else if start > n then n
    else start
  }

  /** `order[-k:]`: the last k entries for 0 < k, all of them for k = 0, all but the first -k for k < 0. */
  function LastK(order: seq<int>, k: int): (r: seq<int>)
    ensures 0 < k <= |order| ==> r == order[|order| - k..]
    ensures k >= |order| ==> r == order
    ensures k > 0 ==> |r| <= k
  {
    order[SliceStart(|order|, -k)..]
  }

  lemma {:induction false} ElemsCard(xs: seq<int>)
    ensures |SubsetSums.Elems(xs)| <= |xs|
    ensures Distinct(xs) ==> |SubsetSums.Elems(xs)| == |xs|
  {
    if |xs| > 0 {
      var prefix := xs[..|xs| - 1];
      var x := xs[|xs| - 1];
      assert xs == prefix + [x];
      assert SubsetSums.Elems(xs) == SubsetSums.Elems(prefix) + {x};
      ElemsCard(prefix);
      if Distinct(xs) {
        assert Distinct(prefix);
        assert x !in SubsetSums.Elems(prefix) by {
          forall t | 0 <= t < |prefix| ensures prefix[t] != x {
            assert prefix[t] == xs[t];
          }
        }
      }
    }
  }

  /**
   * `top_k_value_accuracy`, given the two `np.argsort` orders: the share of
   * the indices of the k largest true values that are also among the k
   * largest estimated ones, `len(np.intersect1d(...)) / k`.
   */
  function TopKValueAccuracy(sortedTrue: seq<int>, sortedPred: seq<int>, k: int): (r: Result<real>)
    ensures r.Err? <==> k == 0
    ensures r.Err? ==> r.error == ZeroDivisionError
    ensures r.Ok? ==> IsShare(r.value, |SubsetSums.Elems(LastK(sortedTrue, k)) * SubsetSums.Elems(LastK(sortedPred, k))|, k)
    ensures k > 0 ==> 0.0 <= r.value <= 1.0
    ensures k < 0 ==> r.value <= 0.0
  {
    if k == 0 then Err(ZeroDivisionError)
    else
      var common := SubsetSums.Elems(LastK(sortedTrue, k)) * SubsetSums.Elems(LastK(sortedPred, k));
      ElemsCard(LastK(sortedTrue, k));
      assert common <= SubsetSums.Elems(LastK(sortedTrue, k));
      SubsetSums.SubsetCard(common, SubsetSums.Elems(LastK(sortedTrue, k)));
      Ok(Fraction(|common|, k))
  }

  /** `v` is the quotient `c / k`. */
  predicate IsShare(v: real, c: nat, k: int)
  {
    v * (k as real) == c as real
  }

  /** `c / k` as a float division. */
  function Fraction(c: nat, k: int): (r: real)
    requires k != 0
    ensures IsShare(r, c, k)
    ensures 0 < k && c <= k ==> 0.0 <= r <= 1.0
    ensures k < 0 ==> r <= 0.0
  {
    if k < 0 then
      assert (c as real) / (k as real) == -((c as real) / (-k as real));
      (c as real) / (k as real)
    else (c as real) / (k as real)
  }

  lemma UnitFraction(v: real, k: int)
    requires k > 0 && IsShare(v, k, k)
    ensures v == 1.0
  {
  }

  /** An estimate that orders the points exactly as the true values do has top-k accuracy 1. */
  lemma TopKSameOrder(order: seq<int>, k: int)
    requires Distinct(order) && 0 < k <= |order|
    ensures TopKValueAccuracy(order, order, k) == Ok(1.0)
  {
    var last := LastK(order, k);
    assert Distinct(last) by {
      forall a, b | 0 <= a < b < |last| ensures last[a] != last[b] {
        assert last[a] == order[|order| - k + a] && last[b] == order[|order| - k + b];
      }
    }
    ElemsCard(last);
    assert SubsetSums.Elems(last) * SubsetSums.Elems(last) == SubsetSums.Elems(last);
    var r := TopKValueAccuracy(order, order, k);
    UnitFraction(r.value, k);
  }
}
